/**
 * `compareImages` (index.js:147-205): two decoded screenshots are cropped
 * to their common top-left rectangle and handed to the pixel comparator.
 * PNG decoding and `pixelmatch` are not modelled; they are functions of an
 * `ImageIo` value.
 */
module ImageDiff {
  import opened Wrappers

  newtype byte = x: int | 0 <= x < 256

  /** A decoded PNG: RGBA bytes, row by row, four per pixel. */
  datatype Png = Png(width: nat, height: nat, data: seq<byte>)

  /** What the PNG decoder guarantees of the images it returns. */
  ghost predicate WellFormed(img: Png)
  {
    |img.data| == img.width * img.height * 4
  }

  /**
   * `data[i]` of a Node buffer: an index outside the buffer reads
   * `undefined`, which a buffer store turns into 0.
   */
  function ByteAt(data: seq<byte>, i: int): byte
  {
    if 0 <= i < |data| then data[i] else 0
  }

  /** The byte a crop of `img` to width `w` holds at output index `i`. */
  function CroppedByte(img: Png, w: nat, i: nat): byte
  {
    if w == 0 then 0
    else
      var p := i / 4;
      ByteAt(img.data, (img.width * (p / w) + p % w) * 4 + i % 4)
  }

  /** The top-left `w` by `h` rectangle of `img`, as an RGBA buffer of width `w`. */
  function Crop(img: Png, w: nat, h: nat): (r: seq<byte>)
    ensures |r| == w * h * 4
  {
    seq(w * h * 4, i requires 0 <= i < w * h * 4 => CroppedByte(img, w, i))
  }

  lemma DivModUnique(a: int, d: int, q: int, r: int)
    requires d > 0 && 0 <= r < d && a == q * d + r
    ensures a / d == q && a % d == r
  {
    var k := q - a / d;
    assert k * d == a % d - r;
    MulBetween(k, d);
  }

  lemma {:induction false} MulAtLeast(k: int, d: int)
    requires k >= 1 && d > 0
    ensures k * d >= d
  {
    if k > 1 {
      MulAtLeast(k - 1, d);
      assert k * d == (k - 1) * d + d;
    }
  }

  lemma MulBetween(k: int, d: int)
    requires d > 0 && -d < k * d < d
    ensures k == 0
  {
    if k > 0 {
      MulAtLeast(k, d);
    } else if k < 0 {
      MulAtLeast(-k, d);
    }
  }

  /** Output index `(w*y+x)*4+c` names channel `c` of pixel `x` in row `y`. */
  lemma PixelIndex(w: nat, x: nat, y: nat, c: nat)
    requires x < w && c < 4
    ensures ((w * y + x) * 4 + c) / 4 == w * y + x
    ensures ((w * y + x) * 4 + c) % 4 == c
    ensures (w * y + x) / w == y && (w * y + x) % w == x
  {
    DivModUnique((w * y + x) * 4 + c, 4, w * y + x, c);
    DivModUnique(w * y + x, w, y, x);
  }

  /** The byte the crop holds for channel `c` of pixel (`x`, `y`). */
  lemma CroppedPixel(img: Png, w: nat, x: nat, y: nat, c: nat)
    requires x < w && c < 4
    ensures CroppedByte(img, w, (w * y + x) * 4 + c) == ByteAt(img.data, (img.width * y + x) * 4 + c)
  {
    PixelIndex(w, x, y, c);
  }

  /** `CroppedPixel` with the two offsets computed by the caller. */
  lemma CroppedPixelAt(img: Png, w: nat, x: nat, y: nat, c: nat, outIndex: nat, srcIndex: int)
    requires x < w && c < 4
    requires outIndex == (w * y + x) * 4 + c && srcIndex == (img.width * y + x) * 4 + c
    ensures CroppedByte(img, w, outIndex) == ByteAt(img.data, srcIndex)
  {
    CroppedPixel(img, w, x, y, c);
  }

  /** Pixels of a `w`-wide image in rows below `h` lie below `w*h`. */
  lemma PixelInRange(w: nat, h: nat, x: nat, y: nat)
    requires x < w && y < h
    ensures w * y + x < w * h
  {
    assert w * y + w == w * (y + 1);
    assert w * (y + 1) <= w * h;
  }

  /**
   * Channel `c` of pixel (`x`, `y`) of the crop is channel `c` of pixel
   * (`x`, `y`) of the source image; for a well-formed image inside the
   * rectangle that byte is really there.
   */
  lemma CropPixel(img: Png, w: nat, h: nat, x: nat, y: nat, c: nat)
    requires x < w && y < h && c < 4
    ensures (w * y + x) * 4 + c < |Crop(img, w, h)|
    ensures Crop(img, w, h)[(w * y + x) * 4 + c] == ByteAt(img.data, (img.width * y + x) * 4 + c)
    ensures WellFormed(img) && w <= img.width && h <= img.height ==>
      (img.width * y + x) * 4 + c < |img.data|
  {
    PixelIndex(w, x, y, c);
    PixelInRange(w, h, x, y);
    if w <= img.width && h <= img.height {
      PixelInRange(img.width, img.height, x, y);
    }
  }

  /** A pixel index below `w*h` lies in a row below `h`. */
  lemma RowBelow(p: nat, w: nat, h: nat)
    requires w > 0 && p < w * h
    ensures p / w < h
  {
    var y := p / w;
    if y >= h {
      MulAtLeast(y - h + 1, w);
    }
  }

  /** Cropping a well-formed image to its own size gives back its bytes. */
  lemma CropWhole(img: Png)
    requires WellFormed(img)
    ensures Crop(img, img.width, img.height) == img.data
  {
    var r := Crop(img, img.width, img.height);
    forall i | 0 <= i < |r| ensures r[i] == img.data[i] {
      CropWholeAt(img, i);
    }
  }

  lemma CropWholeAt(img: Png, i: nat)
    requires WellFormed(img) && i < |img.data|
    ensures CroppedByte(img, img.width, i) == img.data[i]
  {
    var w := img.width;
    var p := i / 4;
    var c := i % 4;
    var y := p / w;
    var x := p % w;
    assert p == w * y + x;
    CroppedPixel(img, w, x, y, c);
  }

  /**
   * JavaScript's `n << 2`: the operand is taken as a signed 32-bit integer
   * and so is the result.
   */
  function ToInt32(n: int): int
  {
    var m := n % 0x1_0000_0000;
    if m >= 0x8000_0000 then m - 0x1_0000_0000 else m
  }

  function ShiftLeft2(n: int): int
  {
    ToInt32(ToInt32(n) * 4)
  }

  /** The buffer offsets `(w*y+x) << 2` equal `(w*y+x)*4` for every pixel index below 2^29. */
  lemma ShiftLeft2IsTimesFour(n: int)
    requires 0 <= n < 0x2000_0000
    ensures ShiftLeft2(n) == n * 4
  {
  }

  /** The first `n` bytes of `out` agree with `target`. */
  ghost predicate FilledUpTo(out: array<byte>, target: seq<byte>, n: int)
    reads out
  {
    forall i :: 0 <= i < n && i < out.Length && i < |target| ==> out[i] == target[i]
  }

  lemma NextPixelOffset(w: nat, x: nat, y: nat)
    ensures (w * y + x + 1) * 4 == (w * y + x) * 4 + 4
    ensures (w * (y + 1) + 0) * 4 == (w * y + w) * 4
  {
  }

  /**
   * One half of the body of the inner loop (index.js:165-181): the four
   * channels of pixel (`x`, `y`) of `img` are copied from offset
   * `(img.width*y+x)*4` to offset `(minWidth*y+x)*4` of `out`. The guard of
   * index.js:169 (and of index.js:176 for the second image) always holds.
   */
  method CopyPixel(img: Png, minWidth: nat, minHeight: nat, x: nat, y: nat,
                   out: array<byte>, ghost crop: seq<byte>, ghost done: int)
    requires minWidth <= img.width && minHeight <= img.height
    requires x < minWidth && y < minHeight
    requires out.Length == minWidth * minHeight * 4
    requires crop == Crop(img, minWidth, minHeight)
    requires done == (minWidth * y + x) * 4
    requires FilledUpTo(out, crop, done)
    modifies out
    ensures FilledUpTo(out, crop, done + 4)
    // only the four bytes of this pixel are written
    ensures forall i :: done + 4 <= i < out.Length ==> out[i] == old(out[i])
  {
    var idx := (img.width * y + x) * 4;
    var idxOut := (minWidth * y + x) * 4;
    PixelInRange(minWidth, minHeight, x, y);
    assert x < img.width && y < img.height;
    out[idxOut] := ByteAt(img.data, idx);
    out[idxOut + 1] := ByteAt(img.data, idx + 1);
    out[idxOut + 2] := ByteAt(img.data, idx + 2);
    out[idxOut + 3] := ByteAt(img.data, idx + 3);

    CroppedPixelAt(img, minWidth, x, y, 0, idxOut, idx);
    CroppedPixelAt(img, minWidth, x, y, 1, idxOut + 1, idx + 1);
    CroppedPixelAt(img, minWidth, x, y, 2, idxOut + 2, idx + 2);
    CroppedPixelAt(img, minWidth, x, y, 3, idxOut + 3, idx + 3);
    forall i | 0 <= i < done + 4 && i < out.Length && i < |crop| ensures out[i] == crop[i] {
      if i < done {
        assert out[i] == old(out[i]);
      } else {
        assert crop[i] == CroppedByte(img, minWidth, i);
      }
    }
  }

  /**
   * The nested loops of index.js:163-183: fresh buffers of the common size
   * receive, pixel by pixel, the top-left rectangle of each image.
   */
  method CropToCommon(img1: Png, img2: Png)
    returns (minWidth: nat, minHeight: nat, out1: array<byte>, out2: array<byte>)
    ensures minWidth == Min(img1.width, img2.width) && minHeight == Min(img1.height, img2.height)
    ensures out1.Length == out2.Length == minWidth * minHeight * 4
    ensures out1[..] == Crop(img1, minWidth, minHeight)
    ensures out2[..] == Crop(img2, minWidth, minHeight)
    ensures img1 == img2 ==> out1[..] == out2[..]
    ensures fresh(out1) && fresh(out2) && out1 != out2
  {
    minWidth := Min(img1.width, img2.width);
    minHeight := Min(img1.height, img2.height);
    var size := minWidth * minHeight * 4;
    out1 := new byte[size];
    out2 := new byte[size];

    ghost var crop1 := Crop(img1, minWidth, minHeight);
    ghost var crop2 := Crop(img2, minWidth, minHeight);
    var y := 0;
    ghost var done := 0;
    while y < minHeight
      invariant 0 <= y <= minHeight
      invariant out1.Length == out2.Length == size
      invariant done == (minWidth * y + 0) * 4
      invariant FilledUpTo(out1, crop1, done)
      invariant FilledUpTo(out2, crop2, done)
    {
      var x := 0;
      while x < minWidth
        invariant 0 <= x <= minWidth
        invariant done == (minWidth * y + x) * 4
        invariant FilledUpTo(out1, crop1, done)
        invariant FilledUpTo(out2, crop2, done)
      {
        CopyPixel(img1, minWidth, minHeight, x, y, out1, crop1, done);
        CopyPixel(img2, minWidth, minHeight, x, y, out2, crop2, done);
        NextPixelOffset(minWidth, x, y);
        done := done + 4;
        x := x + 1;
      }
      NextPixelOffset(minWidth, minWidth, y);
      y := y + 1;
    }
    assert (minWidth * minHeight + 0) * 4 == size;
  }

  /** What `compareImages` returns besides the diff image: the count and the compared size. */
  datatype Comparison = Comparison(numDiffPixels: nat, width: nat, height: nat)

  /**
   * The foreign collaborators of `compareImages`: `readPng` stands for
   * `PNG.sync.read(fs.readFileSync(path))`, an `Err` where either throws;
   * `pixelmatch` gives the comparator's count of differing pixels for two
   * RGBA buffers of the given width and height.
   */
  datatype ImageIo = ImageIo(
    readPng: string -> Result<Png>,
    pixelmatch: (seq<byte>, seq<byte>, nat, nat) -> nat)

  /** The value `compareImages(path1, path2)` returns, or the message it throws. */
  function CompareSpec(io: ImageIo, path1: string, path2: string): Result<Comparison>
  {
    match io.readPng(path1)
    case Err(m) => Err(m)
    case Ok(img1) =>
      match io.readPng(path2)
      case Err(m) => Err(m)
      case Ok(img2) =>
        var w := Min(img1.width, img2.width);
        var h := Min(img1.height, img2.height);
        Ok(Comparison(io.pixelmatch(Crop(img1, w, h), Crop(img2, w, h), w, h), w, h))
  }

  /** `compareImages` (index.js:147-205). */
  method CompareImages(io: ImageIo, path1: string, path2: string) returns (r: Result<Comparison>)
    ensures r == CompareSpec(io, path1, path2)
  {
    var read1 := io.readPng(path1);
    if read1.Err? {
      return Err(read1.message);
    }
    var read2 := io.readPng(path2);
    if read2.Err? {
      return Err(read2.message);
    }
    var minWidth, minHeight, cropped1, cropped2 := CropToCommon(read1.value, read2.value);
    var numDiffPixels := io.pixelmatch(cropped1[..], cropped2[..], minWidth, minHeight);
    r := Ok(Comparison(numDiffPixels, minWidth, minHeight));
  }

  /**
   * Only a failing read or decode makes `compareImages` throw: images of
   * different sizes are compared over their common rectangle, whose size is
   * the smaller width by the smaller height.
   */
  lemma CompareFailsOnlyOnRead(io: ImageIo, path1: string, path2: string)
    ensures CompareSpec(io, path1, path2).Err? <==> io.readPng(path1).Err? || io.readPng(path2).Err?
    ensures CompareSpec(io, path1, path2).Ok? ==>
      && CompareSpec(io, path1, path2).value.width
         == Min(io.readPng(path1).value.width, io.readPng(path2).value.width)
      && CompareSpec(io, path1, path2).value.height
         == Min(io.readPng(path1).value.height, io.readPng(path2).value.height)
  {
  }

  /**
   * Comparing a well-formed screenshot with itself hands the comparator the
   * image's own bytes twice, at the image's own size.
   */
  lemma SelfComparison(io: ImageIo, path: string)
    requires io.readPng(path).Ok? && WellFormed(io.readPng(path).value)
    ensures CompareSpec(io, path, path) ==
      var img := io.readPng(path).value;
      Ok(Comparison(io.pixelmatch(img.data, img.data, img.width, img.height), img.width, img.height))
  {
    CropWhole(io.readPng(path).value);
  }
}
