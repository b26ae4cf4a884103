/** The JavaScript string operations the server relies on, over `seq<char>`. */
module Strings {

  import opened Wrappers

  predicate IsPrefix(p: string, s: string)
  {
    |p| <= |s| && s[..|p|] == p
  }

  /** `s.includes(p)`: `p` occurs in `s` as a contiguous substring. */
  predicate Contains(s: string, p: string)
    decreases |s|
  {
    IsPrefix(p, s) || (|s| > 0 && Contains(s[1..], p))
  }

  /** The index at which `s.indexOf(p)` finds `p`, or `None` when `p` does not occur. */
  function IndexOf(s: string, p: string): (r: Option<nat>)
    ensures r.Some? ==> r.value + |p| <= |s| && s[r.value..r.value + |p|] == p
    ensures r.Some? ==> forall k :: 0 <= k < r.value ==> !IsPrefix(p, s[k..])
    ensures r.None? <==> !Contains(s, p)
    decreases |s|
  {
    if IsPrefix(p, s) then Some(0)
    else if |s| == 0 then None
    else match IndexOf(s[1..], p)
      case None => None
      case Some(k) =>
        FirstMatchShift(s, p, k);
        Some(k + 1)
  }

  /** A first match at `k` in the tail of `s` is a first match at `k + 1` in `s`, when `s` does not start with `p`. */
  lemma FirstMatchShift(s: string, p: string, k: nat)
    requires |s| > 0 && !IsPrefix(p, s)
    requires k + |p| <= |s[1..]| && s[1..][k..k + |p|] == p
    requires forall j :: 0 <= j < k ==> !IsPrefix(p, s[1..][j..])
    ensures k + 1 + |p| <= |s| && s[k + 1..k + 1 + |p|] == p
    ensures forall j :: 0 <= j < k + 1 ==> !IsPrefix(p, s[j..])
  {
    assert s[1..][k..k + |p|] == s[k + 1..k + 1 + |p|];
    forall j | 0 <= j < k + 1 ensures !IsPrefix(p, s[j..]) {
      if j == 0 {
        assert s[j..] == s;
      } else {
        assert s[j..] == s[1..][j - 1..];
      }
    }
  }

  /**
   * `s.replace(p, q)` with a string pattern: the first occurrence of `p`
   * (the empty pattern occurs at 0) is replaced by `q`; without an
   * occurrence `s` is returned unchanged.
   */
  function ReplaceFirst(s: string, p: string, q: string): (r: string)
    ensures !Contains(s, p) ==> r == s
    ensures Contains(s, p) ==> |r| == |s| - |p| + |q|
  {
    match IndexOf(s, p)
    case None => s
    case Some(i) => s[..i] + q + s[i + |p|..]
  }

  /** An occurrence at any index makes `includes` true. */
  lemma {:induction false} ContainsAt(s: string, p: string, i: nat)
    requires i <= |s| && IsPrefix(p, s[i..])
    ensures Contains(s, p)
    decreases i
  {
    if i > 0 {
      assert s[1..][i - 1..] == s[i..];
      ContainsAt(s[1..], p, i - 1);
    }
  }

  /**
   * The occurrence `replace` swaps is the first one: when `p` first occurs
   * at `i`, the result is `s` with exactly that occurrence replaced by `q`.
   */
  lemma ReplaceFirstAt(s: string, p: string, q: string, i: nat)
    requires i + |p| <= |s| && s[i..i + |p|] == p
    requires forall k :: 0 <= k < i ==> !IsPrefix(p, s[k..])
    ensures ReplaceFirst(s, p, q) == s[..i] + q + s[i + |p|..]
  {
    assert s[i..][..|p|] == s[i..i + |p|];
    assert IsPrefix(p, s[i..]);
    match IndexOf(s, p)
    case None =>
      ContainsAt(s, p, i);
      assert false;
    case Some(j) =>
      assert s[j..][..|p|] == s[j..j + |p|];
      assert j == i;
  }

  /** Replacing a pattern that opens the string swaps exactly that prefix. */
  lemma ReplaceFirstAtStart(s: string, p: string, q: string)
    requires IsPrefix(p, s)
    ensures ReplaceFirst(s, p, q) == q + s[|p|..]
  {
    ReplaceFirstAt(s, p, q, 0);
  }

  /** Replacing a pattern by itself never changes the string. */
  lemma ReplaceFirstSelf(s: string, p: string)
    ensures ReplaceFirst(s, p, p) == s
  {
    match IndexOf(s, p)
    case None =>
    case Some(i) =>
      calc {
        s[..i] + p + s[i + |p|..];
        s[..i] + s[i..i + |p|] + s[i + |p|..];
        s;
      }
  }

  /** `s.split('#')[0]`: everything before the first `#`. */
  function BeforeHash(s: string): (r: string)
    ensures IsPrefix(r, s)
    ensures '#' !in r
    ensures |r| < |s| ==> s[|r|] == '#'
  {
    if s == [] || s[0] == '#' then [] else [s[0]] + BeforeHash(s[1..])
  }

  lemma {:induction false} NoHashMeansWhole(s: string)
    requires !Contains(s, "#")
    ensures BeforeHash(s) == s
  {
    if s != [] {
      NoHashMeansWhole(s[1..]);
    }
  }

  /** ASCII case folding, the only folding the case-insensitive extension pattern performs on its letters. */
  function LowerAscii(c: char): char
  {
    if 'A' <= c <= 'Z' then (c as int + 32) as char else c
  }

  function LowerAsciiString(s: string): (r: string)
    ensures |r| == |s|
    ensures forall i :: 0 <= i < |s| ==> r[i] == LowerAscii(s[i])
  {
    if s == [] then [] else [LowerAscii(s[0])] + LowerAsciiString(s[1..])
  }

  /** `s` ends with `.` followed by `ext`, comparing letters without regard to ASCII case. */
  predicate EndsWithExtension(s: string, ext: string)
  {
    |s| > |ext| && s[|s| - |ext| - 1] == '.' && LowerAsciiString(s[|s| - |ext|..]) == ext
  }

  function DigitChar(d: nat): char
    requires d < 10
  {
    ('0' as int + d) as char
  }

  predicate IsDigit(c: char) { '0' <= c <= '9' }

  function DigitValue(c: char): nat
    requires IsDigit(c)
  {
    c as int - '0' as int
  }

  /** Decimal rendering of a natural number, as template literals print an array index. */
  function NatToString(n: nat): (r: string)
    ensures |r| >= 1
    ensures forall i :: 0 <= i < |r| ==> IsDigit(r[i])
  {
    if n < 10 then [DigitChar(n)] else NatToString(n / 10) + [DigitChar(n % 10)]
  }

  /** Reads a non-empty run of decimal digits back into a number. */
  function ParseDigits(s: string): nat
    requires |s| >= 1 && forall i :: 0 <= i < |s| ==> IsDigit(s[i])
  {
    if |s| == 1 then DigitValue(s[0])
    else 10 * ParseDigits(s[..|s| - 1]) + DigitValue(s[|s| - 1])
  }

  lemma {:induction false} ParseNatToString(n: nat)
    ensures ParseDigits(NatToString(n)) == n
  {
    if n >= 10 {
      var s := NatToString(n);
      assert s[..|s| - 1] == NatToString(n / 10);
      ParseNatToString(n / 10);
    }
  }

  lemma NatToStringInjective(m: nat, n: nat)
    requires NatToString(m) == NatToString(n)
    ensures m == n
  {
    ParseNatToString(m);
    ParseNatToString(n);
  }
}
