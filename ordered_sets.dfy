/**
 * JavaScript `Set`s of strings as the server uses them: iteration follows
 * insertion order, and adding an element already present changes nothing.
 */
module OrderedSets {
  import opened Wrappers

  /** The set of elements of a sequence. */
  function SetOf(s: seq<string>): (r: set<string>)
    ensures forall x :: x in r <==> x in s
  {
    if s == [] then {} else {s[0]} + SetOf(s[1..])
  }

  /**
   * The elements of `s` not in `seen`, each kept at its first occurrence:
   * iterating a `Set` built from `s` when `seen` is empty.
   */
  function DedupFrom(s: seq<string>, seen: set<string>): (r: seq<string>)
    ensures NoDups(r)
    ensures forall x :: x in r <==> x in s && x !in seen
    ensures |r| <= |s|
  {
    if s == [] then []
    else if s[0] in seen then DedupFrom(s[1..], seen)
    else [s[0]] + DedupFrom(s[1..], seen + {s[0]})
  }

  /**
   * The insertion-order law of a `Set`: adding `x` after the elements of `s`
   * appends it at the end, unless it is already present.
   */
  lemma {:induction false} DedupAppend(s: seq<string>, x: string, seen: set<string>)
    ensures DedupFrom(s + [x], seen) == DedupFrom(s, seen) + (if x in seen || x in s then [] else [x])
    decreases |s|
  {
    if s == [] {
      assert [] + [x] == [x];
    } else {
      assert (s + [x])[0] == s[0];
      assert (s + [x])[1..] == s[1..] + [x];
      assert x in s <==> x == s[0] || x in s[1..];
      if s[0] in seen {
        DedupAppend(s[1..], x, seen);
      } else {
        DedupAppend(s[1..], x, seen + {s[0]});
      }
    }
  }

  /** The tail of a duplicate-free sequence is duplicate-free and lacks the head. */
  lemma NoDupsTail(a: seq<string>)
    requires NoDups(a) && a != []
    ensures NoDups(a[1..]) && a[0] !in a[1..]
  {
    var rest := a[1..];
    forall i, j | 0 <= i < j < |rest| ensures rest[i] != rest[j] {
      assert rest[i] == a[i + 1] && rest[j] == a[j + 1];
    }
  }

  /** A duplicate-free prefix passes through deduplication unchanged, ahead of the rest. */
  lemma {:induction false} DedupKeepsDistinctPrefix(a: seq<string>, b: seq<string>, seen: set<string>)
    requires NoDups(a)
    requires forall x :: x in a ==> x !in seen
    ensures DedupFrom(a + b, seen) == a + DedupFrom(b, seen + SetOf(a))
  {
    if a == [] {
      assert a + b == b;
      assert SetOf(a) == {};
      assert seen + SetOf(a) == seen;
    } else {
      var rest := a[1..];
      var seen' := seen + {a[0]};
      assert NoDups(rest) && a[0] !in rest by { NoDupsTail(a); }
      assert forall x :: x in rest ==> x !in seen' by {
        forall x | x in rest ensures x !in seen' {
          var k :| 0 <= k < |rest| && rest[k] == x;
          assert x == a[k + 1];
        }
      }
      DedupKeepsDistinctPrefix(rest, b, seen');
      DedupConsStep(a, b, seen);
    }
  }

  lemma SetOfCons(a: seq<string>)
    requires a != []
    ensures SetOf(a) == {a[0]} + SetOf(a[1..])
  {
  }

  lemma UnionAssoc(x: set<string>, y: set<string>, z: set<string>)
    ensures x + y + z == x + (y + z)
  {
  }

  /** A head not yet seen is kept and joins the seen set. */
  lemma DedupFromCons(h: string, t: seq<string>, seen: set<string>)
    requires h !in seen
    ensures DedupFrom([h] + t, seen) == [h] + DedupFrom(t, seen + {h})
  {
    assert ([h] + t)[0] == h && ([h] + t)[1..] == t;
  }

  /** Seeing a head and then the rest of `a` is seeing all of `a`. */
  lemma SeenHeadThenTail(a: seq<string>, seen: set<string>)
    requires a != []
    ensures seen + {a[0]} + SetOf(a[1..]) == seen + SetOf(a)
  {
    SetOfCons(a);
    UnionAssoc(seen, {a[0]}, SetOf(a[1..]));
  }

  /** A non-empty sequence is its head followed by its tail, whatever follows it. */
  lemma HeadSplit(a: seq<string>, b: seq<string>)
    requires a != []
    ensures a + b == [a[0]] + (a[1..] + b)
  {
    assert a == [a[0]] + a[1..];
  }

  /** The inductive step of `DedupKeepsDistinctPrefix`: a new head is kept and joins the seen set. */
  lemma DedupConsStep(a: seq<string>, b: seq<string>, seen: set<string>)
    requires a != [] && a[0] !in seen
    requires DedupFrom(a[1..] + b, seen + {a[0]}) == a[1..] + DedupFrom(b, seen + {a[0]} + SetOf(a[1..]))
    ensures DedupFrom(a + b, seen) == a + DedupFrom(b, seen + SetOf(a))
  {
    var d := DedupFrom(b, seen + SetOf(a));
    HeadSplit(a, b);
    HeadSplit(a, d);
    DedupFromCons(a[0], a[1..] + b, seen);
    SeenHeadThenTail(a, seen);
  }
}
