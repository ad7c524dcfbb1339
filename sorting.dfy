/**
 * sort.Strings: the ascending order of Go strings. Go compares strings byte by byte in their
 * UTF-8 encoding, which orders them as their sequences of code points compare
 * lexicographically, so the order is stated on characters here.
 */
module Sorting {

  /** a sorts no later than b. */
  predicate Below(a: string, b: string)
    decreases |a|
  {
    a == [] || (b != [] && (a[0] < b[0] || (a[0] == b[0] && Below(a[1..], b[1..]))))
  }

  lemma {:induction false} BelowRefl(a: string)
    ensures Below(a, a)
    decreases |a|
  {
    if a != [] {
      BelowRefl(a[1..]);
    }
  }

  lemma {:induction false} BelowAntisym(a: string, b: string)
    requires Below(a, b) && Below(b, a)
    ensures a == b
    decreases |a|
  {
    if a != [] && b != [] {
      BelowAntisym(a[1..], b[1..]);
      assert a == [a[0]] + a[1..] && b == [b[0]] + b[1..];
    }
  }

  lemma {:induction false} BelowTrans(a: string, b: string, c: string)
    requires Below(a, b) && Below(b, c)
    ensures Below(a, c)
    decreases |a|
  {
    if a != [] && a[0] == b[0] && b[0] == c[0] {
      BelowTrans(a[1..], b[1..], c[1..]);
    }
  }

  lemma {:induction false} BelowTotal(a: string, b: string)
    ensures Below(a, b) || Below(b, a)
    decreases |a|
  {
    if a != [] && b != [] && a[0] == b[0] {
      BelowTotal(a[1..], b[1..]);
    }
  }

  predicate Sorted(s: seq<string>)
  {
    forall i, j | 0 <= i < j < |s| :: Below(s[i], s[j])
  }

  /** Inserts x into s before the first element it sorts no later than. */
  function Insert(s: seq<string>, x: string): (r: seq<string>)
    ensures |r| == |s| + 1
  {
    if s == [] then [x]
    else if Below(x, s[0]) then [x] + s
    else [s[0]] + Insert(s[1..], x)
  }

  lemma {:induction false} InsertElements(s: seq<string>, x: string)
    ensures multiset(Insert(s, x)) == multiset(s) + multiset{x}
  {
    if s != [] && !Below(x, s[0]) {
      InsertElements(s[1..], x);
      assert s == [s[0]] + s[1..];
    }
  }

  /** Every element of the tail sorts no earlier than the head of a sorted list. */
  lemma HeadBelowAll(s: seq<string>, y: string)
    requires Sorted(s) && s != [] && y in s[1..]
    ensures Below(s[0], y)
  {
    var m :| 0 <= m < |s[1..]| && s[1..][m] == y;
    assert s[m + 1] == y;
  }

  lemma {:induction false} InsertSpec(s: seq<string>, x: string)
    requires Sorted(s)
    ensures Sorted(Insert(s, x))
    ensures multiset(Insert(s, x)) == multiset(s) + multiset{x}
  {
    InsertElements(s, x);
    if s == [] {
    } else if Below(x, s[0]) {
      PrependSorted(s, x);
    } else {
      InsertSpec(s[1..], x);
      BelowTotal(x, s[0]);
      InsertElements(s[1..], x);
      var tail := Insert(s[1..], x);
      forall y | y in multiset(tail) ensures Below(s[0], y) {
        if y != x {
          HeadBelowAll(s, y);
        }
      }
      ConsSorted(s[0], tail);
    }
  }

  lemma PrependSorted(s: seq<string>, x: string)
    requires Sorted(s) && s != [] && Below(x, s[0])
    ensures Sorted([x] + s)
  {
    var r := [x] + s;
    forall i, j | 0 <= i < j < |r| ensures Below(r[i], r[j]) {
      if i == 0 && j > 1 {
        BelowTrans(x, s[0], s[j - 1]);
      }
    }
  }

  lemma ConsSorted(h: string, tail: seq<string>)
    requires Sorted(tail)
    requires forall y | y in multiset(tail) :: Below(h, y)
    ensures Sorted([h] + tail)
  {
    var r := [h] + tail;
    forall i, j | 0 <= i < j < |r| ensures Below(r[i], r[j]) {
      assert r[j] == tail[j - 1];
      assert r[j] in multiset(tail);
      if i > 0 {
        assert r[i] == tail[i - 1];
      }
    }
  }

  /** sort.Strings: the same strings in ascending order. */
  function SortStrings(s: seq<string>): (r: seq<string>)
    ensures |r| == |s|
  {
    if s == [] then [] else Insert(SortStrings(s[..|s| - 1]), s[|s| - 1])
  }

  /** The sorted list is in ascending order and holds the same strings, each as often. */
  lemma {:induction false} SortStringsSpec(s: seq<string>)
    ensures Sorted(SortStrings(s))
    ensures multiset(SortStrings(s)) == multiset(s)
  {
    if s != [] {
      SortStringsSpec(s[..|s| - 1]);
      InsertSpec(SortStrings(s[..|s| - 1]), s[|s| - 1]);
      assert s == s[..|s| - 1] + [s[|s| - 1]];
    }
  }

  /** No string occurs twice. */
  ghost predicate Distinct(s: seq<string>)
  {
    forall x | x in multiset(s) :: multiset(s)[x] <= 1
  }

  /** Sorting a list without repeats gives a list without repeats of the same strings. */
  lemma SortStringsDistinct(s: seq<string>)
    requires Distinct(s)
    ensures forall x :: x in SortStrings(s) <==> x in s
    ensures Distinct(SortStrings(s))
  {
    SortStringsSpec(s);
    var r := SortStrings(s);
    forall x ensures x in r <==> x in s {
      assert x in r <==> x in multiset(r);
      assert x in s <==> x in multiset(s);
    }
  }
}
