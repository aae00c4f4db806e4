/** Lists without duplicates. */
module Lists {
  ghost predicate Distinct<T>(s: seq<T>) { forall i, j :: 0 <= i < j < |s| ==> s[i] != s[j] }

  function Elements<T(==)>(s: seq<T>): set<T> { set x | x in s }

  lemma {:induction false} DistinctSize<T(!new)>(s: seq<T>)
    requires Distinct(s)
    ensures |Elements(s)| == |s|
    decreases |s|
  {
    if s != [] {
      var n := |s| - 1;
      DistinctSize(s[..n]);
      assert s == s[..n] + [s[n]];
      assert Elements(s) == Elements(s[..n]) + {s[n]};
      assert s[n] !in Elements(s[..n]);
    }
  }

  /** Places in a list, in order. */
  ghost predicate Ascending(at: seq<nat>) { forall i, j :: 0 <= i < j < |at| ==> at[i] < at[j] }

  /** The same places with one more element in front of the list. */
  function Shift(at: seq<nat>): seq<nat> { seq(|at|, k requires 0 <= k < |at| => at[k] + 1) }

  lemma ShiftedIn(at: seq<nat>, i: nat)
    ensures i in at ==> i + 1 in Shift(at) && i + 1 in [0] + Shift(at)
  {
    if i in at {
      var k :| 0 <= k < |at| && at[k] == i;
      assert Shift(at)[k] == i + 1 && ([0] + Shift(at))[k + 1] == i + 1;
    }
  }

  lemma ShiftAscends(at: seq<nat>)
    requires Ascending(at)
    ensures Ascending(Shift(at)) && Ascending([0] + Shift(at))
  {
  }

  /** Keeps the first occurrence of each element. */
  function FirstOccurrences<T(==)>(s: seq<T>): seq<T> {
    if s == [] then []
    else
      var n := |s| - 1;
      FirstOccurrences(s[..n]) + if s[n] in s[..n] then [] else [s[n]]
  }

  /** No element twice, none lost, in the order of first appearance. */
  lemma {:induction false} FirstOccurrencesFacts<T(!new)>(s: seq<T>)
    ensures Distinct(FirstOccurrences(s))
    ensures forall x :: x in FirstOccurrences(s) <==> x in s
    ensures forall i, j :: 0 <= i < j < |FirstOccurrences(s)| ==>
      FirstAt(s, FirstOccurrences(s)[i]) < FirstAt(s, FirstOccurrences(s)[j])
    decreases |s|
  {
    if s != [] {
      var n := |s| - 1;
      FirstOccurrencesFacts(s[..n]);
      assert s == s[..n] + [s[n]];
      forall x ensures FirstAt(s, x) == if x in s[..n] then FirstAt(s[..n], x) else if x == s[n] then n else n + 1 {
        FirstAtPrefix(s, x);
      }
      FirstAtBounds(s[..n]);
    }
  }

  /** The index of the first occurrence, the length when there is none. */
  function FirstAt<T(==)>(s: seq<T>, x: T): nat {
    if s == [] || s[0] == x then 0 else 1 + FirstAt(s[1..], x)
  }

  lemma {:induction false} FirstAtPrefix<T>(s: seq<T>, x: T)
    requires s != []
    ensures var n := |s| - 1;
            FirstAt(s, x) == if x in s[..n] then FirstAt(s[..n], x) else if x == s[n] then n else n + 1
    decreases |s|
  {
    var n := |s| - 1;
    if n > 0 && s[0] != x {
      FirstAtPrefix(s[1..], x);
      assert s[1..][..n - 1] == s[..n][1..] && s[..n] == [s[0]] + s[..n][1..];
    }
  }

  lemma FirstAtBounds<T(!new)>(s: seq<T>)
    ensures forall x :: x in s ==> FirstAt(s, x) < |s|
  {
    forall x | x in s ensures FirstAt(s, x) < |s| {
      FirstAtBound(s, x);
    }
  }

  lemma {:induction false} FirstAtBound<T>(s: seq<T>, x: T)
    requires x in s
    ensures FirstAt(s, x) < |s|
    decreases |s|
  {
    if s[0] != x {
      assert s == [s[0]] + s[1..];
      FirstAtBound(s[1..], x);
    }
  }

  /** Some of the elements, in order. */
  ghost predicate SubSequence<T>(a: seq<T>, b: seq<T>)
    decreases |b|
  {
    || a == []
    || (b != [] && SubSequence(a, b[..|b| - 1]))
    || (b != [] && a != [] && a[|a| - 1] == b[|b| - 1] && SubSequence(a[..|a| - 1], b[..|b| - 1]))
  }

  lemma {:induction false} SubSequenceFacts<T(!new)>(a: seq<T>, b: seq<T>)
    requires SubSequence(a, b)
    ensures forall x :: x in a ==> x in b
    ensures Distinct(b) ==> Distinct(a)
    decreases |b|
  {
    if a != [] {
      var m, n := |a| - 1, |b| - 1;
      assert b == b[..n] + [b[n]];
      if SubSequence(a, b[..n]) {
        SubSequenceFacts(a, b[..n]);
      } else {
        SubSequenceFacts(a[..m], b[..n]);
        assert a == a[..m] + [a[m]];
        assert Distinct(b) ==> b[n] !in b[..n];
      }
    }
  }
}
