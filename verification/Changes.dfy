/** One drift entry, the order the report lists entries in, and why that order is canonical. */
module Changes {
  import opened Wrappers
  import opened Ordering

  datatype Severity = Improved | Degraded | Changed

  datatype Change = Change(field: string, before: Option<string>, after: Option<string>, severity: Severity)

  function SevRank(s: Severity): nat { match s case Degraded => 0 case Changed => 1 case Improved => 2 }

  predicate OptionLess(a: Option<string>, b: Option<string>) {
    match (a, b)
    case (_, None) => false
    case (None, Some(_)) => true
    case (Some(x), Some(y)) => Less(x, y)
  }

  /** Severity, then field, before and after. */
  predicate ChangeLess(a: Change, b: Change) {
    if SevRank(a.severity) != SevRank(b.severity) then SevRank(a.severity) < SevRank(b.severity)
    else if a.field != b.field then Less(a.field, b.field)
    else if a.before != b.before then OptionLess(a.before, b.before)
    else OptionLess(a.after, b.after)
  }

  predicate ChangeLe(a: Change, b: Change) { a == b || ChangeLess(a, b) }

  lemma OptionOrder(a: Option<string>, b: Option<string>, c: Option<string>)
    ensures !OptionLess(a, a)
    ensures a == b || OptionLess(a, b) || OptionLess(b, a)
    ensures OptionLess(a, b) && OptionLess(b, c) ==> OptionLess(a, c)
    ensures !(OptionLess(a, b) && OptionLess(b, a))
  {
    match (a, b) {
      case (Some(x), Some(y)) =>
        LessIrreflexive(x);
        LessTotal(x, y);
        if Less(x, y) {
          LessAsymmetric(x, y);
          if c.Some? && Less(y, c.value) {
            LessTransitive(x, y, c.value);
          }
        }
      case (Some(x), None) => LessIrreflexive(x);
      case _ =>
    }
  }

  lemma ChangeLessTransitive(a: Change, b: Change, c: Change)
    requires ChangeLess(a, b) && ChangeLess(b, c)
    ensures ChangeLess(a, c)
  {
    OptionOrder(a.before, b.before, c.before);
    OptionOrder(a.after, b.after, c.after);
    if a.field != b.field && b.field != c.field && Less(a.field, b.field) && Less(b.field, c.field) {
      LessTransitive(a.field, b.field, c.field);
      LessAsymmetric(a.field, b.field);
      LessIrreflexive(a.field);
    }
  }

  lemma ChangeLessTotal(a: Change, b: Change)
    ensures a == b || ChangeLess(a, b) || ChangeLess(b, a)
    ensures ChangeLess(a, b) ==> !ChangeLess(b, a) && a != b
  {
    OptionOrder(a.before, b.before, b.before);
    OptionOrder(a.after, b.after, b.after);
    LessTotal(a.field, b.field);
    if Less(a.field, b.field) {
      LessAsymmetric(a.field, b.field);
    }
  }

  ghost predicate SortedChanges(cs: seq<Change>) { forall i, j :: 0 <= i < j < |cs| ==> ChangeLe(cs[i], cs[j]) }

  /** The sort: any stable or unstable algorithm gives the same list, see SortIsCanonical. */
  method Sort(cs: seq<Change>) returns (r: seq<Change>)
    ensures SortedChanges(r) && multiset(r) == multiset(cs)
  {
    r := [];
    for i := 0 to |cs|
      invariant SortedChanges(r) && multiset(r) == multiset(cs[..i])
    {
      assert cs[..i + 1] == cs[..i] + [cs[i]];
      r := InsertChange(r, cs[i]);
    }
    assert cs[..|cs|] == cs;
  }

  method InsertChange(cs: seq<Change>, c: Change) returns (r: seq<Change>)
    requires SortedChanges(cs)
    ensures SortedChanges(r) && multiset(r) == multiset(cs) + multiset{c}
  {
    var i := 0;
    while i < |cs| && ChangeLess(cs[i], c)
      invariant 0 <= i <= |cs|
      invariant forall k :: 0 <= k < i ==> ChangeLess(cs[k], c)
    {
      i := i + 1;
    }
    r := cs[..i] + [c] + cs[i..];
    SplicedSorted(cs, c, i);
    assert cs == cs[..i] + cs[i..];
  }

  lemma SplicedSorted(cs: seq<Change>, c: Change, i: nat)
    requires SortedChanges(cs) && i <= |cs|
    requires forall k :: 0 <= k < i ==> ChangeLess(cs[k], c)
    requires i < |cs| ==> !ChangeLess(cs[i], c)
    ensures SortedChanges(cs[..i] + [c] + cs[i..])
  {
    hide ChangeLess;
    forall k | i <= k < |cs| ensures ChangeLe(c, cs[k]) {
      ChangeLessTotal(c, cs[i]);
      if ChangeLess(c, cs[i]) && k > i && cs[i] != cs[k] {
        ChangeLessTransitive(c, cs[i], cs[k]);
      }
    }
  }

  lemma TailMultiset(a: seq<Change>)
    requires a != []
    ensures multiset(a[1..]) == multiset(a) - multiset{a[0]}
  {
    assert a == [a[0]] + a[1..];
  }

  /** Two sorted lists of the same changes start with the same one. */
  lemma SameFirst(a: seq<Change>, b: seq<Change>)
    requires SortedChanges(a) && SortedChanges(b) && multiset(a) == multiset(b) && a != [] && b != []
    ensures a[0] == b[0]
  {
    hide ChangeLess;
    assert a[0] in multiset(b) && b[0] in multiset(a);
    var i :| 0 <= i < |b| && b[i] == a[0];
    var j :| 0 <= j < |a| && a[j] == b[0];
    assert i > 0 ==> ChangeLe(b[0], a[0]);
    assert j > 0 ==> ChangeLe(a[0], b[0]);
    ChangeLessTotal(a[0], b[0]);
    ChangeLessTotal(b[0], a[0]);
  }

  /** Two sorted lists of the same changes are the same list. */
  lemma {:induction false} SortIsCanonical(a: seq<Change>, b: seq<Change>)
    requires SortedChanges(a) && SortedChanges(b) && multiset(a) == multiset(b)
    ensures a == b
    decreases |a|
  {
    assert |multiset(a)| == |a| && |multiset(b)| == |b|;
    if a != [] {
      SameFirst(a, b);
      TailMultiset(a);
      TailMultiset(b);
      SortIsCanonical(a[1..], b[1..]);
      assert a == [a[0]] + a[1..] && b == [b[0]] + b[1..];
    }
  }
}
