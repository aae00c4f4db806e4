/** Comparing two fleets: snapshots are paired by hostname, each hostname of either side once, in order. */
module FleetDrift {
  import opened Wrappers
  import opened Text
  import opened Ordering
  import opened Changes
  import opened Drift

  datatype Status = Compared | Added | Removed

  datatype HostDiff = HostDiff(hostname: string, status: Status, changes: seq<Change>)

  /** The snapshot a hostname stands for: the last one of its side. */
  function LastSnapshot(reports: seq<Snapshot>, host: string): Option<Snapshot> {
    if reports == [] then None
    else
      var last := reports[|reports| - 1];
      if last.hostname == host then Some(last) else LastSnapshot(reports[..|reports| - 1], host)
  }

  ghost predicate IsEntry(d: HostDiff, before: seq<Snapshot>, after: seq<Snapshot>, l: Labels) {
    match (LastSnapshot(before, d.hostname), LastSnapshot(after, d.hostname))
    case (Some(b), Some(a)) => d.status == Compared && IsDiff(d.changes, b, a, l)
    case (Some(_), None) =>
      d.status == Removed && d.changes == [Change("host.removed", Some(d.hostname), None, Degraded)]
    case (None, Some(a)) =>
      d.status == Added
      && d.changes == [Change("host.added", None, Some(d.hostname + " (risk " + Decimal(a.riskScore) + ")"), Severity.Changed)]
    case (None, None) => false
  }

  function Names(diffs: seq<HostDiff>): seq<string> {
    seq(|diffs|, i requires 0 <= i < |diffs| => diffs[i].hostname)
  }

  /** Each hostname of either side exactly once, in strictly increasing order, with its own entry. */
  ghost predicate IsFleetDiff(diffs: seq<HostDiff>, before: seq<Snapshot>, after: seq<Snapshot>, l: Labels) {
    && Increasing(Names(diffs))
    && (forall host :: host in Names(diffs) <==> LastSnapshot(before, host).Some? || LastSnapshot(after, host).Some?)
    && (forall i :: 0 <= i < |diffs| ==> IsEntry(diffs[i], before, after, l))
  }

  method IndexByHost(reports: seq<Snapshot>) returns (m: map<string, Snapshot>)
    ensures forall host :: LastSnapshot(reports, host) == if host in m then Some(m[host]) else None
  {
    m := map[];
    for i := 0 to |reports|
      invariant forall host :: LastSnapshot(reports[..i], host) == if host in m then Some(m[host]) else None
    {
      assert reports[..i + 1][..i] == reports[..i];
      m := m[reports[i].hostname := reports[i]];
    }
    assert reports[..|reports|] == reports;
  }

  /** The last of the snapshots that carry the hostname, if any does. */
  lemma {:induction false} LastSnapshotExactly(reports: seq<Snapshot>, host: string)
    ensures LastSnapshot(reports, host).None? <==> forall i :: 0 <= i < |reports| ==> reports[i].hostname != host
    ensures LastSnapshot(reports, host).Some? ==>
      exists i :: 0 <= i < |reports| && reports[i] == LastSnapshot(reports, host).value && reports[i].hostname == host
                  && forall j :: i < j < |reports| ==> reports[j].hostname != host
    decreases |reports|
  {
    if reports != [] {
      var n := |reports| - 1;
      LastSnapshotExactly(reports[..n], host);
      assert forall i :: 0 <= i < n ==> reports[..n][i] == reports[i];
    }
  }

  ghost predicate InOrder(names: seq<string>) { forall i, j :: 0 <= i < j < |names| ==> LessEq(names[i], names[j]) }

  method SortNames(names: seq<string>) returns (r: seq<string>)
    ensures InOrder(r) && forall x :: x in r <==> x in names
  {
    r := [];
    for i := 0 to |names|
      invariant InOrder(r) && forall x :: x in r <==> x in names[..i]
    {
      assert names[..i + 1] == names[..i] + [names[i]];
      r := InsertName(r, names[i]);
    }
    assert names[..|names|] == names;
  }

  method InsertName(names: seq<string>, n: string) returns (r: seq<string>)
    requires InOrder(names)
    ensures InOrder(r) && forall x :: x in r <==> x in names || x == n
  {
    hide Less;
    var i := 0;
    while i < |names| && Less(names[i], n)
      invariant 0 <= i <= |names|
      invariant forall k :: 0 <= k < i ==> Less(names[k], n)
    {
      i := i + 1;
    }
    r := names[..i] + [n] + names[i..];
    assert names == names[..i] + names[i..];
    forall k | i <= k < |names| ensures LessEq(n, names[k]) {
      LessTotal(n, names[i]);
      if Less(n, names[i]) && Less(names[i], names[k]) {
        LessTransitive(n, names[i], names[k]);
      }
    }
  }

  /** Drops a name equal to the one before it. */
  method Dedup(names: seq<string>) returns (r: seq<string>)
    requires InOrder(names)
    ensures Increasing(r) && forall x :: x in r <==> x in names
  {
    r := [];
    for i := 0 to |names|
      invariant Increasing(r) && forall x :: x in r <==> x in names[..i]
      invariant if i == 0 then r == [] else r != [] && r[|r| - 1] == names[i - 1]
    {
      assert names[..i + 1] == names[..i] + [names[i]];
      if i == 0 || names[i] != names[i - 1] {
        if i > 0 {
          assert LessEq(names[i - 1], names[i]);
          forall k | 0 <= k < |r| ensures Less(r[k], names[i]) {
            if k < |r| - 1 {
              LessTransitive(r[k], r[|r| - 1], names[i]);
            }
          }
        }
        r := r + [names[i]];
      } else {
        assert names[i] in names[..i];
      }
    }
    assert names[..|names|] == names;
  }

  /** The keys of a hash map, in whatever order it iterates. */
  method Enumerate(keys: set<string>) returns (r: seq<string>)
    ensures forall x :: x in r <==> x in keys
  {
    r := [];
    var todo := keys;
    while todo != {}
      invariant todo <= keys && forall x :: x in r <==> x in keys - todo
      decreases todo
    {
      var k :| k in todo;
      r := r + [k];
      todo := todo - {k};
    }
  }

  method CompareHost(host: string, b: Option<Snapshot>, a: Option<Snapshot>, l: Labels) returns (d: HostDiff)
    requires b.Some? || a.Some?
    ensures d.hostname == host
    ensures match (b, a)
            case (Some(x), Some(y)) => d.status == Compared && IsDiff(d.changes, x, y, l)
            case (Some(_), None) => d.status == Removed && d.changes == [Change("host.removed", Some(host), None, Degraded)]
            case (None, Some(y)) =>
              d.status == Added
              && d.changes == [Change("host.added", None, Some(host + " (risk " + Decimal(y.riskScore) + ")"), Severity.Changed)]
            case _ => true
  {
    if b.Some? && a.Some? {
      var changes := CompareReports(b.value, a.value, l);
      d := HostDiff(host, Compared, changes);
    } else if b.Some? {
      d := HostDiff(host, Removed, [Change("host.removed", Some(host), None, Degraded)]);
    } else {
      var text := host + " (risk " + Decimal(a.value.riskScore) + ")";
      d := HostDiff(host, Added, [Change("host.added", None, Some(text), Severity.Changed)]);
    }
  }

  method CompareMulti(before: seq<Snapshot>, after: seq<Snapshot>, l: Labels) returns (diffs: seq<HostDiff>)
    ensures IsFleetDiff(diffs, before, after, l)
  {
    hide IsDiff, LastSnapshot, Decimal;
    var b := IndexByHost(before);
    var a := IndexByHost(after);
    var fromBefore := Enumerate(b.Keys);
    var fromAfter := Enumerate(a.Keys);
    var hosts := SortNames(fromBefore + fromAfter);
    hosts := Dedup(hosts);
    diffs := [];
    for i := 0 to |hosts|
      invariant Names(diffs) == hosts[..i]
      invariant forall k :: 0 <= k < |diffs| ==> IsEntry(diffs[k], before, after, l)
    {
      var host := hosts[i];
      assert host in hosts;
      var inBefore := if host in b then Some(b[host]) else None;
      var inAfter := if host in a then Some(a[host]) else None;
      var entry := CompareHost(host, inBefore, inAfter, l);
      NamesAppend(diffs, entry);
      assert hosts[..i + 1] == hosts[..i] + [host];
      diffs := diffs + [entry];
    }
    assert hosts[..|hosts|] == hosts;
  }

  lemma NamesAppend(diffs: seq<HostDiff>, d: HostDiff)
    ensures Names(diffs + [d]) == Names(diffs) + [d.hostname]
  {
  }

  /** There is exactly one comparison of two fleets, whatever order the hash maps iterate in. */
  lemma FleetDiffIsDetermined(x: seq<HostDiff>, y: seq<HostDiff>, before: seq<Snapshot>, after: seq<Snapshot>, l: Labels)
    requires IsFleetDiff(x, before, after, l) && IsFleetDiff(y, before, after, l)
    ensures x == y
  {
    IncreasingIsUnique(Names(x), Names(y));
    assert |x| == |Names(x)| == |Names(y)| == |y|;
    forall i | 0 <= i < |x| ensures x[i] == y[i] {
      assert Names(x)[i] == Names(y)[i];
      EntryIsDetermined(x[i], y[i], before, after, l);
    }
  }

  lemma EntryIsDetermined(d: HostDiff, e: HostDiff, before: seq<Snapshot>, after: seq<Snapshot>, l: Labels)
    requires IsEntry(d, before, after, l) && IsEntry(e, before, after, l) && d.hostname == e.hostname
    ensures d == e
  {
    match (LastSnapshot(before, d.hostname), LastSnapshot(after, d.hostname)) {
      case (Some(b), Some(a)) => DiffIsDetermined(d.changes, e.changes, b, a, l);
      case _ =>
    }
  }

  function Mirrored(s: Status): Status {
    match s case Compared => Compared case Added => Removed case Removed => Added
  }

  /** Swapping the fleets swaps additions and removals and keeps the hostnames. */
  lemma SwappedFleetDiff(x: seq<HostDiff>, y: seq<HostDiff>, before: seq<Snapshot>, after: seq<Snapshot>, l: Labels)
    requires IsFleetDiff(x, before, after, l) && IsFleetDiff(y, after, before, l)
    ensures Names(x) == Names(y) && |x| == |y|
    ensures forall i :: 0 <= i < |x| ==> y[i].status == Mirrored(x[i].status)
  {
    IncreasingIsUnique(Names(x), Names(y));
    assert |x| == |Names(x)| == |Names(y)| == |y|;
    forall i | 0 <= i < |x| ensures y[i].status == Mirrored(x[i].status) {
      assert Names(x)[i] == Names(y)[i];
      assert IsEntry(x[i], before, after, l) && IsEntry(y[i], after, before, l);
    }
  }
}
