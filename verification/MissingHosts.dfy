/**
 Two ways to tell that a host is missing: the count that degrades the exit code, requested hosts less
 reports seen, and the list shown to the operator, requested hosts not credited. When they agree, and
 when a clean exit means that every requested host answered.
 */
module MissingHosts {
  import opened Wrappers
  import opened Lists
  import opened Reports
  import Scoring
  import opened Acceptance
  import opened Outcome

  function MissingOf(hosts: seq<string>, ok: set<string>): seq<string> {
    if hosts == [] then []
    else (if hosts[0] in ok then [] else [hosts[0]]) + MissingOf(hosts[1..], ok)
  }

  lemma {:induction false} MissingCount(hosts: seq<string>, ok: set<string>)
    requires Distinct(hosts) && ok <= Elements(hosts)
    ensures |MissingOf(hosts, ok)| + |ok| == |hosts|
    decreases |hosts|
  {
    if hosts == [] {
      assert ok == {};
    } else {
      var h, rest := hosts[0], hosts[1..];
      assert hosts == [h] + rest;
      assert h !in Elements(rest);
      MissingCount(rest, ok - {h});
      MissingIgnoresOthers(rest, ok, {h});
    }
  }

  /** Credit for hosts that were not requested changes nothing. */
  lemma {:induction false} MissingIgnoresOthers(hosts: seq<string>, ok: set<string>, others: set<string>)
    requires others !! Elements(hosts)
    ensures MissingOf(hosts, ok - others) == MissingOf(hosts, ok)
    decreases |hosts|
  {
    if hosts != [] {
      assert hosts[0] in Elements(hosts);
      assert forall x :: x in Elements(hosts[1..]) ==> x in Elements(hosts);
      MissingIgnoresOthers(hosts[1..], ok, others);
    }
  }

  /**
   Who answered a fleet run over `hosts`. `records` were read from the log, for the addresses `resumed`,
   requested now or not. `aliases` are the requested names of the local machine, one of which, `first`,
   is scanned for all of them; `remote` are the hosts whose scan came back.
   */
  datatype Answers = Answers(
    records: nat, resumed: set<string>, aliases: set<string>, first: string, localScanned: bool, remote: set<string>)

  ghost predicate Plausible(hosts: seq<string>, a: Answers) {
    && Distinct(hosts) && a.aliases <= Elements(hosts) && a.remote <= Elements(hosts)
    && a.remote !! a.resumed && a.remote !! a.aliases
    && |a.resumed| <= a.records
    && (a.aliases != {} ==> a.first in a.aliases)
    && (a.localScanned ==> a.aliases != {} && a.first !in a.resumed)
  }

  /** The local machine is credited when its scan is in the log or was done now. */
  predicate LocalCredited(a: Answers) { a.localScanned || (a.aliases != {} && a.first in a.resumed) }

  function Credited(a: Answers): set<string> {
    a.resumed + (if LocalCredited(a) then a.aliases else {}) + a.remote
  }

  function LocalScans(a: Answers): nat { if a.localScanned then 1 else 0 }

  function ReportsSeen(a: Answers): nat { a.records + LocalScans(a) + |a.remote| }

  function Counted(hosts: seq<string>, a: Answers): nat {
    Finished(NOTHING.(seen := ReportsSeen(a)), |hosts|, 0, false).coverage.hostsMissing
  }

  function Listed(hosts: seq<string>, a: Answers): seq<string> { MissingOf(hosts, Credited(a)) }

  lemma {:induction false} MissingOfExactly(hosts: seq<string>, ok: set<string>, h: string)
    ensures h in MissingOf(hosts, ok) <==> h in hosts && h !in ok
    decreases |hosts|
  {
    if hosts != [] {
      MissingOfExactly(hosts[1..], ok, h);
      assert hosts == [hosts[0]] + hosts[1..];
    }
  }

  /**
   Listed is every requested host that is not in the log, did not come back, and is no name of a local
   machine that was scanned or whose scan is in the log.
   */
  lemma ListedExactly(hosts: seq<string>, a: Answers, h: string)
    ensures h in Listed(hosts, a) <==>
      && h in hosts && h !in a.resumed && h !in a.remote
      && !(h in a.aliases && (a.localScanned || a.first in a.resumed))
  {
    MissingOfExactly(hosts, Credited(a), h);
  }

  /** Requested hosts the log credits. */
  function Known(hosts: seq<string>, a: Answers): set<string> { a.resumed * Elements(hosts) }

  lemma KnownFits(hosts: seq<string>, a: Answers)
    requires Plausible(hosts, a)
    ensures |Known(hosts, a)| <= |a.resumed| <= a.records
  {
    SubsetSize(Known(hosts, a), a.resumed);
  }

  lemma SubsetSize(a: set<string>, b: set<string>)
    requires a <= b
    ensures |a| <= |b| && (|a| == |b| ==> a == b)
  {
    assert b == a + (b - a);
  }

  /** Reports that answer for no requested host: records of other hosts, repeated ones, and the local scan. */
  function Surplus(hosts: seq<string>, a: Answers): int { a.records - |Known(hosts, a)| + LocalScans(a) }

  /** Local names credited without a record of their own. */
  function FreeNames(a: Answers): nat { if LocalCredited(a) then |a.aliases - a.resumed| else 0 }

  lemma ThreeParts(a: set<string>, b: set<string>, c: set<string>)
    requires a !! b && a !! c && b !! c
    ensures |a + b + c| == |a| + |b| + |c|
  {
    assert |a + b| == |a| + |b|;
    assert (a + b) !! c;
  }

  lemma ListedLength(hosts: seq<string>, a: Answers)
    requires Plausible(hosts, a)
    ensures |Listed(hosts, a)| + |Known(hosts, a)| + FreeNames(a) + |a.remote| == |hosts|
  {
    hide MissingOf, Distinct;
    var local := if LocalCredited(a) then a.aliases - a.resumed else {};
    var ok := Known(hosts, a) + local + a.remote;
    var others := Credited(a) - Elements(hosts);
    CreditSplits(hosts, a, local);
    ThreeParts(Known(hosts, a), local, a.remote);
    MissingIgnoresOthers(hosts, Credited(a), others);
    MissingCount(hosts, ok);
  }

  lemma CreditSplits(hosts: seq<string>, a: Answers, local: set<string>)
    requires Plausible(hosts, a) && local == if LocalCredited(a) then a.aliases - a.resumed else {}
    ensures var ok := Known(hosts, a) + local + a.remote;
            ok <= Elements(hosts) && Credited(a) - (Credited(a) - Elements(hosts)) == ok
    ensures Known(hosts, a) !! local && Known(hosts, a) !! a.remote && local !! a.remote
  {
    hide Distinct, Elements;
  }

  /**
   Count and list agree exactly if the reports that answer for no requested host are as many as the
   local names that need no report. When more reports came than hosts were requested the count
   stops at zero, and they agree exactly if every requested host is credited.
   */
  lemma MissingCountAgreesExactly(hosts: seq<string>, a: Answers)
    requires Plausible(hosts, a)
    ensures Counted(hosts, a) == |Listed(hosts, a)|
       <==> if ReportsSeen(a) <= |hosts| then Surplus(hosts, a) == FreeNames(a) else Elements(hosts) <= Credited(a)
  {
    ListedLength(hosts, a);
    NothingListed(hosts, a);
  }

  lemma NothingListed(hosts: seq<string>, a: Answers)
    ensures Listed(hosts, a) == [] <==> Elements(hosts) <= Credited(a)
  {
    ListedIn(hosts, Credited(a));
  }

  lemma {:induction false} ListedIn(hosts: seq<string>, ok: set<string>)
    ensures MissingOf(hosts, ok) == [] <==> Elements(hosts) <= ok
    decreases |hosts|
  {
    if hosts != [] {
      ListedIn(hosts[1..], ok);
      assert hosts == [hosts[0]] + hosts[1..];
      assert Elements(hosts) == {hosts[0]} + Elements(hosts[1..]);
    }
  }

  /** The count is no smaller than the list exactly without such a surplus, or with nothing to list. */
  lemma CountCoversListExactly(hosts: seq<string>, a: Answers)
    requires Plausible(hosts, a)
    ensures |Listed(hosts, a)| <= Counted(hosts, a)
       <==> Surplus(hosts, a) <= FreeNames(a) || Elements(hosts) <= Credited(a)
  {
    ListedLength(hosts, a);
    NothingListed(hosts, a);
  }

  /** The log holds one record for each of some requested hosts, and nothing else. */
  ghost predicate LogFits(hosts: seq<string>, a: Answers) {
    a.resumed <= Elements(hosts) && a.records == |a.resumed|
  }

  /** With a log that fits the request, one local name or none is enough. */
  lemma OneLocalNameIsEnough(hosts: seq<string>, a: Answers)
    requires Plausible(hosts, a) && LogFits(hosts, a) && |a.aliases| <= 1
    ensures Counted(hosts, a) == |Listed(hosts, a)|
  {
    hide Listed, Elements, Distinct;
    assert Known(hosts, a) == a.resumed;
    ListedLength(hosts, a);
    OneNameIsScanned(a);
  }

  lemma OneNameIsScanned(a: Answers)
    requires |a.aliases| <= 1 && (a.aliases != {} ==> a.first in a.aliases)
    requires a.localScanned ==> a.aliases != {} && a.first !in a.resumed
    ensures FreeNames(a) == LocalScans(a)
  {
    if a.aliases != {} {
      SubsetSize({a.first}, a.aliases);
      assert a.aliases - a.resumed == if a.first in a.resumed then {} else {a.first};
    }
  }

  // ---- What a clean exit says about the requested hosts

  /** The same log and local machine, with these remote answers. */
  function With(a: Answers, back: set<string>): Answers { a.(remote := back) }

  /** A run of these hosts over this log, with the remote answers and the reports still open. */
  ghost predicate IsRun(hosts: seq<string>, a: Answers, arrivals: seq<Arrival>) {
    Plausible(hosts, a) && |arrivals| == ReportsSeen(a)
  }

  ghost predicate CleanIsComplete(hosts: seq<string>, a: Answers, p: Policy, flag: bool) {
    forall back, arrivals: seq<Arrival> ::
      IsRun(hosts, With(a, back), arrivals)
      && ExitCode(RunOutcome(p, arrivals, |hosts|, 0, false), flag) == EXIT_CLEAN ==>
      Elements(hosts) <= Credited(With(a, back))
  }

  /** The requested hosts that only a remote scan can answer for. */
  function Remaining(hosts: seq<string>, a: Answers): set<string> { Elements(hosts) - a.resumed - a.aliases }

  /** Local names nothing answers for. */
  function SilentNames(a: Answers): nat { if LocalCredited(a) then 0 else |a.aliases - a.resumed| }

  /**
   The condition, known before any remote scan: no surplus that could stand in for a silent host. If all
   local names are answered for, one surplus report is enough to hide a remote host; if not, it takes
   as many as there are silent names.
   */
  predicate NothingCanHide(hosts: seq<string>, a: Answers) {
    if SilentNames(a) > 0 then Surplus(hosts, a) < SilentNames(a)
    else Surplus(hosts, a) <= FreeNames(a) || Remaining(hosts, a) == {}
  }

  lemma HostsSplit(hosts: seq<string>, a: Answers)
    requires Plausible(hosts, a)
    ensures |Known(hosts, a)| + FreeNames(a) + SilentNames(a) + |Remaining(hosts, a)| == |hosts|
    ensures a.remote <= Remaining(hosts, a) && |a.remote| <= |Remaining(hosts, a)|
    ensures FreeNames(a) == 0 || SilentNames(a) == 0
  {
    hide Distinct, Elements, Known, Remaining;
    HostSets(hosts, a);
    ThreeParts(Known(hosts, a), a.aliases - a.resumed, Remaining(hosts, a));
    DistinctSize(hosts);
    SubsetSize(a.remote, Remaining(hosts, a));
  }

  lemma HostSets(hosts: seq<string>, a: Answers)
    requires Plausible(hosts, a)
    ensures Known(hosts, a) + (a.aliases - a.resumed) + Remaining(hosts, a) == Elements(hosts)
    ensures Known(hosts, a) !! (a.aliases - a.resumed) && Known(hosts, a) !! Remaining(hosts, a)
    ensures (a.aliases - a.resumed) !! Remaining(hosts, a) && a.remote <= Remaining(hosts, a)
  {
    hide Distinct, Elements;
  }

  /** What the log and the local machine settle does not depend on the remote answers. */
  lemma RemoteIsOpen(hosts: seq<string>, a: Answers, back: set<string>)
    ensures var b := With(a, back);
            && Surplus(hosts, b) == Surplus(hosts, a) && Remaining(hosts, b) == Remaining(hosts, a)
            && FreeNames(b) == FreeNames(a) && SilentNames(b) == SilentNames(a)
    ensures Plausible(hosts, a) && back <= Remaining(hosts, a) ==> Plausible(hosts, With(a, back))
  {
    hide Distinct, Elements;
  }

  /**
   For every policy: a clean exit means that every requested host answered, whatever the remote scans
   bring, exactly if nothing can hide.
   */
  lemma CleanIsCompleteExactly(hosts: seq<string>, a: Answers, p: Policy, flag: bool)
    requires Plausible(hosts, a)
    ensures CleanIsComplete(hosts, a, p, flag) <==> NothingCanHide(hosts, a)
  {
    if NothingCanHide(hosts, a) {
      forall back, arrivals: seq<Arrival>
        | IsRun(hosts, With(a, back), arrivals)
          && ExitCode(RunOutcome(p, arrivals, |hosts|, 0, false), flag) == EXIT_CLEAN
        ensures Elements(hosts) <= Credited(With(a, back))
      {
        CleanCompletes(hosts, a, back, p, arrivals, flag);
      }
    } else {
      var back := SomeoneHidden(hosts, a);
      var b := With(a, back);
      var arrivals := CleanArrivals(ReportsSeen(b));
      CleanArrivalsExit(p, ReportsSeen(b), |hosts|, flag);
      assert IsRun(hosts, With(a, back), arrivals);
    }
  }

  lemma CleanCompletes(hosts: seq<string>, a: Answers, back: set<string>, p: Policy, arrivals: seq<Arrival>, flag: bool)
    requires NothingCanHide(hosts, a) && IsRun(hosts, With(a, back), arrivals)
    requires ExitCode(RunOutcome(p, arrivals, |hosts|, 0, false), flag) == EXIT_CLEAN
    ensures Elements(hosts) <= Credited(With(a, back))
  {
    hide NothingCanHide, RunOutcome, ExitCode;
    var b := With(a, back);
    ExitCodeMeaning(p, arrivals, |hosts|, 0, false, flag);
    assert |hosts| <= ReportsSeen(b);
    CountsComplete(hosts, a, back);
  }

  lemma CountsComplete(hosts: seq<string>, a: Answers, back: set<string>)
    requires NothingCanHide(hosts, a) && Plausible(hosts, With(a, back))
    requires |hosts| <= ReportsSeen(With(a, back))
    ensures Elements(hosts) <= Credited(With(a, back))
  {
    hide Plausible, Credited, Known, Remaining, FreeNames, SilentNames, Listed, Elements;
    var b := With(a, back);
    RemoteIsOpen(hosts, a, back);
    HostsSplit(hosts, b);
    ListedLength(hosts, b);
    NothingListed(hosts, b);
  }

  /** All remote hosts answer, or all but one: enough reports for a clean exit, and a host without one. */
  lemma SomeoneHidden(hosts: seq<string>, a: Answers) returns (back: set<string>)
    requires Plausible(hosts, a) && !NothingCanHide(hosts, a)
    ensures var b := With(a, back);
            Plausible(hosts, b) && 0 < |hosts| <= ReportsSeen(b) && !(Elements(hosts) <= Credited(b))
  {
    hide Plausible, Credited, Known, Remaining, FreeNames, SilentNames, Listed, Elements;
    var rest := Remaining(hosts, a);
    back := rest;
    if SilentNames(a) == 0 {
      var h :| h in rest;
      back := rest - {h};
      assert |back| == |rest| - 1;
    }
    var b := With(a, back);
    RemoteIsOpen(hosts, a, back);
    HostsSplit(hosts, b);
    ListedLength(hosts, b);
    NothingListed(hosts, b);
  }

  /** Reports of healthy hosts without findings. */
  function CleanArrivals(n: nat): (r: seq<Arrival>)
    ensures |r| == n
  {
    seq(n, _ => Arrival(Report("h", [], [], true, [], None), 0))
  }

  lemma CleanArrivalsExit(p: Policy, n: nat, requested: nat, flag: bool)
    requires 0 < n && requested <= n
    ensures ExitCode(RunOutcome(p, CleanArrivals(n), requested, 0, false), flag) == EXIT_CLEAN
  {
    hide RunOutcome, ExitCode;
    var r := Report("h", [], [], true, [], None);
    assert Judged(p, Arrival(r, 0)) == [];
    Scoring.VerdictReadsLive([]);
    assert Scoring.SysctlCount([]) == 0;
    assert forall x :: x in CleanArrivals(n) ==> x == Arrival(r, 0);
    ExitCodeMeaning(p, CleanArrivals(n), requested, 0, false, flag);
  }

  /** Without surplus the exit code can be trusted: a log that fits the request hides nobody. */
  lemma FittingLogHidesNobody(hosts: seq<string>, a: Answers)
    requires Plausible(hosts, a) && LogFits(hosts, a)
    ensures NothingCanHide(hosts, a)
  {
    assert Known(hosts, a) == a.resumed;
    if a.localScanned {
      SubsetSize({a.first}, a.aliases - a.resumed);
    } else if a.aliases != {} && a.first !in a.resumed {
      SubsetSize({a.first}, a.aliases - a.resumed);
    }
  }

  // ---- The inputs on which count and list part

  /** Two local names: one host is counted missing and none is listed. */
  lemma TwoLocalNamesDisagree()
    ensures var hosts := ["localhost", "127.0.0.1"];
            var a := Answers(0, {}, {"localhost", "127.0.0.1"}, "localhost", true, {});
            Plausible(hosts, a) && LogFits(hosts, a) && Counted(hosts, a) == 1 && Listed(hosts, a) == []
  {
    var hosts := ["localhost", "127.0.0.1"];
    assert hosts[0] != hosts[1] by {
      assert hosts[0][0] == 'l' && hosts[1][0] == '1';
    }
    assert hosts[0] in hosts && hosts[1] in hosts;
    assert hosts[1..] == ["127.0.0.1"] && hosts[1..][1..] == [];
  }

  /** A log that still holds host c: a and b are requested, only a answers, and the exit is clean. */
  lemma StaleLogHidesAHost(p: Policy, flag: bool)
    ensures var hosts := ["a", "b"];
            var a := Answers(1, {"c"}, {}, "", false, {"a"});
            && Plausible(hosts, a) && Counted(hosts, a) == 0 && Listed(hosts, a) == ["b"]
            && ExitCode(RunOutcome(p, CleanArrivals(ReportsSeen(a)), |hosts|, 0, false), flag) == EXIT_CLEAN
  {
    var hosts := ["a", "b"];
    assert hosts[0] != hosts[1] && hosts[0] in hosts && hosts[1] in hosts;
    assert hosts[1..] == ["b"] && hosts[1..][1..] == [];
    var a := Answers(1, {"c"}, {}, "", false, {"a"});
    assert "a"[0] == 'a' && "b"[0] == 'b' && "c"[0] == 'c';
    assert ReportsSeen(a) == 2;
    CleanArrivalsExit(p, 2, 2, flag);
  }
}
