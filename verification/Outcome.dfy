/**
 The two-axis outcome of a run: what the reports found and what the run could see, folded over the
 reports in whatever order they arrive, and mapped to one exit code at the end.
 */
module Outcome {
  import opened Wrappers
  import opened Reports
  import opened Text
  import Scoring
  import Glob
  import opened Acceptance
  import opened Verdicts

  datatype Coverage = Coverage(
    hostsMissing: nat, recordsLost: nat, scannersFailed: bool, nonRoot: bool, warnings: bool, outputFailed: bool)

  predicate IsFull(c: Coverage) {
    c.hostsMissing == 0 && c.recordsLost == 0 && !c.scannersFailed && !c.nonRoot && !c.warnings && !c.outputFailed
  }

  datatype Outcome = Outcome(verdict: Option<Scoring.Verdict>, coverage: Coverage)

  const EXIT_CLEAN := 0
  const EXIT_CRITICAL := 1
  const EXIT_DEGRADED := 2
  const EXIT_COMPROMISED := 3
  const EXIT_INCOMPLETE := 4
  const EXIT_INTERRUPT := 130

  function ExitCode(o: Outcome, failOnIncomplete: bool): int {
    if o.verdict.None? then EXIT_INCOMPLETE
    else if o.verdict.value.Compromised? then EXIT_COMPROMISED
    else if failOnIncomplete && !IsFull(o.coverage) then EXIT_INCOMPLETE
    else if !IsFull(o.coverage) then EXIT_DEGRADED
    else if o.verdict.value.Critical? then EXIT_CRITICAL
    else EXIT_CLEAN
  }

  /**
   A fleet run that could not open its log, or not terminate the last record of the log it resumes,
   ends there with 2. One whose local scan was interrupted answers 130, unless a compromise is already
   known.
   */
  function FleetExit(logOpen: bool, interrupted: bool, o: Outcome, failOnIncomplete: bool): int {
    if !logOpen then EXIT_DEGRADED
    else if interrupted && o.verdict == Some(Scoring.Compromised) then EXIT_COMPROMISED
    else if interrupted then EXIT_INTERRUPT
    else ExitCode(o, failOnIncomplete)
  }

  // ---- Folding reports

  /** A report and the time the policy is applied to it. */
  datatype Arrival = Arrival(report: Report, at: int)

  datatype Policy = NoPolicy | Policy(rules: seq<Rule>, parse: ParseExpiry)

  ghost predicate LoadedPolicy(p: Policy) { p.Policy? ==> Loadable(p.rules, p.parse) }

  function Judged(p: Policy, a: Arrival): seq<Finding> {
    match p
    case NoPolicy => a.report.findings
    case Policy(rules, parse) => OverlayAll(rules, parse, a.at, a.report.hostname, a.report.findings)
  }

  function ReportVerdict(p: Policy, a: Arrival): Scoring.Verdict { Scoring.VerdictOf(Judged(p, a)) }

  datatype Tally = Tally(verdict: Option<Scoring.Verdict>, scannersFailed: bool, nonRoot: bool, warnings: bool, seen: nat)

  const NOTHING := Tally(None, false, false, false, 0)

  function AddTo(p: Policy, t: Tally, a: Arrival): Tally {
    var v := ReportVerdict(p, a);
    Tally(Some(if t.verdict.None? then v else Scoring.Worse(t.verdict.value, v)),
          t.scannersFailed || a.report.failedScanners != [],
          t.nonRoot || !a.report.isRoot,
          t.warnings || a.report.scanWarnings != [],
          t.seen + 1)
  }

  function AddAll(p: Policy, t: Tally, arrivals: seq<Arrival>): Tally
    decreases |arrivals|
  {
    if arrivals == [] then t else AddAll(p, AddTo(p, t, arrivals[0]), arrivals[1..])
  }

  function Finished(t: Tally, requested: nat, lost: nat, outputFailed: bool): Outcome {
    Outcome(t.verdict, Coverage(if requested >= t.seen then requested - t.seen else 0, lost,
                                t.scannersFailed, t.nonRoot, t.warnings, outputFailed))
  }

  /** No loaded policy takes a compromise out of the findings it judges, or puts one in. */
  lemma PolicyKeepsCompromise(p: Policy, a: Arrival)
    requires LoadedPolicy(p)
    ensures SomeCompromise(Judged(p, a)) <==> SomeCompromise(a.report.findings)
  {
    hide SomeCompromise;
    VerdictMeaning(Judged(p, a));
    VerdictMeaning(a.report.findings);
    if p.Policy? {
      PolicyCannotHideCompromise(p.rules, p.parse, a.at, a.report.hostname, a.report.findings);
    }
  }

  class OutcomeBuilder {
    var verdict: Option<Scoring.Verdict>
    var scannersFailed: bool
    var nonRoot: bool
    var warnings: bool
    var reportsSeen: nat
    const acceptances: Acceptances?

    ghost function InForce(): Policy {
      if acceptances == null then NoPolicy else Policy(acceptances.rules, acceptances.parse)
    }

    ghost function State(): Tally
      reads this
    {
      Tally(verdict, scannersFailed, nonRoot, warnings, reportsSeen)
    }

    constructor (acceptances: Acceptances?)
      ensures this.acceptances == acceptances && State() == NOTHING
    {
      this.acceptances := acceptances;
      verdict, scannersFailed, nonRoot, warnings, reportsSeen := None, false, false, false, 0;
    }

    /** Evaluates a report and applies the policy, if any, to its findings in place. */
    method Judge(a: Arrival) returns (v: Scoring.Verdict)
      ensures v == ReportVerdict(InForce(), a)
      ensures v.Compromised? <==> SomeCompromise(Judged(InForce(), a))
      ensures v.Critical? <==> !SomeCompromise(Judged(InForce(), a)) && SomeCritical(Judged(InForce(), a))
      ensures LoadedPolicy(InForce()) ==> (v.Compromised? <==> SomeCompromise(a.report.findings))
    {
      hide OverlayAll, Scoring.VerdictOf, SomeCompromise, SomeCritical, LoadedPolicy;
      var found := a.report.findings;
      var findings := new Finding[|found|](i requires 0 <= i < |found| => found[i]);
      assert findings[..] == found;
      if acceptances != null {
        var _ := acceptances.Apply(a.report.hostname, a.at, findings);
      }
      v := Scoring.VerdictOf(findings[..]);
      VerdictMeaning(Judged(InForce(), a));
      if LoadedPolicy(InForce()) {
        PolicyKeepsCompromise(InForce(), a);
      }
    }

    method Add(a: Arrival)
      modifies this
      ensures State() == AddTo(InForce(), old(State()), a)
    {
      hide ReportVerdict, Scoring.Worse;
      var v := Judge(a);
      verdict := Some(if verdict.None? then v else Scoring.Worse(verdict.value, v));
      scannersFailed := scannersFailed || a.report.failedScanners != [];
      nonRoot := nonRoot || !a.report.isRoot;
      warnings := warnings || a.report.scanWarnings != [];
      reportsSeen := reportsSeen + 1;
    }

    method AddEach(arrivals: seq<Arrival>)
      modifies this
      ensures State() == AddAll(InForce(), old(State()), arrivals)
    {
      for i := 0 to |arrivals|
        invariant AddAll(InForce(), State(), arrivals[i..]) == AddAll(InForce(), old(State()), arrivals)
      {
        Add(arrivals[i]);
        assert arrivals[i..][1..] == arrivals[i + 1..];
      }
    }

    method Finish(requested: nat, lost: nat) returns (o: Outcome)
      ensures o == Finished(State(), requested, lost, false)
      ensures o.verdict == verdict && !o.coverage.outputFailed && o.coverage.recordsLost == lost
      ensures o.coverage.hostsMissing == 0 <==> requested <= reportsSeen
      ensures requested >= reportsSeen ==> o.coverage.hostsMissing + reportsSeen == requested
    {
      var missing := if requested >= reportsSeen then requested - reportsSeen else 0;
      o := Outcome(verdict, Coverage(missing, lost, scannersFailed, nonRoot, warnings, false));
    }
  }

  // ---- What the fold knows about the set of reports

  ghost predicate SomeVerdict(p: Policy, arrivals: seq<Arrival>, rank: nat) {
    exists a :: a in arrivals && Scoring.Rank(ReportVerdict(p, a)) >= rank
  }

  /** The reports of the run alone decide its coverage. */
  ghost predicate Healthy(a: Arrival) {
    a.report.failedScanners == [] && a.report.isRoot && a.report.scanWarnings == []
  }

  ghost predicate AllHealthy(arrivals: seq<Arrival>) { forall a :: a in arrivals ==> Healthy(a) }

  lemma ConsIn(arrivals: seq<Arrival>)
    requires arrivals != []
    ensures forall a :: a in arrivals <==> a == arrivals[0] || a in arrivals[1..]
  {
    assert arrivals == [arrivals[0]] + arrivals[1..];
  }

  lemma {:induction false} AddAllCoverage(p: Policy, t: Tally, arrivals: seq<Arrival>)
    ensures var r := AddAll(p, t, arrivals);
            && r.seen == t.seen + |arrivals|
            && (r.verdict.None? <==> t.verdict.None? && arrivals == [])
            && (!r.scannersFailed && !r.nonRoot && !r.warnings
                <==> !t.scannersFailed && !t.nonRoot && !t.warnings && AllHealthy(arrivals))
    decreases |arrivals|
  {
    if arrivals != [] {
      AddAllCoverage(p, AddTo(p, t, arrivals[0]), arrivals[1..]);
      ConsIn(arrivals);
      assert AllHealthy(arrivals) <==> Healthy(arrivals[0]) && AllHealthy(arrivals[1..]);
    }
  }

  /** The folded verdict is at least a given rank exactly when some report's is. */
  lemma {:induction false} AddAllRank(p: Policy, t: Tally, arrivals: seq<Arrival>, rank: nat)
    ensures AddAll(p, t, arrivals).verdict.Some? && Scoring.Rank(AddAll(p, t, arrivals).verdict.value) >= rank
       <==> (t.verdict.Some? && Scoring.Rank(t.verdict.value) >= rank) || SomeVerdict(p, arrivals, rank)
    decreases |arrivals|
  {
    if arrivals != [] {
      AddAllRank(p, AddTo(p, t, arrivals[0]), arrivals[1..], rank);
      ConsIn(arrivals);
      assert Scoring.Rank(ReportVerdict(p, arrivals[0])) >= rank ==> SomeVerdict(p, arrivals, rank);
      assert SomeVerdict(p, arrivals, rank)
        <==> Scoring.Rank(ReportVerdict(p, arrivals[0])) >= rank || SomeVerdict(p, arrivals[1..], rank);
    }
  }

  ghost function RunOutcome(p: Policy, arrivals: seq<Arrival>, requested: nat, lost: nat, outputFailed: bool): Outcome {
    Finished(AddAll(p, NOTHING, arrivals), requested, lost, outputFailed)
  }

  /** Everything a clean exit needs besides the verdicts. */
  ghost predicate SawEverything(arrivals: seq<Arrival>, requested: nat, lost: nat, outputFailed: bool) {
    AllHealthy(arrivals) && requested <= |arrivals| && lost == 0 && !outputFailed
  }

  /** The exit code, read off the reports as a set: each of the five codes has one exact meaning. */
  lemma ExitCodeMeaning(p: Policy, arrivals: seq<Arrival>, requested: nat, lost: nat, outputFailed: bool, flag: bool)
    ensures var code := ExitCode(RunOutcome(p, arrivals, requested, lost, outputFailed), flag);
            var compromised, critical := SomeVerdict(p, arrivals, 2), SomeVerdict(p, arrivals, 1);
            var full := SawEverything(arrivals, requested, lost, outputFailed);
            && (code == EXIT_COMPROMISED <==> compromised)
            && (code == EXIT_CLEAN <==> arrivals != [] && !critical && full)
            && (code == EXIT_CRITICAL <==> !compromised && critical && full)
            && (code == EXIT_DEGRADED <==> arrivals != [] && !compromised && !full && !flag)
            && (code == EXIT_INCOMPLETE <==> arrivals == [] || (!compromised && !full && flag))
  {
    AddAllCoverage(p, NOTHING, arrivals);
    AddAllRank(p, NOTHING, arrivals, 1);
    AddAllRank(p, NOTHING, arrivals, 2);
    assert SomeVerdict(p, arrivals, 2) ==> SomeVerdict(p, arrivals, 1);
  }

  /** The order in which hosts answer never shows in the exit code. */
  lemma ExitCodeIgnoresOrder(p: Policy, a: seq<Arrival>, b: seq<Arrival>, requested: nat, lost: nat, outputFailed: bool, flag: bool)
    requires multiset(a) == multiset(b)
    ensures ExitCode(RunOutcome(p, a, requested, lost, outputFailed), flag)
         == ExitCode(RunOutcome(p, b, requested, lost, outputFailed), flag)
  {
    ExitCodeMeaning(p, a, requested, lost, outputFailed, flag);
    ExitCodeMeaning(p, b, requested, lost, outputFailed, flag);
    assert |a| == |multiset(a)| == |multiset(b)| == |b|;
    assert forall x :: x in a <==> x in multiset(a);
    assert forall x :: x in b <==> x in multiset(b);
    assert forall x :: x in a <==> x in b;
  }

  /**
   Once the log is open a compromise, and nothing else, answers 3: not coverage, not lost records, not an
   interrupt. Before that even a compromise recorded in the resumed log does not.
   */
  lemma CompromiseSurfacesExactly(p: Policy, arrivals: seq<Arrival>, requested: nat, lost: nat, outputFailed: bool,
                                  flag: bool, logOpen: bool, interrupted: bool)
    ensures FleetExit(logOpen, interrupted, RunOutcome(p, arrivals, requested, lost, outputFailed), flag) == EXIT_COMPROMISED
       <==> logOpen && SomeVerdict(p, arrivals, 2)
  {
    ExitCodeMeaning(p, arrivals, requested, lost, outputFailed, flag);
  }

  /** For every policy that loads and every stream of reports, the policy leaves exit code 3 as it was. */
  lemma PolicyKeepsCompromisedExit(p: Policy, arrivals: seq<Arrival>, requested: nat, lost: nat, outputFailed: bool, flag: bool)
    requires LoadedPolicy(p)
    ensures var with := ExitCode(RunOutcome(p, arrivals, requested, lost, outputFailed), flag);
            var without := ExitCode(RunOutcome(NoPolicy, arrivals, requested, lost, outputFailed), flag);
            && (with == EXIT_COMPROMISED <==> without == EXIT_COMPROMISED)
            && (without == EXIT_CLEAN ==> with == EXIT_CLEAN)
            && (with == EXIT_CRITICAL ==> without == EXIT_CRITICAL)
            && (with == EXIT_DEGRADED <==> without == EXIT_DEGRADED)
            && (with == EXIT_INCOMPLETE <==> without == EXIT_INCOMPLETE)
  {
    ExitCodeMeaning(p, arrivals, requested, lost, outputFailed, flag);
    ExitCodeMeaning(NoPolicy, arrivals, requested, lost, outputFailed, flag);
    forall a ensures
      && (Scoring.Rank(ReportVerdict(p, a)) >= 2 <==> Scoring.Rank(ReportVerdict(NoPolicy, a)) >= 2)
      && Scoring.Rank(ReportVerdict(p, a)) <= Scoring.Rank(ReportVerdict(NoPolicy, a))
    {
      if p.Policy? {
        PolicyCannotHideCompromise(p.rules, p.parse, a.at, a.report.hostname, a.report.findings);
      }
    }
  }

  lemma {:induction false} AddAllConcat(p: Policy, t: Tally, a: seq<Arrival>, b: seq<Arrival>)
    ensures AddAll(p, t, a + b) == AddAll(p, AddAll(p, t, a), b)
    decreases |a|
  {
    if a == [] {
      assert a + b == b;
    } else {
      assert (a + b)[1..] == a[1..] + b;
      AddAllConcat(p, AddTo(p, t, a[0]), a[1..], b);
    }
  }

  // ---- Resuming: the policy is applied again, at another time

  /** The same reports, each looked at again at some time of its own. */
  ghost predicate Rejudged(once: seq<Arrival>, again: seq<Arrival>) {
    |once| == |again| && forall i :: 0 <= i < |once| ==> again[i].report == once[i].report
  }

  ghost predicate NotEarlier(once: seq<Arrival>, again: seq<Arrival>)
    requires Rejudged(once, again)
  {
    forall i :: 0 <= i < |once| ==> once[i].at <= again[i].at
  }

  ghost predicate NoRuleLapses(p: Policy, once: seq<Arrival>, again: seq<Arrival>)
    requires Rejudged(once, again)
  {
    p.Policy? ==> forall i :: 0 <= i < |once| ==> NoneLapses(p.rules, p.parse, once[i].at, again[i].at)
  }

  ghost function ResumedOutcome(p: Policy, logged: seq<Arrival>, rest: seq<Arrival>, requested: nat, lost: nat): Outcome {
    Finished(AddAll(p, AddAll(p, NOTHING, logged), rest), requested, lost, false)
  }

  lemma SameCoverage(once: seq<Arrival>, again: seq<Arrival>)
    requires Rejudged(once, again)
    ensures AllHealthy(once) <==> AllHealthy(again)
  {
    forall i | 0 <= i < |once| ensures Healthy(once[i]) <==> Healthy(again[i]) && once[i] in once && again[i] in again {
    }
    if AllHealthy(once) {
      forall a | a in again ensures Healthy(a) {
        var i :| 0 <= i < |again| && again[i] == a;
        assert Healthy(once[i]);
      }
    }
    if AllHealthy(again) {
      forall a | a in once ensures Healthy(a) {
        var i :| 0 <= i < |once| && once[i] == a;
        assert Healthy(again[i]);
      }
    }
  }

  lemma RankOfOne(p: Policy, once: seq<Arrival>, again: seq<Arrival>, i: nat)
    requires LoadedPolicy(p) && Rejudged(once, again) && i < |once|
    ensures Scoring.Rank(ReportVerdict(p, once[i])) >= 2 <==> Scoring.Rank(ReportVerdict(p, again[i])) >= 2
    ensures once[i].at <= again[i].at ==>
      Scoring.Rank(ReportVerdict(p, once[i])) <= Scoring.Rank(ReportVerdict(p, again[i]))
    ensures (p.Policy? ==> NoneLapses(p.rules, p.parse, once[i].at, again[i].at)) ==>
      ReportVerdict(p, once[i]) == ReportVerdict(p, again[i])
  {
    if p.Policy? {
      var r := once[i].report;
      PolicyCannotHideCompromise(p.rules, p.parse, once[i].at, r.hostname, r.findings);
      PolicyCannotHideCompromise(p.rules, p.parse, again[i].at, r.hostname, r.findings);
      if once[i].at <= again[i].at {
        LaterAcceptsLess(p.rules, p.parse, once[i].at, again[i].at, r.hostname, r.findings);
        Scoring.SuppressingNeverWorsens(Judged(p, once[i]), Judged(p, again[i]));
      }
      if NoneLapses(p.rules, p.parse, once[i].at, again[i].at) {
        SameMarksUnlessLapsed(p.rules, p.parse, once[i].at, again[i].at, r.hostname, r.findings);
      }
    }
  }

  /** A rank some report reaches, in terms of indices. */
  lemma SomeVerdictAt(p: Policy, arrivals: seq<Arrival>, rank: nat)
    ensures SomeVerdict(p, arrivals, rank)
       <==> exists i :: 0 <= i < |arrivals| && Scoring.Rank(ReportVerdict(p, arrivals[i])) >= rank
  {
    hide ReportVerdict;
    if SomeVerdict(p, arrivals, rank) {
      var a :| a in arrivals && Scoring.Rank(ReportVerdict(p, a)) >= rank;
      var i :| 0 <= i < |arrivals| && arrivals[i] == a;
      assert Scoring.Rank(ReportVerdict(p, arrivals[i])) >= rank;
    }
    if i :| 0 <= i < |arrivals| && Scoring.Rank(ReportVerdict(p, arrivals[i])) >= rank {
      assert arrivals[i] in arrivals;
    }
  }

  lemma RejudgedVerdicts(p: Policy, once: seq<Arrival>, again: seq<Arrival>)
    requires LoadedPolicy(p) && Rejudged(once, again)
    ensures SomeVerdict(p, once, 2) <==> SomeVerdict(p, again, 2)
    ensures NotEarlier(once, again) && SomeVerdict(p, once, 1) ==> SomeVerdict(p, again, 1)
    ensures NoRuleLapses(p, once, again) ==> (SomeVerdict(p, once, 1) <==> SomeVerdict(p, again, 1))
  {
    hide ReportVerdict, NoneLapses, SomeVerdict;
    forall i: nat | i < |once|
      ensures Scoring.Rank(ReportVerdict(p, once[i])) >= 2 <==> Scoring.Rank(ReportVerdict(p, again[i])) >= 2
      ensures once[i].at <= again[i].at ==>
        Scoring.Rank(ReportVerdict(p, once[i])) <= Scoring.Rank(ReportVerdict(p, again[i]))
      ensures (p.Policy? ==> NoneLapses(p.rules, p.parse, once[i].at, again[i].at)) ==>
        ReportVerdict(p, once[i]) == ReportVerdict(p, again[i])
    {
      RankOfOne(p, once, again, i);
    }
    SomeVerdictAt(p, once, 1);
    SomeVerdictAt(p, again, 1);
    SomeVerdictAt(p, once, 2);
    SomeVerdictAt(p, again, 2);
  }

  /** The code of a resumed run, read off its reports. */
  lemma ResumedIsOneRun(p: Policy, logged: seq<Arrival>, rest: seq<Arrival>, requested: nat, lost: nat, flag: bool)
    ensures ResumedOutcome(p, logged, rest, requested, lost) == RunOutcome(p, logged + rest, requested, lost, false)
  {
    AddAllConcat(p, NOTHING, logged, rest);
  }

  /**
   A run of `whole` was killed and resumed: its reports come again, the logged ones re-read and the
   rest scanned, each judged no earlier than before. Exit codes 2, 3 and 4 never change. The only
   change there can be is from 0 to 1, and it happens exactly if the run answered 0 and some report,
   looked at now, is critical.
   */
  lemma ResumedExitExactly(p: Policy, whole: seq<Arrival>, once: seq<Arrival>, logged: seq<Arrival>, rest: seq<Arrival>,
                           requested: nat, lost: nat, flag: bool)
    requires LoadedPolicy(p) && multiset(whole) == multiset(once)
    requires Rejudged(once, logged + rest) && NotEarlier(once, logged + rest)
    ensures var one := ExitCode(RunOutcome(p, whole, requested, lost, false), flag);
            var two := ExitCode(ResumedOutcome(p, logged, rest, requested, lost), flag);
            && (two == EXIT_COMPROMISED <==> one == EXIT_COMPROMISED)
            && (two == EXIT_DEGRADED <==> one == EXIT_DEGRADED)
            && (two == EXIT_INCOMPLETE <==> one == EXIT_INCOMPLETE)
            && (two != one <==> one == EXIT_CLEAN && SomeVerdict(p, logged + rest, 1))
            && (two != one ==> two == EXIT_CRITICAL)
  {
    hide SomeVerdict, RunOutcome, ResumedOutcome, ExitCode, AllHealthy;
    var again := logged + rest;
    ExitCodeIgnoresOrder(p, whole, once, requested, lost, false, flag);
    ResumedIsOneRun(p, logged, rest, requested, lost, flag);
    ExitCodeMeaning(p, once, requested, lost, false, flag);
    ExitCodeMeaning(p, again, requested, lost, false, flag);
    SameCoverage(once, again);
    RejudgedVerdicts(p, once, again);
  }

  /** As long as no rule of the policy lapses between the two looks at a report, the answers agree. */
  lemma ResumedRunAnswersTheSame(p: Policy, whole: seq<Arrival>, once: seq<Arrival>, logged: seq<Arrival>,
                                 rest: seq<Arrival>, requested: nat, lost: nat, flag: bool)
    requires LoadedPolicy(p) && multiset(whole) == multiset(once)
    requires Rejudged(once, logged + rest) && NoRuleLapses(p, once, logged + rest)
    ensures ExitCode(ResumedOutcome(p, logged, rest, requested, lost), flag)
         == ExitCode(RunOutcome(p, whole, requested, lost, false), flag)
  {
    hide SomeVerdict, RunOutcome, ResumedOutcome, ExitCode, AllHealthy, NoRuleLapses;
    var again := logged + rest;
    ExitCodeIgnoresOrder(p, whole, once, requested, lost, false, flag);
    ResumedIsOneRun(p, logged, rest, requested, lost, flag);
    ExitCodeMeaning(p, once, requested, lost, false, flag);
    ExitCodeMeaning(p, again, requested, lost, false, flag);
    SameCoverage(once, again);
    RejudgedVerdicts(p, once, again);
  }

  /** The rule of LapsedRuleShows: it accepts a disabled firewall until the end of a day. */
  const UNTIL_NEW_YEAR := Rule("SEC-001", "h", "replaced by the perimeter", "2026-01-01", None)

  /** A rule that lapses between the log and the resume turns 0 into 1. */
  lemma LapsedRuleShows(parse: ParseExpiry)
    requires parse("2026-01-01").Some?
    ensures var p := Policy([UNTIL_NEW_YEAR], parse);
            var end := parse("2026-01-01").value;
            var r := Report("h", [Finding("SEC-001", Security, 30, None)], [], true, [], Some("h"));
            && LoadedPolicy(p)
            && ExitCode(RunOutcome(p, [Arrival(r, end)], 1, 0, false), false) == EXIT_CLEAN
            && ExitCode(ResumedOutcome(p, [Arrival(r, end + 1)], [], 1, 0), false) == EXIT_CRITICAL
  {
    var p := Policy([UNTIL_NEW_YEAR], parse);
    var f := Finding("SEC-001", Security, 30, None);
    var r := Report("h", [f], [], true, [], Some("h"));
    UntilNewYearLoads(parse);
    Glob.LiteralMatchesOnlyItself("h", "h");
    assert FirstRule([UNTIL_NEW_YEAR], "SEC-001", "h") == Some(UNTIL_NEW_YEAR);
    var early, late := Arrival(r, parse("2026-01-01").value), Arrival(r, parse("2026-01-01").value + 1);
    assert Judged(p, early) == [f.(suppressed := Some(Marker(UNTIL_NEW_YEAR)))];
    assert Judged(p, late) == [f];
    VerdictOfOne(f.(suppressed := Some(Marker(UNTIL_NEW_YEAR))));
    VerdictOfOne(f);
    OneReport(p, early);
    OneReport(p, late);
    ResumedIsOneRun(p, [late], [], 1, 0, false);
    assert [late] + [] == [late];
  }

  lemma OneReport(p: Policy, a: Arrival)
    requires Healthy(a)
    ensures ExitCode(RunOutcome(p, [a], 1, 0, false), false)
         == match ReportVerdict(p, a) case Clean => EXIT_CLEAN case Critical => EXIT_CRITICAL case Compromised => EXIT_COMPROMISED
  {
    hide ReportVerdict;
    assert [a][1..] == [];
    assert AddAll(p, NOTHING, [a]) == AddAll(p, AddTo(p, NOTHING, a), []);
  }

  lemma UntilNewYearLoads(parse: ParseExpiry)
    requires parse("2026-01-01").Some?
    ensures Loadable([UNTIL_NEW_YEAR], parse)
  {
    hide Utf8Len, Trim, Marker;
    TrimmedAlready(UNTIL_NEW_YEAR.justification);
    FirewallIsNoCompromise();
    assert "SEC-001"[5] == '0' && "SEC-041"[5] == '4' && "COV-001"[0] == 'C';
    assert RuleRefusal(UNTIL_NEW_YEAR, parse) == None;
  }

  lemma FirewallIsNoCompromise()
    ensures forall i :: 0 <= i < |Scoring.COMPROMISE_IDS| ==> Scoring.COMPROMISE_IDS[i] != "SEC-001"
  {
    forall i | 0 <= i < |Scoring.COMPROMISE_IDS| ensures Scoring.COMPROMISE_IDS[i] != "SEC-001" {
      assert Scoring.COMPROMISE_IDS[i][5] != '0' || Scoring.COMPROMISE_IDS[i][0] == 'D';
      assert "SEC-001"[5] == '0' && "SEC-001"[0] == 'S';
    }
  }

  /** A report whose only finding is a disabled firewall is critical while the finding is live. */
  lemma VerdictOfOne(f: Finding)
    requires f.id == "SEC-001"
    ensures Scoring.VerdictOf([f]) == if f.suppressed.None? then Scoring.Critical else Scoring.Clean
  {
    Scoring.VerdictReadsLive([f]);
    FirewallIsNoCompromise();
    assert Scoring.SysctlCount([f]) <= 1;
    assert Scoring.CRITICAL_IDS[0] == "SEC-001" && [f][0] == f;
    assert Scoring.Has([f], "SEC-001") <==> f.suppressed.None?;
  }
}
