/** The exit code read off the findings of the reports. */
module ExitFacts {
  import opened Wrappers
  import opened Reports
  import opened Scoring
  import opened Verdicts
  import opened Acceptance
  import opened Outcome

  ghost predicate AnyCompromised(arrivals: seq<Arrival>) {
    exists i :: 0 <= i < |arrivals| && SomeCompromise(arrivals[i].report.findings)
  }

  ghost predicate AnyCritical(p: Policy, arrivals: seq<Arrival>) {
    exists i :: 0 <= i < |arrivals| && SomeCritical(Judged(p, arrivals[i]))
  }

  /** Everything was seen: every host healthy, as many reports as hosts, no record lost, output delivered. */
  ghost predicate Covered(arrivals: seq<Arrival>, requested: nat, lost: nat, outputFailed: bool) {
    && (forall i :: 0 <= i < |arrivals| ==>
          var r := arrivals[i].report; r.failedScanners == [] && r.isRoot && r.scanWarnings == [])
    && requested <= |arrivals| && lost == 0 && !outputFailed
  }

  lemma ReportRank(p: Policy, a: Arrival)
    requires LoadedPolicy(p)
    ensures Rank(ReportVerdict(p, a)) >= 2 <==> SomeCompromise(a.report.findings)
    ensures Rank(ReportVerdict(p, a)) >= 1 <==> SomeCompromise(a.report.findings) || SomeCritical(Judged(p, a))
  {
    hide SomeCompromise, SomeCritical;
    VerdictMeaning(Judged(p, a));
    PolicyKeepsCompromise(p, a);
  }

  lemma Ranks(p: Policy, arrivals: seq<Arrival>)
    requires LoadedPolicy(p)
    ensures SomeVerdict(p, arrivals, 2) <==> AnyCompromised(arrivals)
    ensures SomeVerdict(p, arrivals, 1) <==> AnyCompromised(arrivals) || AnyCritical(p, arrivals)
  {
    hide SomeCompromise, SomeCritical, ReportVerdict, SomeVerdict, Rank;
    SomeVerdictAt(p, arrivals, 2);
    SomeVerdictAt(p, arrivals, 1);
    forall i | 0 <= i < |arrivals|
      ensures Rank(ReportVerdict(p, arrivals[i])) >= 2 <==> SomeCompromise(arrivals[i].report.findings)
      ensures Rank(ReportVerdict(p, arrivals[i])) >= 1
         <==> SomeCompromise(arrivals[i].report.findings) || SomeCritical(Judged(p, arrivals[i]))
    {
      ReportRank(p, arrivals[i]);
    }
  }

  lemma CoveredMeansSeen(arrivals: seq<Arrival>, requested: nat, lost: nat, outputFailed: bool)
    ensures SawEverything(arrivals, requested, lost, outputFailed) <==> Covered(arrivals, requested, lost, outputFailed)
  {
    if AllHealthy(arrivals) {
      forall i | 0 <= i < |arrivals| ensures Healthy(arrivals[i]) {
        assert arrivals[i] in arrivals;
      }
    }
  }

  /**
   The five exit codes by the findings of the reports, for every loaded policy: 3 for a live compromise
   in any report, whatever the policy says; the others by the critical findings the policy leaves live
   and by what the run could see.
   */
  lemma ExitCodesByFindings(p: Policy, arrivals: seq<Arrival>, requested: nat, lost: nat, outputFailed: bool, flag: bool)
    requires LoadedPolicy(p)
    ensures var code := ExitCode(RunOutcome(p, arrivals, requested, lost, outputFailed), flag);
            var bad, critical := AnyCompromised(arrivals), AnyCritical(p, arrivals);
            var full := Covered(arrivals, requested, lost, outputFailed);
            && (code == 3 <==> bad)
            && (code == 0 <==> arrivals != [] && !bad && !critical && full)
            && (code == 1 <==> !bad && critical && full)
            && (code == 2 <==> arrivals != [] && !bad && !full && !flag)
            && (code == 4 <==> arrivals == [] || (!bad && !full && flag))
  {
    hide SomeVerdict, AnyCompromised, AnyCritical, SawEverything, Covered, RunOutcome, ExitCode;
    ExitCodeMeaning(p, arrivals, requested, lost, outputFailed, flag);
    Ranks(p, arrivals);
    CoveredMeansSeen(arrivals, requested, lost, outputFailed);
  }

  /** The fleet run answers 3 exactly with its log open and a live compromise in some report; 130 is for interrupts. */
  lemma FleetExitByFindings(p: Policy, arrivals: seq<Arrival>, requested: nat, lost: nat, outputFailed: bool, flag: bool,
                            logOpen: bool, interrupted: bool)
    requires LoadedPolicy(p)
    ensures var code := FleetExit(logOpen, interrupted, RunOutcome(p, arrivals, requested, lost, outputFailed), flag);
            && (code == 3 <==> logOpen && AnyCompromised(arrivals))
            && (code == 130 <==> logOpen && interrupted && !AnyCompromised(arrivals))
            && (!logOpen ==> code == 2)
  {
    hide SomeVerdict, AnyCompromised;
    CompromiseSurfacesExactly(p, arrivals, requested, lost, outputFailed, flag, logOpen, interrupted);
    CompromiseSurfacesExactly(p, arrivals, requested, lost, outputFailed, flag, true, true);
    Ranks(p, arrivals);
  }
}
