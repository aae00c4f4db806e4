/**
 Admission control of the fleet run: a semaphore, a set of live tasks and an iterator over the
 remote hosts, as a step system in which tasks complete in any order and the operator may
 interrupt at any moment. Hosts are the numbers below `hosts`.
 */
module Admission {
  import opened Wrappers
  import opened Lists
  import opened Text

  datatype Phase = Filling | Serving | Draining | Exited

  /**
   `next` is the iterator's position. A task holds a permit while it is `running`; it gives the
   permit back when it finishes and stays in the join set, `finished`, until its result is taken.
   `reported` are the consumed hosts whose task returned a report, `lost` the hosts taken from the
   iterator without a permit to spawn them.
   */
  datatype State = State(
    hosts: nat, max: nat, phase: Phase, shutdown: bool, next: nat, permits: nat,
    running: set<nat>, finished: set<nat>, reporting: set<nat>,
    consumed: seq<nat>, reported: seq<nat>, lost: seq<nat>)

  datatype Event =
    | FillOne
    | FillEnds
    | Completes(host: nat, report: bool)
    | Joins(host: nat)
    | JoinsNone
    | Interrupt
    | Notice
    | Abort

  function Start(hosts: nat, max: nat): State {
    State(hosts, max, Filling, false, 0, max, {}, {}, {}, [], [], [])
  }

  /** Takes a permit and spawns the next host. */
  function Spawn(s: State): State
    requires s.permits > 0
  {
    s.(next := s.next + 1, permits := s.permits - 1, running := s.running + {s.next})
  }

  function Consume(s: State, h: nat): State {
    s.(finished := s.finished - {h}, consumed := s.consumed + [h],
       reported := if h in s.reporting then s.reported + [h] else s.reported)
  }

  /** What the result handler does once a task's result has been taken. */
  function Refill(s: State): State {
    if s.shutdown || s.next >= s.hosts then s
    else if s.permits > 0 then Spawn(s)
    else s.(next := s.next + 1, lost := s.lost + [s.next])
  }

  /** One step, or nothing when the event cannot happen now. */
  function Step(s: State, e: Event): Option<State> {
    match e
    case FillOne =>
      if s.phase.Filling? && s.next < s.max && !s.shutdown && s.next < s.hosts && s.permits > 0 then Some(Spawn(s)) else None
    case FillEnds =>
      if s.phase.Filling? && (s.next >= s.max || s.shutdown || s.next >= s.hosts) then Some(s.(phase := Serving)) else None
    case Completes(h, report) =>
      if h in s.running && !s.phase.Exited? then
        Some(s.(running := s.running - {h}, finished := s.finished + {h}, permits := s.permits + 1,
                reporting := if report then s.reporting + {h} else s.reporting))
      else None
    case Joins(h) =>
      if h !in s.finished then None
      else if s.phase.Serving? then Some(Refill(Consume(s, h)))
      else if s.phase.Draining? then Some(Consume(s, h))
      else None
    case JoinsNone =>
      if (s.phase.Serving? || s.phase.Draining?) && s.running == {} && s.finished == {} then Some(s.(phase := Exited)) else None
    case Interrupt =>
      if !s.shutdown && !s.phase.Exited? then Some(s.(shutdown := true)) else None
    case Notice =>
      if s.phase.Serving? && s.shutdown then Some(s.(phase := Draining)) else None
    case Abort =>
      if s.phase.Draining? then Some(s.(phase := Exited)) else None
  }

  /** The state after a run of events, each of which could happen. */
  ghost function After(hosts: nat, max: nat, run: seq<Event>): Option<State> {
    if run == [] then Some(Start(hosts, max))
    else match After(hosts, max, run[..|run| - 1])
      case None => None
      case Some(s) => Step(s, run[|run| - 1])
  }

  /** Every host below `next` is in exactly one place: running, finished or consumed. */
  ghost predicate Placed(s: State) {
    && s.running !! s.finished
    && Distinct(s.consumed)
    && (forall h :: h in s.consumed ==> h !in s.running && h !in s.finished)
    && (forall h: nat :: h < s.next <==> h in s.running || h in s.finished || h in s.consumed)
    && Distinct(s.reported) && (forall h :: h in s.reported <==> h in s.consumed && h in s.reporting)
    && s.lost == []
  }

  ghost predicate Inv(s: State) {
    && s.next <= s.hosts
    && |s.running| + s.permits == s.max
    && |s.running| + |s.finished| <= s.max
    && Placed(s)
    && (s.phase.Filling? ==> s.consumed == [] && |s.running| + |s.finished| == s.next <= s.max)
    && (s.phase.Serving? && !s.shutdown && s.next < s.hosts ==> |s.running| + |s.finished| == s.max)
    && (s.phase.Draining? ==> s.shutdown)
    && (s.phase.Exited? && !s.shutdown ==> s.running == {} && s.finished == {} && (s.max > 0 ==> s.next == s.hosts))
  }

  lemma StartInv(hosts: nat, max: nat)
    ensures Inv(Start(hosts, max))
  {
  }

  lemma SpawnPlaced(s: State)
    requires Placed(s) && s.permits > 0
    ensures Placed(Spawn(s)) && |Spawn(s).running| == |s.running| + 1
  {
    assert s.next !in s.running && s.next !in s.finished && s.next !in s.consumed;
  }

  lemma ConsumePlaced(s: State, h: nat)
    requires Placed(s) && h in s.finished
    ensures Placed(Consume(s, h)) && |Consume(s, h).finished| == |s.finished| - 1
  {
    var t := Consume(s, h);
    assert forall x :: x in t.consumed <==> x in s.consumed || x == h;
    assert forall x :: x in t.reported <==> x in s.reported || (x == h && h in s.reporting);
    assert h !in s.consumed && h !in s.reported;
  }

  lemma CompletePlaced(s: State, h: nat, report: bool)
    requires Placed(s) && h in s.running && !s.phase.Exited?
    ensures var t := Step(s, Completes(h, report)).value;
            Placed(t) && |t.running| == |s.running| - 1 && |t.finished| == |s.finished| + 1
  {
    assert h !in s.consumed;
  }

  /** A task whose result was just taken has already given its permit back. */
  lemma RefillHasPermit(s: State, h: nat)
    requires Inv(s) && h in s.finished
    ensures Consume(s, h).permits > 0
    ensures Refill(Consume(s, h)).lost == []
  {
    assert |s.finished - {h}| == |s.finished| - 1;
  }

  lemma StepKeepsInv(s: State, e: Event)
    requires Inv(s) && Step(s, e).Some?
    ensures Inv(Step(s, e).value)
  {
    match e {
      case FillOne => SpawnPlaced(s);
      case Completes(h, report) => CompletePlaced(s, h, report);
      case Joins(h) =>
        ConsumePlaced(s, h);
        RefillHasPermit(s, h);
        var t := Consume(s, h);
        if s.phase.Serving? && !t.shutdown && t.next < t.hosts {
          SpawnPlaced(t);
        }
      case _ =>
    }
  }

  lemma {:induction false} RunsKeepInv(hosts: nat, max: nat, run: seq<Event>)
    requires After(hosts, max, run).Some?
    ensures Inv(After(hosts, max, run).value)
    ensures After(hosts, max, run).value.hosts == hosts && After(hosts, max, run).value.max == max
    decreases |run|
  {
    if run == [] {
      StartInv(hosts, max);
    } else {
      RunsKeepInv(hosts, max, run[..|run| - 1]);
      StepKeepsInv(After(hosts, max, run[..|run| - 1]).value, run[|run| - 1]);
    }
  }

  lemma {:induction false} UptoIsSet(n: nat, s: set<nat>)
    requires forall h: nat :: h in s <==> h < n
    ensures |s| == n
    decreases n
  {
    if n > 0 {
      UptoIsSet(n - 1, s - {n - 1});
    }
  }

  lemma PlacedCounts(s: State)
    requires Placed(s)
    ensures |s.running| + |s.finished| + |s.consumed| == s.next
  {
    var live, done := s.running + s.finished, Elements(s.consumed);
    DistinctSize(s.consumed);
    assert live !! done;
    assert |live + done| == |live| + |done| && |live| == |s.running| + |s.finished|;
    assert forall h: nat :: h in live + done <==> h < s.next;
    UptoIsSet(s.next, live + done);
  }

  /**
   Safety of every interleaving: permits and running tasks always add up to the limit, never more
   than the limit is in the join set, exactly the first `next` hosts were spawned, each one once,
   no result is consumed twice, and no host is dropped for want of a permit.
   */
  lemma AdmissionIsSafe(hosts: nat, max: nat, run: seq<Event>)
    requires After(hosts, max, run).Some?
    ensures var s := After(hosts, max, run).value;
            && |s.running| + s.permits == max && |s.running| + |s.finished| <= max
            && s.next <= hosts && s.lost == []
            && |s.running| + |s.finished| + |s.consumed| == s.next
            && (forall h: nat :: h < s.next <==> h in s.running + s.finished || h in s.consumed)
            && Distinct(s.consumed) && Distinct(s.reported) && (forall h :: h in s.reported ==> h in s.consumed)
  {
    RunsKeepInv(hosts, max, run);
    PlacedCounts(After(hosts, max, run).value);
  }

  /** Reports come from hosts of the list, one each. */
  lemma ReportedBelow(hosts: nat, max: nat, run: seq<Event>)
    requires After(hosts, max, run).Some?
    ensures Distinct(After(hosts, max, run).value.reported)
    ensures forall h :: h in After(hosts, max, run).value.reported ==> h < hosts
    ensures forall i :: 0 <= i < |After(hosts, max, run).value.reported| ==> After(hosts, max, run).value.reported[i] < hosts
  {
    AdmissionIsSafe(hosts, max, run);
    var s := After(hosts, max, run).value;
    assert forall i :: 0 <= i < |s.reported| ==> s.reported[i] in s.reported;
  }

  /** Without an interrupt the loop ends only when every host's result was consumed, exactly once. */
  lemma ExitMeansAllConsumed(hosts: nat, max: nat, run: seq<Event>)
    requires max >= 1 && After(hosts, max, run).Some?
    requires var s := After(hosts, max, run).value; s.phase.Exited? && !s.shutdown
    ensures var s := After(hosts, max, run).value;
            Distinct(s.consumed) && |s.consumed| == hosts && forall h: nat :: h in s.consumed <==> h < hosts
  {
    RunsKeepInv(hosts, max, run);
    AdmissionIsSafe(hosts, max, run);
  }

  /** With a limit of zero, which the program refuses up front, the loop would end having scanned nothing. */
  lemma ZeroLimitScansNothing(hosts: nat)
    ensures var s := After(hosts, 0, [FillEnds, JoinsNone]); s.Some? && s.value.phase.Exited? && s.value.consumed == []
  {
    assert [FillEnds, JoinsNone][..1] == [FillEnds] && [FillEnds][..0] == [];
    assert After(hosts, 0, [FillEnds]) == Some(Start(hosts, 0).(phase := Serving));
  }

  // ---- Liveness: no run gets stuck, and every run is short

  /** Until it has exited, the loop can always move, counting a running task as able to complete. */
  lemma NeverStuck(hosts: nat, max: nat, run: seq<Event>) returns (e: Event)
    requires After(hosts, max, run).Some? && !After(hosts, max, run).value.phase.Exited?
    ensures Step(After(hosts, max, run).value, e).Some? && !e.Interrupt? && !e.Abort?
  {
    RunsKeepInv(hosts, max, run);
    var s := After(hosts, max, run).value;
    if s.phase.Filling? {
      e := if s.next < s.max && !s.shutdown && s.next < s.hosts then FillOne else FillEnds;
    } else if s.running != {} {
      var h :| h in s.running;
      e := Completes(h, true);
    } else if s.finished != {} {
      var h :| h in s.finished;
      e := Joins(h);
    } else {
      e := JoinsNone;
    }
  }

  ghost function Rank(s: State): int {
    3 * (s.hosts - s.next) + 2 * |s.running| + |s.finished|
    + (match s.phase case Filling => 3 case Serving => 2 case Draining => 1 case Exited => 0)
    + if s.shutdown then 0 else 1
  }

  lemma StepLowersRank(s: State, e: Event)
    requires Inv(s) && Step(s, e).Some?
    ensures Rank(Step(s, e).value) < Rank(s)
  {
    match e {
      case FillOne => SpawnPlaced(s);
      case Completes(h, report) => CompletePlaced(s, h, report);
      case Joins(h) =>
        ConsumePlaced(s, h);
        RefillHasPermit(s, h);
        var t := Consume(s, h);
        if s.phase.Serving? && !t.shutdown && t.next < t.hosts {
          SpawnPlaced(t);
        }
      case _ =>
    }
  }

  lemma {:induction false} RankAfter(hosts: nat, max: nat, run: seq<Event>)
    requires After(hosts, max, run).Some?
    ensures Rank(After(hosts, max, run).value) + |run| <= 3 * hosts + 4
    decreases |run|
  {
    if run != [] {
      RankAfter(hosts, max, run[..|run| - 1]);
      RunsKeepInv(hosts, max, run[..|run| - 1]);
      StepLowersRank(After(hosts, max, run[..|run| - 1]).value, run[|run| - 1]);
    }
  }

  /** Every run of the loop is over after at most three steps a host and four more. */
  lemma EveryRunIsShort(hosts: nat, max: nat, run: seq<Event>)
    requires After(hosts, max, run).Some?
    ensures |run| <= 3 * hosts + 4
  {
    RankAfter(hosts, max, run);
    RunsKeepInv(hosts, max, run);
  }

  // ---- What the events of a run say about its hosts

  predicate Happened(run: seq<Event>, e: Event) { e in run }

  /** The task of this host came to an end in this run, with or without a report. */
  predicate Completed(run: seq<Event>, h: nat) { Happened(run, Completes(h, true)) || Happened(run, Completes(h, false)) }

  /** The hosts whose results were taken, in that order. */
  function Joined(run: seq<Event>): seq<nat> {
    if run == [] then []
    else Joined(run[..|run| - 1]) + match run[|run| - 1] { case Joins(h) => [h] case _ => [] }
  }

  /** The state's bookkeeping agrees with the run that led to it. */
  ghost predicate Recorded(s: State, run: seq<Event>) {
    && s.consumed == Joined(run)
    && (forall h: nat :: h in s.reporting <==> Happened(run, Completes(h, true)))
    && (forall h: nat :: Completed(run, h) <==> h in s.finished || h in s.consumed)
    && (s.shutdown <==> Happened(run, Interrupt))
  }

  lemma LastEvent(run: seq<Event>, e: Event)
    ensures forall d :: Happened(run + [e], d) <==> Happened(run, d) || d == e
    ensures Joined(run + [e]) == Joined(run) + match e { case Joins(h) => [h] case _ => [] }
  {
    assert (run + [e])[..|run|] == run;
  }

  lemma StepRecords(s: State, e: Event, run: seq<Event>)
    requires Inv(s) && Step(s, e).Some? && Recorded(s, run)
    ensures Recorded(Step(s, e).value, run + [e])
    ensures e.Completes? ==> !Completed(run, e.host)
  {
    hide Joined, Happened, Distinct;
    match e
    case Joins(h) => JoinRecords(s, h, run);
    case Completes(h, report) =>
      RunningIsApart(s, h);
      CompletionRecords(s, h, report, run);
    case _ => OtherRecords(s, e, run);
  }

  lemma RunningIsApart(s: State, h: nat)
    requires Inv(s) && h in s.running
    ensures h !in s.finished && h !in s.consumed
  {
  }

  lemma CompletionRecords(s: State, h: nat, report: bool, run: seq<Event>)
    requires h !in s.finished && h !in s.consumed && Step(s, Completes(h, report)).Some? && Recorded(s, run)
    ensures Recorded(Step(s, Completes(h, report)).value, run + [Completes(h, report)])
    ensures !Completed(run, h)
  {
    hide Joined, Happened;
    LastEvent(run, Completes(h, report));
  }

  lemma OtherRecords(s: State, e: Event, run: seq<Event>)
    requires !e.Joins? && !e.Completes? && Step(s, e).Some? && Recorded(s, run)
    ensures Recorded(Step(s, e).value, run + [e])
  {
    hide Joined, Happened;
    LastEvent(run, e);
  }

  lemma JoinRecords(s: State, h: nat, run: seq<Event>)
    requires Inv(s) && Step(s, Joins(h)).Some? && Recorded(s, run)
    ensures Recorded(Step(s, Joins(h)).value, run + [Joins(h)])
  {
    hide Inv, Recorded, Consume, Refill;
    ConsumeRecords(s, h, run);
    RefillRecords(Consume(s, h), run + [Joins(h)]);
  }

  lemma ConsumeRecords(s: State, h: nat, run: seq<Event>)
    requires h in s.finished && Recorded(s, run)
    ensures Recorded(Consume(s, h), run + [Joins(h)])
  {
    hide Joined, Happened;
    LastEvent(run, Joins(h));
    assert forall x :: x in Consume(s, h).consumed <==> x in s.consumed || x == h;
  }

  lemma RefillRecords(s: State, run: seq<Event>)
    requires Recorded(s, run)
    ensures Recorded(Refill(s), run)
  {
    hide Joined, Happened;
  }

  lemma {:induction false} RunsAreRecorded(hosts: nat, max: nat, run: seq<Event>)
    requires After(hosts, max, run).Some?
    ensures Recorded(After(hosts, max, run).value, run)
    decreases |run|
  {
    if run != [] {
      var n := |run| - 1;
      assert run[..n] + [run[n]] == run;
      RunsKeepInv(hosts, max, run[..n]);
      RunsAreRecorded(hosts, max, run[..n]);
      StepRecords(After(hosts, max, run[..n]).value, run[n], run[..n]);
    }
  }

  /** No task ends twice. */
  lemma {:induction false} CompletesOnce(hosts: nat, max: nat, run: seq<Event>)
    requires After(hosts, max, run).Some?
    ensures forall i, j :: 0 <= i < j < |run| && run[i].Completes? && run[j].Completes? ==> run[i].host != run[j].host
    decreases |run|
  {
    if run != [] {
      var n := |run| - 1;
      assert run[..n] + [run[n]] == run;
      CompletesOnce(hosts, max, run[..n]);
      RunsKeepInv(hosts, max, run[..n]);
      RunsAreRecorded(hosts, max, run[..n]);
      StepRecords(After(hosts, max, run[..n]).value, run[n], run[..n]);
      forall i | 0 <= i < n && run[i].Completes? && run[n].Completes? ensures run[i].host != run[n].host {
        assert run[..n][i] in run[..n];
        assert Happened(run[..n], run[i]);
        assert Completed(run[..n], run[i].host);
      }
    }
  }

  /**
   For every run, by its events alone: the reporting hosts are those whose result was taken and whose
   task returned a report, no task ends twice, and results are taken of completed tasks only.
   */
  lemma ReportedExactly(hosts: nat, max: nat, run: seq<Event>)
    requires After(hosts, max, run).Some?
    ensures var s := After(hosts, max, run).value;
            && s.consumed == Joined(run)
            && (forall h: nat :: h in s.reported <==> h in Joined(run) && Completes(h, true) in run)
            && (forall h: nat :: h in Joined(run) ==> Completed(run, h) && h < hosts)
    ensures forall i, j :: 0 <= i < j < |run| && run[i].Completes? && run[j].Completes? ==> run[i].host != run[j].host
  {
    RunsKeepInv(hosts, max, run);
    RunsAreRecorded(hosts, max, run);
    CompletesOnce(hosts, max, run);
  }

  /** Without an interrupt the reporting hosts at the end are exactly those whose task returned a report. */
  lemma ExitReportsExactly(hosts: nat, max: nat, run: seq<Event>)
    requires max >= 1 && After(hosts, max, run).Some?
    requires After(hosts, max, run).value.phase.Exited? && Interrupt !in run
    ensures var s := After(hosts, max, run).value;
            && (forall h: nat :: h in s.reported <==> Completes(h, true) in run)
            && (forall h: nat :: h < hosts <==> Completed(run, h))
  {
    RunsAreRecorded(hosts, max, run);
    RunsKeepInv(hosts, max, run);
    ExitMeansAllConsumed(hosts, max, run);
  }

  /** Until it is interrupted, the serving loop keeps as many tasks as the limit allows, while hosts remain. */
  lemma ServesAtTheLimit(hosts: nat, max: nat, run: seq<Event>)
    requires After(hosts, max, run).Some?
    requires var s := After(hosts, max, run).value; s.phase.Serving? && Interrupt !in run && s.next < hosts
    ensures var s := After(hosts, max, run).value; |s.running| + |s.finished| == max
  {
    RunsKeepInv(hosts, max, run);
    RunsAreRecorded(hosts, max, run);
  }

  /** From an interrupt on no further host is taken. */
  lemma {:induction false} InterruptStopsAdmission(hosts: nat, max: nat, run: seq<Event>, more: seq<Event>)
    requires Interrupt in run && After(hosts, max, run + more).Some?
    ensures After(hosts, max, run).Some?
    ensures After(hosts, max, run + more).value.next == After(hosts, max, run).value.next
    decreases |more|
  {
    hide Step, Recorded, Inv;
    if more == [] {
      Empties(run);
    } else {
      var n := |more| - 1;
      assert (run + more)[..|run + more| - 1] == run + more[..n];
      InterruptStopsAdmission(hosts, max, run, more[..n]);
      InterruptIsKept(hosts, max, run + more[..n]);
      NoSpawnWhenShut(After(hosts, max, run + more[..n]).value, more[n]);
    }
  }

  lemma InterruptIsKept(hosts: nat, max: nat, run: seq<Event>)
    requires Interrupt in run && After(hosts, max, run).Some?
    ensures After(hosts, max, run).value.shutdown
  {
    RunsAreRecorded(hosts, max, run);
  }

  lemma NoSpawnWhenShut(s: State, e: Event)
    requires s.shutdown && Step(s, e).Some?
    ensures Step(s, e).value.next == s.next
  {
  }
}
