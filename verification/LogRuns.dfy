/**
 The writer of the JSONL log, and the log over any number of crashed and resumed runs: what was
 credited once is never lost, and no input address is recorded twice.
 */
module LogRuns {
  import opened Wrappers
  import opened Text
  import opened Reports
  import opened Jsonl
  import opened Lists
  import Admission

  // ---- One run of the writer

  /** How the writer's work on one report ends; a failed write may have landed some bytes. */
  datatype Attempt = Unserializable | Written | Failed(landed: nat)

  datatype Item = Item(report: Report, attempt: Attempt)

  ghost predicate Possible(c: Codec, items: seq<Item>) {
    forall i :: 0 <= i < |items| ==>
      match items[i].attempt { case Failed(landed) => landed <= Utf8Len(Line(c, items[i].report)) case _ => true }
  }

  /** The reports that reach the file in full: nothing is written behind a failed write. */
  function InFull(items: seq<Item>): seq<Report> {
    if items == [] then []
    else match items[0].attempt
      case Unserializable => InFull(items[1..])
      case Written => [items[0].report] + InFull(items[1..])
      case Failed(_) => []
  }

  /** The first failed write. */
  function Poison(items: seq<Item>): Option<Item> {
    if items == [] then None
    else if items[0].attempt.Failed? then Some(items[0])
    else Poison(items[1..])
  }

  /** Exactly the bytes handed to the file, behind what it held. */
  ghost function Stream(c: Codec, file: string, items: seq<Item>): Disk
    requires Possible(c, items)
  {
    match Poison(items)
    case None => Disk(file + Emit(c, InFull(items)), 0)
    case Some(item) =>
      PoisonIsItem(items);
      var d := CutAt(Line(c, item.report), item.attempt.landed);
      Disk(file + Emit(c, InFull(items)) + d.text, d.partial)
  }

  /** The reports of which any byte can reach the file: those in full and the one whose write failed. */
  function Offered(items: seq<Item>): seq<Report> {
    InFull(items) + if Poison(items).Some? then [Poison(items).value.report] else []
  }

  /** One more report, by what the writer met before: behind a failed write nothing is written any more. */
  lemma {:induction false} WriterOneMore(items: seq<Item>, x: Item)
    ensures var failed := exists i :: 0 <= i < |items| && items[i].attempt.Failed?;
            && (Poison(items).Some? <==> failed)
            && InFull(items + [x]) == (if !failed && x.attempt.Written? then InFull(items) + [x.report] else InFull(items))
            && Poison(items + [x]) == (if failed then Poison(items) else if x.attempt.Failed? then Some(x) else None)
    ensures InFull([]) == [] && Poison([]).None?
    decreases |items|
  {
    if items == [] {
      assert [] + [x] == [x] && [x][1..] == [];
    } else {
      DropHead(items, [x]);
      WriterOneMore(items[1..], x);
      assert forall i :: 0 < i < |items| ==> items[i] == items[1..][i - 1];
      if i :| 0 <= i < |items[1..]| && items[1..][i].attempt.Failed? {
        assert items[i + 1].attempt.Failed?;
      }
      if items[0].attempt.Written? {
        Assoc([items[0].report], InFull(items[1..]), [x.report]);
      }
    }
  }

  lemma {:induction false} PoisonIsItem(items: seq<Item>)
    ensures Poison(items).Some? ==> Poison(items).value in items && Poison(items).value.attempt.Failed?
    decreases |items|
  {
    if items != [] && !items[0].attempt.Failed? {
      PoisonIsItem(items[1..]);
    }
  }

  /** The writer loop. Every received report is counted once, as written or as an error. */
  method DrainChannel(c: Codec, file: string, items: seq<Item>, flushFails: bool)
      returns (disk: Disk, written: nat, ioErrors: nat)
    requires Possible(c, items)
    ensures disk == Stream(c, file, items)
    ensures written == |InFull(items)|
    ensures written + ioErrors == |items| + if flushFails && Poison(items).None? then 1 else 0
  {
    disk, written, ioErrors := Disk(file, 0), 0, 0;
    var poisoned := false;
    Empties(file);
    Empties(InFull(items));
    ghost var kept: seq<Report> := [];
    for i := 0 to |items|
      invariant written + ioErrors == i && written == |kept|
      invariant !poisoned ==> disk == Disk(file + Emit(c, kept), 0)
      invariant !poisoned ==> InFull(items) == kept + InFull(items[i..]) && Poison(items) == Poison(items[i..])
      invariant poisoned ==> Poison(items).Some? && InFull(items) == kept && disk == Stream(c, file, items)
    {
      assert !poisoned ==> items[i..][0] == items[i] && items[i..][1..] == items[i + 1..];
      if poisoned {
        ioErrors := ioErrors + 1;
        continue;
      }
      if items[i].attempt.Unserializable? {
        ioErrors := ioErrors + 1;
        continue;
      }
      var line := Line(c, items[i].report);
      if items[i].attempt.Written? {
        disk := Disk(disk.text + line, 0);
        written := written + 1;
        Assoc(kept, [items[i].report], InFull(items[i + 1..]));
        AppendLine(c, file, kept, items[i].report);
        kept := kept + [items[i].report];
      } else {
        var landed := CutAt(line, items[i].attempt.landed);
        disk := Disk(disk.text + landed.text, landed.partial);
        ioErrors := ioErrors + 1;
        poisoned := true;
        Empties(kept);
      }
    }
    if !poisoned {
      Empties(kept);
      if flushFails {
        ioErrors := ioErrors + 1;
      }
    }
  }

  lemma AppendLine(c: Codec, file: string, kept: seq<Report>, r: Report)
    ensures file + Emit(c, kept) + Line(c, r) == file + Emit(c, kept + [r])
  {
    EmitConcat(c, kept, [r]);
    Empties(Line(c, r));
    Assoc(file, Emit(c, kept), Line(c, r));
  }

  lemma {:induction false} InFullAreItems(items: seq<Item>)
    ensures forall r :: r in InFull(items) ==> exists x :: x in items && x.report == r
    decreases |items|
  {
    if items != [] && !items[0].attempt.Failed? {
      InFullAreItems(items[1..]);
      assert items[0] in items;
    }
  }

  /**
   Whatever fails, the stream is some cut of the lines of whole records: those already in the log,
   those written in full, and at most the one whose write failed. Recovery therefore covers every
   byte at which the stream can stop.
   */
  lemma StreamIsACut(c: Codec, before: seq<Report>, items: seq<Item>) returns (all: seq<Report>, k: nat)
    requires Possible(c, items)
    ensures all == before + Offered(items)
    ensures before + InFull(items) <= all && |all| <= |before + InFull(items)| + 1
    ensures forall r :: r in all ==> r in before || exists x :: x in items && x.report == r
    ensures k <= Utf8Len(Emit(c, all)) && Stream(c, Emit(c, before), items) == CutAt(Emit(c, all), k)
  {
    hide Utf8Len, CutAt, InFull, Poison, Line;
    var full := before + InFull(items);
    EmitConcat(c, before, InFull(items));
    InFullAreItems(items);
    match Poison(items) {
      case None =>
        all, k := full, Utf8Len(Emit(c, full));
        CutAtEnd(Emit(c, full));
        Empties(InFull(items));
      case Some(item) =>
        PoisonIsItem(items);
        all, k := full + [item.report], Utf8Len(Emit(c, full)) + item.attempt.landed;
        EmitConcat(c, full, [item.report]);
        Empties(Line(c, item.report));
        CutOfConcat(Emit(c, full), Line(c, item.report), item.attempt.landed);
        Assoc(before, InFull(items), [item.report]);
    }
  }

  // ---- Any number of runs

  /**
   One run: the addresses it was given and which of them name the local machine, whether the local
   scan came to a report, the events of the admission loop, the addresses whose report got into the
   channel, what became of each of these in the writer, and how many bytes behind the old log were on
   disk when the run ended or was killed.
   */
  datatype Round = Round(
    given: seq<string>, isLocal: string -> bool, localScanned: bool, max: nat, events: seq<Admission.Event>,
    sent: seq<string>, items: seq<Item>, landed: nat)

  ghost predicate DistinctAddresses(rs: seq<Report>) {
    forall i, j :: 0 <= i < j < |rs| ==> rs[i].inputAddress != rs[j].inputAddress
  }

  /** `retain`: the elements a test lets through, in order. */
  function Filter(s: seq<string>, keep: string -> bool): (r: seq<string>)
    ensures |r| <= |s|
  {
    if s == [] then []
    else
      var n := |s| - 1;
      Filter(s[..n], keep) + if keep(s[n]) then [s[n]] else []
  }

  lemma {:induction false} FilterFacts(s: seq<string>, keep: string -> bool)
    ensures forall x :: x in Filter(s, keep) <==> x in s && keep(x)
    ensures Distinct(s) ==> Distinct(Filter(s, keep))
    decreases |s|
  {
    if s != [] {
      var n := |s| - 1;
      FilterFacts(s[..n], keep);
      assert s == s[..n] + [s[n]];
      assert Distinct(s) ==> s[n] !in s[..n];
    }
  }

  /** The hosts of a round, without duplicates. */
  function Hosts(round: Round): seq<string> { FirstOccurrences(round.given) }

  /** The one address the local machine is scanned under, unless the log credits it. */
  function LocalToScan(round: Round, done: set<string>): seq<string> {
    var local := Filter(Hosts(round), h => round.isLocal(h));
    if local == [] || local[0] in done then [] else [local[0]]
  }

  /** The remote hosts left after crediting the log. */
  function RemoteToScan(round: Round, done: set<string>): seq<string> {
    Filter(Filter(Hosts(round), h => !round.isLocal(h)), h => h !in done)
  }

  /** The addresses that reported: the local one first, then the remote ones as their results were taken. */
  ghost function Reporting(round: Round, done: set<string>): (r: Option<seq<string>>) {
    var remote := RemoteToScan(round, done);
    var end := Admission.After(|remote|, round.max, round.events);
    if end.None? || (round.localScanned && LocalToScan(round, done) == []) then None
    else
      var reported := end.value.reported;
      Admission.ReportedBelow(|remote|, round.max, round.events);
      Some((if round.localScanned then LocalToScan(round, done) else []) + Named(remote, reported))
  }

  /** The hosts behind the numbers the admission loop knows them by. */
  function Named(hosts: seq<string>, numbers: seq<nat>): (r: seq<string>)
    requires forall i :: 0 <= i < |numbers| ==> numbers[i] < |hosts|
  {
    seq(|numbers|, i requires 0 <= i < |numbers| => hosts[numbers[i]])
  }

  /**
   A round over a log: the channel carried reports of some of the hosts that its scans brought back, the
   serialised ones are records, and the disk holds a byte prefix of what the writer handed over.
   */
  ghost predicate Ran(c: Codec, log: string, round: Round) {
    && Possible(c, round.items) && Utf8Len(log) + round.landed <= Size(Stream(c, log, round.items))
    && (forall x :: x in round.items && !x.attempt.Unserializable? ==> Good(c, x.report))
    && var credited := Scan(c, Disk(log, 0));
       && credited.Ok?
       && var reporting := Reporting(round, Addresses(credited.value.records));
          && reporting.Some? && SubSequence(round.sent, reporting.value)
          && |round.items| == |round.sent|
          && forall i :: 0 <= i < |round.items| ==> round.items[i].report.inputAddress == Some(round.sent[i])
  }

  /** The file the round leaves behind. */
  ghost function Left(c: Codec, log: string, round: Round): Disk
    requires Ran(c, log, round)
  {
    CutDisk(Stream(c, log, round.items), Utf8Len(log) + round.landed)
  }

  lemma NamedFacts(hosts: seq<string>, numbers: seq<nat>)
    requires forall i :: 0 <= i < |numbers| ==> numbers[i] < |hosts|
    ensures Distinct(hosts) && Distinct(numbers) ==> Distinct(Named(hosts, numbers))
    ensures forall h :: h in Named(hosts, numbers) ==> h in hosts
  {
  }

  /** The addresses that can be scanned: given, not credited, and the local one is not among the remote ones. */
  lemma ToScanIsNew(round: Round, done: set<string>)
    ensures Distinct(RemoteToScan(round, done)) && |LocalToScan(round, done)| <= 1
    ensures forall h :: h in RemoteToScan(round, done) ==> h in round.given && h !in done && !round.isLocal(h)
    ensures forall h :: h in LocalToScan(round, done) ==> h in round.given && h !in done && round.isLocal(h)
  {
    hide FirstOccurrences, Filter;
    var hosts := Hosts(round);
    var local, away := Filter(hosts, h => round.isLocal(h)), Filter(hosts, h => !round.isLocal(h));
    FirstOccurrencesFacts(round.given);
    FilterFacts(hosts, h => round.isLocal(h));
    FilterFacts(hosts, h => !round.isLocal(h));
    FilterFacts(away, h => h !in done);
    assert local != [] ==> local[0] in local;
  }

  /** No address is scanned twice, and none that the log credits. */
  lemma ReportingIsNew(round: Round, done: set<string>)
    requires Reporting(round, done).Some?
    ensures Distinct(Reporting(round, done).value)
    ensures forall h :: h in Reporting(round, done).value ==> h in round.given && h !in done
  {
    hide Admission.After, RemoteToScan, LocalToScan, Named;
    var remote := RemoteToScan(round, done);
    var end := Admission.After(|remote|, round.max, round.events);
    ToScanIsNew(round, done);
    Admission.ReportedBelow(|remote|, round.max, round.events);
    NamedFacts(remote, end.value.reported);
    var lead, tail := if round.localScanned then LocalToScan(round, done) else [], Named(remote, end.value.reported);
    assert forall h :: h in lead + tail <==> h in lead || h in tail;
    forall i, j | 0 <= i < j < |lead + tail| ensures (lead + tail)[i] != (lead + tail)[j] {
      if i < |lead| {
        assert lead[i] in lead && tail[j - |lead|] in tail;
      } else {
        assert tail[i - |lead|] != tail[j - |lead|];
      }
    }
  }

  lemma HeadIsNew(r: Report, rest: seq<Item>, offered: seq<Report>)
    requires forall s :: s in offered ==> exists x :: x in rest && x.report == s
    requires forall i :: 0 <= i < |rest| ==> rest[i].report.inputAddress != r.inputAddress
    requires DistinctAddresses(offered)
    ensures DistinctAddresses([r] + offered)
  {
    forall j | 0 <= j < |offered| ensures offered[j].inputAddress != r.inputAddress {
      assert offered[j] in offered;
      var x :| x in rest && x.report == offered[j];
      var i :| 0 <= i < |rest| && rest[i] == x;
    }
  }

  lemma {:induction false} OfferedFacts(items: seq<Item>)
    ensures forall r :: r in Offered(items) ==> exists x :: x in items && x.report == r && !x.attempt.Unserializable?
    ensures (forall i, j :: 0 <= i < j < |items| ==> items[i].report.inputAddress != items[j].report.inputAddress) ==>
      DistinctAddresses(Offered(items))
    decreases |items|
  {
    if items != [] {
      var x, rest := items[0], items[1..];
      assert items == [x] + rest;
      OfferedFacts(rest);
      match x.attempt {
        case Unserializable =>
          assert Offered(items) == Offered(rest);
        case Written =>
          Assoc([x.report], InFull(rest), if Poison(rest).Some? then [Poison(rest).value.report] else []);
          assert Offered(items) == [x.report] + Offered(rest);
          assert x in items;
          assert forall i :: 0 <= i < |rest| ==> items[i + 1] == rest[i];
          if forall i, j :: 0 <= i < j < |items| ==> items[i].report.inputAddress != items[j].report.inputAddress {
            HeadIsNew(x.report, rest, Offered(rest));
          }
        case Failed(_) =>
          assert Offered(items) == [x.report] && x in items;
      }
    }
  }

  /** What a round can add to the log are records of addresses new to it, each with one of its own. */
  lemma RanIsNew(c: Codec, log: string, round: Round)
    requires Ran(c, log, round)
    ensures AllGood(c, Offered(round.items)) && DistinctAddresses(Offered(round.items))
    ensures forall r :: r in Offered(round.items) ==>
      r.inputAddress.Some? && r.inputAddress.value !in Addresses(Scan(c, Disk(log, 0)).value.records)
  {
    hide Reporting, Scan, Offered, Stream, SubSequence;
    var done := Addresses(Scan(c, Disk(log, 0)).value.records);
    ReportingIsNew(round, done);
    SubSequenceFacts(round.sent, Reporting(round, done).value);
    OfferedFacts(round.items);
    forall r | r in Offered(round.items) ensures Good(c, r) && r.inputAddress.Some? && r.inputAddress.value !in done {
      var x :| x in round.items && x.report == r && !x.attempt.Unserializable?;
      var i :| 0 <= i < |round.items| && round.items[i] == x;
      assert round.sent[i] in round.sent;
    }
  }

  /** The file a round leaves is a cut of the lines of the old records and the offered ones. */
  lemma LeftIsACut(c: Codec, log: string, round: Round, rs: seq<Report>)
    requires Holds(c, log, rs) && Ran(c, log, round)
    ensures var all, k := rs + Offered(round.items), Utf8Len(log) + round.landed;
            k <= Utf8Len(Emit(c, all)) && Left(c, log, round) == CutAt(Emit(c, all), k)
  {
    hide Scan, CutAt, Utf8Len, Emit, Stream, Reporting, Offered, CutDisk, Size;
    var all, k := StreamIsACut(c, rs, round.items);
    SizeOfCut(Emit(c, all), k);
    CutTwice(Emit(c, all), k, Utf8Len(log) + round.landed);
  }

  lemma SizeOfCut(s: string, k: nat)
    requires k <= Utf8Len(s)
    ensures Size(CutAt(s, k)) == k
  {
    CutIsPrefix(s, k);
  }

  /** The log after a run ended or was killed and the next one repaired what it found. */
  ghost function NextLog(c: Codec, log: string, round: Round): Option<string>
    requires Ran(c, log, round)
  {
    Repaired(Left(c, log, round), Scan(c, Left(c, log, round)))
  }

  /** A history of logs, starting from a new file, in which every repair was possible. */
  ghost predicate History(c: Codec, logs: seq<string>, rounds: seq<Round>)
    decreases |rounds|
  {
    if rounds == [] then logs == [""]
    else
      var n := |rounds| - 1;
      && |logs| == n + 2 && History(c, logs[..n + 1], rounds[..n])
      && Ran(c, logs[n], rounds[n]) && NextLog(c, logs[n], rounds[n]) == Some(logs[n + 1])
  }

  /** `held[i]` are the records of the i-th log; each round keeps them and adds a prefix of its own. */
  ghost predicate HeldBy(c: Codec, logs: seq<string>, rounds: seq<Round>, held: seq<seq<Report>>)
    decreases |rounds|
  {
    && |logs| == |held| == |rounds| + 1
    && var n := |rounds|;
       && Holds(c, logs[n], held[n])
       && (n == 0 ==> held == [[]])
       && (n > 0 ==>
             && HeldBy(c, logs[..n], rounds[..n - 1], held[..n])
             && held[n - 1] <= held[n] <= held[n - 1] + Offered(rounds[n - 1].items))
  }

  /** The log is the lines of these records, each with an address of its own. */
  ghost predicate Holds(c: Codec, log: string, rs: seq<Report>) {
    log == Emit(c, rs) && AllGood(c, rs) && DistinctAddresses(rs)
  }

  lemma {:induction false} AddressInAddresses(rs: seq<Report>, i: nat)
    requires i < |rs| && rs[i].inputAddress.Some?
    ensures rs[i].inputAddress.value in Addresses(rs)
    decreases |rs|
  {
    if i < |rs| - 1 {
      AddressInAddresses(rs[..|rs| - 1], i);
    }
  }

  /** One round keeps every record and adds a prefix of the new ones. */
  lemma RoundKeeps(c: Codec, log: string, round: Round, rs: seq<Report>) returns (after: seq<Report>)
    requires Holds(c, log, rs) && Ran(c, log, round) && NextLog(c, log, round).Some?
    ensures Holds(c, NextLog(c, log, round).value, after)
    ensures rs <= after <= rs + Offered(round.items)
  {
    hide Scan, CutAt, Utf8Len, Repaired, Emit, Offered, Left, Ran;
    var more := Offered(round.items);
    var all, k := rs + more, Utf8Len(log) + round.landed;
    ResumeComplete(c, rs);
    RanIsNew(c, log, round);
    LeftIsACut(c, log, round, rs);
    EmitConcat(c, rs, more);
    Utf8LenConcat(log, Emit(c, more));
    var n, j := RepairThenAppend(c, all, k, []);
    EarlierRecordsComplete(c, rs, more, n, j, k);
    after := Kept(c, all, n, j);
    NewHostsDistinct(c, rs, more);
  }

  /** The next run can repair the log exactly if no character was cut in two. */
  lemma RepairPossibleExactly(c: Codec, log: string, round: Round, rs: seq<Report>)
    requires Holds(c, log, rs) && Ran(c, log, round)
    ensures NextLog(c, log, round).Some? <==> Left(c, log, round).partial == 0
  {
    hide Scan, CutAt, Utf8Len, Repaired, Emit, Offered, Left, Ran;
    RanIsNew(c, log, round);
    LeftIsACut(c, log, round, rs);
    var n, j := RepairThenAppend(c, rs + Offered(round.items), Utf8Len(log) + round.landed, []);
  }

  lemma NewHostsDistinct(c: Codec, rs: seq<Report>, more: seq<Report>)
    requires AllGood(c, rs) && AllGood(c, more) && DistinctAddresses(rs) && DistinctAddresses(more)
    requires forall r :: r in more ==> r.inputAddress.value !in Addresses(rs)
    ensures DistinctAddresses(rs + more)
  {
    var all := rs + more;
    forall i, j | 0 <= i < j < |all| ensures all[i].inputAddress != all[j].inputAddress {
      if i < |rs| <= j {
        assert all[j] == more[j - |rs|] && all[j] in more;
        assert Good(c, rs[i]) && Good(c, more[j - |rs|]);
        AddressInAddresses(rs, i);
      } else if |rs| <= i {
        assert all[i] == more[i - |rs|] && all[j] == more[j - |rs|];
      }
    }
  }

  /** A cut behind the old log leaves all of its records complete. */
  lemma EarlierRecordsComplete(c: Codec, rs: seq<Report>, more: seq<Report>, n: nat, j: nat, k: nat)
    requires CutIs(c, rs + more, k, n, j) && Utf8Len(Emit(c, rs)) <= k
    ensures |rs| <= n
  {
    hide Emit, Utf8Len;
    if n < |rs| {
      var all := rs + more;
      assert all[..n + 1] == rs[..n + 1];
      assert all[..n + 1] == all[..n] + [all[n]];
      LineLength(c, all[..n], all[n]);
      assert rs == rs[..n + 1] + rs[n + 1..];
      EmitConcat(c, rs[..n + 1], rs[n + 1..]);
      Utf8LenConcat(Emit(c, rs[..n + 1]), Emit(c, rs[n + 1..]));
    }
  }

  lemma LineLength(c: Codec, rs: seq<Report>, r: Report)
    ensures Utf8Len(Emit(c, rs + [r])) == Utf8Len(Emit(c, rs)) + Utf8Len(Line(c, r))
  {
    EmitConcat(c, rs, [r]);
    Empties(Line(c, r));
    Utf8LenConcat(Emit(c, rs), Line(c, r));
  }

  /**
   Over every history of crashed and resumed runs: each log is exactly the lines of some records
   with pairwise distinct input addresses, and extends the log before it.
   */
  lemma {:induction false} HistoryKeepsRecords(c: Codec, logs: seq<string>, rounds: seq<Round>)
      returns (held: seq<seq<Report>>)
    requires History(c, logs, rounds)
    ensures HeldBy(c, logs, rounds, held)
    decreases |rounds|
  {
    hide Ran, NextLog, Scan, Holds;
    if rounds == [] {
      held := [[]];
      NewLogHoldsNothing(c);
    } else {
      var n := |rounds| - 1;
      var earlier := HistoryKeepsRecords(c, logs[..n + 1], rounds[..n]);
      var after := RoundKeeps(c, logs[n], rounds[n], earlier[n]);
      held := earlier + [after];
      assert held[..n + 1] == earlier;
    }
  }

  lemma NewLogHoldsNothing(c: Codec)
    ensures Holds(c, "", [])
  {
  }

  /** A record credited in one log is at the same place in every later one. */
  lemma {:induction false} CreditedIsNeverLost(c: Codec, logs: seq<string>, rounds: seq<Round>, held: seq<seq<Report>>,
                                               i: nat, j: nat)
    requires HeldBy(c, logs, rounds, held) && i <= j < |held|
    ensures held[i] <= held[j]
    ensures Holds(c, logs[j], held[j])
    decreases |rounds|
  {
    var n := |rounds|;
    if i < n {
      CreditedIsNeverLost(c, logs[..n], rounds[..n - 1], held[..n], i, if j < n then j else n - 1);
    }
  }

  // ---- The local machine has several addresses

  /** The address the local machine is scanned under in a round, credited or not. */
  function FirstLocal(round: Round): Option<string> {
    var local := Filter(Hosts(round), h => round.isLocal(h));
    if local == [] then None else Some(local[0])
  }

  /** It is scanned unless that very address is credited: credit for another of its names does not count. */
  lemma LocalScanExactly(round: Round, done: set<string>)
    ensures LocalToScan(round, done) != [] <==> FirstLocal(round).Some? && FirstLocal(round).value !in done
  {
  }

  /** With `localhost` in the log the machine is scanned, and recorded, once more as `127.0.0.1`. */
  lemma OtherAliasIsScanned(round: Round)
    requires round.given == ["127.0.0.1", "localhost"] && round.isLocal("127.0.0.1") && round.isLocal("localhost")
    ensures LocalToScan(round, {"localhost"}) == ["127.0.0.1"]
  {
    var x, y := "127.0.0.1", "localhost";
    assert x[0] == '1' && y[0] == 'l';
    assert [x, y][..1] == [x];
    assert FirstOccurrences([x]) == [x];
    assert FirstOccurrences([x, y]) == [x] + [y] == [x, y];
    var local := (h: string) => round.isLocal(h);
    assert Filter([x], local) == [x];
    assert Filter([x, y], local) == [x] + [y] == [x, y];
  }

  /** Every round knows the local machine by the same names and lists the same one of them first. */
  ghost predicate OneLocalAddress(rounds: seq<Round>, isLocal: string -> bool, first: string) {
    forall i :: 0 <= i < |rounds| ==> rounds[i].isLocal == isLocal && (FirstLocal(rounds[i]).Some? ==> FirstLocal(rounds[i]).value == first)
  }

  ghost predicate LocalIs(rs: seq<Report>, isLocal: string -> bool, first: string) {
    forall r :: r in rs && r.inputAddress.Some? && isLocal(r.inputAddress.value) ==> r.inputAddress.value == first
  }

  lemma ReportingLocalIs(round: Round, done: set<string>, first: string)
    requires Reporting(round, done).Some? && (FirstLocal(round).Some? ==> FirstLocal(round).value == first)
    ensures forall h :: h in Reporting(round, done).value && round.isLocal(h) ==> h == first
  {
    hide RemoteToScan, Named, Filter, Admission.After;
    var remote := RemoteToScan(round, done);
    var end := Admission.After(|remote|, round.max, round.events);
    ToScanIsNew(round, done);
    Admission.ReportedBelow(|remote|, round.max, round.events);
    NamedFacts(remote, end.value.reported);
  }

  lemma RanLocalIs(c: Codec, log: string, round: Round, first: string)
    requires Ran(c, log, round) && (FirstLocal(round).Some? ==> FirstLocal(round).value == first)
    ensures LocalIs(Offered(round.items), round.isLocal, first)
  {
    hide Scan, Offered, Stream, SubSequence, Reporting, FirstLocal;
    var done := Addresses(Scan(c, Disk(log, 0)).value.records);
    ReportingLocalIs(round, done, first);
    SubSequenceFacts(round.sent, Reporting(round, done).value);
    OfferedFacts(round.items);
    forall r | r in Offered(round.items) && r.inputAddress.Some? && round.isLocal(r.inputAddress.value)
      ensures r.inputAddress.value == first
    {
      var x :| x in round.items && x.report == r && !x.attempt.Unserializable?;
      var i :| 0 <= i < |round.items| && round.items[i] == x;
      assert round.sent[i] in round.sent;
    }
  }

  /** Over a history in which the first local name stays the same, the local machine is recorded once at most. */
  lemma {:induction false} LocalMachineOnce(c: Codec, logs: seq<string>, rounds: seq<Round>, held: seq<seq<Report>>,
                                            isLocal: string -> bool, first: string)
    requires History(c, logs, rounds) && HeldBy(c, logs, rounds, held) && OneLocalAddress(rounds, isLocal, first)
    ensures LocalIs(held[|rounds|], isLocal, first)
    ensures forall i, j :: 0 <= i < j < |held[|rounds|]| ==>
      !(AtLocal(held[|rounds|][i], isLocal) && AtLocal(held[|rounds|][j], isLocal))
    decreases |rounds|
  {
    hide Ran, NextLog, FirstLocal;
    var n := |rounds|;
    if n > 0 {
      LocalMachineOnce(c, logs[..n], rounds[..n - 1], held[..n], isLocal, first);
      RanLocalIs(c, logs[n - 1], rounds[n - 1], first);
      PrefixLocalIs(held[n], held[n - 1], Offered(rounds[n - 1].items), isLocal, first);
    }
    OnceByAddress(c, held[n], isLocal, first);
  }

  predicate AtLocal(r: Report, isLocal: string -> bool) { r.inputAddress.Some? && isLocal(r.inputAddress.value) }

  lemma PrefixLocalIs(rs: seq<Report>, a: seq<Report>, b: seq<Report>, isLocal: string -> bool, first: string)
    requires LocalIs(a, isLocal, first) && LocalIs(b, isLocal, first) && rs <= a + b
    ensures LocalIs(rs, isLocal, first)
  {
    forall r | r in rs ensures r in a || r in b {
      assert r in a + b;
    }
  }

  lemma OnceByAddress(c: Codec, rs: seq<Report>, isLocal: string -> bool, first: string)
    requires LocalIs(rs, isLocal, first) && DistinctAddresses(rs)
    ensures forall i, j :: 0 <= i < j < |rs| ==> !(AtLocal(rs[i], isLocal) && AtLocal(rs[j], isLocal))
  {
    forall i, j | 0 <= i < j < |rs| ensures !(AtLocal(rs[i], isLocal) && AtLocal(rs[j], isLocal)) {
      assert rs[i] in rs && rs[j] in rs;
    }
  }

  // ---- Which addresses report

  /** The remote hosts to scan: those given, neither local nor credited, each once, in the order they were given. */
  lemma RemoteExactly(round: Round, done: set<string>)
    ensures var remote := RemoteToScan(round, done);
            && Distinct(remote)
            && (forall h :: h in remote <==> h in round.given && !round.isLocal(h) && h !in done)
            && (forall i, j :: 0 <= i < j < |remote| ==> FirstAt(round.given, remote[i]) < FirstAt(round.given, remote[j]))
  {
    hide FirstOccurrences, Filter, FirstAt;
    var hosts := Hosts(round);
    var away := Filter(hosts, h => !round.isLocal(h));
    FirstOccurrencesFacts(round.given);
    FilterFacts(hosts, h => !round.isLocal(h));
    FilterFacts(away, h => h !in done);
    FilterKeepsOrder(round.given, hosts, h => !round.isLocal(h));
    FilterKeepsOrder(round.given, away, h => h !in done);
  }

  ghost predicate InOrderOf(given: seq<string>, s: seq<string>) {
    forall i, j :: 0 <= i < j < |s| ==> FirstAt(given, s[i]) < FirstAt(given, s[j])
  }

  lemma {:induction false} FilterKeepsOrder(given: seq<string>, s: seq<string>, keep: string -> bool)
    requires InOrderOf(given, s)
    ensures InOrderOf(given, Filter(s, keep))
    decreases |s|
  {
    hide FirstAt, InOrderOf;
    if s != [] {
      var n := |s| - 1;
      LastInOrder(given, s);
      FilterKeepsOrder(given, s[..n], keep);
      FilterFacts(s[..n], keep);
      AppendInOrder(given, Filter(s[..n], keep), s[n]);
      Empties(Filter(s[..n], keep));
    } else {
      NoneInOrder(given);
    }
  }

  lemma NoneInOrder(given: seq<string>)
    ensures InOrderOf(given, [])
  {
  }

  lemma LastInOrder(given: seq<string>, s: seq<string>)
    requires s != [] && InOrderOf(given, s)
    ensures var n := |s| - 1;
            InOrderOf(given, s[..n]) && forall h :: h in s[..n] ==> FirstAt(given, h) < FirstAt(given, s[n])
  {
    hide FirstAt;
  }

  lemma AppendInOrder(given: seq<string>, s: seq<string>, last: string)
    requires InOrderOf(given, s)
    ensures (forall h :: h in s ==> FirstAt(given, h) < FirstAt(given, last)) ==> InOrderOf(given, s + [last])
  {
    hide FirstAt;
  }

  /**
   By the events of the round alone: a remote address reports exactly if it is to be scanned, its
   result was taken and its task returned a report; a local one exactly if it is the first local
   address given, not credited, and the local scan came to a report.
   */
  lemma ReportingExactly(round: Round, done: set<string>, a: string)
    requires Reporting(round, done).Some?
    ensures var remote := RemoteToScan(round, done);
            a in Reporting(round, done).value <==>
              if round.isLocal(a) then round.localScanned && FirstLocal(round) == Some(a)
              else exists i: nat :: i < |remote| && remote[i] == a && i in Admission.Joined(round.events)
                                    && Admission.Completes(i, true) in round.events
  {
    hide Admission.After, RemoteToScan, Filter, Named;
    var remote := RemoteToScan(round, done);
    var end := Admission.After(|remote|, round.max, round.events);
    Admission.ReportedBelow(|remote|, round.max, round.events);
    Admission.ReportedExactly(|remote|, round.max, round.events);
    RemoteExactly(round, done);
    var lead, tail := if round.localScanned then LocalToScan(round, done) else [], Named(remote, end.value.reported);
    assert a in lead + tail <==> a in lead || a in tail;
    NamedExactly(remote, end.value.reported, a);
    ToScanIsNew(round, done);
    if a in tail {
      assert a in remote;
    }
  }

  lemma NamedExactly(hosts: seq<string>, numbers: seq<nat>, a: string)
    requires forall i :: 0 <= i < |numbers| ==> numbers[i] < |hosts|
    ensures a in Named(hosts, numbers) <==> exists i: nat :: i < |hosts| && hosts[i] == a && i in numbers
  {
    var named := Named(hosts, numbers);
    if a in named {
      var k :| 0 <= k < |named| && named[k] == a;
      assert numbers[k] in numbers;
    }
    if i: nat :| i < |hosts| && hosts[i] == a && i in numbers {
      var k :| 0 <= k < |numbers| && numbers[k] == i;
      assert named[k] == a;
    }
  }

  /** A round that ran to its end uninterrupted brings back every remote host whose task returned a report. */
  lemma UninterruptedRoundReports(round: Round, done: set<string>)
    requires Reporting(round, done).Some? && round.max >= 1 && Admission.Interrupt !in round.events
    requires Admission.After(|RemoteToScan(round, done)|, round.max, round.events).value.phase.Exited?
    ensures var remote := RemoteToScan(round, done);
            forall i :: 0 <= i < |remote| ==>
              (remote[i] in Reporting(round, done).value <==> Admission.Completes(i, true) in round.events)
  {
    hide Admission.After, RemoteToScan, Reporting;
    var remote := RemoteToScan(round, done);
    RemoteExactly(round, done);
    var end := EventsRan(round, done);
    Admission.ReportedExactly(|remote|, round.max, round.events);
    Admission.ExitReportsExactly(|remote|, round.max, round.events);
    forall i | 0 <= i < |remote|
      ensures remote[i] in Reporting(round, done).value <==> Admission.Completes(i, true) in round.events
    {
      assert remote[i] in remote;
      ReportingExactly(round, done, remote[i]);
      if Admission.Completes(i, true) in round.events {
        assert i in end.reported;
      }
    }
  }

  lemma EventsRan(round: Round, done: set<string>) returns (end: Admission.State)
    requires Reporting(round, done).Some?
    ensures Admission.After(|RemoteToScan(round, done)|, round.max, round.events) == Some(end)
  {
    end := Admission.After(|RemoteToScan(round, done)|, round.max, round.events).value;
  }

  /** The first local address is the first of the given ones that is local. */
  lemma FirstLocalExactly(round: Round)
    ensures FirstLocal(round).None? <==> forall h :: h in round.given ==> !round.isLocal(h)
    ensures FirstLocal(round).Some? ==>
      var a := FirstLocal(round).value;
      a in round.given && round.isLocal(a)
      && forall h :: h in round.given && round.isLocal(h) ==> FirstAt(round.given, a) <= FirstAt(round.given, h)
  {
    hide FirstOccurrences, Filter, FirstAt;
    var hosts := Hosts(round);
    var local := Filter(hosts, h => round.isLocal(h));
    FirstOccurrencesFacts(round.given);
    FilterFacts(hosts, h => round.isLocal(h));
    FilterKeepsOrder(round.given, hosts, h => round.isLocal(h));
    if local != [] {
      assert local[0] in local;
      forall h | h in round.given && round.isLocal(h) ensures FirstAt(round.given, local[0]) <= FirstAt(round.given, h) {
        var i :| 0 <= i < |local| && local[i] == h;
      }
    } else {
      forall h | h in round.given ensures !round.isLocal(h) {
        assert h !in local;
      }
    }
  }
}
