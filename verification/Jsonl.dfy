/**
 The append-only JSONL report log: what the writer leaves on disk, how a later run reads it back,
 and the repair that lets it append. Positions are byte offsets, so a crash can also fall inside a
 multi-byte character.
 */
module Jsonl {
  import opened Wrappers
  import opened Text
  import opened Reports
  import opened Lists

  /** Serialisation stays abstract. `decode` is applied to a trimmed line. */
  datatype Codec = Codec(encode: Report -> string, decode: string -> Option<Report>)

  /**
   What compact JSON gives: one line from `{` to `}`, decoded back to its value, with no proper
   prefix that decodes. The fleet writer puts an input address on every record.
   */
  ghost predicate Good(c: Codec, r: Report) {
    var line := c.encode(r);
    && |line| >= 2 && line[0] == '{' && line[|line| - 1] == '}' && '\n' !in line
    && c.decode(line) == Some(r) && r.inputAddress.Some?
    && forall k :: 0 < k < |line| ==> c.decode(line[..k]).None?
  }

  ghost predicate AllGood(c: Codec, rs: seq<Report>) { forall i :: 0 <= i < |rs| ==> Good(c, rs[i]) }

  function Line(c: Codec, r: Report): string { c.encode(r) + "\n" }

  function Emit(c: Codec, rs: seq<Report>): string {
    if rs == [] then "" else Line(c, rs[0]) + Emit(c, rs[1..])
  }

  /** A file: whole characters, then `partial` bytes of a character that was cut. */
  datatype Disk = Disk(text: string, partial: nat)

  /** The first `k` bytes of a text. */
  function CutAt(s: string, k: nat): Disk
    requires k <= Utf8Len(s)
  {
    if k == 0 then Disk("", 0)
    else if k < Utf8Width(s[0]) then Disk("", k)
    else
      var rest := CutAt(s[1..], k - Utf8Width(s[0]));
      Disk([s[0]] + rest.text, rest.partial)
  }

  function Size(d: Disk): nat { Utf8Len(d.text) + d.partial }

  /** The first `k` bytes of a file. */
  function CutDisk(d: Disk, k: nat): Disk
    requires k <= Size(d)
  {
    if k <= Utf8Len(d.text) then CutAt(d.text, k) else Disk(d.text, k - Utf8Len(d.text))
  }

  // ---- Reading the log back

  datatype ScanError = ReadError(line: nat) | Invalid(line: nat) | Torn(line: nat, start: nat) | NoAddress(line: nat)

  /** The records in file order, and whether the last one still lacks its newline. */
  datatype Scanned = Scanned(records: seq<Report>, needsNewline: bool)

  function Credit(c: Codec, rec: string, n: nat, invalid: ScanError): Result<seq<Report>, ScanError> {
    if rec == "" then Ok([])
    else match c.decode(rec)
      case None => Err(invalid)
      case Some(r) => if r.inputAddress.None? then Err(NoAddress(n)) else Ok([r])
  }

  /** The lines that end in a newline, newline included. */
  function CompleteLines(s: string): seq<string> {
    var nl := IndexOf(s, '\n');
    if nl == |s| then [] else [s[..nl + 1]] + CompleteLines(s[nl + 1..])
  }

  /** What follows the last newline. */
  function LastPiece(s: string): string {
    var nl := IndexOf(s, '\n');
    if nl == |s| then s else LastPiece(s[nl + 1..])
  }

  function Concat(lines: seq<string>): string {
    if lines == [] then "" else lines[0] + Concat(lines[1..])
  }

  /** The complete lines, the first of which is line `n` of the file. */
  function ScanLines(c: Codec, lines: seq<string>, n: nat): Result<seq<Report>, ScanError> {
    if lines == [] then Ok([])
    else After(Credit(c, Trim(lines[0]), n, Invalid(n)), ScanLines(c, lines[1..], n + 1))
  }

  function After(first: Result<seq<Report>, ScanError>, rest: Result<seq<Report>, ScanError>): Result<seq<Report>, ScanError> {
    if first.Err? then first else if rest.Err? then rest else Ok(first.value + rest.value)
  }

  /** What follows the last newline: line `n`, starting at byte `start`. */
  function ScanTail(c: Codec, tail: string, partial: nat, n: nat, start: nat): Result<seq<Report>, ScanError> {
    if partial > 0 then Err(ReadError(n)) else Credit(c, Trim(tail), n, Torn(n, start))
  }

  function Scan(c: Codec, d: Disk): Result<Scanned, ScanError> {
    var lines, tail := CompleteLines(d.text), LastPiece(d.text);
    var all := After(ScanLines(c, lines, 1), ScanTail(c, tail, d.partial, |lines| + 1, Utf8Len(Concat(lines))));
    if all.Err? then Err(all.error) else Ok(Scanned(all.value, tail != ""))
  }

  /** The input addresses the records were written for. */
  function Addresses(rs: seq<Report>): set<string> {
    if rs == [] then {}
    else Addresses(rs[..|rs| - 1]) +
         match rs[|rs| - 1].inputAddress { case Some(a) => {a} case None => {} }
  }

  // ---- What a resume must answer, line by line

  /** A line that is not blank holds a report for an input address. */
  ghost predicate Readable(c: Codec, line: string) {
    Blank(line) || (c.decode(Trim(line)).Some? && c.decode(Trim(line)).value.inputAddress.Some?)
  }

  /** `rs` are the reports of the lines that are not blank, in order; `at` says on which line each one is. */
  ghost predicate Positions(c: Codec, lines: seq<string>, rs: seq<Report>, at: seq<nat>) {
    && |at| == |rs|
    && Ascending(at)
    && (forall k :: 0 <= k < |at| ==> at[k] < |lines| && !Blank(lines[at[k]]) && c.decode(Trim(lines[at[k]])) == Some(rs[k]))
    && (forall i :: 0 <= i < |lines| && !Blank(lines[i]) ==> i in at)
  }

  /** The first line that cannot be used is line `f`, counted from 0; all before it can. */
  ghost predicate FirstBad(c: Codec, lines: seq<string>, f: nat) {
    && f < |lines| && !Readable(c, lines[f])
    && forall i :: 0 <= i < f ==> Readable(c, lines[i])
  }

  /** The refusal for the first unusable line of a file with these complete lines and this rest. */
  ghost predicate Refusal(c: Codec, lines: seq<string>, tail: string, partial: nat, e: ScanError) {
    if forall i :: 0 <= i < |lines| ==> Readable(c, lines[i]) then
      var n := |lines| + 1;
      e == if partial > 0 then ReadError(n)
           else if c.decode(Trim(tail)).None? then Torn(n, Utf8Len(Concat(lines)))
           else NoAddress(n)
    else
      exists f: nat :: FirstBad(c, lines, f) && e == if c.decode(Trim(lines[f])).None? then Invalid(f + 1) else NoAddress(f + 1)
  }

  /** The whole answer for a file with these complete lines and this rest. */
  ghost predicate Answers(c: Codec, lines: seq<string>, tail: string, partial: nat,
                          records: seq<Report>, needsNewline: bool, error: Option<ScanError>) {
    var all := lines + [tail];
    && (error.None? <==> partial == 0 && forall i :: 0 <= i < |all| ==> Readable(c, all[i]))
    && (error.None? ==> (needsNewline <==> tail != "") && exists at :: Positions(c, all, records, at))
    && (error.Some? ==> Refusal(c, lines, tail, partial, error.value))
  }

  /** The streaming loop. */
  method ScanStream(c: Codec, d: Disk)
      returns (records: seq<Report>, done: set<string>, needsNewline: bool, error: Option<ScanError>)
    ensures match Scan(c, d)
            case Err(e) => error == Some(e)
            case Ok(v) =>
              error.None? && records == v.records && needsNewline == v.needsNewline && done == Addresses(v.records)
  {
    hide Scan, ScanLines, Trim, IndexOf, Utf8Len, CompleteLines, Concat, AreLines, LastPiece;
    records, done, needsNewline, error := [], {}, false, None;
    var rest := d.text;
    var n: nat, offset: nat, terminated := 0, 0, true;
    ghost var lines, tail := TextShape(c, d);
    ghost var all := ScanLines(c, lines, 1);
    EmptyPieces(c, lines);
    AfterNothing(all);
    while terminated && (rest != "" || d.partial > 0)
      invariant done == Addresses(records)
      invariant terminated ==>
        && n <= |lines| && rest == Concat(lines[n..]) + tail && offset == Utf8Len(Concat(lines[..n]))
        && all == After(Ok(records), ScanLines(c, lines[n..], n + 1))
      invariant !terminated ==> offset > 0 && all.Ok? && Scan(c, d) == Ok(Scanned(records, true))
      decreases |rest|, terminated
    {
      var nl := IndexOf(rest, '\n');
      SplitRest(lines, n, tail, rest);
      ScanRest(c, lines, n, records);
      if nl == |rest| && d.partial > 0 {
        error := Some(ReadError(n + 1));
        return;
      }
      n := n + 1;
      var start := offset;
      terminated := nl < |rest|;
      var line := if terminated then rest[..nl + 1] else rest;
      rest := if terminated then rest[nl + 1..] else "";
      var credit := Credit(c, Trim(line), n, if terminated then Invalid(n) else Torn(n, start));
      if credit.Err? {
        error := Some(credit.error);
        return;
      }
      offset := offset + Utf8Len(line);
      AddressesAppend(records, credit.value);
      records := records + credit.value;
      done := done + Addresses(credit.value);
    }
    if terminated {
      SplitRest(lines, n, tail, rest);
      ScanRest(c, lines, n, records);
      EmptyPieces(c, lines);
      Empties(records);
    }
    needsNewline := offset > 0 && !terminated;
  }

  /** The streaming loop. `records` is what it fed to the aggregator. */
  method ResumeScan(c: Codec, d: Disk)
      returns (records: seq<Report>, done: set<string>, needsNewline: bool, error: Option<ScanError>)
    ensures match Scan(c, d)
            case Err(e) => error == Some(e)
            case Ok(v) =>
              error.None? && records == v.records && needsNewline == v.needsNewline && done == Addresses(v.records)
    ensures forall lines, tail :: AreLines(lines) && '\n' !in tail && d.text == Concat(lines) + tail ==>
      Answers(c, lines, tail, d.partial, records, needsNewline, error)
    ensures error.None? ==> forall a :: a in done <==> exists k :: 0 <= k < |records| && records[k].inputAddress == Some(a)
  {
    hide Scan, Answers, AreLines, Concat, Addresses;
    records, done, needsNewline, error := ScanStream(c, d);
    AnswersAlways(c, d, records, needsNewline);
    AddressesExactly(records);
  }

  // ---- A text is its complete lines and an unterminated rest

  ghost predicate IsLine(l: string) { l != "" && l[|l| - 1] == '\n' && '\n' !in l[..|l| - 1] }

  ghost predicate AreLines(lines: seq<string>) { forall i :: 0 <= i < |lines| ==> IsLine(lines[i]) }

  lemma {:induction false} ConcatLast(lines: seq<string>, l: string)
    ensures Concat(lines + [l]) == Concat(lines) + l
    decreases |lines|
  {
    if lines == [] {
      Empties([l]);
      Empties(l);
    } else {
      DropHead(lines, [l]);
      ConcatLast(lines[1..], l);
      Assoc(lines[0], Concat(lines[1..]), l);
    }
  }

  lemma LineAtNewline(s: string)
    ensures IndexOf(s, '\n') == |s| ==> '\n' !in s
    ensures IndexOf(s, '\n') < |s| ==> IsLine(s[..IndexOf(s, '\n') + 1])
  {
    IndexOfFirst(s, '\n');
    var nl := IndexOf(s, '\n');
    if nl < |s| {
      assert s[..nl + 1][..nl] == s[..nl];
    }
  }

  lemma {:induction false} CompleteLinesAreLines(s: string)
    ensures AreLines(CompleteLines(s)) && '\n' !in LastPiece(s)
    decreases |s|
  {
    LineAtNewline(s);
    var nl := IndexOf(s, '\n');
    if nl < |s| {
      CompleteLinesAreLines(s[nl + 1..]);
    }
  }

  lemma ConcatCons(line: string, lines: seq<string>)
    ensures Concat([line] + lines) == line + Concat(lines)
  {
    assert ([line] + lines)[1..] == lines;
  }

  lemma ConcatNothing(s: string)
    ensures Concat([]) + s == s
  {
  }

  lemma {:induction false} PiecesRebuild(s: string)
    ensures s == Concat(CompleteLines(s)) + LastPiece(s)
    decreases |s|
  {
    hide IndexOf, Concat;
    var nl := IndexOf(s, '\n');
    if nl == |s| {
      ConcatNothing(s);
    } else {
      var line, more := s[..nl + 1], s[nl + 1..];
      PiecesRebuild(more);
      ConcatCons(line, CompleteLines(more));
      Assoc(line, Concat(CompleteLines(more)), LastPiece(more));
    }
  }

  lemma EmptyPieces(c: Codec, lines: seq<string>)
    ensures lines[0..] == lines && lines[..0] == [] && Utf8Len(Concat([])) == 0
    ensures forall n, start :: ScanTail(c, "", 0, n, start) == Ok([])
  {
  }

  /** The scan in terms of the lines of the file. */
  lemma TextShape(c: Codec, d: Disk) returns (lines: seq<string>, tail: string)
    ensures AreLines(lines) && '\n' !in tail && d.text == Concat(lines) + tail
    ensures Scan(c, d) ==
      var all := After(ScanLines(c, lines, 1), ScanTail(c, tail, d.partial, |lines| + 1, Utf8Len(Concat(lines))));
      if all.Err? then Err(all.error) else Ok(Scanned(all.value, tail != ""))
  {
    lines, tail := CompleteLines(d.text), LastPiece(d.text);
    CompleteLinesAreLines(d.text);
    PiecesRebuild(d.text);
  }

  lemma {:induction false} HeadLine(l: string, more: string)
    requires IsLine(l)
    ensures IndexOf(l + more, '\n') == |l| - 1
    decreases |l|
  {
    if l[0] != '\n' {
      DropHead(l, more);
      assert l[1..][..|l| - 2] == l[1..|l| - 1] && l[..|l| - 1][1..] == l[1..|l| - 1];
      HeadLine(l[1..], more);
    }
  }

  lemma RestIsTail(lines: seq<string>, tail: string)
    requires '\n' !in tail
    ensures lines[|lines|..] == [] && Concat([]) + tail == tail && lines[..|lines|] == lines
    ensures IndexOf(tail, '\n') == |tail|
  {
    Empties(tail);
    IndexOfFirst(tail, '\n');
  }

  lemma RestHasLine(lines: seq<string>, n: nat, tail: string)
    requires AreLines(lines) && n < |lines|
    ensures var rest := Concat(lines[n..]) + tail;
            && IndexOf(rest, '\n') == |lines[n]| - 1 && |lines[n]| <= |rest|
            && rest[..|lines[n]|] == lines[n] && rest[|lines[n]|..] == Concat(lines[n + 1..]) + tail
  {
    var l, more := lines[n], Concat(lines[n + 1..]);
    assert lines[n..][1..] == lines[n + 1..];
    Assoc(l, more, tail);
    HeadLine(l, more + tail);
  }

  lemma NextOffset(lines: seq<string>, n: nat)
    requires n < |lines|
    ensures Utf8Len(Concat(lines[..n + 1])) == Utf8Len(Concat(lines[..n])) + Utf8Len(lines[n])
  {
    assert lines[..n + 1] == lines[..n] + [lines[n]];
    ConcatLast(lines[..n], lines[n]);
    Utf8LenConcat(Concat(lines[..n]), lines[n]);
  }

  lemma SplitRest(lines: seq<string>, n: nat, tail: string, rest: string)
    requires AreLines(lines) && '\n' !in tail && n <= |lines| && rest == Concat(lines[n..]) + tail
    ensures var nl := IndexOf(rest, '\n');
            && (n == |lines| ==> nl == |rest| && rest == tail && lines[..n] == lines)
            && (n < |lines| ==>
                  && nl < |rest| && rest[..nl + 1] == lines[n] && rest[nl + 1..] == Concat(lines[n + 1..]) + tail
                  && Utf8Len(Concat(lines[..n + 1])) == Utf8Len(Concat(lines[..n])) + Utf8Len(lines[n]))
  {
    if n == |lines| {
      RestIsTail(lines, tail);
    } else {
      RestHasLine(lines, n, tail);
      NextOffset(lines, n);
    }
  }

  lemma ScanRest(c: Codec, lines: seq<string>, n: nat, records: seq<Report>)
    requires n <= |lines|
    ensures After(Ok(records), ScanLines(c, lines[n..], n + 1)) ==
      if n == |lines| then Ok(records)
      else
        var credit := Credit(c, Trim(lines[n]), n + 1, Invalid(n + 1));
        if credit.Err? then Err(credit.error)
        else After(Ok(records + credit.value), ScanLines(c, lines[n + 1..], n + 2))
  {
    AfterNothing(Ok(records));
    if n < |lines| {
      assert lines[n..][1..] == lines[n + 1..];
      var credit := Credit(c, Trim(lines[n]), n + 1, Invalid(n + 1));
      if credit.Ok? {
        AfterAssociates(records, credit.value, ScanLines(c, lines[n + 1..], n + 2));
      }
    }
  }

  // ---- The scan answers line by line

  lemma {:induction false} AddressesExactly(rs: seq<Report>)
    ensures forall a :: a in Addresses(rs) <==> exists k :: 0 <= k < |rs| && rs[k].inputAddress == Some(a)
    decreases |rs|
  {
    if rs != [] {
      var n := |rs| - 1;
      AddressesExactly(rs[..n]);
      forall a ensures a in Addresses(rs) <==> exists k :: 0 <= k < |rs| && rs[k].inputAddress == Some(a) {
        if k :| 0 <= k < |rs[..n]| && rs[..n][k].inputAddress == Some(a) {
          assert rs[k].inputAddress == Some(a);
        }
        if k :| 0 <= k < |rs| && rs[k].inputAddress == Some(a) {
          assert k < n ==> rs[..n][k].inputAddress == Some(a);
        }
      }
    }
  }

  lemma SkipBlank(c: Codec, l: string, lines: seq<string>, rs: seq<Report>, at: seq<nat>)
    requires Blank(l) && Positions(c, lines, rs, at)
    ensures Positions(c, [l] + lines, rs, Shift(at))
  {
    hide Blank, Trim, Ascending;
    var all := [l] + lines;
    ShiftAscends(at);
    forall k | 0 <= k < |at| ensures all[Shift(at)[k]] == lines[at[k]] {
    }
    forall i | 0 <= i < |all| && !Blank(all[i]) ensures i in Shift(at) {
      assert all[i] == lines[i - 1];
      ShiftedIn(at, i - 1);
    }
  }

  lemma TakeReport(c: Codec, l: string, lines: seq<string>, r: Report, rs: seq<Report>, at: seq<nat>)
    requires !Blank(l) && c.decode(Trim(l)) == Some(r) && Positions(c, lines, rs, at)
    ensures Positions(c, [l] + lines, [r] + rs, [0] + Shift(at))
  {
    hide Blank, Trim, Ascending;
    var all, places, reports := [l] + lines, [0] + Shift(at), [r] + rs;
    ShiftAscends(at);
    forall k | 0 <= k < |places|
      ensures places[k] < |all| && !Blank(all[places[k]]) && c.decode(Trim(all[places[k]])) == Some(reports[k])
    {
      if k > 0 {
        assert places[k] == at[k - 1] + 1 && all[places[k]] == lines[at[k - 1]] && reports[k] == rs[k - 1];
      }
    }
    forall i | 0 <= i < |all| && !Blank(all[i]) ensures i in places {
      if i > 0 {
        assert all[i] == lines[i - 1];
        ShiftedIn(at, i - 1);
      } else {
        assert places[0] == i;
      }
    }
  }

  lemma CreditExactly(c: Codec, line: string, n: nat, invalid: ScanError)
    ensures var credit := Credit(c, Trim(line), n, invalid);
            && (credit.Ok? <==> Readable(c, line))
            && (Readable(c, line) && !Blank(line) ==> c.decode(Trim(line)).Some?)
            && (credit.Ok? ==> credit.value == if Blank(line) then [] else [c.decode(Trim(line)).value])
            && (credit.Err? ==> credit.error == if c.decode(Trim(line)).None? then invalid else NoAddress(n))
  {
    hide Trim;
    BlankIsTrimmedAway(line);
  }

  lemma {:induction false} ScanLinesExactly(c: Codec, lines: seq<string>, n: nat) returns (at: seq<nat>, f: nat)
    ensures var scan := ScanLines(c, lines, n);
            && (scan.Ok? <==> forall i :: 0 <= i < |lines| ==> Readable(c, lines[i]))
            && (scan.Ok? ==> Positions(c, lines, scan.value, at))
            && (scan.Err? ==>
                  && FirstBad(c, lines, f)
                  && scan.error == if c.decode(Trim(lines[f])).None? then Invalid(n + f) else NoAddress(n + f))
    decreases |lines|
  {
    hide Trim, Readable, Credit, Blank, Positions;
    if lines == [] {
      at, f := [], 0;
      NoPositions(c);
    } else {
      var l, rest := lines[0], lines[1..];
      assert lines == [l] + rest;
      CreditExactly(c, l, n, Invalid(n));
      at, f := ScanLinesExactly(c, rest, n + 1);
      var scan := ScanLines(c, rest, n + 1);
      ReadableCons(c, l, rest);
      if !Readable(c, l) {
        f := 0;
      } else if scan.Err? {
        f := f + 1;
      } else if Blank(l) {
        SkipBlank(c, l, rest, scan.value, at);
        at := Shift(at);
        Empties(scan.value);
      } else {
        TakeReport(c, l, rest, c.decode(Trim(l)).value, scan.value, at);
        at := [0] + Shift(at);
      }
    }
  }

  lemma NoPositions(c: Codec)
    ensures Positions(c, [], [], [])
  {
  }

  lemma ReadableCons(c: Codec, l: string, rest: seq<string>)
    ensures (forall i :: 0 <= i < |[l] + rest| ==> Readable(c, ([l] + rest)[i]))
       <==> Readable(c, l) && forall i :: 0 <= i < |rest| ==> Readable(c, rest[i])
    ensures forall f: nat :: FirstBad(c, rest, f) && Readable(c, l) ==> FirstBad(c, [l] + rest, f + 1)
    ensures !Readable(c, l) ==> FirstBad(c, [l] + rest, 0)
  {
    hide Readable;
    var all := [l] + rest;
    assert all[0] == l;
    assert forall i :: 0 <= i < |rest| ==> all[i + 1] == rest[i];
    assert forall i :: 0 < i < |all| ==> all[i] == rest[i - 1];
  }

  lemma LastBlank(c: Codec, lines: seq<string>, tail: string, rs: seq<Report>, at: seq<nat>)
    requires Blank(tail) && Positions(c, lines, rs, at)
    ensures Positions(c, lines + [tail], rs, at)
  {
    hide Blank, Trim;
  }

  lemma LastReport(c: Codec, lines: seq<string>, tail: string, rs: seq<Report>, r: Report, at: seq<nat>)
    requires !Blank(tail) && c.decode(Trim(tail)) == Some(r) && Positions(c, lines, rs, at)
    ensures Positions(c, lines + [tail], rs + [r], at + [|lines|])
  {
    hide Blank, Trim;
    var all, places := lines + [tail], at + [|lines|];
    forall i | 0 <= i < |all| && !Blank(all[i]) ensures i in places {
      if i < |lines| {
        assert i in at;
      } else {
        assert places[|at|] == i;
      }
    }
  }

  /** A text has these complete lines and this rest if it is put together from them. */
  lemma {:induction false} PiecesAreUnique(lines: seq<string>, tail: string)
    requires AreLines(lines) && '\n' !in tail
    ensures CompleteLines(Concat(lines) + tail) == lines && LastPiece(Concat(lines) + tail) == tail
    decreases |lines|
  {
    hide IndexOf;
    if lines == [] {
      RestIsTail(lines, tail);
    } else {
      RestHasLine(lines, 0, tail);
      EmptyPieces0(lines);
      PiecesAreUnique(lines[1..], tail);
    }
  }

  lemma EmptyPieces0(lines: seq<string>)
    ensures lines[0..] == lines
  {
  }

  lemma ReadableSnoc(c: Codec, lines: seq<string>, tail: string)
    ensures (forall i :: 0 <= i < |lines + [tail]| ==> Readable(c, (lines + [tail])[i]))
       <==> Readable(c, tail) && forall i :: 0 <= i < |lines| ==> Readable(c, lines[i])
  {
    hide Readable;
    var all := lines + [tail];
    assert all[|lines|] == tail;
    assert forall i :: 0 <= i < |lines| ==> all[i] == lines[i];
  }

  /** A scan gives this answer; with an error the records and the newline do not matter. */
  ghost predicate ScanAnswers(c: Codec, lines: seq<string>, tail: string, partial: nat, scan: Result<Scanned, ScanError>,
                              rs: seq<Report>, nn: bool) {
    match scan
    case Err(e) => Answers(c, lines, tail, partial, rs, nn, Some(e))
    case Ok(v) => Answers(c, lines, tail, partial, v.records, v.needsNewline, None)
  }

  lemma ScanAnswersLines(c: Codec, lines: seq<string>, tail: string, partial: nat, rs: seq<Report>, nn: bool)
    requires AreLines(lines) && '\n' !in tail
    ensures ScanAnswers(c, lines, tail, partial, Scan(c, Disk(Concat(lines) + tail, partial)), rs, nn)
  {
    hide Trim, Readable, Credit, Blank, Positions, Utf8Len, CompleteLines, LastPiece, Concat, ScanLines, FirstBad;
    PiecesAreUnique(lines, tail);
    var n := |lines| + 1;
    CreditExactly(c, tail, n, Torn(n, Utf8Len(Concat(lines))));
    ReadableSnoc(c, lines, tail);
    var at, f := ScanLinesExactly(c, lines, 1);
    var scan := ScanLines(c, lines, 1);
    if scan.Ok? && partial == 0 && Readable(c, tail) {
      if Blank(tail) {
        LastBlank(c, lines, tail, scan.value, at);
        Empties(scan.value);
      } else {
        LastReport(c, lines, tail, scan.value, c.decode(Trim(tail)).value, at);
      }
    }
  }

  lemma AnswersAlways(c: Codec, d: Disk, rs: seq<Report>, nn: bool)
    ensures forall lines, tail :: AreLines(lines) && '\n' !in tail && d.text == Concat(lines) + tail ==>
      ScanAnswers(c, lines, tail, d.partial, Scan(c, d), rs, nn)
  {
    hide Scan, ScanAnswers, Concat, AreLines;
    forall lines, tail | AreLines(lines) && '\n' !in tail && d.text == Concat(lines) + tail
      ensures ScanAnswers(c, lines, tail, d.partial, Scan(c, d), rs, nn)
    {
      ScanAnswersLines(c, lines, tail, d.partial, rs, nn);
    }
  }

  lemma AfterNothing(s: Result<seq<Report>, ScanError>)
    ensures After(Ok([]), s) == s
    ensures After(s, Ok([])) == s
  {
    if s.Ok? {
      assert [] + s.value == s.value && s.value + [] == s.value;
    }
  }

  lemma AfterAssociates(a: seq<Report>, b: seq<Report>, s: Result<seq<Report>, ScanError>)
    ensures After(Ok(a), After(Ok(b), s)) == After(Ok(a + b), s)
  {
    if s.Ok? {
      assert a + (b + s.value) == (a + b) + s.value;
    }
  }

  lemma {:induction false} IndexOfNewline(line: string, rest: string)
    requires '\n' !in line
    ensures IndexOf(line + "\n" + rest, '\n') == |line|
    decreases |line|
  {
    var s := line + "\n" + rest;
    if line != "" {
      assert s[1..] == line[1..] + "\n" + rest;
      IndexOfNewline(line[1..], rest);
    }
  }

  lemma {:induction false} Utf8LenConcat(a: string, b: string)
    ensures Utf8Len(a + b) == Utf8Len(a) + Utf8Len(b)
    decreases |a|
  {
    if a == "" {
      assert a + b == b;
    } else {
      assert (a + b)[1..] == a[1..] + b;
      Utf8LenConcat(a[1..], b);
    }
  }

  lemma {:induction false} AddressesAppend(a: seq<Report>, b: seq<Report>)
    ensures Addresses(a + b) == Addresses(a) + Addresses(b)
    decreases |b|
  {
    if b == [] {
      assert a + b == a;
    } else {
      assert (a + b)[..|a + b| - 1] == a + b[..|b| - 1];
      AddressesAppend(a, b[..|b| - 1]);
    }
  }

  // ---- A crash can cut the log at any byte

  lemma {:induction false} CutOfConcat(a: string, b: string, j: nat)
    requires j <= Utf8Len(b)
    ensures Utf8Len(a + b) == Utf8Len(a) + Utf8Len(b)
    ensures CutAt(a + b, Utf8Len(a) + j) == Disk(a + CutAt(b, j).text, CutAt(b, j).partial)
    decreases |a|
  {
    Utf8LenConcat(a, b);
    var cut := CutAt(b, j);
    if a == "" {
      Empties(b);
      Empties(cut.text);
    } else {
      DropHead(a, b);
      CutOfConcat(a[1..], b, j);
      Assoc([a[0]], a[1..], cut.text);
    }
  }

  lemma {:induction false} CutIsPrefix(s: string, j: nat)
    requires j <= Utf8Len(s)
    ensures var d := CutAt(s, j);
            d.text <= s && Utf8Len(d.text) + d.partial == j && (d.partial > 0 ==> d.text < s)
    decreases |s|
  {
    if j > 0 && j >= Utf8Width(s[0]) {
      CutIsPrefix(s[1..], j - Utf8Width(s[0]));
      assert s == [s[0]] + s[1..];
    }
  }

  /** A cut of a cut is a cut. */
  lemma {:induction false} CutTwice(s: string, k: nat, j: nat)
    requires j <= k <= Utf8Len(s)
    ensures Size(CutAt(s, k)) == k && CutDisk(CutAt(s, k), j) == CutAt(s, j)
    decreases |s|
  {
    CutIsPrefix(s, k);
    if k > 0 && k >= Utf8Width(s[0]) {
      var w := Utf8Width(s[0]);
      var rest := CutAt(s[1..], k - w);
      var d := CutAt(s, k);
      assert d.text[0] == s[0] && d.text[1..] == rest.text;
      assert Utf8Len(d.text) == w + Utf8Len(rest.text);
      if j >= w {
        CutTwice(s[1..], k - w, j - w);
      }
    }
  }

  lemma {:induction false} CutAtEnd(s: string)
    ensures CutAt(s, Utf8Len(s)) == Disk(s, 0)
    decreases |s|
  {
    if s != "" {
      CutAtEnd(s[1..]);
      assert s == [s[0]] + s[1..];
    }
  }

  /** A cut short of the end leaves a proper prefix. */
  lemma CutInside(s: string, j: nat)
    requires j < Utf8Len(s)
    ensures CutAt(s, j).text < s
    ensures j > 0 && CutAt(s, j).partial == 0 ==> CutAt(s, j).text != ""
  {
    CutIsPrefix(s, j);
  }

  // ---- Reading a log that was cut

  lemma TrimOfRecord(c: Codec, r: Report)
    requires Good(c, r)
    ensures Trim(Line(c, r)) == c.encode(r) && Trim(c.encode(r)) == c.encode(r)
  {
    var line := c.encode(r);
    assert (line + "\n")[..|line|] == line;
    assert TrimStart(line + "\n") == line + "\n";
    assert TrimEnd(line + "\n") == TrimEnd(line);
  }

  function LineList(c: Codec, rs: seq<Report>): seq<string> {
    if rs == [] then [] else [Line(c, rs[0])] + LineList(c, rs[1..])
  }

  lemma {:induction false} LinesOfEmit(c: Codec, rs: seq<Report>, tail: string)
    requires AllGood(c, rs) && '\n' !in tail
    ensures CompleteLines(Emit(c, rs) + tail) == LineList(c, rs) && |LineList(c, rs)| == |rs|
    ensures LastPiece(Emit(c, rs) + tail) == tail && Concat(LineList(c, rs)) == Emit(c, rs)
    decreases |rs|
  {
    if rs == [] {
      assert Emit(c, rs) + tail == tail;
      IndexOfFirst(tail, '\n');
    } else {
      var line, more := c.encode(rs[0]), Emit(c, rs[1..]);
      var text := Emit(c, rs) + tail;
      assert Good(c, rs[0]);
      assert text == line + "\n" + (more + tail);
      IndexOfNewline(line, more + tail);
      assert text[..|line| + 1] == Line(c, rs[0]) && text[|line| + 1..] == more + tail;
      LinesOfEmit(c, rs[1..], tail);
    }
  }

  lemma {:induction false} ScanLineList(c: Codec, rs: seq<Report>, n: nat)
    requires AllGood(c, rs)
    ensures ScanLines(c, LineList(c, rs), n) == Ok(rs)
    decreases |rs|
  {
    if rs != [] {
      assert Good(c, rs[0]);
      TrimOfRecord(c, rs[0]);
      ScanLineList(c, rs[1..], n + 1);
      assert LineList(c, rs)[1..] == LineList(c, rs[1..]);
      assert [rs[0]] + rs[1..] == rs;
    }
  }

  /** Emitted lines followed by an unterminated rest: every record, then whatever the rest yields. */
  lemma ScanLog(c: Codec, rs: seq<Report>, tail: string, partial: nat)
    requires AllGood(c, rs) && '\n' !in tail
    ensures var t := ScanTail(c, tail, partial, |rs| + 1, Utf8Len(Emit(c, rs)));
            Scan(c, Disk(Emit(c, rs) + tail, partial))
              == if t.Err? then Err(t.error) else Ok(Scanned(rs + t.value, tail != ""))
  {
    LinesOfEmit(c, rs, tail);
    ScanLineList(c, rs, 1);
  }

  lemma {:induction false} TrimOfPrefix(p: string)
    requires p != "" && p[0] == '{'
    ensures Trim(p) <= p && Trim(p) != "" && Trim(p)[0] == '{'
    decreases |p|
  {
    assert TrimStart(p) == p;
    if IsSpace(p[|p| - 1]) {
      assert |p| > 1;
      TrimOfPrefix(p[..|p| - 1]);
      assert TrimStart(p[..|p| - 1]) == p[..|p| - 1];
    }
  }

  /** The bytes left of a cut line: a proper prefix of the record, or the record without its newline. */
  lemma CutRecordText(c: Codec, r: Report, j: nat)
    requires Good(c, r) && j < Utf8Len(Line(c, r))
    ensures Utf8Len(Line(c, r)) == Utf8Len(c.encode(r)) + 1
    ensures var d := CutAt(Line(c, r), j);
            && d.text <= c.encode(r)
            && (d.partial > 0 ==> 0 < j < Utf8Len(c.encode(r)))
            && (j == Utf8Len(c.encode(r)) ==> d == Disk(c.encode(r), 0))
            && (0 < j < Utf8Len(c.encode(r)) && d.partial == 0 ==> d.text != "" && d.text != c.encode(r))
  {
    hide CutAt;
    var line := c.encode(r);
    Utf8LenConcat(line, "\n");
    CutIsPrefix(Line(c, r), j);
    CutInside(Line(c, r), j);
    if j == Utf8Len(line) {
      CutOfConcat(line, "\n", 0);
      CutAtZero("\n");
      Empties(line);
    }
  }

  lemma CutAtZero(s: string)
    ensures CutAt(s, 0) == Disk("", 0)
  {
  }

  /** The last piece of a cut log: nothing, part of a record, or a record without its newline. */
  lemma ScanCutRecord(c: Codec, r: Report, j: nat, n: nat, start: nat)
    requires Good(c, r) && j < Utf8Len(Line(c, r))
    ensures var d := CutAt(Line(c, r), j);
            && '\n' !in d.text && (j == 0 ==> d.text == "") && (j > 0 && d.partial == 0 ==> d.text != "")
            && (d.partial > 0 ==> 0 < j < Utf8Len(c.encode(r)))
            && ScanTail(c, d.text, d.partial, n, start) ==
                 if d.partial > 0 then Err(ReadError(n))
                 else if j == 0 then Ok([])
                 else if j == Utf8Len(c.encode(r)) then Ok([r])
                 else Err(Torn(n, start))
  {
    hide Utf8Len, Line;
    CutRecordText(c, r, j);
    TrimOfRecord(c, r);
    var d := CutAt(Line(c, r), j);
    if d.text != "" && d.text != c.encode(r) {
      assert d.text[0] == '{';
      TrimOfPrefix(d.text);
      assert Trim(d.text) == c.encode(r)[..|Trim(d.text)|];
    }
  }

  /** Every byte position is inside exactly one emitted line, or at the end. */
  lemma {:induction false} CutFallsInLine(c: Codec, rs: seq<Report>, k: nat) returns (n: nat, j: nat)
    requires k <= Utf8Len(Emit(c, rs))
    ensures n <= |rs| && k == Utf8Len(Emit(c, rs[..n])) + j
    ensures if n == |rs| then j == 0 else j < Utf8Len(Line(c, rs[n]))
    decreases |rs|
  {
    if rs == [] || k < Utf8Len(Line(c, rs[0])) {
      n, j := 0, k;
      assert rs[..0] == [];
    } else {
      Utf8LenConcat(Line(c, rs[0]), Emit(c, rs[1..]));
      n, j := CutFallsInLine(c, rs[1..], k - Utf8Len(Line(c, rs[0])));
      n := n + 1;
      assert rs[..n][0] == rs[0] && rs[..n][1..] == rs[1..][..n - 1];
      Utf8LenConcat(Line(c, rs[0]), Emit(c, rs[1..][..n - 1]));
    }
  }

  lemma {:induction false} EmitConcat(c: Codec, a: seq<Report>, b: seq<Report>)
    ensures Emit(c, a + b) == Emit(c, a) + Emit(c, b)
    decreases |a|
  {
    if a == [] {
      Empties(b);
      Empties(Emit(c, b));
    } else {
      DropHead(a, b);
      EmitConcat(c, a[1..], b);
      Assoc(Line(c, a[0]), Emit(c, a[1..]), Emit(c, b));
    }
  }

  lemma CutLog(c: Codec, rs: seq<Report>, n: nat, j: nat)
    requires n < |rs| && j < Utf8Len(Line(c, rs[n]))
    ensures Utf8Len(Emit(c, rs[..n])) + j <= Utf8Len(Emit(c, rs))
    ensures var d := CutAt(Line(c, rs[n]), j);
            CutAt(Emit(c, rs), Utf8Len(Emit(c, rs[..n])) + j) == Disk(Emit(c, rs[..n]) + d.text, d.partial)
  {
    var head, line, more := Emit(c, rs[..n]), Line(c, rs[n]), Emit(c, rs[n + 1..]);
    assert rs == rs[..n] + rs[n..];
    EmitConcat(c, rs[..n], rs[n..]);
    assert rs[n..][1..] == rs[n + 1..];
    assert Emit(c, rs) == head + (line + more);
    Utf8LenConcat(head, line + more);
    Utf8LenConcat(line, more);
    CutOfConcat(head, line + more, j);
    CutOfPrefix(line, more, j);
  }

  lemma {:induction false} CutOfPrefix(a: string, b: string, j: nat)
    requires j <= Utf8Len(a)
    ensures j <= Utf8Len(a + b) && CutAt(a + b, j) == CutAt(a, j)
    decreases |a|
  {
    Utf8LenConcat(a, b);
    if j > 0 && j >= Utf8Width(a[0]) {
      assert (a + b)[1..] == a[1..] + b;
      CutOfPrefix(a[1..], b, j - Utf8Width(a[0]));
    }
  }

  /** Byte `k` of the log is byte `j` of the line of record `n`, or the end of the log. */
  ghost predicate CutIs(c: Codec, rs: seq<Report>, k: nat, n: nat, j: nat) {
    && n <= |rs| && k == Utf8Len(Emit(c, rs[..n])) + j <= Utf8Len(Emit(c, rs))
    && if n == |rs| then j == 0 else j < Utf8Len(Line(c, rs[n]))
  }

  /** The resume of a log cut at byte `j` of the line of record `n`. */
  ghost function ResumeOf(c: Codec, rs: seq<Report>, n: nat, j: nat, partial: nat): Result<Scanned, ScanError>
    requires n <= |rs| && (n == |rs| ==> j == 0)
  {
    if partial > 0 then Err(ReadError(n + 1))
    else if j == 0 then Ok(Scanned(rs[..n], false))
    else if j == Utf8Len(c.encode(rs[n])) then Ok(Scanned(rs[..n + 1], true))
    else Err(Torn(n + 1, Utf8Len(Emit(c, rs[..n]))))
  }

  /**
   For every list of records and every cut of the bytes written for them: the resume credits exactly
   the complete records, wants a newline exactly when the cut lies between a record and its newline,
   refuses a cut inside a record with the offset where it starts, and fails to read a cut character.
   */
  lemma ResumeAfterCut(c: Codec, rs: seq<Report>, k: nat) returns (n: nat, j: nat)
    requires AllGood(c, rs) && k <= Utf8Len(Emit(c, rs))
    ensures CutIs(c, rs, k, n, j)
    ensures Scan(c, CutAt(Emit(c, rs), k)) == ResumeOf(c, rs, n, j, CutAt(Emit(c, rs), k).partial)
    ensures CutAt(Emit(c, rs), k).partial > 0 ==> n < |rs| && 0 < j < Utf8Len(c.encode(rs[n]))
  {
    hide Scan, Emit, CutAt, Utf8Len;
    n, j := CutFallsInLine(c, rs, k);
    if n == |rs| {
      assert rs[..n] == rs;
      ResumeComplete(c, rs);
      CutAtEnd(Emit(c, rs));
    } else {
      ResumeInLine(c, rs, n, j);
    }
  }

  lemma ResumeComplete(c: Codec, rs: seq<Report>)
    requires AllGood(c, rs)
    ensures Scan(c, CutAt(Emit(c, rs), Utf8Len(Emit(c, rs)))) == Ok(Scanned(rs, false))
    ensures Scan(c, Disk(Emit(c, rs), 0)) == Ok(Scanned(rs, false))
  {
    CutAtEnd(Emit(c, rs));
    Empties(Emit(c, rs));
    ScanLog(c, rs, "", 0);
    Empties(rs);
  }

  lemma ResumeInLine(c: Codec, rs: seq<Report>, n: nat, j: nat)
    requires AllGood(c, rs) && n < |rs| && j < Utf8Len(Line(c, rs[n]))
    ensures var k := Utf8Len(Emit(c, rs[..n])) + j;
            && k <= Utf8Len(Emit(c, rs))
            && Scan(c, CutAt(Emit(c, rs), k)) == ResumeOf(c, rs, n, j, CutAt(Emit(c, rs), k).partial)
            && (CutAt(Emit(c, rs), k).partial > 0 ==> 0 < j < Utf8Len(c.encode(rs[n])))
  {
    hide Scan, ScanTail, Emit, CutAt, Utf8Len;
    assert Good(c, rs[n]) && AllGood(c, rs[..n]);
    var tail := CutAt(Line(c, rs[n]), j);
    CutLog(c, rs, n, j);
    ScanCutRecord(c, rs[n], j, n + 1, Utf8Len(Emit(c, rs[..n])));
    ScanLog(c, rs[..n], tail.text, tail.partial);
    assert rs[..n + 1] == rs[..n] + [rs[n]];
    Empties(rs[..n]);
  }

  // ---- Repair and append

  /** `truncate -s start` as the refusal says, or the newline the append path writes first. */
  ghost function Repaired(d: Disk, scan: Result<Scanned, ScanError>): Option<string> {
    match scan
    case Ok(v) => Some(d.text + if v.needsNewline then "\n" else "")
    case Err(Torn(_, start)) => if start <= Utf8Len(d.text) then Some(CutAt(d.text, start).text) else None
    case Err(_) => None
  }

  /** The records on disk in full: the one cut just before its newline counts. */
  ghost function Kept(c: Codec, rs: seq<Report>, n: nat, j: nat): seq<Report>
    requires n <= |rs| && (n == |rs| ==> j == 0)
  {
    if j > 0 && j == Utf8Len(c.encode(rs[n])) then rs[..n + 1] else rs[..n]
  }

  /** After the repair the log is the lines of the complete records, and a later append reads back behind them. */
  lemma RepairThenAppend(c: Codec, rs: seq<Report>, k: nat, more: seq<Report>) returns (n: nat, j: nat)
    requires AllGood(c, rs) && AllGood(c, more) && k <= Utf8Len(Emit(c, rs))
    ensures CutIs(c, rs, k, n, j)
    ensures var d := CutAt(Emit(c, rs), k);
            Repaired(d, Scan(c, d)) == if d.partial > 0 then None else Some(Emit(c, Kept(c, rs, n, j)))
    ensures var kept := Kept(c, rs, n, j);
            Scan(c, Disk(Emit(c, kept) + Emit(c, more), 0)) == Ok(Scanned(kept + more, false))
  {
    hide Scan, Emit, CutAt, Utf8Len;
    n, j := ResumeAfterCut(c, rs, k);
    var d := CutAt(Emit(c, rs), k);
    if n == |rs| {
      assert rs[..n] == rs;
      CutAtEnd(Emit(c, rs));
      Empties(Emit(c, rs));
    } else {
      RepairedInLine(c, rs, n, j);
    }
    KeptThenMore(c, Kept(c, rs, n, j), more);
  }

  lemma KeptThenMore(c: Codec, kept: seq<Report>, more: seq<Report>)
    requires AllGood(c, kept) && AllGood(c, more)
    ensures Scan(c, Disk(Emit(c, kept) + Emit(c, more), 0)) == Ok(Scanned(kept + more, false))
  {
    EmitConcat(c, kept, more);
    ResumeComplete(c, kept + more);
  }

  lemma RepairedInLine(c: Codec, rs: seq<Report>, n: nat, j: nat)
    requires AllGood(c, rs) && n < |rs| && j < Utf8Len(Line(c, rs[n]))
    ensures var k := Utf8Len(Emit(c, rs[..n])) + j;
            k <= Utf8Len(Emit(c, rs)) &&
            var d := CutAt(Emit(c, rs), k);
            Repaired(d, ResumeOf(c, rs, n, j, d.partial)) == if d.partial > 0 then None else Some(Emit(c, Kept(c, rs, n, j)))
  {
    hide Emit, Utf8Len, Line;
    CutLog(c, rs, n, j);
    var head, tail := Emit(c, rs[..n]), CutAt(Line(c, rs[n]), j).text;
    Empties(head);
    if j == 0 {
      assert tail == "";
    } else if j == Utf8Len(c.encode(rs[n])) {
      MissingNewline(c, rs, n, j);
    } else {
      TruncateToHead(head, tail);
    }
  }

  lemma MissingNewline(c: Codec, rs: seq<Report>, n: nat, j: nat)
    requires n < |rs| && j == Utf8Len(c.encode(rs[n])) && j <= Utf8Len(Line(c, rs[n]))
    ensures Emit(c, rs[..n]) + CutAt(Line(c, rs[n]), j).text + "\n" == Emit(c, rs[..n + 1])
  {
    hide Emit, Utf8Len, CutAt;
    var line, head := c.encode(rs[n]), Emit(c, rs[..n]);
    CutOfConcat(line, "\n", 0);
    CutAtZero("\n");
    Empties(line);
    assert rs[..n + 1] == rs[..n] + [rs[n]];
    EmitConcat(c, rs[..n], [rs[n]]);
    EmitOne(c, rs[n]);
    Assoc(head, line, "\n");
  }

  lemma EmitOne(c: Codec, r: Report)
    ensures Emit(c, [r]) == Line(c, r)
  {
    Empties(Line(c, r));
  }

  lemma TruncateToHead(head: string, tail: string)
    ensures Utf8Len(head) <= Utf8Len(head + tail) && CutAt(head + tail, Utf8Len(head)).text == head
  {
    CutOfConcat(head, tail, 0);
    Empties(head);
  }
}
