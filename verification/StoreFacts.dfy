/**
 What the lines of a trust store mean: how a line reads, which hosts a host field names, and which
 lines of the two stores a load keeps.
 */
module StoreFacts {
  import opened Wrappers
  import opened Text
  import opened Lists
  import opened HostNames
  import opened KnownHosts
  import opened FusedLines
  import opened OtherPins
  import Glob

  // ---- One line

  /** Three words with any blanks between, before and behind them, and whatever follows. */
  function Spaced(f: string, b1: string, kt: string, b2: string, blob: string, more: string): string {
    f + b1 + (kt + b2 + (blob + more))
  }

  ghost predicate IsSpaced(f: string, b1: string, kt: string, b2: string, blob: string, more: string) {
    && f != "" && kt != "" && blob != "" && Spaceless(f) && Spaceless(kt) && Spaceless(blob)
    && b1 != "" && b2 != "" && Blank(b1) && Blank(b2) && (more == "" || IsSpace(more[0]))
  }

  lemma SpacedWords(f: string, b1: string, kt: string, b2: string, blob: string, more: string)
    requires IsSpaced(f, b1, kt, b2, blob, more)
    ensures var w := Words(Spaced(f, b1, kt, b2, blob, more)); |w| >= 3 && w[..3] == [f, kt, blob]
  {
    hide Words;
    WordAhead(f, b1, kt + b2 + (blob + more));
    WordAhead(kt, b2, blob + more);
    WordFirst(blob, more);
    var rest := Words(blob + more);
    assert [f] + ([kt] + rest) == [f, kt] + rest;
  }

  /** A line without a marker: its first three words, whatever the blanks and whatever follows them. */
  lemma PlainLineReads(lead: string, f: string, b1: string, kt: string, b2: string, blob: string, more: string)
    requires Blank(lead) && IsSpaced(f, b1, kt, b2, blob, more) && f[0] != '#' && f[0] != '@'
    ensures Parse(lead + Spaced(f, b1, kt, b2, blob, more)) == Fields(None, f, kt, blob)
  {
    hide Words;
    var text := Spaced(f, b1, kt, b2, blob, more);
    TrimStartOfConcat(lead, text);
    assert text[0] == f[0] && TrimStart(text) == text;
    RestParses(lead + text);
    SpacedWords(f, b1, kt, b2, blob, more);
    assert FieldsOf(None, text) == Fields(None, f, kt, blob) by {
      var w := Words(text);
      assert w[0] == w[..3][0] && w[1] == w[..3][1] && w[2] == w[..3][2];
    }
  }

  /** A line with a marker: the marker without its `@`, and the three words behind it. */
  lemma MarkedLineReads(lead: string, m: string, b0: string, f: string, b1: string, kt: string, b2: string, blob: string,
                        more: string)
    requires Blank(lead) && Spaceless(m) && b0 != "" && Blank(b0) && IsSpaced(f, b1, kt, b2, blob, more)
    ensures Parse(lead + ("@" + (m + (b0 + Spaced(f, b1, kt, b2, blob, more))))) == Fields(Some(m), f, kt, blob)
  {
    hide Words, FieldsOf, Spaced, Parse;
    var text := Spaced(f, b1, kt, b2, blob, more);
    MarkerEndsAt(lead, m, b0, text);
    RestParses(lead + ("@" + (m + (b0 + text))));
    WordsIgnoreLeadingBlank(b0[1..], text);
    FieldsGoByWords(Some(m), b0[1..] + text, text);
    SpacedWords(f, b1, kt, b2, blob, more);
    FieldsOfThree(Some(m), text, f, kt, blob);
  }

  lemma MarkerEndsAt(lead: string, m: string, b0: string, text: string)
    requires Blank(lead) && Spaceless(m) && b0 != "" && Blank(b0)
    ensures RestOf(lead + ("@" + (m + (b0 + text)))) == Body(Some(m), b0[1..] + text)
  {
    hide FirstSpace;
    var r := m + (b0 + text);
    var line := "@" + r;
    TrimStartOfConcat(lead, line);
    assert TrimStart(line) == line && line[1..] == r;
    BlankFirst(b0 + text);
    SpacelessHasNone(m);
    FirstSpaceOf(m, b0 + text);
    assert r[..|m|] == m && r[|m| + 1..] == b0[1..] + text;
  }

  lemma FieldsOfThree(m: Option<string>, text: string, f: string, kt: string, blob: string)
    requires |Words(text)| >= 3 && Words(text)[..3] == [f, kt, blob]
    ensures FieldsOf(m, text) == Fields(m, f, kt, blob)
  {
    hide Words;
    var w := Words(text);
    assert w[0] == w[..3][0] && w[1] == w[..3][1] && w[2] == w[..3][2];
  }

  /** Comments, and lines of fewer than three words, say nothing. */
  lemma SilentLines(lead: string, text: string)
    requires Blank(lead)
    ensures Parse(lead + ("#" + text)).Ignored?
    ensures |Words(text)| < 3 ==> Parse(text).Ignored?
  {
    hide Words;
    var line := "#" + text;
    TrimStartOfConcat(lead, line);
    assert TrimStart(line) == line;
    RestParses(lead + line);
    if |Words(text)| < 3 {
      ShortLineIgnored(text);
    }
  }

  // ---- The host field

  /** Some stretch between commas is a pattern the loop accepts the name for. */
  ghost predicate SomePattern(field: string, candidate: string) {
    exists i: nat, j: nat :: IsPiece(field, ',', i, j) && Glob.Accepts(field[i..j], candidate)
  }

  /** Hashed fields go by salt and digest, all others by their patterns. */
  lemma FieldMatchesExactly(field: string, candidate: string, hashed: HashedMatch)
    ensures !("|1|" <= field) ==> (FieldMatches(field, candidate, hashed) <==> SomePattern(field, candidate))
    ensures forall salt, mac :: field == "|1|" + (salt + ("|" + mac)) && '|' !in salt ==>
      (FieldMatches(field, candidate, hashed) <==> hashed(salt, mac, candidate))
  {
    if !("|1|" <= field) {
      PlainFieldMatches(field, candidate, hashed);
    }
    forall salt, mac | field == "|1|" + (salt + ("|" + mac)) && '|' !in salt
      ensures FieldMatches(field, candidate, hashed) <==> hashed(salt, mac, candidate)
    {
      HashedFieldMatches(salt, mac, candidate, hashed);
    }
  }

  lemma PlainFieldMatches(field: string, candidate: string, hashed: HashedMatch)
    requires !("|1|" <= field)
    ensures FieldMatches(field, candidate, hashed) <==> SomePattern(field, candidate)
  {
    hide Split, Glob.Accepts;
    var pieces := Split(field, ',');
    if k :| 0 <= k < |pieces| && Glob.Accepts(pieces[k], candidate) {
      assert pieces[k] in pieces;
      SplitExactly(field, ',', pieces[k]);
      var i: nat, j: nat :| IsPiece(field, ',', i, j) && field[i..j] == pieces[k];
    }
    if i: nat, j: nat :| IsPiece(field, ',', i, j) && Glob.Accepts(field[i..j], candidate) {
      SplitExactly(field, ',', field[i..j]);
      var k :| 0 <= k < |pieces| && pieces[k] == field[i..j];
    }
  }

  lemma HashedFieldMatches(salt: string, mac: string, candidate: string, hashed: HashedMatch)
    requires '|' !in salt
    ensures FieldMatches("|1|" + (salt + ("|" + mac)), candidate, hashed) <==> hashed(salt, mac, candidate)
  {
    var rest := salt + ("|" + mac);
    var field := "|1|" + rest;
    assert field[3..] == rest && "|1|" <= field;
    IndexOfBar(salt, mac);
    assert rest[..|salt|] == salt && rest[|salt| + 1..] == mac;
  }

  lemma {:induction false} IndexOfBar(salt: string, mac: string)
    requires '|' !in salt
    ensures IndexOf(salt + ("|" + mac), '|') == |salt|
    decreases |salt|
  {
    var rest := salt + ("|" + mac);
    if salt != "" {
      assert rest[1..] == salt[1..] + ("|" + mac) && salt[0] in salt;
      IndexOfBar(salt[1..], mac);
    } else {
      assert rest == "|" + mac;
    }
  }

  // ---- What loading keeps

  /** The line is an entry of the host, or the revocation of one. */
  ghost predicate GivesEntry(raw: string, store: Store, candidate: string, hashed: HashedMatch, e: Entry) {
    && Parse(raw).Fields? && FieldMatches(Parse(raw).field, candidate, hashed)
    && Parse(raw).marker == (if e.revoked then Some("revoked") else None)
    && e == Entry(Parse(raw).field, Parse(raw).keyType, Parse(raw).keyData, store, e.revoked)
  }

  /** The line marks the host in a way that cannot be evaluated. */
  ghost predicate GivesMarker(raw: string, candidate: string, hashed: HashedMatch, m: string) {
    Parse(raw).Fields? && FieldMatches(Parse(raw).field, candidate, hashed) && Parse(raw).marker == Some(m) && m != "revoked"
  }

  /** `es` are the entries of these lines in order, `at` says on which line each one stands. */
  ghost predicate EntriesAt(lines: seq<string>, store: Store, candidate: string, hashed: HashedMatch, es: seq<Entry>, at: seq<nat>) {
    && |at| == |es|
    && Ascending(at)
    && (forall k :: 0 <= k < |at| ==> at[k] < |lines| && GivesEntry(lines[at[k]], store, candidate, hashed, es[k]))
    && (forall i, e :: 0 <= i < |lines| && GivesEntry(lines[i], store, candidate, hashed, e) ==> i in at)
  }

  /** The first marker of these lines that cannot be evaluated. */
  ghost predicate FirstMarker(lines: seq<string>, candidate: string, hashed: HashedMatch, m: Option<string>) {
    match m
    case None => forall i, x :: 0 <= i < |lines| ==> !GivesMarker(lines[i], candidate, hashed, x)
    case Some(x) =>
      exists i :: 0 <= i < |lines| && GivesMarker(lines[i], candidate, hashed, x)
                  && forall j, y :: 0 <= j < i ==> !GivesMarker(lines[j], candidate, hashed, y)
  }

  lemma AbsorbExactly(l: Loaded, raw: string, store: Store, candidate: string, hashed: HashedMatch)
    ensures var r := Absorb(l, raw, store, candidate, hashed);
            && (forall e :: GivesEntry(raw, store, candidate, hashed, e) ==> r.entries == l.entries + [e])
            && (r.entries == l.entries
                || (|r.entries| == |l.entries| + 1 && r.entries[..|l.entries|] == l.entries
                    && GivesEntry(raw, store, candidate, hashed, r.entries[|l.entries|])))
            && (forall m :: GivesMarker(raw, candidate, hashed, m) ==>
                  r.unsupported == if l.unsupported.Some? then l.unsupported else Some(m))
            && (r.unsupported == l.unsupported || (l.unsupported.None? && r.unsupported.Some?
                                                   && GivesMarker(raw, candidate, hashed, r.unsupported.value)))
  {
    hide Parse, FieldMatches;
  }

  lemma EntriesSnoc(lines: seq<string>, raw: string, store: Store, candidate: string, hashed: HashedMatch, es: seq<Entry>,
                    at: seq<nat>, e: Entry)
    requires EntriesAt(lines, store, candidate, hashed, es, at)
    ensures GivesEntry(raw, store, candidate, hashed, e) ==>
      EntriesAt(lines + [raw], store, candidate, hashed, es + [e], at + [|lines|])
    ensures (forall d :: !GivesEntry(raw, store, candidate, hashed, d)) ==>
      EntriesAt(lines + [raw], store, candidate, hashed, es, at)
  {
    hide GivesEntry;
    var all, more := lines + [raw], at + [|lines|];
    forall i | 0 <= i < |all| ensures i in at || i == |lines| ==> i in more {
      if i in at {
        var k :| 0 <= k < |at| && at[k] == i;
        assert more[k] == i;
      }
      assert more[|at|] == |lines|;
    }
  }

  /** One store: its entries in file order, and its first marker unless there was one before. */
  lemma {:induction false} LoadLinesExactly(l: Loaded, lines: seq<string>, store: Store, candidate: string, hashed: HashedMatch)
      returns (es: seq<Entry>, at: seq<nat>)
    ensures var r := LoadLines(l, lines, store, candidate, hashed);
            && r.entries == l.entries + es && EntriesAt(lines, store, candidate, hashed, es, at)
            && (l.unsupported.Some? ==> r.unsupported == l.unsupported)
            && (l.unsupported.None? ==> FirstMarker(lines, candidate, hashed, r.unsupported))
    decreases |lines|
  {
    hide Absorb, GivesEntry, GivesMarker, EntriesAt, FirstMarker;
    if lines == [] {
      es, at := [], [];
      NothingLoaded(l, store, candidate, hashed);
    } else {
      var n := |lines| - 1;
      assert lines == lines[..n] + [lines[n]];
      es, at := LoadLinesExactly(l, lines[..n], store, candidate, hashed);
      var before := LoadLines(l, lines[..n], store, candidate, hashed);
      var r := Absorb(before, lines[n], store, candidate, hashed);
      AbsorbExactly(before, lines[n], store, candidate, hashed);
      if l.unsupported.None? {
        MarkerSnoc(lines[..n], lines[n], candidate, hashed, before.unsupported, r.unsupported);
      }
      if r.entries == before.entries {
        NoEntry(before, lines[n], store, candidate, hashed);
        EntriesSnoc(lines[..n], lines[n], store, candidate, hashed, es, at, Entry("", "", "", store, false));
      } else {
        var e := r.entries[|before.entries|];
        EntriesSnoc(lines[..n], lines[n], store, candidate, hashed, es, at, e);
        assert r.entries == before.entries + [e];
        Assoc(l.entries, es, [e]);
        es, at := es + [e], at + [n];
      }
    }
  }

  lemma NothingLoaded(l: Loaded, store: Store, candidate: string, hashed: HashedMatch)
    ensures l.entries + [] == l.entries && EntriesAt([], store, candidate, hashed, [], [])
    ensures FirstMarker([], candidate, hashed, None)
  {
  }

  lemma NoEntry(l: Loaded, raw: string, store: Store, candidate: string, hashed: HashedMatch)
    requires Absorb(l, raw, store, candidate, hashed).entries == l.entries
    ensures forall e :: !GivesEntry(raw, store, candidate, hashed, e)
  {
    hide GivesEntry, Absorb;
    AbsorbExactly(l, raw, store, candidate, hashed);
    assert forall e: Entry :: |l.entries + [e]| == |l.entries| + 1;
  }

  lemma MarkerSnoc(lines: seq<string>, raw: string, candidate: string, hashed: HashedMatch, before: Option<string>,
                   after: Option<string>)
    requires FirstMarker(lines, candidate, hashed, before)
    requires forall m :: GivesMarker(raw, candidate, hashed, m) ==> after == if before.Some? then before else Some(m)
    requires after == before || (before.None? && after.Some? && GivesMarker(raw, candidate, hashed, after.value))
    ensures FirstMarker(lines + [raw], candidate, hashed, after)
  {
    hide GivesMarker;
    var all := lines + [raw];
    assert forall i :: 0 <= i < |lines| ==> all[i] == lines[i];
    assert all[|lines|] == raw;
  }

  /**
   The whole load: the entries of the system store in file order, then those of the pin store; and the
   first marker of either, in that order, that cannot be evaluated.
   */
  lemma LoadExactly(system: string, pin: string, candidate: string, hashed: HashedMatch)
      returns (es: seq<Entry>, at: seq<nat>, ps: seq<Entry>, pt: seq<nat>)
    ensures var l := Load(system, pin, candidate, hashed);
            && l.entries == es + ps
            && EntriesAt(Lines(system), System, candidate, hashed, es, at)
            && EntriesAt(Lines(pin), Pin, candidate, hashed, ps, pt)
            && FirstMarker(Lines(system) + Lines(pin), candidate, hashed, l.unsupported)
  {
    hide Lines, EntriesAt, FirstMarker;
    es, at := LoadLinesExactly(EMPTY, Lines(system), System, candidate, hashed);
    var l := LoadLines(EMPTY, Lines(system), System, candidate, hashed);
    Empties(es);
    ps, pt := LoadLinesExactly(l, Lines(pin), Pin, candidate, hashed);
    MarkersInOrder(Lines(system), Lines(pin), candidate, hashed, l.unsupported, Load(system, pin, candidate, hashed).unsupported);
  }

  lemma MarkersInOrder(a: seq<string>, b: seq<string>, candidate: string, hashed: HashedMatch, m: Option<string>, n: Option<string>)
    requires FirstMarker(a, candidate, hashed, m)
    requires if m.Some? then n == m else FirstMarker(b, candidate, hashed, n)
    ensures FirstMarker(a + b, candidate, hashed, n)
  {
    hide GivesMarker;
    var all := a + b;
    assert forall i :: 0 <= i < |a| ==> all[i] == a[i];
    assert forall i :: 0 <= i < |b| ==> all[|a| + i] == b[i];
    if m.None? && n.Some? {
      var i :| 0 <= i < |b| && GivesMarker(b[i], candidate, hashed, n.value)
               && forall j, y :: 0 <= j < i ==> !GivesMarker(b[j], candidate, hashed, y);
      assert GivesMarker(all[|a| + i], candidate, hashed, n.value);
      forall j, y | 0 <= j < |a| + i ensures !GivesMarker(all[j], candidate, hashed, y) {
        if j >= |a| {
          assert all[j] == b[j - |a|];
        }
      }
    }
  }
}
