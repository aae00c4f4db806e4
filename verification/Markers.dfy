/** Hosts the operator put under a trust model the program cannot evaluate: no session pins a key for them. */
module Markers {
  import opened Wrappers
  import opened Text
  import opened HostNames
  import opened KnownHosts
  import opened FusedLines
  import opened TrustRuns
  import opened OtherPins
  import opened StoreFacts

  /** Every readable session is answered by what its stores hold for it, and by nothing else. */
  lemma SessionAnswers(system: string, pin: string, s: Session, hashed: HashedMatch)
    requires s.readable
    ensures var l := Load(system, pin, Name(s), hashed);
            var o := OutcomeOf(system, pin, s, hashed);
            o.Decided? && Answers(l.entries, l.unsupported, s.key, o.decision)
  {
    DecideMeaning(Load(system, pin, Name(s), hashed), s.key);
  }

  lemma MarkerIsLoaded(system: string, pin: string, line: string, name: string, m: string, hashed: HashedMatch)
    requires line in Lines(system) || line in Lines(pin)
    requires GivesMarker(line, name, hashed, m)
    ensures Load(system, pin, name, hashed).unsupported.Some?
  {
    hide Lines, GivesMarker, Load, EntriesAt;
    var all := Lines(system) + Lines(pin);
    var es, at, ps, pt := LoadExactly(system, pin, name, hashed);
    assert line in all;
    var i :| 0 <= i < |all| && all[i] == line;
  }

  /** A body that marks a host still marks it with a pin fused onto it. */
  lemma MarkStaysFused(w: string, name: string, kt: string, blob: string, other: string, hashed: HashedMatch, m: string)
    requires Plain(name) && Spaceless(kt) && Spaceless(blob) && kt != "" && blob != ""
    requires GivesMarker(w, other, hashed, m)
    ensures GivesMarker(w + ThreeFields(name, kt, blob), other, hashed, m)
  {
    hide Words, RestOf, FieldMatches, FieldsOf, FusedHost, CompleteWords, Parse;
    PlainFacts(name);
    RestParses(w);
    FusedParses(w, name, kt, blob);
    match RestOf(w)
    case Body(marker, text) =>
      MarkerOfFields(marker, text);
      BodyReadings(marker, text, name, kt, blob);
    case _ =>
  }

  lemma MarkerOfFields(m: Option<string>, text: string)
    ensures FieldsOf(m, text).Fields? ==> FieldsOf(m, text).marker == m
  {
    hide Words;
  }

  /** Appending a pin of any host leaves a marked host marked. */
  lemma PinKeepsMark(system: string, pin: string, s: Session, name: string, hashed: HashedMatch)
    requires ValidSession(s) && Load(system, pin, name, hashed).unsupported.Some?
    ensures Load(system, PinAfter(system, pin, s, hashed), name, hashed).unsupported.Some?
  {
    hide Load, Absorb, Tail, GivesMarker, GivesEntry, Pins, PinLine;
    if Pins(Load(system, pin, Name(s), hashed), s) {
      NameIsPlain(s);
      PinLineIsOneLine(s);
      CanonicalIsWord(s.key.keyType);
      var l := LoadFused(system, pin, PinLine(s), name, hashed);
      var w := Tail(pin);
      AbsorbExactly(l, w, Pin, name, hashed);
      AbsorbExactly(l, w + PinLine(s), Pin, name, hashed);
      if l.unsupported.None? {
        var m := Absorb(l, w, Pin, name, hashed).unsupported.value;
        PinLineIs(s);
        MarkStaysFused(w, Name(s), CanonicalKeyType(s.key.keyType), s.key.blob, name, hashed, m);
      }
    }
  }

  lemma PinLineIs(s: Session)
    ensures PinLine(s) == ThreeFields(Name(s), CanonicalKeyType(s.key.keyType), s.key.blob)
  {
  }

  lemma {:induction false} RunKeepsMark(system: string, pin: string, run: seq<Session>, name: string, hashed: HashedMatch)
    requires ValidRun(run) && Load(system, pin, name, hashed).unsupported.Some?
    ensures Load(system, PinAfterRun(system, pin, run, hashed), name, hashed).unsupported.Some?
    decreases |run|
  {
    hide Load, PinAfter;
    if run != [] {
      var n := |run| - 1;
      RunKeepsMark(system, pin, run[..n], name, hashed);
      PinKeepsMark(system, PinAfterRun(system, pin, run[..n], hashed), run[n], name, hashed);
    }
  }

  /**
   One line with a marker other than `@revoked` for the host, in either store, at any place: whatever
   sessions run, of this host and others, none ever pins a key for it, and a key that no entry speaks
   for or against is answered with the marker.
   */
  lemma MarkedHostIsNeverPinned(system: string, pin: string, line: string, m: string, run: seq<Session>, t: Session,
                                hashed: HashedMatch)
    requires line in Lines(system) || line in Lines(pin)
    requires GivesMarker(line, Name(t), hashed, m)
    requires ValidRun(run) && t.readable
    ensures var file := PinAfterRun(system, pin, run, hashed);
            var l := Load(system, file, Name(t), hashed);
            && !Pins(l, t) && PinAfter(system, file, t, hashed) == file
            && OutcomeOf(system, file, t, hashed) != Decided(FirstUse)
            && (NoneTrusted(l.entries) && !RevokedFor(l.entries, t.key) ==>
                  OutcomeOf(system, file, t, hashed).decision.Unsupported?)
  {
    hide Load, PinAfterRun, Lines, GivesMarker, NoneTrusted, RevokedFor, Decide;
    MarkerIsLoaded(system, pin, line, Name(t), m, hashed);
    RunKeepsMark(system, pin, run, Name(t), hashed);
    SessionAnswers(system, PinAfterRun(system, pin, run, hashed), t, hashed);
  }

  /** The line of a certificate authority, or of any marker but `@revoked`, written out for a plain host name. */
  lemma MarkerLineMarks(m: string, name: string, kt: string, blob: string, hashed: HashedMatch)
    requires Plain(name) && name != "" && Spaceless(m) && m != "revoked"
    requires Spaceless(kt) && Spaceless(blob) && kt != "" && blob != ""
    ensures GivesMarker("@" + (m + (" " + ThreeFields(name, kt, blob))), name, hashed, m)
    ensures '\n' !in "@" + (m + (" " + ThreeFields(name, kt, blob)))
  {
    hide FieldMatches, Words, Parse;
    PlainFacts(name);
    var text := Spaced(name, " ", kt, " ", blob, "");
    var line := "@" + (m + (" " + text));
    assert text == ThreeFields(name, kt, blob);
    MarkedLineReads("", m, " ", name, " ", kt, " ", blob, "");
    Empties(line);
    FieldMatchesName(name, name, hashed);
    SpacelessHasNoNewline(m);
    SpacelessHasNoNewline(kt);
    SpacelessHasNoNewline(blob);
  }

  /** So a store with such a line for the host, anywhere in it, keeps the program from ever pinning the host. */
  lemma AuthorityLineForbidsPins(before: string, after: string, m: string, kt: string, blob: string, pin: string,
                                 run: seq<Session>, t: Session, hashed: HashedMatch)
    requires Terminated(before) && Spaceless(m) && m != "revoked"
    requires Spaceless(kt) && Spaceless(blob) && kt != "" && blob != ""
    requires ValidRun(run) && Addressed(t) && Name(t) != "" && t.readable
    ensures var line := "@" + (m + (" " + ThreeFields(Name(t), kt, blob)));
            var system := before + (line + "\n") + after;
            OutcomeOf(system, PinAfterRun(system, pin, run, hashed), t, hashed) != Decided(FirstUse)
  {
    hide Load, PinAfterRun, Lines, GivesMarker, Decide;
    NameIsPlain(t);
    var line := "@" + (m + (" " + ThreeFields(Name(t), kt, blob)));
    MarkerLineMarks(m, Name(t), kt, blob, hashed);
    LineIsLine(before, line, after);
    MarkedHostIsNeverPinned(before + (line + "\n") + after, pin, line, m, run, t, hashed);
  }
}
