/**
 What the pin of one host does to another: appended behind an unterminated last line, it can complete,
 change or extend an entry of a host it was not written for. When it does is decided by that line and
 the two names.
 */
module OtherPins {
  import opened Wrappers
  import opened Text
  import opened HostNames
  import opened KnownHosts
  import opened FusedLines
  import opened TrustRuns
  import PinTails

  // ---- An unterminated line, read up to where it ends

  /** A comment; a marker still being read; or a marker, if any, and the text its fields are read from. */
  datatype Rest = Comment | LoneMarker | Body(marker: Option<string>, text: string)

  function RestOf(w: string): Rest {
    var t := TrimStart(w);
    if t == "" then Body(None, "")
    else if t[0] == '#' then Comment
    else if t[0] == '@' then
      var r := t[1..];
      var sp := FirstSpace(r);
      if sp == |r| then LoneMarker else Body(Some(r[..sp]), r[sp + 1..])
    else Body(None, t)
  }

  /** The words of the text that nothing appended can touch. A line without a name starts with a blank. */
  function CompleteWords(text: string, name: string): seq<string> {
    if name == "" then Words(text) else Words(text[..LastWordStart(text)])
  }

  /** The host field of the line once a pin for `name` is appended. */
  function FusedHost(text: string, name: string): Option<string> {
    var p := CompleteWords(text, name);
    if p != [] then Some(p[0])
    else if name == "" then None
    else Some(text[LastWordStart(text)..] + name)
  }

  predicate IsTrustMarker(m: Option<string>) { m == None || m == Some("revoked") }

  /**
   A pin for `name` appended to the rest leaves alone what `other` reads from the file: the rest is a
   comment or a marker without fields, or has its three fields complete, or the host field that results
   is not one of `other`, or the line only raises a marker that was raised before.
   */
  ghost predicate Harmless(w: string, name: string, other: string, raised: bool, hashed: HashedMatch) {
    match RestOf(w)
    case Comment => true
    case LoneMarker => true
    case Body(m, text) =>
      || |CompleteWords(text, name)| >= 3
      || FusedHost(text, name) == None
      || !FieldMatches(FusedHost(text, name).value, other, hashed)
      || (!IsTrustMarker(m) && (raised || |Words(text)| >= 3))
  }

  // ---- How the line reads, alone and fused

  lemma FieldsGoByWords(m: Option<string>, a: string, b: string)
    requires Words(a) == Words(b)
    ensures FieldsOf(m, a) == FieldsOf(m, b)
  {
  }

  lemma {:induction false} FirstSpaceOf(r: string, more: string)
    ensures FirstSpace(r) < |r| ==> FirstSpace(r + more) == FirstSpace(r)
    ensures FirstSpace(r) == |r| ==> Spaceless(r) && FirstSpace(r + more) == |r| + FirstSpace(more)
    decreases |r|
  {
    if r == "" {
      assert r + more == more;
    } else {
      assert (r + more)[1..] == r[1..] + more && r == [r[0]] + r[1..];
      FirstSpaceOf(r[1..], more);
    }
  }

  lemma {:induction false} TrimEndOf(t: string)
    requires t == "" || !IsSpace(t[|t| - 1])
    ensures TrimEnd(t) == t
  {
  }

  /** The rest alone. */
  lemma RestParses(w: string)
    ensures match RestOf(w)
            case Body(m, text) => Parse(w) == FieldsOf(m, text)
            case _ => Parse(w).Ignored?
  {
    hide Words, FieldsOf, TrimStart, TrimEnd;
    var t := TrimStart(w);
    var lead := TrimStartDrops(w);
    if t == "" {
      NothingParses();
    } else {
      TrimEndKeepsHead(t);
      var blank := TrimEndDrops(t);
      if t[0] == '@' {
        MarkedParses(t);
      } else if t[0] != '#' {
        WordsOfTrimEnd(t);
        FieldsGoByWords(None, TrimEnd(t), t);
      }
    }
  }

  /** A line behind its `@`. */
  function ParseMarked(r: string): Parsed {
    var sp := FirstSpace(r);
    if sp == |r| then Ignored else FieldsOf(Some(r[..sp]), r[sp + 1..])
  }

  lemma MarkedLine(e: string)
    requires e != "" && e[0] == '@'
    ensures ParseTrimmed(e) == ParseMarked(e[1..])
  {
    hide Words;
    var r := e[1..];
    var sp := FirstSpace(r);
    if sp < |r| {
      WordsOfTrimStart(r[sp + 1..]);
      FieldsGoByWords(Some(r[..sp]), TrimStart(r[sp + 1..]), r[sp + 1..]);
    }
  }

  lemma TrailingBlankMarked(er: string, blank: string)
    requires Blank(blank)
    ensures ParseMarked(er + blank) == ParseMarked(er)
  {
    hide Words;
    var r := er + blank;
    FirstSpaceOf(er, blank);
    if FirstSpace(er) < |er| {
      var sp := FirstSpace(er);
      assert r[..sp] == er[..sp] && r[sp + 1..] == er[sp + 1..] + blank;
      WordsIgnoreTrailingBlank(er[sp + 1..], blank);
      FieldsGoByWords(Some(r[..sp]), er[sp + 1..], r[sp + 1..]);
    } else if blank != "" {
      assert r[|er| + 1..] == blank[1..];
      WordsOfBlank(blank[1..]);
    } else {
      Empties(er);
    }
  }

  lemma NothingParses()
    ensures TrimEnd("") == "" && FieldsOf(None, "").Ignored?
  {
  }

  lemma MarkedParses(t: string)
    requires t != "" && t[0] == '@'
    ensures ParseTrimmed(TrimEnd(t)) == ParseMarked(t[1..])
  {
    hide ParseTrimmed, ParseMarked;
    TrimEndKeepsHead(t);
    var blank := TrimEndDrops(t);
    var e := TrimEnd(t);
    assert t[1..] == e[1..] + blank;
    MarkedLine(e);
    TrailingBlankMarked(e[1..], blank);
  }

  /** The rest with a pin appended. */
  lemma FusedParses(w: string, name: string, kt: string, blob: string)
    requires Plain(name) && Spaceless(kt) && Spaceless(blob) && kt != "" && blob != ""
    ensures var line := ThreeFields(name, kt, blob);
            match RestOf(w)
            case Body(m, text) => Parse(w + line) == FieldsOf(m, text + line)
            case _ => Parse(w + line).Ignored?
  {
    hide Words;
    var line := ThreeFields(name, kt, blob);
    var t := TrimStart(w);
    if Blank(w) {
      BlankStart(w);
      ParseAfterBlank(w, line);
      Empties(line);
      PinLineParsesPlainly(name, kt, blob);
    } else {
      TrimStartOfConcat(w, line);
      var all := t + line;
      assert all[|all| - 1] == blob[|blob| - 1] && all[0] == t[0];
      TrimEndOf(all);
      assert Parse(w + line) == ParseTrimmed(all);
      if t[0] == '@' {
        MarkedLine(all);
        assert all[1..] == t[1..] + line;
        FusedMarker(t[1..], name, kt, blob);
      }
    }
  }

  lemma BlankStart(w: string)
    requires Blank(w)
    ensures TrimStart(w) == ""
  {
    TrimStartOfConcat(w, "");
    Empties(w);
  }

  lemma PinLineParsesPlainly(name: string, kt: string, blob: string)
    requires Plain(name) && Spaceless(kt) && Spaceless(blob) && kt != "" && blob != ""
    ensures Parse(ThreeFields(name, kt, blob)) == FieldsOf(None, ThreeFields(name, kt, blob))
  {
    PlainFacts(name);
    ThreeWords(name, kt, blob);
    if name == "" {
      ShortLineIgnored(ThreeFields(name, kt, blob));
    } else {
      ThreeFieldsParse(name, kt, blob);
    }
  }

  lemma FusedMarker(r: string, name: string, kt: string, blob: string)
    requires Spaceless(name) && Spaceless(kt) && Spaceless(blob) && kt != "" && blob != ""
    ensures var sp, line := FirstSpace(r), ThreeFields(name, kt, blob);
            ParseMarked(r + line) == if sp == |r| then Ignored else FieldsOf(Some(r[..sp]), r[sp + 1..] + line)
  {
    hide Words, ParseMarked, FirstSpace;
    var line := ThreeFields(name, kt, blob);
    if FirstSpace(r) < |r| {
      MarkerEnds(r, line);
    } else {
      var rest := kt + [' '] + blob;
      assert line == name + ([' '] + rest);
      MarkerGrows(r, name, rest);
      TwoWords(kt, blob);
    }
  }

  lemma MarkerEnds(r: string, line: string)
    requires FirstSpace(r) < |r|
    ensures ParseMarked(r + line) == FieldsOf(Some(r[..FirstSpace(r)]), r[FirstSpace(r) + 1..] + line)
  {
    hide FieldsOf, FirstSpace;
    var sp := FirstSpace(r);
    FirstSpaceOf(r, line);
    assert (r + line)[..sp] == r[..sp] && (r + line)[sp + 1..] == r[sp + 1..] + line;
  }

  lemma BlankFirst(s: string)
    requires s != "" && IsSpace(s[0])
    ensures FirstSpace(s) == 0
  {
  }

  lemma MarkerGrows(r: string, name: string, rest: string)
    requires FirstSpace(r) == |r| && Spaceless(name)
    ensures ParseMarked(r + (name + ([' '] + rest))) == FieldsOf(Some(r + name), rest)
  {
    hide FieldsOf, FirstSpace;
    var more := [' '] + rest;
    BlankFirst(more);
    FirstSpaceOf(r, name + more);
    FirstSpaceOf(name, more);
    SpacelessHasNone(name);
    assert r + (name + more) == (r + name) + more;
    assert ((r + name) + more)[|r| + |name| + 1..] == rest && ((r + name) + more)[..|r| + |name|] == r + name;
  }

  lemma {:induction false} SpacelessHasNone(s: string)
    requires Spaceless(s)
    ensures FirstSpace(s) == |s|
    decreases |s|
  {
    if s != "" {
      SpacelessHasNone(s[1..]);
    }
  }

  lemma TwoWords(kt: string, blob: string)
    requires Spaceless(kt) && Spaceless(blob) && kt != "" && blob != ""
    ensures Words(kt + [' '] + blob) == [kt, blob]
  {
    WordsAtSpace("", kt, ' ', blob);
    WordOfItself("", kt);
    WordOfItself("", blob);
    assert "" + kt == kt && "" + blob == blob;
  }

  // ---- The words of the fused text

  lemma FusedTextWords(text: string, name: string, kt: string, blob: string)
    requires Spaceless(name) && Spaceless(kt) && Spaceless(blob) && kt != "" && blob != ""
    ensures var p, v := CompleteWords(text, name), text[LastWordStart(text)..];
            && Words(text + ThreeFields(name, kt, blob)) == p + (if name == "" then [kt, blob] else [v + name, kt, blob])
            && Words(text) == p + (if name == "" || v == "" then [] else [v])
  {
    if name == "" {
      SeparateWords(text, kt, blob);
      Empties(Words(text));
    } else {
      var p, v := FusedThree(text, name, kt, blob);
    }
  }

  // ---- Exactly when another host's pin changes what a host reads

  /** One line instead of the other, in a load. */
  lemma SwapLine(l: Loaded, a: string, b: string, other: string, hashed: HashedMatch)
    ensures var (u, q) := (Parse(a), Parse(b));
            u == q || (u.Ignored? && q.Fields? && !FieldMatches(q.field, other, hashed)) ==>
              Absorb(l, a, Pin, other, hashed) == Absorb(l, b, Pin, other, hashed)
    ensures var (u, q) := (Parse(a), Parse(b));
            u.Ignored? && q.Fields? && FieldMatches(q.field, other, hashed) ==>
              (Absorb(l, a, Pin, other, hashed) == Absorb(l, b, Pin, other, hashed)
               <==> !IsTrustMarker(q.marker) && l.unsupported.Some?)
    ensures var (u, q) := (Parse(a), Parse(b));
            u.Fields? && q.Fields? && u != q && u.field == q.field && u.marker == q.marker ==>
              (Absorb(l, a, Pin, other, hashed) == Absorb(l, b, Pin, other, hashed)
               <==> !FieldMatches(q.field, other, hashed) || !IsTrustMarker(q.marker))
  {
    hide Parse, FieldMatches;
    var (u, q) := (Parse(a), Parse(b));
    if u.Ignored? && q.Fields? && IsTrustMarker(q.marker) {
      assert |l.entries + [Entry(q.field, q.keyType, q.keyData, Pin, q.marker.Some?)]| == |l.entries| + 1;
    }
    if u.Fields? && q.Fields? && u != q && u.field == q.field && u.marker == q.marker {
      var e := Entry(u.field, u.keyType, u.keyData, Pin, u.marker.Some?);
      var f := Entry(q.field, q.keyType, q.keyData, Pin, q.marker.Some?);
      assert e != f && (l.entries + [e])[|l.entries|] == e && (l.entries + [f])[|l.entries|] == f;
    }
  }

  /** The two readings of a body, by its words. */
  lemma BodyReadings(m: Option<string>, text: string, name: string, kt: string, blob: string)
    requires Spaceless(name) && Spaceless(kt) && Spaceless(blob) && kt != "" && blob != ""
    ensures var (u, q) := (FieldsOf(m, text), FieldsOf(m, text + ThreeFields(name, kt, blob)));
            var host := FusedHost(text, name);
            && (q.Ignored? <==> host.None?)
            && (q.Ignored? ==> u.Ignored?)
            && (q.Fields? ==> q.field == host.value && q.marker == m)
            && (u.Fields? <==> |Words(text)| >= 3)
            && (u.Fields? ==> u.field == q.field && u.marker == m)
            && (u == q <==> host.None? || |CompleteWords(text, name)| >= 3)
  {
    hide Words;
    FusedTextWords(text, name, kt, blob);
  }

  lemma EmptyIsIgnored()
    ensures Parse("").Ignored?
  {
  }

  /**
   For every pin file, every session s and every stored name: the line s appends leaves what that name
   reads as it was exactly if the end of the file is harmless.
   */
  lemma PinIsHarmlessExactly(system: string, pin: string, s: Session, other: string, hashed: HashedMatch)
    requires ValidSession(s)
    ensures var before := Load(system, pin, other, hashed);
            (Load(system, pin + (PinLine(s) + "\n"), other, hashed) == before)
            <==> Harmless(Tail(pin), Name(s), other, before.unsupported.Some?, hashed)
  {
    hide Load, Parse, Tail, Absorb, RestOf, FieldMatches;
    NameIsPlain(s);
    PlainFacts(Name(s));
    PinLineIsOneLine(s);
    CanonicalIsWord(s.key.keyType);
    var l := LoadFused(system, pin, PinLine(s), other, hashed);
    HarmlessExactly(l, Tail(pin), Name(s), CanonicalKeyType(s.key.keyType), s.key.blob, other, hashed);
    AbsorbEmpty(l, other, hashed);
  }

  lemma AbsorbEmpty(l: Loaded, other: string, hashed: HashedMatch)
    ensures Absorb(l, "", Pin, other, hashed) == l
  {
    EmptyIsIgnored();
  }

  lemma HarmlessExactly(l: Loaded, w: string, name: string, kt: string, blob: string, other: string, hashed: HashedMatch)
    requires Plain(name) && Spaceless(name) && Spaceless(kt) && Spaceless(blob) && kt != "" && blob != ""
    ensures var before := Absorb(l, w, Pin, other, hashed);
            (Absorb(l, w + ThreeFields(name, kt, blob), Pin, other, hashed) == before)
            <==> Harmless(w, name, other, before.unsupported.Some?, hashed)
  {
    hide Parse, FieldMatches, RestOf, CompleteWords, FusedHost, Words, FieldsOf;
    RestParses(w);
    FusedParses(w, name, kt, blob);
    if RestOf(w).Body? {
      BodyReadings(RestOf(w).marker, RestOf(w).text, name, kt, blob);
      SwapLine(l, w, w + ThreeFields(name, kt, blob), other, hashed);
    }
  }

  /** Behind a blank or terminated last line the pin of any other host is harmless. */
  lemma CleanIsHarmless(pin: string, s: Session, t: Session, raised: bool, hashed: HashedMatch)
    requires Clean(pin) && Addressed(s) && Addressed(t) && Name(s) != Name(t)
    ensures Harmless(Tail(pin), Name(s), Name(t), raised, hashed)
  {
    var w := Tail(pin);
    NameIsPlain(s);
    NameIsPlain(t);
    BlankStart(w);
    FieldMatchesName(Name(s), Name(t), hashed);
    assert LastWordStart("") == 0 && Words("") == [] && "" + Name(s) == Name(s);
  }

  // ---- Over runs of other hosts

  ghost predicate OthersOnly(run: seq<Session>, name: string) {
    ValidRun(run) && forall i :: 0 <= i < |run| ==> Name(run[i]) != name
  }

  /** The end of the pin file is harmless to a host for every session of another host that would pin behind it. */
  ghost predicate OthersHarmless(system: string, pin: string, name: string, hashed: HashedMatch) {
    forall s: Session :: ValidSession(s) && Name(s) != name && Pins(Load(system, pin, Name(s), hashed), s) ==>
      Harmless(Tail(pin), Name(s), name, Load(system, pin, name, hashed).unsupported.Some?, hashed)
  }

  ghost predicate SameLoad(system: string, pin: string, run: seq<Session>, name: string, hashed: HashedMatch) {
    Load(system, PinAfterRun(system, pin, run, hashed), name, hashed) == Load(system, pin, name, hashed)
  }

  /** A file some pins came behind, or the one they started from. */
  ghost predicate Reached(file: string, pin: string) { file == pin || Clean(file) }

  /** One more session of another host, behind the file it started from or a clean one. */
  lemma StepOfOther(system: string, pin: string, file: string, s: Session, name: string, hashed: HashedMatch)
    requires ValidSession(s) && Name(s) != name && Plain(name) && OthersHarmless(system, pin, name, hashed)
    requires Reached(file, pin)
    ensures Reached(PinAfter(system, file, s, hashed), pin)
    ensures Load(system, PinAfter(system, file, s, hashed), name, hashed) == Load(system, file, name, hashed)
  {
    hide Load, Clean, Harmless, Tail, Pins, PinLine;
    if file != pin {
      StepLoads(system, file, s, name, hashed);
    } else if Pins(Load(system, pin, Name(s), hashed), s) {
      PinIsHarmlessExactly(system, pin, s, name, hashed);
      PinnedIsClean(pin, s);
    }
  }

  lemma {:induction false} RunOfOthers(system: string, pin: string, run: seq<Session>, name: string, hashed: HashedMatch)
    requires OthersOnly(run, name) && Plain(name) && OthersHarmless(system, pin, name, hashed)
    ensures Reached(PinAfterRun(system, pin, run, hashed), pin)
    ensures SameLoad(system, pin, run, name, hashed)
    decreases |run|
  {
    hide Load, Reached, OthersHarmless, PinAfter, Name, ValidSession;
    if run == [] {
      ReachedStart(pin);
    } else {
      var n := |run| - 1;
      RunOfOthers(system, pin, run[..n], name, hashed);
      StepOfOther(system, pin, PinAfterRun(system, pin, run[..n], hashed), run[n], name, hashed);
    }
  }

  lemma ReachedStart(pin: string)
    ensures Reached(pin, pin)
  {
  }

  /**
   For every pin file and every host: whatever other hosts do, in runs of any length, what the host reads
   stays as it is exactly if the end of the file is harmless.
   */
  lemma OthersNeverMatterExactly(system: string, pin: string, t: Session, hashed: HashedMatch)
    requires Addressed(t)
    ensures (forall run :: OthersOnly(run, Name(t)) ==> SameLoad(system, pin, run, Name(t), hashed))
       <==> OthersHarmless(system, pin, Name(t), hashed)
  {
    hide OthersHarmless, SameLoad;
    NameIsPlain(t);
    if OthersHarmless(system, pin, Name(t), hashed) {
      forall run | OthersOnly(run, Name(t)) ensures SameLoad(system, pin, run, Name(t), hashed) {
        RunOfOthers(system, pin, run, Name(t), hashed);
      }
    }
    if forall run :: OthersOnly(run, Name(t)) ==> SameLoad(system, pin, run, Name(t), hashed) {
      SameLoadsMeanHarmless(system, pin, Name(t), hashed);
    }
  }

  lemma SameLoadsMeanHarmless(system: string, pin: string, name: string, hashed: HashedMatch)
    requires forall run :: OthersOnly(run, name) ==> SameLoad(system, pin, run, name, hashed)
    ensures OthersHarmless(system, pin, name, hashed)
  {
    hide Load, Harmless, Tail, Pins, PinLine;
    forall s: Session | ValidSession(s) && Name(s) != name && Pins(Load(system, pin, Name(s), hashed), s)
      ensures Harmless(Tail(pin), Name(s), name, Load(system, pin, name, hashed).unsupported.Some?, hashed)
    {
      assert OthersOnly([s], name) && SameLoad(system, pin, [s], name, hashed);
      assert [s][..0] == [];
      assert PinAfterRun(system, pin, [s], hashed) == PinAfter(system, pin, s, hashed);
      PinIsHarmlessExactly(system, pin, s, name, hashed);
    }
  }

  /** Then every session of the host is answered as if the others had not been. */
  lemma OthersLeaveOutcomes(system: string, pin: string, run: seq<Session>, t: Session, hashed: HashedMatch)
    requires Addressed(t) && OthersOnly(run, Name(t)) && OthersHarmless(system, pin, Name(t), hashed)
    ensures OutcomeOf(system, PinAfterRun(system, pin, run, hashed), t, hashed) == OutcomeOf(system, pin, t, hashed)
  {
    hide Load, OthersHarmless, Decide;
    NameIsPlain(t);
    RunOfOthers(system, pin, run, Name(t), hashed);
  }

  // ---- Over runs in which the host itself takes part

  /** The same entry but for the host field it was found under. */
  predicate SameEntry(a: Entry, b: Entry) { a == b.(hostField := a.hostField) }

  predicate SameEntries(a: seq<Entry>, b: seq<Entry>) {
    |a| == |b| && forall i :: 0 <= i < |a| ==> SameEntry(a[i], b[i])
  }

  predicate SameLoaded(a: Loaded, b: Loaded) { SameEntries(a.entries, b.entries) && a.unsupported == b.unsupported }

  predicate SameDecision(a: Decision, b: Decision) {
    if a.Changed? && b.Changed? then SameEntry(a.conflict, b.conflict) else a == b
  }

  lemma SameHolds(a: seq<Entry>, b: seq<Entry>, k: Key, revoked: bool)
    requires SameEntries(a, b) && Holds(a, k, revoked)
    ensures Holds(b, k, revoked)
  {
    var e :| e in a && e.revoked == revoked && SameKey(e.keyType, e.keyData, k);
    var i :| 0 <= i < |a| && a[i] == e;
    assert b[i] in b;
  }

  lemma {:induction false} SameFirst(a: seq<Entry>, b: seq<Entry>)
    requires SameEntries(a, b)
    ensures match (FirstTrusted(a), FirstTrusted(b))
            case (Some(e), Some(f)) => SameEntry(e, f)
            case (None, None) => true
            case _ => false
    decreases |a|
  {
    if a != [] && a[0].revoked {
      SameFirst(a[1..], b[1..]);
    }
  }

  lemma SameDecides(a: Loaded, b: Loaded, k: Key)
    requires SameLoaded(a, b)
    ensures SameDecision(Decide(a, k), Decide(b, k))
  {
    hide Holds;
    if Holds(a.entries, k, true) { SameHolds(a.entries, b.entries, k, true); }
    if Holds(b.entries, k, true) { SameHolds(b.entries, a.entries, k, true); }
    if Holds(a.entries, k, false) { SameHolds(a.entries, b.entries, k, false); }
    if Holds(b.entries, k, false) { SameHolds(b.entries, a.entries, k, false); }
    SameFirst(a.entries, b.entries);
  }

  ghost predicate Grown(l: Loaded, m: Loaded, e: Entry) {
    && m.unsupported == l.unsupported && |m.entries| == |l.entries| + 1 && m.entries[..|l.entries|] == l.entries
    && SameEntry(m.entries[|l.entries|], e)
  }

  lemma GrownAlike(l: Loaded, m: Loaded, k: Loaded, n: Loaded, e: Entry)
    requires SameLoaded(l, k) && Grown(l, m, e) && Grown(k, n, e)
    ensures SameLoaded(m, n)
  {
    forall i | 0 <= i < |m.entries| ensures SameEntry(m.entries[i], n.entries[i]) {
      if i < |l.entries| {
        assert m.entries[i] == l.entries[i] && n.entries[i] == k.entries[i];
      }
    }
  }

  /** What a host's own pin adds, behind a clean file or behind an end that lets it through. */
  lemma OwnPinLoads(system: string, pin: string, file: string, s: Session, hashed: HashedMatch)
    requires ValidSession(s) && Name(s) != "" && Reached(file, pin) && TailTakes(Tail(pin), Name(s), hashed)
    ensures Grown(Load(system, file, Name(s), hashed), Load(system, file + (PinLine(s) + "\n"), Name(s), hashed),
                  PinnedEntry(s))
  {
    hide Load, Clean, TailTakes, PinLine, Tail;
    NameIsPlain(s);
    if file == pin {
      TakenPinLoads(system, pin, s, hashed);
    } else {
      PinReloads(system, file, s, Name(s), hashed);
    }
  }

  /** The loads of a host after a run and after its own part of the run. */
  ghost predicate Parallel(system: string, pin: string, run: seq<Session>, name: string, hashed: HashedMatch) {
    var all, own := PinAfterRun(system, pin, run, hashed), PinAfterRun(system, pin, Only(run, name), hashed);
    && Reached(all, pin) && Reached(own, pin)
    && SameLoaded(Load(system, all, name, hashed), Load(system, own, name, hashed))
  }

  lemma ParallelOther(system: string, pin: string, run: seq<Session>, s: Session, name: string, hashed: HashedMatch)
    requires ValidSession(s) && Name(s) != name && Plain(name)
    requires OthersHarmless(system, pin, name, hashed) && Parallel(system, pin, run, name, hashed)
    ensures Parallel(system, pin, run + [s], name, hashed)
  {
    hide Load, Reached, OthersHarmless, PinAfter, Name, ValidSession, SameLoaded;
    assert (run + [s])[..|run|] == run;
    Empties(Only(run, name));
    StepOfOther(system, pin, PinAfterRun(system, pin, run, hashed), s, name, hashed);
  }

  lemma ParallelOwn(system: string, pin: string, run: seq<Session>, s: Session, hashed: HashedMatch)
    requires ValidSession(s) && Name(s) != "" && TailTakes(Tail(pin), Name(s), hashed)
    requires Parallel(system, pin, run, Name(s), hashed)
    ensures Parallel(system, pin, run + [s], Name(s), hashed)
  {
    hide Load, Clean, TailTakes, Tail, PinLine, Decide, SameLoaded, Grown;
    var name := Name(s);
    var all, own := PinAfterRun(system, pin, run, hashed), PinAfterRun(system, pin, Only(run, name), hashed);
    assert (run + [s])[..|run|] == run;
    assert (Only(run, name) + [s])[..|Only(run, name)|] == Only(run, name);
    assert Only(run + [s], name) == Only(run, name) + [s];
    SameDecides(Load(system, all, name, hashed), Load(system, own, name, hashed), s.key);
    if Pins(Load(system, all, name, hashed), s) {
      PinnedIsClean(all, s);
      PinnedIsClean(own, s);
      OwnPinLoads(system, pin, all, s, hashed);
      OwnPinLoads(system, pin, own, s, hashed);
      GrownAlike(Load(system, all, name, hashed), Load(system, all + (PinLine(s) + "\n"), name, hashed),
                 Load(system, own, name, hashed), Load(system, own + (PinLine(s) + "\n"), name, hashed), PinnedEntry(s));
    }
  }

  lemma {:induction false} RunsParallel(system: string, pin: string, run: seq<Session>, name: string, hashed: HashedMatch)
    requires ValidRun(run) && Plain(name) && name != ""
    requires OthersHarmless(system, pin, name, hashed) && TailTakes(Tail(pin), name, hashed)
    ensures Parallel(system, pin, run, name, hashed)
    decreases |run|
  {
    hide Parallel, OthersHarmless, TailTakes, Tail, Name, ValidSession, Plain;
    if run == [] {
      ParallelStarts(system, pin, name, hashed);
    } else {
      var n := |run| - 1;
      RunsParallel(system, pin, run[..n], name, hashed);
      assert run[..n] + [run[n]] == run;
      if Name(run[n]) == name {
        ParallelOwn(system, pin, run[..n], run[n], hashed);
      } else {
        ParallelOther(system, pin, run[..n], run[n], name, hashed);
      }
    }
  }

  lemma ParallelStarts(system: string, pin: string, name: string, hashed: HashedMatch)
    ensures Parallel(system, pin, [], name, hashed)
  {
  }

  /**
   Runs that mix hosts: behind an end of the file that is harmless to a host and lets its own pin through,
   the host is answered after any run as after its own sessions alone, up to the host field that a
   conflict is quoted with.
   */
  lemma MixedRunsAgree(system: string, pin: string, run: seq<Session>, t: Session, hashed: HashedMatch)
    requires ValidRun(run) && ValidSession(t) && Name(t) != "" && t.readable
    requires OthersHarmless(system, pin, Name(t), hashed) && TailTakes(Tail(pin), Name(t), hashed)
    ensures var o := OutcomeOf(system, PinAfterRun(system, pin, run, hashed), t, hashed);
            var own := OutcomeOf(system, PinAfterRun(system, pin, Only(run, Name(t)), hashed), t, hashed);
            o.Decided? && own.Decided? && SameDecision(o.decision, own.decision)
  {
    hide Load, OthersHarmless, TailTakes, Tail, Decide, SameLoaded, SameDecision;
    NameIsPlain(t);
    RunsParallel(system, pin, run, Name(t), hashed);
    SameDecides(Load(system, PinAfterRun(system, pin, run, hashed), Name(t), hashed),
                Load(system, PinAfterRun(system, pin, Only(run, Name(t)), hashed), Name(t), hashed), t.key);
  }

  // ---- The end of a file that other hosts should not come behind: an entry without its newline

  lemma EntryWords(t: Session)
    requires ValidSession(t) && Name(t) != ""
    ensures var w, kt := PinLine(t), CanonicalKeyType(t.key.keyType);
            RestOf(w) == Body(None, w) && CompleteWords(w, "x") == [Name(t), kt] && w[LastWordStart(w)..] == t.key.blob
    ensures PinLine(t) != ""
  {
    var name, kt, blob := Name(t), CanonicalKeyType(t.key.keyType), t.key.blob;
    NameIsPlain(t);
    PlainFacts(name);
    CanonicalIsWord(t.key.keyType);
    EntryStart(name, kt, blob);
    ThreeWords(name, kt, blob);
    LastWordNonempty(ThreeFields(name, kt, blob));
    FusedTextWords(ThreeFields(name, kt, blob), "x", "k", "b");
    LastOfThree(CompleteWords(PinLine(t), "x"), PinLine(t)[LastWordStart(PinLine(t))..], name, kt, blob);
  }

  lemma EntryStart(name: string, kt: string, blob: string)
    requires Plain(name) && Spaceless(blob) && name != "" && blob != ""
    ensures var w := ThreeFields(name, kt, blob); RestOf(w) == Body(None, w) && w != "" && !IsSpace(w[|w| - 1])
  {
    var w := ThreeFields(name, kt, blob);
    PlainFacts(name);
    assert w[0] == name[0] && w[|w| - 1] == blob[|blob| - 1];
  }

  lemma LastWordNonempty(w: string)
    requires w != "" && !IsSpace(w[|w| - 1])
    ensures LastWordStart(w) < |w|
  {
  }

  lemma LastOfThree(p: seq<string>, v: string, x: string, y: string, z: string)
    requires p + [v] == [x, y, z]
    ensures p == [x, y] && v == z
  {
    assert |p| == 2 && (p + [v])[0] == p[0] && (p + [v])[1] == p[1] && (p + [v])[2] == v;
  }

  /**
   The pin file is one valid entry of host t without its final newline. After a first use of any other
   host, t's own key, known before, is reported as changed.
   */
  lemma UnterminatedEntryIsLost(t: Session, s: Session, hashed: HashedMatch)
    requires ValidSession(t) && ValidSession(s) && Name(t) != "" && Name(s) != "" && Name(s) != Name(t)
    requires t.readable && s.readable && s.writable
    ensures OutcomeOf("", PinLine(t), t, hashed) == Decided(Known)
    ensures Pins(Load("", PinLine(t), Name(s), hashed), s)
    ensures var o := OutcomeOf("", PinAfter("", PinLine(t), s, hashed), t, hashed);
            o.Decided? && o.decision.Changed?
  {
    hide Load, Parse, Words, PinLine, FieldMatches;
    var w, line := PinLine(t), PinLine(s);
    PinLineParses(t);
    PinLineParses(s);
    EntryWords(t);
    NameIsPlain(t);
    NameIsPlain(s);
    FieldMatchesName(Name(t), Name(t), hashed);
    FieldMatchesName(Name(t), Name(s), hashed);
    PinTails.LoadOneLine(w, Name(t), hashed);
    PinTails.LoadOneLine(w, Name(s), hashed);
    PinTails.LoadOneLine(w + line, Name(t), hashed);
    assert w + (line + "\n") == (w + line) + "\n";
    EntryGrows(t, s);
    EntryDecides(t, s, hashed);
  }

  lemma EntryGrows(t: Session, s: Session)
    requires ValidSession(t) && ValidSession(s) && Name(t) != "" && Name(s) != ""
    ensures Parse(PinLine(t) + PinLine(s)) == Fields(None, Name(t), CanonicalKeyType(t.key.keyType), t.key.blob + Name(s))
  {
    hide Words, Parse;
    EntryWords(t);
    NameIsPlain(s);
    PlainFacts(Name(s));
    CanonicalIsWord(s.key.keyType);
    FusedParses(PinLine(t), Name(s), CanonicalKeyType(s.key.keyType), s.key.blob);
    FusedTextWords(PinLine(t), Name(s), CanonicalKeyType(s.key.keyType), s.key.blob);
    assert CompleteWords(PinLine(t), Name(s)) == CompleteWords(PinLine(t), "x");
  }

  lemma EntryDecides(t: Session, s: Session, hashed: HashedMatch)
    requires Parse(PinLine(t)) == Fields(None, Name(t), CanonicalKeyType(t.key.keyType), t.key.blob)
    requires Parse(PinLine(t) + PinLine(s)) == Fields(None, Name(t), CanonicalKeyType(t.key.keyType), t.key.blob + Name(s))
    requires FieldMatches(Name(t), Name(t), hashed) && !FieldMatches(Name(t), Name(s), hashed) && Name(s) != ""
    ensures Decide(Absorb(EMPTY, PinLine(t), Pin, Name(t), hashed), t.key).Known?
    ensures Absorb(EMPTY, PinLine(t), Pin, Name(s), hashed) == EMPTY
    ensures Decide(Absorb(EMPTY, PinLine(t) + PinLine(s), Pin, Name(t), hashed), t.key).Changed?
  {
    hide Parse, PinLine, FieldMatches;
    var e := Entry(Name(t), CanonicalKeyType(t.key.keyType), t.key.blob, Pin, false);
    var f := e.(keyData := t.key.blob + Name(s));
    assert Absorb(EMPTY, PinLine(t), Pin, Name(t), hashed).entries == [e] && e in [e];
    assert SameKey(e.keyType, e.keyData, t.key);
    assert Absorb(EMPTY, PinLine(t) + PinLine(s), Pin, Name(t), hashed).entries == [f];
    assert |f.keyData| != |t.key.blob|;
    assert forall x :: x in [f] <==> x == f;
  }
}
