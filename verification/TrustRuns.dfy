/**
 Trust on first use over whole runs of sequential sessions. Each session builds a checker over the
 stores as they are then, decides on the presented key and may append one line to the pin file.
 */
module TrustRuns {
  import opened Wrappers
  import opened Text
  import opened HostNames
  import opened KnownHosts
  import opened FusedLines

  /** `readable`: both stores could be read; `writable`: the pin file could be appended to. */
  datatype Session = Session(host: string, port: nat, key: Key, readable: bool, writable: bool)

  datatype Outcome = Unreadable | Decided(decision: Decision)

  /** The host and port come from splitting a valid command-line address. */
  ghost predicate Addressed(s: Session) {
    exists target :: ValidHost(target) && SplitHostPort(target) == (s.host, s.port)
  }

  ghost predicate ValidSession(s: Session) {
    Addressed(s) && ValidKey(s.key)
  }

  function Name(s: Session): string { Candidate(s.host, s.port) }

  function PinLine(s: Session): string { PinText(s.host, s.port, s.key) }

  ghost predicate Accepted(o: Outcome) { o.Decided? && (o.decision.Known? || o.decision.FirstUse?) }

  ghost function OutcomeOf(system: string, pin: string, s: Session, hashed: HashedMatch): Outcome {
    if s.readable then Decided(Decide(Load(system, pin, Name(s), hashed), s.key)) else Unreadable
  }

  /** The session trusts the key for the first time and its line lands in the pin file. */
  ghost predicate Pins(l: Loaded, s: Session) {
    s.readable && s.writable && Decide(l, s.key).FirstUse?
  }

  ghost function PinAfter(system: string, pin: string, s: Session, hashed: HashedMatch): string {
    if Pins(Load(system, pin, Name(s), hashed), s) then pin + (PinLine(s) + "\n") else pin
  }

  /** The pin file after a run of sequential sessions over an unchanged system store. */
  ghost function PinAfterRun(system: string, pin: string, run: seq<Session>, hashed: HashedMatch): string {
    if run == [] then pin
    else
      var n := |run| - 1;
      PinAfter(system, PinAfterRun(system, pin, run[..n], hashed), run[n], hashed)
  }

  method RunSession(system: string, pin: PinFile, s: Session, hashed: HashedMatch) returns (o: Outcome)
    modifies pin
    ensures o == OutcomeOf(system, old(pin.text), s, hashed)
    ensures pin.text == PinAfter(system, old(pin.text), s, hashed)
  {
    if !s.readable {
      return Unreadable;
    }
    var checker := new KnownHostsChecker(s.host, s.port, system, pin, hashed);
    var d := checker.Verify(s.key, s.writable);
    assert old(pin.text) + (PinLine(s) + "\n") == old(pin.text) + PinText(s.host, s.port, s.key) + "\n";
    assert old(pin.text) + "" == old(pin.text);
    return Decided(d);
  }

  // ---- A pinned line parses back to exactly the entry it was written for

  lemma NameIsPlain(s: Session)
    requires Addressed(s)
    ensures Plain(Name(s))
  {
    var target :| ValidHost(target) && SplitHostPort(target) == (s.host, s.port);
    CandidateIsPlain(target);
  }

  lemma NamesAreInjective(s: Session, t: Session)
    requires Addressed(s) && Addressed(t)
    ensures Name(s) == Name(t) <==> s.host == t.host && s.port == t.port
  {
    var a :| ValidHost(a) && SplitHostPort(a) == (s.host, s.port);
    var b :| ValidHost(b) && SplitHostPort(b) == (t.host, t.port);
    CandidatesAreInjective(a, b);
  }

  lemma PinLineParses(s: Session)
    requires ValidSession(s) && Name(s) != ""
    ensures Parse(PinLine(s)) == Fields(None, Name(s), CanonicalKeyType(s.key.keyType), s.key.blob)
    ensures '\n' !in PinLine(s)
  {
    NameIsPlain(s);
    PlainFacts(Name(s));
    CanonicalIsWord(s.key.keyType);
    ThreeFieldsParse(Name(s), CanonicalKeyType(s.key.keyType), s.key.blob);
    SpacelessHasNoNewline(CanonicalKeyType(s.key.keyType));
    SpacelessHasNoNewline(s.key.blob);
  }

  ghost function PinnedEntry(s: Session): Entry {
    Entry(Name(s), CanonicalKeyType(s.key.keyType), s.key.blob, Pin, false)
  }

  /** A pin file whose unterminated last line, if it has one, is blank. Every pin leaves such a file. */
  predicate Clean(pin: string) { Blank(Tail(pin)) }

  /** With an empty name the line has two words and is never an entry. */
  lemma EmptyNamePinIgnored(s: Session)
    requires ValidKey(s.key) && Name(s) == ""
    ensures Parse(PinLine(s)).Ignored? && '\n' !in PinLine(s)
  {
    CanonicalIsWord(s.key.keyType);
    ThreeWords("", CanonicalKeyType(s.key.keyType), s.key.blob);
    ShortLineIgnored(PinLine(s));
  }

  lemma PinLineIsOneLine(s: Session)
    requires ValidSession(s)
    ensures '\n' !in PinLine(s)
  {
    if Name(s) == "" {
      EmptyNamePinIgnored(s);
    } else {
      PinLineParses(s);
    }
  }

  /** Appending a pin adds its entry to the loads of its own host and changes no other load. */
  lemma PinReloads(system: string, pin: string, s: Session, candidate: string, hashed: HashedMatch)
    requires ValidSession(s) && Clean(pin) && Plain(candidate)
    ensures Load(system, pin + (PinLine(s) + "\n"), candidate, hashed)
         == WithPin(Load(system, pin, candidate, hashed), s, candidate)
  {
    NameIsPlain(s);
    PinLineIsOneLine(s);
    var l := LoadFused(system, pin, PinLine(s), candidate, hashed);
    ParseAfterBlank(Tail(pin), PinLine(s));
    if Name(s) == "" {
      EmptyNamePinIgnored(s);
    } else {
      PinLineParses(s);
    }
    AbsorbPlainLine(l, Tail(pin) + PinLine(s), Pin, candidate, hashed);
  }

  /** A host stored under the empty name is never read back. */
  ghost function WithPin(l: Loaded, s: Session, candidate: string): Loaded {
    if candidate == Name(s) && candidate != "" then l.(entries := l.entries + [PinnedEntry(s)]) else l
  }

  // ---- Whole runs, in terms of what one host loads

  ghost predicate ValidRun(run: seq<Session>) { forall i :: 0 <= i < |run| ==> ValidSession(run[i]) }

  ghost function LoadAfter(l: Loaded, s: Session, name: string): Loaded {
    if Pins(l, s) then WithPin(l, s, name) else l
  }

  ghost function LoadAfterRun(l: Loaded, run: seq<Session>, name: string): Loaded {
    if run == [] then l else LoadAfter(LoadAfterRun(l, run[..|run| - 1], name), run[|run| - 1], name)
  }

  lemma PinLeavesClean(system: string, pin: string, s: Session, hashed: HashedMatch)
    requires Clean(pin)
    ensures Clean(PinAfter(system, pin, s, hashed))
  {
    PinnedIsClean(pin, s);
  }

  lemma StepLoads(system: string, pin: string, s: Session, name: string, hashed: HashedMatch)
    requires Clean(pin) && ValidSession(s) && Plain(name)
    ensures Clean(PinAfter(system, pin, s, hashed))
    ensures Load(system, PinAfter(system, pin, s, hashed), name, hashed)
         == LoadAfter(Load(system, pin, name, hashed), s, name)
  {
    PinLeavesClean(system, pin, s, hashed);
    PinReloads(system, pin, s, name, hashed);
  }

  lemma {:induction false} RunLoads(system: string, pin: string, run: seq<Session>, name: string, hashed: HashedMatch)
    requires Clean(pin) && ValidRun(run) && Plain(name)
    ensures Clean(PinAfterRun(system, pin, run, hashed))
    ensures Load(system, PinAfterRun(system, pin, run, hashed), name, hashed)
         == LoadAfterRun(Load(system, pin, name, hashed), run, name)
    decreases |run|
  {
    hide Load, Clean, LoadAfter;
    if run != [] {
      var n := |run| - 1;
      RunLoads(system, pin, run[..n], name, hashed);
      StepLoads(system, PinAfterRun(system, pin, run[..n], hashed), run[n], name, hashed);
    }
  }

  lemma FirstUseMeansNoEntry(l: Loaded, s: Session)
    requires FirstTrusted(l.entries).Some?
    ensures !Pins(l, s)
  {
  }

  /** Once a host holds any trusted entry, no later session adds to or takes from its load. */
  lemma {:induction false} LoadIsStable(l: Loaded, run: seq<Session>, name: string)
    requires FirstTrusted(l.entries).Some?
    ensures LoadAfterRun(l, run, name) == l
    decreases |run|
  {
    if run != [] {
      LoadIsStable(l, run[..|run| - 1], name);
      FirstUseMeansNoEntry(l, run[|run| - 1]);
    }
  }

  lemma {:induction false} NoTrustedEntryNoMatch(es: seq<Entry>, k: Key)
    requires FirstTrusted(es).None?
    ensures !Holds(es, k, false)
    decreases |es|
  {
    if es != [] {
      NoTrustedEntryNoMatch(es[1..], k);
      assert forall e :: e in es <==> e == es[0] || e in es[1..];
    }
  }

  ghost predicate SameKeys(a: Key, b: Key) {
    CanonicalKeyType(a.keyType) == CanonicalKeyType(b.keyType) && a.blob == b.blob
  }

  /** What a first use leaves behind decides every key of that host, in whatever host field it stands. */
  lemma DecideAfterPin(before: Loaded, s: Session, e: Entry, k: Key)
    requires ValidSession(s) && Decide(before, s.key).FirstUse?
    requires !e.revoked && SameKey(e.keyType, e.keyData, s.key)
    ensures FirstTrusted(before.entries + [e]) == Some(e)
    ensures var d := Decide(before.(entries := before.entries + [e]), k);
            if SameKeys(k, s.key) then d.Known? else d.Changed? || d.Revoked?
  {
    var es := before.entries + [e];
    CanonicalIsWord(s.key.keyType);
    FirstTrustedSnoc(before.entries, e);
    NoTrustedEntryNoMatch(before.entries, k);
    assert forall x :: x in es <==> x in before.entries || x == e;
    assert Holds(es, k, false) <==> SameKeys(k, s.key);
    assert Holds(es, k, true) <==> Holds(before.entries, k, true);
    assert SameKeys(k, s.key) ==> (Holds(before.entries, k, true) <==> Holds(before.entries, s.key, true));
  }

  /** The entry the pin line becomes behind this pin file. */
  ghost function FusedEntry(pin: string, s: Session): Entry {
    Entry(FusedField(Tail(pin), Name(s)), CanonicalKeyType(s.key.keyType), s.key.blob, Pin, false)
  }

  /** A pin that the end of the file lets through is one more trusted entry of its host. */
  lemma TakenPinLoads(system: string, pin: string, s: Session, hashed: HashedMatch)
    requires ValidSession(s) && TailTakes(Tail(pin), Name(s), hashed)
    ensures var l := Load(system, pin, Name(s), hashed);
            Load(system, pin + (PinLine(s) + "\n"), Name(s), hashed)
            == l.(entries := l.entries + [FusedEntry(pin, s)])
    ensures SameKey(FusedEntry(pin, s).keyType, FusedEntry(pin, s).keyData, s.key)
  {
    NameIsPlain(s);
    PinLineIsOneLine(s);
    CanonicalIsWord(s.key.keyType);
    var l := LoadFused(system, pin, PinLine(s), Name(s), hashed);
    FusedReads(Tail(pin), Name(s), CanonicalKeyType(s.key.keyType), s.key.blob);
  }

  /** A clean file lets every pin through whose name is not empty. */
  lemma CleanTakes(pin: string, s: Session, hashed: HashedMatch)
    requires ValidSession(s) && Clean(pin)
    ensures TailTakes(Tail(pin), Name(s), hashed) <==> Name(s) != ""
  {
    var w, name := Tail(pin), Name(s);
    NameIsPlain(s);
    PlainFacts(name);
    TrimStartOfConcat(w, "");
    Empties(w);
    BlankTrims(w);
    Empties(name);
    FieldMatchesName(name, name, hashed);
  }

  /** On empty stores the first session of every named host pins, and its pin is let through. */
  lemma EmptyStoresPin(s: Session, hashed: HashedMatch)
    requires ValidSession(s) && s.readable && s.writable && Name(s) != ""
    ensures Pins(Load("", "", Name(s), hashed), s) && TailTakes(Tail(""), Name(s), hashed)
  {
    hide TailTakes;
    assert Lines("") == [] && Load("", "", Name(s), hashed) == EMPTY;
    CleanTakes("", s, hashed);
  }

  /**
   Trust on first use, over every run: after a session has pinned a key for a host and port, behind
   whatever the pin file held as long as its last line lets the pin through, each later session of
   that host and port that can read the stores accepts exactly that key, and reports any other key
   as changed or revoked.
   */
  lemma TrustOnFirstUse(system: string, pin: string, earlier: seq<Session>, first: Session, between: seq<Session>,
                        later: Session, hashed: HashedMatch)
    requires ValidRun(between) && ValidSession(first) && later.readable
    requires first.host == later.host && first.port == later.port
    requires Pins(Load(system, PinAfterRun(system, pin, earlier, hashed), Name(first), hashed), first)
    requires TailTakes(Tail(PinAfterRun(system, pin, earlier, hashed)), Name(first), hashed)
    ensures var pinned := PinAfter(system, PinAfterRun(system, pin, earlier, hashed), first, hashed);
            var o := OutcomeOf(system, PinAfterRun(system, pinned, between, hashed), later, hashed);
            && (Accepted(o) <==> SameKeys(later.key, first.key))
            && (!Accepted(o) ==> o.decision.Changed? || o.decision.Revoked?)
  {
    hide Load, TailTakes, Clean;
    var before, name := PinAfterRun(system, pin, earlier, hashed), Name(first);
    var pinned := PinAfter(system, before, first, hashed);
    var l, e := Load(system, before, name, hashed), FusedEntry(before, first);
    NameIsPlain(first);
    TakenPinLoads(system, before, first, hashed);
    PinnedIsClean(before, first);
    RunLoads(system, pinned, between, name, hashed);
    DecideAfterPin(l, first, e, later.key);
    LoadIsStable(l.(entries := l.entries + [e]), between, name);
  }

  lemma PinnedIsClean(pin: string, s: Session)
    ensures Clean(pin + (PinLine(s) + "\n"))
  {
    var after := pin + (PinLine(s) + "\n");
    assert after[|after| - 1] == '\n';
  }

  /** From a clean file on, no run can come to an end of the file that loses a pin. */
  lemma TrustOnFirstUseFromClean(system: string, pin: string, earlier: seq<Session>, first: Session, hashed: HashedMatch)
    requires Clean(pin) && ValidRun(earlier) && ValidSession(first)
    ensures TailTakes(Tail(PinAfterRun(system, pin, earlier, hashed)), Name(first), hashed) <==> Name(first) != ""
  {
    NameIsPlain(first);
    RunLoads(system, pin, earlier, Name(first), hashed);
    CleanTakes(PinAfterRun(system, pin, earlier, hashed), first, hashed);
  }

  /** The sessions of one stored name. */
  ghost function Only(run: seq<Session>, name: string): (r: seq<Session>)
    ensures |r| <= |run|
  {
    if run == [] then []
    else Only(run[..|run| - 1], name) + if Name(run[|run| - 1]) == name then [run[|run| - 1]] else []
  }

  lemma {:induction false} OnlyIsValid(run: seq<Session>, name: string)
    requires ValidRun(run)
    ensures ValidRun(Only(run, name))
    decreases |run|
  {
    if run != [] {
      OnlyIsValid(run[..|run| - 1], name);
    }
  }

  lemma {:induction false} OnlyLoads(l: Loaded, run: seq<Session>, name: string)
    ensures LoadAfterRun(l, run, name) == LoadAfterRun(l, Only(run, name), name)
    decreases |run|
  {
    if run != [] {
      var n := |run| - 1;
      var own := Only(run[..n], name);
      OnlyLoads(l, run[..n], name);
      if Name(run[n]) == name {
        assert (own + [run[n]])[..|own|] == own;
      } else {
        assert Only(run, name) == own;
      }
    }
  }

  /**
   Sessions of other hosts and ports are invisible: a session decides after any run as it would
   after the sessions of its own host and port alone.
   */
  lemma OtherHostsNeverMatter(system: string, pin: string, run: seq<Session>, s: Session, hashed: HashedMatch)
    requires Clean(pin) && ValidRun(run) && ValidSession(s)
    ensures OutcomeOf(system, PinAfterRun(system, pin, run, hashed), s, hashed)
         == OutcomeOf(system, PinAfterRun(system, pin, Only(run, Name(s)), hashed), s, hashed)
    ensures forall i :: 0 <= i < |Only(run, Name(s))| ==>
      Only(run, Name(s))[i] in run && Only(run, Name(s))[i].host == s.host && Only(run, Name(s))[i].port == s.port
  {
    NameIsPlain(s);
    OnlyIsValid(run, Name(s));
    RunLoads(system, pin, run, Name(s), hashed);
    RunLoads(system, pin, Only(run, Name(s)), Name(s), hashed);
    OnlyLoads(Load(system, pin, Name(s), hashed), run, Name(s));
    OnlyKeepsOwn(run, s);
  }

  lemma {:induction false} OnlyKeepsOwn(run: seq<Session>, s: Session)
    requires ValidRun(run) && ValidSession(s)
    ensures forall x :: x in Only(run, Name(s)) ==> x in run && x.host == s.host && x.port == s.port
    decreases |run|
  {
    hide Addressed, ValidKey, Name;
    if run != [] {
      var n := |run| - 1;
      OnlyKeepsOwn(run[..n], s);
      NamesAreInjective(run[n], s);
      LastOrEarlier(run);
    }
  }

  lemma LastOrEarlier<T>(s: seq<T>)
    requires s != []
    ensures forall x :: x in s <==> x in s[..|s| - 1] || x == s[|s| - 1]
  {
    assert s == s[..|s| - 1] + [s[|s| - 1]];
  }
}
