/**
 Where a pin is lost: the append looks neither at the stored name nor at how the pin file ends.
 The conditions under which the next session trusts the pinned key are exact.
 */
module PinTails {
  import opened Wrappers
  import opened Text
  import opened HostNames
  import opened KnownHosts
  import opened FusedLines
  import opened TrustRuns
  import Glob

  // ---- Does the next session trust the key?

  /** A load in which nothing speaks for or against the key stays so unless one trusted entry of the key comes in. */
  lemma KnownNeedsEntry(l: Loaded, line: string, name: string, k: Key, hashed: HashedMatch)
    requires !Holds(l.entries, k, false)
    requires var q := Parse(line);
             q.Ignored? || q.marker.Some? || q.keyData != k.blob || !FieldMatches(q.field, name, hashed)
    ensures !Decide(Absorb(l, line, Pin, name, hashed), k).Known?
  {
    var q, a := Parse(line), Absorb(l, line, Pin, name, hashed);
    if a.entries != l.entries {
      var e := Entry(q.field, q.keyType, q.keyData, Pin, q.marker.Some?);
      assert forall x :: x in a.entries <==> x in l.entries || x == e;
    }
  }

  /** A rest that is a trusted entry of the host rules out a first use. */
  lemma EntryRulesOutFirstUse(l: Loaded, w: string, name: string, k: Key, hashed: HashedMatch)
    requires Parse(w).Fields? && Parse(w).marker.None? && FieldMatches(Parse(w).field, name, hashed)
    ensures !Decide(Absorb(l, w, Pin, name, hashed), k).FirstUse?
  {
    var q := Parse(w);
    var e := Entry(q.field, q.keyType, q.keyData, Pin, false);
    assert Absorb(l, w, Pin, name, hashed).entries == l.entries + [e];
    FirstTrustedExists(l.entries + [e], e);
  }

  lemma {:induction false} FirstTrustedExists(es: seq<Entry>, e: Entry)
    requires e in es && !e.revoked
    ensures FirstTrusted(es).Some?
    decreases |es|
  {
    if es[0].revoked {
      assert e in es[1..] by {
        assert es == [es[0]] + es[1..];
      }
      FirstTrustedExists(es[1..], e);
    }
  }

  /** A first use with the rest means nothing trusted without it. */
  lemma NothingHeldBefore(l: Loaded, w: string, name: string, k: Key, hashed: HashedMatch)
    requires Decide(if w == "" then l else Absorb(l, w, Pin, name, hashed), k).FirstUse?
    ensures !Holds(l.entries, k, false)
  {
    var lb := if w == "" then l else Absorb(l, w, Pin, name, hashed);
    assert forall x :: x in l.entries ==> x in lb.entries;
  }

  /**
   After a first use the next session trusts the key exactly if the unterminated last line of the pin
   file, less its leading blanks, is one word that starts no comment or marker and that together with
   the name is still a host field of this host.
   */
  lemma PinIsTrustedExactly(system: string, pin: string, s: Session, hashed: HashedMatch)
    requires ValidSession(s) && Pins(Load(system, pin, Name(s), hashed), s)
    requires s.key.blob != CanonicalKeyType(s.key.keyType) && s.key.blob != Name(s)
    ensures Decide(Load(system, PinAfter(system, pin, s, hashed), Name(s), hashed), s.key).Known?
       <==> TailTakes(Tail(pin), Name(s), hashed)
  {
    hide Load, Parse, FusedField, IsLoneField, FieldMatches, PinLine, Tail;
    var w, name := Tail(pin), Name(s);
    if TailTakes(w, name, hashed) {
      TakenPinLoads(system, pin, s, hashed);
      DecideAfterPin(Load(system, pin, name, hashed), s, FusedEntry(pin, s), s.key);
    } else {
      PinIsNotTrusted(system, pin, s, hashed);
    }
  }

  lemma PinIsNotTrusted(system: string, pin: string, s: Session, hashed: HashedMatch)
    requires ValidSession(s) && Pins(Load(system, pin, Name(s), hashed), s)
    requires s.key.blob != CanonicalKeyType(s.key.keyType) && s.key.blob != Name(s)
    requires !TailTakes(Tail(pin), Name(s), hashed)
    ensures !Decide(Load(system, pin + (PinLine(s) + "\n"), Name(s), hashed), s.key).Known?
  {
    hide Load, Parse, FusedField, IsLoneField, FieldMatches, Tail, Absorb, Decide, Holds;
    var w, name, kt, blob := Tail(pin), Name(s), CanonicalKeyType(s.key.keyType), s.key.blob;
    NameIsPlain(s);
    PinLineIsOneLine(s);
    CanonicalIsWord(s.key.keyType);
    var l := LoadFused(system, pin, PinLine(s), name, hashed);
    NothingHeldBefore(l, w, name, s.key, hashed);
    var q := Parse(w + PinLine(s));
    if IsLoneField(FusedField(w, name)) {
      FusedReads(w, name, kt, blob);
    } else {
      FusedElse(w, name, kt, blob);
      if q.Fields? && Parse(w).Fields? && Parse(w).marker.None? && FieldMatches(Parse(w).field, name, hashed) {
        EmptyIsIgnored();
        EntryRulesOutFirstUse(l, w, name, s.key, hashed);
      }
    }
    KnownNeedsEntry(l, w + PinLine(s), name, s.key, hashed);
  }

  lemma EmptyIsIgnored()
    ensures Parse("").Ignored?
  {
  }

  // ---- Names that are never pinned

  /** A valid address whose host is empty. */
  lemma EmptyNameAddress(k: Key)
    ensures ValidHost("[]") && SplitHostPort("[]") == ("", 22)
    ensures Addressed(Session("", 22, k, true, true)) && Name(Session("", 22, k, true, true)) == ""
  {
    assert "[]"[1..] == "]" && "]"[..0] == "" && "]"[1..] == "";
    assert IndexOf("]", ']') == 0;
  }

  /** Behind a clean file a first use is remembered exactly if the stored name is not empty. */
  lemma PinTakesExactly(system: string, pin: string, s: Session, hashed: HashedMatch)
    requires Clean(pin) && ValidSession(s)
    requires Pins(Load(system, pin, Name(s), hashed), s)
    ensures Decide(Load(system, PinAfter(system, pin, s, hashed), Name(s), hashed), s.key).Known? <==> Name(s) != ""
  {
    NameIsPlain(s);
    StepLoads(system, pin, s, Name(s), hashed);
    if Name(s) != "" {
      CanonicalIsWord(s.key.keyType);
      DecideAfterPin(Load(system, pin, Name(s), hashed), s, PinnedEntry(s), s.key);
    }
  }

  // ---- Ends of a file that turn or share a pin

  lemma LoadOneLine(w: string, name: string, hashed: HashedMatch)
    requires '\n' !in w && w != ""
    ensures Load("", w, name, hashed) == Absorb(EMPTY, w, Pin, name, hashed)
    ensures Load("", w + "\n", name, hashed) == Absorb(EMPTY, w, Pin, name, hashed)
  {
    OneLine("", w);
    assert "" + w == w;
    assert LoadLines(EMPTY, Lines(""), System, name, hashed) == EMPTY;
    assert Lines(w) == [w] && Lines(w + "\n") == [w] && [] + [w] == [w];
    LoadOneMoreLine(EMPTY, [], w, Pin, name, hashed);
  }

  /** The file after a first use behind an unterminated rest, for a host the rest says nothing about. */
  lemma FirstPinBehind(w: string, s: Session, hashed: HashedMatch)
    requires ValidSession(s) && s.readable && s.writable && w != "" && '\n' !in w && Parse(w).Ignored?
    ensures Pins(Load("", w, Name(s), hashed), s)
    ensures forall name :: Load("", PinAfter("", w, s, hashed), name, hashed)
                        == Absorb(EMPTY, w + PinLine(s), Pin, name, hashed)
  {
    PinLineIsOneLine(s);
    LoadOneLine(w, Name(s), hashed);
    assert w + (PinLine(s) + "\n") == (w + PinLine(s)) + "\n";
    forall name ensures Load("", (w + PinLine(s)) + "\n", name, hashed) == Absorb(EMPTY, w + PinLine(s), Pin, name, hashed) {
      LoadOneLine(w + PinLine(s), name, hashed);
    }
  }

  const REVOKED := "@revoked "

  lemma RevokedAlone()
    ensures Parse(REVOKED).Ignored?
  {
    WordThenSpace("revoked", "");
    assert Trim(REVOKED) == "@revoked" && "@revoked"[1..] == "revoked" && "revoked" + "" == "revoked";
  }

  lemma RevokedLine(line: string)
    requires Trimmed(line) && |Words(line)| == 3
    ensures Parse(REVOKED + line) == Fields(Some("revoked"), Words(line)[0], Words(line)[1], Words(line)[2])
  {
    hide Words, Trim;
    var all := REVOKED + line;
    assert all[|all| - 1] == line[|line| - 1];
    TrimmedAlready(all);
    var r := all[1..];
    assert r == "revoked" + (" " + line) && all[0] == '@';
    WordThenSpace("revoked", " " + line);
    assert r[..7] == "revoked" && r[8..] == line && TrimStart(line) == line;
  }

  lemma {:induction false} WordThenSpace(word: string, rest: string)
    requires Spaceless(word) && (rest == "" || IsSpace(rest[0]))
    ensures FirstSpace(word + rest) == |word|
    decreases |word|
  {
    if word == "" {
      assert word + rest == rest;
    } else {
      assert (word + rest)[1..] == word[1..] + rest;
      WordThenSpace(word[1..], rest);
    }
  }

  /** Behind an unterminated `@revoked ` a first use revokes the very key it means to pin. */
  lemma RevokedTail(s: Session, hashed: HashedMatch)
    requires ValidSession(s) && Name(s) != "" && s.readable && s.writable
    ensures Pins(Load("", REVOKED, Name(s), hashed), s)
    ensures Decide(Load("", PinAfter("", REVOKED, s, hashed), Name(s), hashed), s.key).Revoked?
  {
    hide Load, Words, Parse, FieldMatches;
    var name, kt := Name(s), CanonicalKeyType(s.key.keyType);
    NameIsPlain(s);
    PlainFacts(name);
    CanonicalIsWord(s.key.keyType);
    ThreeWords(name, kt, s.key.blob);
    assert PinLine(s)[0] == name[0] && PinLine(s)[|PinLine(s)| - 1] == s.key.blob[|s.key.blob| - 1];
    RevokedLine(PinLine(s));
    RevokedAlone();
    FirstPinBehind(REVOKED, s, hashed);
    FieldMatchesName(name, name, hashed);
    var e := Entry(name, kt, s.key.blob, Pin, true);
    assert Absorb(EMPTY, REVOKED + PinLine(s), Pin, name, hashed).entries == [e];
    assert e in [e] && SameKey(kt, s.key.blob, s.key);
  }

  const SHARED := "x,"

  /** Behind an unterminated `x,` the pin of any host is one of host x too: there, other hosts do matter. */
  lemma SharedTail(s: Session, hashed: HashedMatch)
    requires ValidSession(s) && Name(s) != "" && Name(s) != "x" && s.readable && s.writable
    ensures var x := s.(host := "x", port := 22);
            && ValidSession(x) && Only([s], Name(x)) == []
            && OutcomeOf("", PinAfterRun("", SHARED, [s], hashed), x, hashed) == Decided(Known)
            && OutcomeOf("", PinAfterRun("", SHARED, [], hashed), x, hashed) == Decided(FirstUse)
  {
    hide Load, Parse, FieldMatches, Decide, PinAfter;
    AddressX(s.(host := "x", port := 22));
    SharedLine(s);
    FirstPinBehind(SHARED, s, hashed);
    LoadOneLine(SHARED, "x", hashed);
    assert [s][..0] == [];
    SharedDecides(s, hashed);
  }

  lemma SharedLine(s: Session)
    requires ValidSession(s) && Name(s) != ""
    ensures Parse(SHARED).Ignored?
    ensures Parse(SHARED + PinLine(s)) == Fields(None, SHARED + Name(s), CanonicalKeyType(s.key.keyType), s.key.blob)
  {
    NameIsPlain(s);
    PlainFacts(Name(s));
    CanonicalIsWord(s.key.keyType);
    assert TrimStart(SHARED) == SHARED;
    FusedReads(SHARED, Name(s), CanonicalKeyType(s.key.keyType), s.key.blob);
  }

  lemma SharedDecides(s: Session, hashed: HashedMatch)
    requires Parse(SHARED).Ignored?
    requires Parse(SHARED + PinLine(s)) == Fields(None, SHARED + Name(s), CanonicalKeyType(s.key.keyType), s.key.blob)
    ensures Decide(Absorb(EMPTY, SHARED + PinLine(s), Pin, "x", hashed), s.key).Known?
    ensures Decide(Absorb(EMPTY, SHARED, Pin, "x", hashed), s.key).FirstUse?
  {
    hide Parse, FieldMatches;
    SharedField(Name(s), hashed);
    var e := Entry(SHARED + Name(s), CanonicalKeyType(s.key.keyType), s.key.blob, Pin, false);
    assert Absorb(EMPTY, SHARED + PinLine(s), Pin, "x", hashed).entries == [e];
    assert e in [e] && SameKey(e.keyType, e.keyData, s.key);
  }

  lemma AddressX(x: Session)
    requires x.host == "x" && x.port == 22
    ensures Addressed(x) && Name(x) == "x"
  {
    assert ValidHost("x") && IndexOf("x", ':') == 1 && SplitHostPort("x") == ("x", 22);
  }

  lemma SharedField(name: string, hashed: HashedMatch)
    ensures FieldMatches(SHARED + name, "x", hashed)
  {
    var field := SHARED + name;
    assert field[0] == 'x' && field[1..][0] == ',' && "" + ['x'] == "x";
    assert SplitFrom("", field, ',') == SplitFrom("x", field[1..], ',');
    assert Split(field, ',')[0] == "x";
    Glob.AcceptsExactlyMatches("x", "x");
    Glob.LiteralMatchesOnlyItself("x", "x");
  }

  // ---- The plain entry

  lemma FusedFields(p: seq<string>, v: string, name: string, kt: string, blob: string)
    requires blob != kt && blob != name && (p != [] || v != "")
    requires var f := p + [v + name, kt, blob]; f[0] == name && f[1] == kt && f[2] == blob
    ensures var words := p + if v == "" then [] else [v]; |words| >= 3 && words[0] == name
  {
    var f := p + [v + name, kt, blob];
    assert |f| == |p| + 3 && f[|p| + 1] == kt;
    assert f[|p|] == v + name && |f[|p|]| == |v| + |name|;
  }

  /** If a line fused onto a nonblank rest reads as the pin, the rest was already an entry of that host. */
  lemma FusedPinHidesAnEntry(w: string, name: string, kt: string, blob: string)
    requires Spaceless(name) && Spaceless(kt) && Spaceless(blob) && name != "" && kt != "" && blob != ""
    requires !Blank(w) && blob != kt && blob != name
    requires Parse(w + ThreeFields(name, kt, blob)) == Fields(None, name, kt, blob)
    ensures Parse(w).Fields? && Parse(w).marker.None? && Parse(w).field == name
  {
    var line := w + ThreeFields(name, kt, blob);
    var p, v := FusedThree(w, name, kt, blob);
    WordsOfTrim(w);
    WordsOfTrim(line);
    SameFirstChar(w, ThreeFields(name, kt, blob));
    UnmarkedLine(line);
    FusedFields(p, v, name, kt, blob);
    assert Parse(w) == FieldsOf(None, Trim(w));
  }

  /**
   The pin is read back as the entry it was written as, for its own host alone and next to everything
   the file already held, exactly when the file's unterminated last line is blank.
   */
  lemma PinSurvivesExactly(system: string, pin: string, s: Session, hashed: HashedMatch)
    requires ValidSession(s) && Name(s) != ""
    requires s.key.blob != CanonicalKeyType(s.key.keyType) && s.key.blob != Name(s)
    ensures (var before, after := Load(system, pin, Name(s), hashed),
                                  Load(system, pin + (PinLine(s) + "\n"), Name(s), hashed);
             after == before.(entries := before.entries + [PinnedEntry(s)])) <==> Blank(Tail(pin))
  {
    PinLineParses(s);
    NameIsPlain(s);
    PlainFacts(Name(s));
    CanonicalIsWord(s.key.keyType);
    var l := LoadFused(system, pin, PinLine(s), Name(s), hashed);
    PinSurvivesAfter(l, Tail(pin), Name(s), CanonicalKeyType(s.key.keyType), s.key.blob, hashed);
  }

  lemma PinSurvivesAfter(l: Loaded, w: string, name: string, kt: string, blob: string, hashed: HashedMatch)
    requires Plain(name) && Spaceless(kt) && Spaceless(blob) && name != "" && kt != "" && blob != ""
    requires blob != kt && blob != name
    ensures (var before := if w == "" then l else Absorb(l, w, Pin, name, hashed);
             Absorb(l, w + ThreeFields(name, kt, blob), Pin, name, hashed)
               == before.(entries := before.entries + [Entry(name, kt, blob, Pin, false)])) <==> Blank(w)
  {
    var line := ThreeFields(name, kt, blob);
    PlainFacts(name);
    ThreeFieldsParse(name, kt, blob);
    AbsorbPlainLine(l, line, Pin, name, hashed);
    if Blank(w) {
      ParseAfterBlank(w, line);
      AbsorbPlainLine(l, w + line, Pin, name, hashed);
    } else if Parse(w + line) == Fields(None, name, kt, blob) {
      FusedPinHidesAnEntry(w, name, kt, blob);
      AbsorbPlainLine(l, w, Pin, name, hashed);
      AbsorbPlainLine(l, w + line, Pin, name, hashed);
    } else {
      AbsorbShape(l, w, w + line, name, kt, blob, hashed);
    }
  }

  /** Only a line reading as the pin appends the pin's entry. */
  lemma AbsorbShape(l: Loaded, w: string, line: string, name: string, kt: string, blob: string, hashed: HashedMatch)
    requires Parse(line) != Fields(None, name, kt, blob)
    ensures Absorb(l, line, Pin, name, hashed).entries
         != Absorb(l, w, Pin, name, hashed).entries + [Entry(name, kt, blob, Pin, false)]
  {
    var before, after := Absorb(l, w, Pin, name, hashed).entries, Absorb(l, line, Pin, name, hashed).entries;
    assert |l.entries| <= |before|;
    if |after| == |before| + 1 {
      assert after[|l.entries|] != Entry(name, kt, blob, Pin, false);
    }
  }
}
