/**
 A line appended to a file whose last line lacks its newline: what the fused line reads as.
 The unterminated rest is `w`; the appended line holds a name, a key type and a blob.
 */
module FusedLines {
  import opened Wrappers
  import opened Text
  import opened HostNames
  import opened KnownHosts

  lemma WordsAfterSpace(s: string, i: nat)
    requires i < |s| && IsSpace(s[i])
    ensures |Words(s[i + 1..])| <= |Words(s)|
  {
    assert s == s[..i] + [s[i]] + s[i + 1..];
    WordsAtSpace("", s[..i], s[i], s[i + 1..]);
  }

  /** A line of at most two words is ignored. */
  lemma ShortLineIgnored(line: string)
    requires |Words(line)| <= 2
    ensures Parse(line).Ignored?
  {
    var trimmed := Trim(line);
    WordsOfTrim(line);
    if trimmed != "" && trimmed[0] == '@' {
      var r := trimmed[1..];
      var sp := FirstSpace(r);
      if sp < |r| {
        FirstSpaceFirst(r);
        assert r[sp + 1..] == trimmed[sp + 2..];
        WordsAfterSpace(trimmed, sp + 1);
        WordsOfTrim(r[sp + 1..]);
      }
    }
  }

  function LastWordStart(s: string): (n: nat)
    ensures n <= |s|
  {
    if s == "" || IsSpace(s[|s| - 1]) then |s| else LastWordStart(s[..|s| - 1])
  }

  lemma {:induction false} LastWordSplits(s: string)
    ensures Spaceless(s[LastWordStart(s)..])
    ensures LastWordStart(s) > 0 ==> IsSpace(s[LastWordStart(s) - 1])
    decreases |s|
  {
    if s != "" && !IsSpace(s[|s| - 1]) {
      var m, n := |s| - 1, LastWordStart(s);
      LastWordSplits(s[..m]);
      assert n == LastWordStart(s[..m]);
      assert s[n..] == s[..m][n..] + [s[m]];
    }
  }

  lemma WordsWithLast(u: string, v: string)
    requires Spaceless(v) && (u == "" || IsSpace(u[|u| - 1]))
    ensures Words(u + v) == Words(u) + if v == "" then [] else [v]
  {
    WordOfItself("", v);
    assert "" + v == v;
    if u == "" {
      assert u + v == v;
    } else {
      var k := |u| - 1;
      assert u == u[..k] + [u[k]] + "" && u + v == u[..k] + [u[k]] + v;
      WordsAtSpace("", u[..k], u[k], v);
      WordsAtSpace("", u[..k], u[k], "");
    }
  }

  /** A line with something before it: its first word grows, the others stay. */
  lemma FusedWords(w: string, name: string, rest: string) returns (p: seq<string>, v: string)
    requires Spaceless(name) && name != ""
    ensures Words(w) == p + if v == "" then [] else [v]
    ensures Words(w + name + [' '] + rest) == p + [v + name] + Words(rest)
    ensures p == [] ==> Spaceless(v) && TrimStart(w) == v
    ensures v == w[LastWordStart(w)..] && p == Words(w[..LastWordStart(w)])
  {
    var n := LastWordStart(w);
    v, p := w[n..], Words(w[..n]);
    LastWordSplits(w);
    assert w == w[..n] + v && w + name == w[..n] + (v + name);
    WordsWithLast(w[..n], v);
    WordsWithLast(w[..n], v + name);
    WordsAtSpace("", w + name, ' ', rest);
    NoWordsIsBlank("", w[..n]);
    TrimStartOfConcat(w[..n], v);
    SpacelessTrims(v);
  }

  lemma {:induction false} NoWordsIsBlank(cur: string, s: string)
    ensures WordsFrom(cur, s) == [] ==> cur == "" && Blank(s)
    decreases |s|
  {
    if s != "" {
      NoWordsIsBlank("", s[1..]);
      NoWordsIsBlank(cur + [s[0]], s[1..]);
    }
  }

  lemma SpacelessTrims(v: string)
    requires Spaceless(v)
    ensures TrimStart(v) == v && Trim(v) == v
  {
  }

  lemma {:induction false} TrimEndKeepsHead(s: string)
    requires s != "" && !IsSpace(s[0])
    ensures TrimEnd(s) != "" && TrimEnd(s)[0] == s[0]
    decreases |s|
  {
    if IsSpace(s[|s| - 1]) {
      TrimEndKeepsHead(s[..|s| - 1]);
    }
  }

  lemma SameFirstChar(w: string, s: string)
    requires !Blank(w)
    ensures Trim(w) != "" && Trim(w + s) != "" && Trim(w)[0] == Trim(w + s)[0]
  {
    TrimStartOfConcat(w, s);
    var blank := TrimStartDrops(w);
    TrimEndKeepsHead(TrimStart(w));
    TrimEndKeepsHead(TrimStart(w + s));
  }

  lemma FusedThree(w: string, name: string, kt: string, blob: string) returns (p: seq<string>, v: string)
    requires Spaceless(name) && Spaceless(kt) && Spaceless(blob) && name != "" && kt != "" && blob != ""
    ensures Words(w) == p + if v == "" then [] else [v]
    ensures Words(w + ThreeFields(name, kt, blob)) == p + [v + name, kt, blob]
    ensures p == [] ==> Spaceless(v) && TrimStart(w) == v
    ensures v == w[LastWordStart(w)..] && p == Words(w[..LastWordStart(w)])
  {
    p, v := FusedWords(w, name, kt + [' '] + blob);
    WordsWithLast(kt + [' '], blob);
    WordsAtSpace("", kt, ' ', "");
    WordOfItself("", kt);
    assert "" + kt == kt && kt + [' '] == kt + [' '] + "";
    assert w + ThreeFields(name, kt, blob) == w + name + [' '] + (kt + [' '] + blob);
  }

  lemma LoadOneUnterminated(l: Loaded, head: string, w: string, store: Store, candidate: string, hashed: HashedMatch)
    requires Terminated(head) && '\n' !in w
    ensures LoadLines(l, Lines(head + w), store, candidate, hashed)
         == if w == "" then LoadLines(l, Lines(head), store, candidate, hashed)
            else Absorb(LoadLines(l, Lines(head), store, candidate, hashed), w, store, candidate, hashed)
    ensures LoadLines(l, Lines(head + (w + "\n")), store, candidate, hashed)
         == Absorb(LoadLines(l, Lines(head), store, candidate, hashed), w, store, candidate, hashed)
  {
    LinesAfterTerminated(head, w);
    LinesAfterTerminated(head, w + "\n");
    OneLine("", w);
    assert "" + w == w;
    LoadOneMoreLine(l, Lines(head), w, store, candidate, hashed);
    assert Lines(head) + [] == Lines(head);
  }

  lemma ParseAfterBlank(w: string, line: string)
    requires Blank(w)
    ensures Parse(w + line) == Parse(line) && Parse(w).Ignored?
  {
    TrimStartOfConcat(w, line);
    TrimStartOfConcat(w, "");
    assert w + "" == w;
    BlankTrims(w);
    assert Trim(w + line) == Trim(line);
  }

  lemma BlankTrims(w: string)
    requires TrimStart(w) == TrimStart("")
    ensures Trim(w) == ""
  {
  }

  /** Loading a pin file, and loading it with a line appended, in terms of its complete lines. */
  lemma LoadFused(system: string, pin: string, line: string, name: string, hashed: HashedMatch) returns (l: Loaded)
    requires '\n' !in line
    ensures Load(system, pin, name, hashed) == if Tail(pin) == "" then l else Absorb(l, Tail(pin), Pin, name, hashed)
    ensures Load(system, pin + (line + "\n"), name, hashed) == Absorb(l, Tail(pin) + line, Pin, name, hashed)
  {
    var head, w := pin[..TailStart(pin)], Tail(pin);
    var l0 := LoadLines(EMPTY, Lines(system), System, name, hashed);
    TailSplits(pin);
    assert pin + (line + "\n") == head + ((w + line) + "\n");
    LoadOneUnterminated(l0, head, w, Pin, name, hashed);
    LoadOneUnterminated(l0, head, w + line, Pin, name, hashed);
    l := LoadLines(l0, Lines(head), Pin, name, hashed);
  }

  lemma UnmarkedLine(line: string)
    requires Parse(line).Fields? && Parse(line).marker.None?
    ensures var t := Trim(line); t != "" && t[0] != '#' && t[0] != '@'
    ensures Parse(line) == FieldsOf(None, Trim(line))
  {
  }

  // ---- When the fused line is an entry with the appended key

  /** The host field the fused line has if the rest is at most one word; a line without a name starts with a blank. */
  function FusedField(w: string, name: string): string {
    if name == "" then Trim(w) else TrimStart(w) + name
  }

  /** One word that starts neither a comment nor a marker. */
  predicate IsLoneField(f: string) {
    f != "" && Spaceless(f) && f[0] != '#' && f[0] != '@'
  }

  /** The rest leaves the appended key readable, for this very host. */
  ghost predicate TailTakes(w: string, name: string, hashed: HashedMatch) {
    IsLoneField(FusedField(w, name)) && FieldMatches(FusedField(w, name), name, hashed)
  }

  /** The words of the fused line after a rest of at most one word. */
  lemma LoneFieldWords(w: string, name: string, kt: string, blob: string)
    requires Spaceless(name) && Spaceless(kt) && Spaceless(blob) && kt != "" && blob != ""
    requires FusedField(w, name) != "" && Spaceless(FusedField(w, name))
    ensures Words(w + ThreeFields(name, kt, blob)) == [FusedField(w, name), kt, blob]
    ensures |Words(w)| <= 1
  {
    var f, line := FusedField(w, name), ThreeFields(name, kt, blob);
    WordsOfTrim(w);
    if name == "" {
      WordOfItself("", f);
      assert "" + f == f;
      SeparateWords(w, kt, blob);
    } else {
      var v := TrimStart(w);
      var b := TrimStartDrops(w);
      SpacelessPrefix(v, name);
      WordOfItself("", v);
      assert "" + v == v;
      ThreeWords(f, kt, blob);
      assert w + line == b + ThreeFields(f, kt, blob);
      WordsIgnoreLeadingBlank(b, ThreeFields(f, kt, blob));
    }
  }

  lemma SpacelessPrefix(v: string, name: string)
    requires Spaceless(v + name)
    ensures Spaceless(v)
  {
    forall i | 0 <= i < |v| ensures !IsSpace(v[i]) {
      assert (v + name)[i] == v[i];
    }
  }

  /** The first character of the fused line, when it has one. */
  lemma FusedFirstChar(w: string, name: string, kt: string, blob: string)
    requires Plain(name) && Spaceless(blob) && blob != ""
    requires FusedField(w, name) != ""
    ensures var t := Trim(w + ThreeFields(name, kt, blob)); t != "" && t[0] == FusedField(w, name)[0]
  {
    var line := ThreeFields(name, kt, blob);
    PlainFacts(name);
    if Blank(w) {
      ParseAfterBlank(w, line);
      TrimStartOfConcat(w, line);
      TrimStartOfConcat(w, "");
      assert w + "" == w;
      assert name != "" && line[0] == name[0];
      TrimEndKeepsHead(line);
    } else {
      SameFirstChar(w, line);
      TrimStartOfConcat(w, "");
      assert w + "" == w;
      var b := TrimStartDrops(w);
      TrimEndKeepsHead(TrimStart(w));
    }
  }

  lemma FusedReads(w: string, name: string, kt: string, blob: string)
    requires Plain(name) && Spaceless(kt) && Spaceless(blob) && kt != "" && blob != ""
    requires IsLoneField(FusedField(w, name))
    ensures Parse(w + ThreeFields(name, kt, blob)) == Fields(None, FusedField(w, name), kt, blob)
    ensures Parse(w).Ignored?
  {
    PlainFacts(name);
    var line := w + ThreeFields(name, kt, blob);
    LoneFieldWords(w, name, kt, blob);
    FusedFirstChar(w, name, kt, blob);
    WordsOfTrim(line);
    ShortLineIgnored(w);
  }

  /** After any other rest the fused line does not hold the key, unless the rest was already an entry of its host. */
  lemma FusedElse(w: string, name: string, kt: string, blob: string)
    requires Plain(name) && Spaceless(kt) && Spaceless(blob) && kt != "" && blob != ""
    requires blob != kt && blob != name && !IsLoneField(FusedField(w, name))
    ensures var q := Parse(w + ThreeFields(name, kt, blob));
            || q.Ignored? || q.marker.Some? || q.keyData != blob
            || (Parse(w).Fields? && Parse(w).marker.None? && Parse(w).field == q.field)
  {
    hide Parse;
    var line := w + ThreeFields(name, kt, blob);
    var q := Parse(line);
    if q.Fields? && q.marker.None? && q.keyData == blob {
      UnmarkedLine(line);
      WordsOfTrim(line);
      if FusedField(w, name) == "" {
        BlankFieldShort(w, kt, blob);
      } else {
        PlainFacts(name);
        FusedFirstChar(w, name, kt, blob);
        RestHasThreeWords(w, name, kt, blob);
        SameFirstChar(w, ThreeFields(name, kt, blob));
        WordsOfTrim(w);
        PlainLine(w);
      }
    }
  }

  lemma PlainLine(w: string)
    requires Trim(w) != "" && Trim(w)[0] != '#' && Trim(w)[0] != '@'
    ensures Parse(w) == FieldsOf(None, Trim(w))
  {
  }

  /** The third word of the line is the blob only if the rest had three words of its own. */
  lemma RestHasThreeWords(w: string, name: string, kt: string, blob: string)
    requires Spaceless(name) && Spaceless(kt) && Spaceless(blob) && kt != "" && blob != ""
    requires blob != kt && blob != name && FusedField(w, name) != "" && !Spaceless(FusedField(w, name))
    requires var f := Words(w + ThreeFields(name, kt, blob)); |f| >= 3 && f[2] == blob
    ensures |Words(w)| >= 3 && Words(w)[0] == Words(w + ThreeFields(name, kt, blob))[0] && !Blank(w)
  {
    TrimStartOfConcat(w, "");
    Empties(w);
    if name == "" {
      SeparateWords(w, kt, blob);
      WordsOfTrim(w);
      TrimEnds(w);
      if |Words(w)| <= 1 {
        OneWordIsSpaceless(Trim(w));
      }
    } else {
      var p, v := FusedThree(w, name, kt, blob);
      if p == [] {
        JoinSpaceless(v, name);
        assert false;
      }
    }
  }

  lemma JoinSpaceless(a: string, b: string)
    requires Spaceless(a) && Spaceless(b)
    ensures Spaceless(a + b)
  {
  }

  lemma OneWordIsSpaceless(t: string)
    requires Trimmed(t) && |Words(t)| <= 1
    ensures Spaceless(t)
  {
    hide Words;
    var n := LastWordStart(t);
    LastWordSplits(t);
    var u, v := t[..n], t[n..];
    assert t == u + v;
    if n > 0 {
      assert v != "";
      WordsWithLast(u, v);
      HasWord(u);
      assert false;
    } else {
      assert t == v;
    }
  }

  lemma HasWord(u: string)
    ensures Words(u) == [] ==> Blank(u)
  {
    NoWordsIsBlank("", u);
  }

  /** A line without a name starts with a blank: the words of the rest stay. */
  lemma SeparateWords(w: string, kt: string, blob: string)
    requires Spaceless(kt) && Spaceless(blob) && kt != "" && blob != ""
    ensures Words(w + ThreeFields("", kt, blob)) == Words(w) + [kt, blob]
  {
    var rest := kt + [' '] + blob;
    assert w + ThreeFields("", kt, blob) == w + [' '] + rest;
    WordsAtSpace("", w, ' ', rest);
    WordsAtSpace("", kt, ' ', blob);
    WordOfItself("", kt);
    WordOfItself("", blob);
    assert "" + kt == kt && "" + blob == blob;
  }

  lemma BlankFieldShort(w: string, kt: string, blob: string)
    requires Trim(w) == "" && Spaceless(kt) && Spaceless(blob) && kt != "" && blob != ""
    ensures |Words(w + ThreeFields("", kt, blob))| == 2
  {
    SeparateWords(w, kt, blob);
    WordsOfTrim(w);
  }
}
