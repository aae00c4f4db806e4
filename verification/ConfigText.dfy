/**
 The OpenSSH configuration read off its text: what every line means, which lines make a block and
 name it, what is warned about, and that a configuration written out is read back.
 */
module ConfigText {
  import opened Wrappers
  import opened Text
  import opened Lists
  import opened SshConfig
  import Glob

  // ---- Keywords

  /** The keyword in any mix of ASCII upper and lower case. */
  predicate SameWord(key: string, name: string) {
    |key| == |name| && forall i :: 0 <= i < |key| ==>
      key[i] == name[i] || ('A' <= key[i] <= 'Z' && key[i] as int + 32 == name[i] as int)
  }

  predicate LowerCase(name: string) { forall i :: 0 <= i < |name| ==> 'a' <= name[i] <= 'z' }

  lemma {:induction false} LowerExactly(key: string, name: string)
    requires LowerCase(name)
    ensures Lower(key) == name <==> SameWord(key, name)
    decreases |key|
  {
    hide SameWord;
    if key == "" || name == "" {
      SameWordEmpty(key, name);
    } else {
      LowerExactly(key[1..], name[1..]);
      assert name == [name[0]] + name[1..] && Lower(key) == [LowerChar(key[0])] + Lower(key[1..]);
      assert Lower(key)[1..] == Lower(key[1..]);
      SameWordCons(key, name);
    }
  }

  lemma SameWordEmpty(key: string, name: string)
    requires key == "" || name == ""
    ensures SameWord(key, name) <==> key == name
  {
  }

  lemma SameWordCons(key: string, name: string)
    requires key != "" && name != ""
    ensures SameWord(key, name) <==>
      SameWord(key[1..], name[1..])
      && (key[0] == name[0] || ('A' <= key[0] <= 'Z' && key[0] as int + 32 == name[0] as int))
  {
    var k, n := key[1..], name[1..];
    assert forall i :: 0 < i < |key| ==> key[i] == k[i - 1];
    assert forall i :: 0 < i < |name| ==> name[i] == n[i - 1];
    assert forall i :: 0 <= i < |k| ==> k[i] == key[i + 1];
  }

  /** What a keyword and the words of its value mean. */
  function Meaning(key: string, words: seq<string>): Directive {
    if SameWord(key, "host") then HostLine(words)
    else if SameWord(key, "hostname") then HostName(if words == [] then "" else words[0])
    else if SameWord(key, "include") then Include
    else if SameWord(key, "match") then MatchLine
    else Other
  }

  // ---- Every line has one of these forms

  lemma ReadsAs(raw: string, key: string, value: string)
    requires Trim(raw) != "" && Trim(raw)[0] != '#' && SplitKv(Trim(raw)) == (key, value)
    ensures DirectiveOf(raw) == Meaning(key, Words(value))
  {
    hide SplitKv, Trim, Words, SameWord;
    LowerExactly(key, "host");
    LowerExactly(key, "hostname");
    LowerExactly(key, "include");
    LowerExactly(key, "match");
    WordsOfTrim(value);
  }

  /** `key value`: without an `=` the first blank ends the keyword. */
  lemma BlankForm(lead: string, key: string, rest: string, trail: string)
    requires Blank(lead) && Blank(trail)
    requires key != "" && Spaceless(key) && key[0] != '#' && (rest == "" || IsSpace(rest[0]))
    requires rest == "" || !IsSpace(rest[|rest| - 1])
    requires '=' !in key && '=' !in rest
    ensures DirectiveOf(lead + (key + rest) + trail) == Meaning(key, Words(rest))
  {
    hide Words, SameWord, DirectiveOf;
    var line := key + rest;
    assert Trimmed(line) by {
      assert line[0] == key[0] && line[|line| - 1] == if rest == "" then key[|key| - 1] else rest[|rest| - 1];
    }
    TrimExactly(lead, line, trail);
    IndexOfFirst(line, '=');
    FirstSpaceAt(key, rest);
    assert line[..|key|] == key && line[|key|..] == rest;
    ReadsAs(lead + line + trail, key, rest);
  }

  lemma {:induction false} FirstSpaceAt(key: string, rest: string)
    requires Spaceless(key) && (rest == "" || IsSpace(rest[0]))
    ensures FirstSpace(key + rest) == |key|
    decreases |key|
  {
    if key == "" {
      Empties(rest);
    } else {
      DropHead(key, rest);
      FirstSpaceAt(key[1..], rest);
    }
  }

  /** `key = value`: with an `=` anywhere, everything in front of the first one is the keyword. */
  lemma EqualsForm(lead: string, key: string, blank: string, value: string, trail: string)
    requires Blank(lead) && Blank(blank) && Blank(trail)
    requires '=' !in key && (key == "" || (Trimmed(key) && key[0] != '#')) && (key == "" ==> blank == "")
    requires value == "" || !IsSpace(value[|value| - 1])
    ensures DirectiveOf(lead + (key + (blank + ("=" + value))) + trail) == Meaning(key, Words(value))
  {
    hide Words, SameWord, DirectiveOf, SplitKv;
    var line := key + (blank + ("=" + value));
    EqualsEnds(key, blank, value);
    TrimExactly(lead, line, trail);
    EqualsSplits(key, blank, value);
    ReadsAs(lead + line + trail, key, value);
  }

  lemma EqualsEnds(key: string, blank: string, value: string)
    requires (key == "" || (Trimmed(key) && key[0] != '#')) && (key == "" ==> blank == "")
    requires value == "" || !IsSpace(value[|value| - 1])
    ensures var line := key + (blank + ("=" + value)); Trimmed(line) && line[0] != '#'
  {
    var line := key + (blank + ("=" + value));
    assert line[0] == if key == "" then '=' else key[0];
    assert line[|line| - 1] == if value == "" then '=' else value[|value| - 1];
  }

  lemma EqualsSplits(key: string, blank: string, value: string)
    requires '=' !in key && Blank(blank) && (key == "" || Trimmed(key)) && (key == "" ==> blank == "")
    ensures SplitKv(key + (blank + ("=" + value))) == (key, value)
  {
    hide IndexOf;
    var line, before := key + (blank + ("=" + value)), key + blank;
    assert line == before + (['='] + value);
    BlankHasNoEquals(blank);
    EqualsAt(before, value);
    TrimEndSkips(key, blank);
    assert line[..|before|] == before && line[|before| + 1..] == value;
    assert line[0] == if key == "" then '=' else key[0];
  }

  lemma BlankHasNoEquals(blank: string)
    requires Blank(blank)
    ensures '=' !in blank
  {
    assert !IsSpace('=');
  }

  lemma {:induction false} EqualsAt(a: string, v: string)
    requires '=' !in a
    ensures IndexOf(a + (['='] + v), '=') == |a|
    decreases |a|
  {
    if a == "" {
      Empties(['='] + v);
    } else {
      DropHead(a, ['='] + v);
      EqualsAt(a[1..], v);
    }
  }

  /** Blank lines and comments. */
  lemma SilentForm(lead: string, text: string)
    requires Blank(lead)
    ensures DirectiveOf(lead) == Other
    ensures DirectiveOf(lead + ("#" + text)) == Other
  {
    hide Words;
    BlankIsTrimmedAway(lead);
    var line := "#" + text;
    TrimStartOfConcat(lead, line);
    var trail := TrimEndDrops(line);
    TrimKeepsHash(line);
  }

  lemma {:induction false} TrimKeepsHash(line: string)
    requires line != "" && line[0] == '#'
    ensures TrimEnd(line) != "" && TrimEnd(line)[0] == '#' && TrimStart(line) == line
    decreases |line|
  {
    if IsSpace(line[|line| - 1]) {
      TrimKeepsHash(line[..|line| - 1]);
    }
  }

  // ---- Blocks

  /** No Host or Match line strictly between the two. */
  predicate NoCutBetween(ds: seq<Directive>, i: nat, j: nat) {
    forall k :: i < k < j && k < |ds| ==> !ds[k].HostLine? && !ds[k].MatchLine?
  }

  /** Line `j` is a HostName with a value that belongs to the Host line `i`. */
  predicate Names(ds: seq<Directive>, i: nat, j: nat) {
    i < j < |ds| && NoCutBetween(ds, i, j) && ds[j].HostName? && ds[j].first != ""
  }

  function ValueAt(ds: seq<Directive>, j: nat): string {
    if j < |ds| && ds[j].HostName? then ds[j].first else ""
  }

  /** The name of the block that line `i` opens: the value of the first line that names it. */
  ghost predicate NameOf(ds: seq<Directive>, i: nat, name: Option<string>) {
    match name
    case None => forall j: nat :: !Names(ds, i, j)
    case Some(h) => exists j: nat :: Names(ds, i, j) && ValueAt(ds, j) == h && forall k: nat :: k < j ==> !Names(ds, i, k)
  }

  /** The blocks are those of the Host lines, in order; `at` says which lines these are. */
  ghost predicate BlocksAt(ds: seq<Directive>, bs: seq<Block>, at: seq<nat>) {
    && |bs| == |at| && Ascending(at)
    && (forall k :: 0 <= k < |at| ==> at[k] < |ds| && IsBlock(ds, at[k], bs[k]))
    && (forall i :: 0 <= i < |ds| && ds[i].HostLine? ==> i in at)
  }

  ghost predicate IsBlock(ds: seq<Directive>, i: nat, b: Block)
    requires i < |ds|
  {
    ds[i].HostLine? && b.aliases == ds[i].aliases && NameOf(ds, i, b.hostName)
  }

  lemma {:induction false} SegmentNames(d: Directive, ds: seq<Directive>)
    ensures NameOf([d] + ds, 0, FirstName(Segment(ds)))
    decreases |ds|
  {
    var all := [d] + ds;
    if ds == [] || Cuts(ds[0]) {
      forall j: nat ensures !Names(all, 0, j) {
        if 1 < j < |all| {
          assert all[1] == ds[0] && Cuts(all[1]);
        }
      }
    } else if ds[0].HostName? && ds[0].first != "" {
      assert Segment(ds)[0] == ds[0];
      assert all[1] == ds[0] && Names(all, 0, 1);
    } else {
      SegmentNames(ds[0], ds[1..]);
      assert ds == [ds[0]] + ds[1..];
      assert Segment(ds) == [ds[0]] + Segment(ds[1..]);
      assert Segment(ds)[1..] == Segment(ds[1..]);
      NameSkips(d, ds, FirstName(Segment(ds)));
    }
  }

  /** One line further in front, everything a block is named by stands one line further back. */
  lemma NamesBehind(d: Directive, ds: seq<Directive>, i: nat, j: nat)
    ensures Names([d] + ds, i + 1, j + 1) <==> Names(ds, i, j)
  {
    var all := [d] + ds;
    assert forall k :: 0 <= k < |ds| ==> all[k + 1] == ds[k];
    assert forall k :: 0 < k < |all| ==> all[k] == ds[k - 1];
  }

  /** Past a line that neither cuts nor names, a block is named as by the line behind it. */
  lemma NamesPast(ds: seq<Directive>, j: nat)
    requires |ds| > 1 && !Cuts(ds[1]) && !(ds[1].HostName? && ds[1].first != "")
    ensures Names(ds, 0, j) <==> Names(ds, 1, j)
  {
  }

  lemma NeverNamedAtOnce(ds: seq<Directive>, i: nat)
    ensures !Names(ds, i, 0) && !Names(ds, i, i)
  {
  }

  /** Past a line that neither cuts nor names, the name is that of the rest. */
  lemma NameSkips(d: Directive, ds: seq<Directive>, name: Option<string>)
    requires ds != [] && !Cuts(ds[0]) && !(ds[0].HostName? && ds[0].first != "") && NameOf(ds, 0, name)
    ensures NameOf([d] + ds, 0, name)
  {
    hide Names;
    var all := [d] + ds;
    NameShifts(d, ds, 0, name);
    forall j: nat ensures Names(all, 0, j) <==> Names(all, 1, j) {
      NamesPast(all, j);
    }
  }

  /** Lines in front of a block do not change its name. */
  lemma NameShifts(d: Directive, ds: seq<Directive>, i: nat, name: Option<string>)
    requires NameOf(ds, i, name)
    ensures NameOf([d] + ds, i + 1, name)
  {
    hide Names;
    var all, next := [d] + ds, i + 1;
    forall j: nat ensures Names(all, next, j) <==> j > 0 && Names(ds, i, j - 1) {
      if j > 0 {
        NamesBehind(d, ds, i, j - 1);
      } else {
        NeverNamedAtOnce(all, next);
      }
    }
    if name.Some? {
      var j: nat :| Names(ds, i, j) && ValueAt(ds, j) == name.value && forall k: nat :: k < j ==> !Names(ds, i, k);
      NamesBehind(d, ds, i, j);
      assert ValueAt(all, j + 1) == ValueAt(ds, j) && Names(all, next, j + 1);
    }
  }

  lemma IsBlockShifts(d: Directive, ds: seq<Directive>, i: nat, b: Block)
    requires i < |ds| && IsBlock(ds, i, b)
    ensures IsBlock([d] + ds, i + 1, b)
  {
    hide NameOf;
    NameShifts(d, ds, i, b.hostName);
  }

  lemma SkipLine(d: Directive, ds: seq<Directive>, bs: seq<Block>, at: seq<nat>)
    requires BlocksAt(ds, bs, at) && !d.HostLine?
    ensures BlocksAt([d] + ds, bs, Shift(at))
  {
    hide IsBlock, Ascending;
    var all, moved := [d] + ds, Shift(at);
    ShiftAscends(at);
    forall k | 0 <= k < |at| ensures IsBlock(all, moved[k], bs[k]) {
      IsBlockShifts(d, ds, at[k], bs[k]);
    }
    forall i | 0 <= i < |all| && all[i].HostLine? ensures i in moved {
      assert ds[i - 1].HostLine?;
      ShiftedIn(at, i - 1);
    }
  }

  lemma TakeBlock(d: Directive, ds: seq<Directive>, b: Block, bs: seq<Block>, at: seq<nat>)
    requires BlocksAt(ds, bs, at) && IsBlock([d] + ds, 0, b)
    ensures BlocksAt([d] + ds, [b] + bs, [0] + Shift(at))
  {
    hide IsBlock, Ascending;
    var all, moved, more := [d] + ds, [0] + Shift(at), [b] + bs;
    ShiftAscends(at);
    forall k | 0 <= k < |moved| ensures IsBlock(all, moved[k], more[k]) {
      if k > 0 {
        IsBlockShifts(d, ds, at[k - 1], bs[k - 1]);
      }
    }
    forall i | 0 <= i < |all| && all[i].HostLine? ensures i in moved {
      if i > 0 {
        assert ds[i - 1].HostLine?;
        ShiftedIn(at, i - 1);
      } else {
        assert moved[0] == 0;
      }
    }
  }

  /** One block per Host line, with its aliases and the first HostName before the next Host or Match line. */
  lemma {:induction false} BlocksExactly(ds: seq<Directive>) returns (at: seq<nat>)
    ensures BlocksAt(ds, BlocksOf(ds), at)
    decreases |ds|
  {
    hide BlocksAt, NameOf;
    if ds == [] {
      at := [];
      NoBlocks();
    } else {
      var rest := ds[1..];
      at := BlocksExactly(rest);
      assert ds == [ds[0]] + rest;
      if ds[0].HostLine? {
        var b := Block(ds[0].aliases, FirstName(Segment(rest)));
        SegmentNames(ds[0], rest);
        TakeBlock(ds[0], rest, b, BlocksOf(rest), at);
        at := [0] + Shift(at);
      } else {
        SkipLine(ds[0], rest, BlocksOf(rest), at);
        at := Shift(at);
      }
    }
  }

  lemma NoBlocks()
    ensures BlocksAt([], [], [])
  {
  }

  // ---- Selection and warnings

  /** An alias that is no negation, and some pattern cuts it into pieces. */
  lemma SelectsExactly(patterns: seq<string>, alias: string)
    ensures Selects(patterns, alias) <==>
      !("!" <= alias) && exists i, pieces :: 0 <= i < |patterns| && Glob.CutsInto(patterns[i], alias, pieces)
  {
    hide Glob.Matches, Glob.CutsInto;
    forall i | 0 <= i < |patterns|
      ensures Glob.Matches(patterns[i], alias) <==> exists pieces :: Glob.CutsInto(patterns[i], alias, pieces)
    {
      Glob.MatchesByPieces(patterns[i], alias);
    }
  }

  lemma {:induction false} OpenExactly(ds: seq<Directive>)
    ensures Open(ds) <==> exists i: nat :: i < |ds| && ds[i].HostLine? && forall k :: i < k < |ds| ==> !ds[k].MatchLine?
    decreases |ds|
  {
    if ds != [] {
      var n := |ds| - 1;
      OpenExactly(ds[..n]);
      if !ds[n].HostLine? && !ds[n].MatchLine? {
        if i: nat :| i < n && ds[..n][i].HostLine? && forall k :: i < k < n ==> !ds[..n][k].MatchLine? {
          assert ds[i].HostLine?;
        }
        if i: nat :| i < |ds| && ds[i].HostLine? && forall k :: i < k < |ds| ==> !ds[k].MatchLine? {
          assert ds[..n][i].HostLine?;
        }
      }
    }
  }

  lemma {:induction false} OutsideExactly(ds: seq<Directive>, w: Warning)
    ensures w in Outside(ds) <==> w.NameOutside? && w.line < |ds| && ds[w.line].HostName? && !Open(ds[..w.line])
    decreases |ds|
  {
    hide Open;
    if ds != [] {
      var n := |ds| - 1;
      OutsideExactly(ds[..n], w);
      assert w.NameOutside? && w.line < n ==> ds[..n][..w.line] == ds[..w.line];
    }
  }

  /** Where the lines of one meaning stand. */
  function PlacesOf(ds: seq<Directive>, d: Directive): set<int> { set i | 0 <= i < |ds| && ds[i] == d }

  lemma {:induction false} CountExactly(ds: seq<Directive>, d: Directive)
    ensures Count(ds, d) == |PlacesOf(ds, d)|
    decreases |ds|
  {
    hide PlacesOf;
    if ds == [] {
      NoPlaces(d);
    } else {
      CountExactly(ds[..|ds| - 1], d);
      LastPlace(ds, d);
    }
  }

  lemma NoPlaces(d: Directive)
    ensures PlacesOf([], d) == {}
  {
  }

  lemma LastPlace(ds: seq<Directive>, d: Directive)
    requires ds != []
    ensures var n := |ds| - 1; |PlacesOf(ds, d)| == |PlacesOf(ds[..n], d)| + if ds[n] == d then 1 else 0
  {
    var n := |ds| - 1;
    assert PlacesOf(ds, d) == if ds[n] == d then PlacesOf(ds[..n], d) + {n} else PlacesOf(ds[..n], d);
  }

  /** The blocks that were selected and have nothing to scan. */
  function IdleBlocks(bs: seq<Block>, patterns: seq<string>): set<int> {
    set i | 0 <= i < |bs| && Choose(bs[i], patterns).NothingToScan?
  }

  lemma {:induction false} SkippedExactly(bs: seq<Block>, patterns: seq<string>)
    ensures Skipped(bs, patterns) == |IdleBlocks(bs, patterns)|
    decreases |bs|
  {
    hide Choose, IdleBlocks;
    if bs == [] {
      NoneIdle(patterns);
    } else {
      SkippedExactly(bs[..|bs| - 1], patterns);
      LastIdle(bs, patterns);
    }
  }

  lemma NoneIdle(patterns: seq<string>)
    ensures IdleBlocks([], patterns) == {}
  {
  }

  lemma LastIdle(bs: seq<Block>, patterns: seq<string>)
    requires bs != []
    ensures var n := |bs| - 1;
            |IdleBlocks(bs, patterns)|
            == |IdleBlocks(bs[..n], patterns)| + if Choose(bs[n], patterns).NothingToScan? then 1 else 0
  {
    hide Choose;
    var n := |bs| - 1;
    assert IdleBlocks(bs, patterns)
        == if Choose(bs[n], patterns).NothingToScan? then IdleBlocks(bs[..n], patterns) + {n} else IdleBlocks(bs[..n], patterns);
  }

  /** A block of a selected alias that is a pattern, with no HostName. */
  lemma NothingToScanExactly(b: Block, patterns: seq<string>)
    ensures Choose(b, patterns).NothingToScan? <==>
      b.hostName.None? && exists i :: 0 <= i < |b.aliases| && FirstSelected(b.aliases, patterns, i) && !IsLiteral(b.aliases[i])
  {
    hide Selects, FirstSelected;
    if MatchedAlias(b.aliases, patterns).Some? {
      var i := MatchedAliasExists(b.aliases, patterns);
      MatchedAliasIsFirst(b.aliases, patterns, i);
    }
    if i :| 0 <= i < |b.aliases| && FirstSelected(b.aliases, patterns, i) && !IsLiteral(b.aliases[i]) {
      MatchedAliasIsFirst(b.aliases, patterns, i);
    }
  }

  lemma InFour(o: seq<Warning>, i: seq<Warning>, m: seq<Warning>, g: seq<Warning>, w: Warning)
    ensures w in o + i + m + g <==> w in o || w in i || w in m || w in g
  {
  }

  lemma InNote(n: nat, note: Warning, w: Warning)
    ensures w in Note(n, note) <==> n > 0 && w == note
  {
  }

  /** A warning by its kind and number. */
  lemma WarnedBy(ds: seq<Directive>, patterns: seq<string>, w: Warning)
    ensures w in WarningsOf(ds, patterns) <==>
      || w in Outside(ds)
      || (w == Includes(Count(ds, Include)) && w.n > 0)
      || (w == Matches(Count(ds, MatchLine)) && w.n > 0)
      || (w == GlobOnly(Skipped(BlocksOf(ds), patterns)) && w.n > 0)
  {
    hide Count, Skipped, Outside, BlocksOf, Note;
    var i, m, g := Count(ds, Include), Count(ds, MatchLine), Skipped(BlocksOf(ds), patterns);
    InFour(Outside(ds), Note(i, Includes(i)), Note(m, Matches(m)), Note(g, GlobOnly(g)), w);
    InNote(i, Includes(i), w);
    InNote(m, Matches(m), w);
    InNote(g, GlobOnly(g), w);
  }

  /** Line `n` has a Host line before it that no Match line has closed. */
  ghost predicate InBlock(ds: seq<Directive>, n: nat) {
    exists i: nat :: i < n && i < |ds| && ds[i].HostLine? && forall k :: i < k < n && k < |ds| ==> !ds[k].MatchLine?
  }

  lemma InBlockExactly(ds: seq<Directive>, n: nat)
    requires n <= |ds|
    ensures Open(ds[..n]) <==> InBlock(ds, n)
  {
    hide Open;
    var head := ds[..n];
    OpenExactly(head);
    assert forall k :: 0 <= k < n ==> head[k] == ds[k];
    if i: nat :| i < |head| && head[i].HostLine? && forall k :: i < k < |head| ==> !head[k].MatchLine? {
      assert ds[i].HostLine?;
    }
    if i: nat :| i < n && ds[i].HostLine? && forall k :: i < k < n ==> !ds[k].MatchLine? {
      assert head[i].HostLine?;
    }
  }

  /**
   What is warned about: each HostName line in no block, and the number of Include lines, of Match lines
   and of selected blocks with nothing to scan, if any.
   */
  lemma WarningsExactly(ds: seq<Directive>, patterns: seq<string>, w: Warning)
    ensures w.NameOutside? ==> (w in WarningsOf(ds, patterns) <==>
      w.line < |ds| && ds[w.line].HostName? && !InBlock(ds, w.line))
    ensures w.Includes? ==> (w in WarningsOf(ds, patterns) <==> w.n == |PlacesOf(ds, Include)| && w.n > 0)
    ensures w.Matches? ==> (w in WarningsOf(ds, patterns) <==> w.n == |PlacesOf(ds, MatchLine)| && w.n > 0)
    ensures w.GlobOnly? ==> (w in WarningsOf(ds, patterns) <==> w.n == |IdleBlocks(BlocksOf(ds), patterns)| && w.n > 0)
  {
    hide Count, Skipped, Outside, Open, BlocksOf, PlacesOf, IdleBlocks, WarningsOf, InBlock;
    WarnedBy(ds, patterns, w);
    OutsideExactly(ds, w);
    CountExactly(ds, Include);
    CountExactly(ds, MatchLine);
    SkippedExactly(BlocksOf(ds), patterns);
    if w.NameOutside? && w.line < |ds| {
      InBlockExactly(ds, w.line);
    }
  }

  // ---- Writing a configuration out and reading it back

  /** A word that can stand in a configuration line. */
  predicate IsWord(s: string) { s != "" && Spaceless(s) && '=' !in s }

  predicate Writable(b: Block) {
    (forall i :: 0 <= i < |b.aliases| ==> IsWord(b.aliases[i])) && (b.hostName.Some? ==> IsWord(b.hostName.value))
  }

  function WordsText(words: seq<string>): string {
    if words == [] then "" else " " + (words[0] + WordsText(words[1..]))
  }

  function WriteBlock(b: Block): seq<string> {
    ["Host" + WordsText(b.aliases)] + if b.hostName.Some? then ["  HostName " + b.hostName.value] else []
  }

  function Write(bs: seq<Block>): seq<string> {
    if bs == [] then [] else WriteBlock(bs[0]) + Write(bs[1..])
  }

  lemma {:induction false} WordsTextReads(words: seq<string>)
    requires forall i :: 0 <= i < |words| ==> IsWord(words[i])
    ensures var t := WordsText(words);
            && Words(t) == words && '=' !in t
            && (t == "" || (IsSpace(t[0]) && !IsSpace(t[|t| - 1])))
    decreases |words|
  {
    hide Words;
    if words == [] {
      NoWords();
    } else {
      var w, rest := words[0], words[1..];
      WordsTextReads(rest);
      var more := WordsText(rest);
      WordsIgnoreLeadingBlank(" ", w + more);
      WordThenMore(w, more);
      assert words == [w] + rest;
    }
  }

  lemma NoWords()
    ensures Words("") == []
  {
  }

  lemma WordThenMore(w: string, more: string)
    requires w != "" && Spaceless(w) && (more == "" || IsSpace(more[0]))
    ensures Words(w + more) == [w] + Words(more)
  {
    hide Words;
    if more == "" {
      Empties(w);
      OnlyWord(w);
    } else {
      var blank, rest := more[..1], more[1..];
      assert more == blank + rest;
      Assoc(w, blank, rest);
      WordAhead(w, blank, rest);
      WordsIgnoreLeadingBlank(blank, rest);
    }
  }

  lemma OnlyWord(w: string)
    requires w != "" && Spaceless(w)
    ensures Words(w) == [w] && Words("") == [] && [w] + [] == [w]
  {
    WordOfItself("", w);
    Empties(w);
  }

  lemma Keywords()
    ensures SameWord("Host", "host") && SameWord("HostName", "hostname") && !SameWord("HostName", "host")
  {
  }

  lemma HostLineReads(aliases: seq<string>)
    requires forall i :: 0 <= i < |aliases| ==> IsWord(aliases[i])
    ensures DirectiveOf("Host" + WordsText(aliases)) == HostLine(aliases)
  {
    hide Words, DirectiveOf, WordsText, SameWord;
    WordsTextReads(aliases);
    var line := "Host" + WordsText(aliases);
    BlankForm("", "Host", WordsText(aliases), "");
    assert "" + line + "" == line;
    Keywords();
  }

  lemma HostNameReads(h: string)
    requires IsWord(h)
    ensures DirectiveOf("  HostName " + h) == HostName(h)
  {
    hide Words, DirectiveOf, SameWord;
    var line := "HostName" + (" " + h);
    BlankForm("  ", "HostName", " " + h, "");
    assert "  " + line + "" == "  HostName " + h;
    WordsIgnoreLeadingBlank(" ", h);
    OnlyWord(h);
    Keywords();
  }

  lemma {:induction false} DirectivesConcat(a: seq<string>, b: seq<string>)
    ensures Directives(a + b) == Directives(a) + Directives(b)
    decreases |b|
  {
    hide DirectiveOf;
    if b == [] {
      Empties(a);
      Empties(Directives(a));
    } else {
      var n := |b| - 1;
      assert (a + b)[..|a + b| - 1] == a + b[..n];
      DirectivesConcat(a, b[..n]);
      Assoc(Directives(a), Directives(b[..n]), [DirectiveOf(b[n])]);
    }
  }

  /** The directives a block is written as. */
  function BlockDirectives(b: Block): seq<Directive> {
    [HostLine(b.aliases)] + if b.hostName.Some? then [HostName(b.hostName.value)] else []
  }

  lemma BlockReads(b: Block)
    requires Writable(b)
    ensures Directives(WriteBlock(b)) == BlockDirectives(b)
  {
    hide DirectiveOf, WordsText;
    HostLineReads(b.aliases);
    var first := ["Host" + WordsText(b.aliases)];
    OneDirective(first[0]);
    if b.hostName.Some? {
      HostNameReads(b.hostName.value);
      OneDirective("  HostName " + b.hostName.value);
      DirectivesConcat(first, ["  HostName " + b.hostName.value]);
    } else {
      Empties(first);
    }
  }

  lemma OneDirective(line: string)
    ensures Directives([line]) == [DirectiveOf(line)]
  {
    assert [line][..0] == [];
  }

  lemma BlockAhead(b: Block, ds: seq<Directive>)
    requires Writable(b) && (ds == [] || ds[0].HostLine?)
    ensures BlocksOf(BlockDirectives(b) + ds) == [b] + BlocksOf(ds)
  {
    var all := BlockDirectives(b) + ds;
    assert all[0] == HostLine(b.aliases);
    if b.hostName.Some? {
      var name := HostName(b.hostName.value);
      assert all[1..] == [name] + ds;
      assert ([name] + ds)[1..] == ds;
      assert Segment([name] + ds) == [name] + Segment(ds);
      assert Segment(ds) == [];
      assert b == Block(b.aliases, Some(b.hostName.value));
    } else {
      assert all[1..] == ds && Segment(ds) == [];
    }
  }

  lemma NothingWritten()
    ensures Directives([]) == [] && BlocksOf([]) == []
  {
  }

  /** Any list of blocks, written out as Host and HostName lines, is read back as it was. */
  lemma {:induction false} ConfigRoundTrip(bs: seq<Block>)
    requires forall i :: 0 <= i < |bs| ==> Writable(bs[i])
    ensures BlocksOf(Directives(Write(bs))) == bs
    ensures Directives(Write(bs)) == [] || Directives(Write(bs))[0].HostLine?
    decreases |bs|
  {
    hide Writable, DirectiveOf, WriteBlock, BlocksOf, Directives;
    if bs == [] {
      NothingWritten();
    } else {
      ConfigRoundTrip(bs[1..]);
      BlockReads(bs[0]);
      DirectivesConcat(WriteBlock(bs[0]), Write(bs[1..]));
      BlockAhead(bs[0], Directives(Write(bs[1..])));
      assert bs == [bs[0]] + bs[1..];
    }
  }
}
