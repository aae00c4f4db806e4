/**
 Hosts from an OpenSSH client configuration: a flat scan that keeps the block being read, against
 the reading by segments, where Host and Match lines cut the file.
 */
module SshConfig {
  import opened Wrappers
  import opened Text
  import opened Lists
  import Glob

  /** A line of the file, as far as the scan cares. */
  datatype Directive =
    | HostLine(aliases: seq<string>)
    | HostName(first: string)
    | Include
    | MatchLine
    | Other

  function LowerChar(c: char): char {
    if 'A' <= c <= 'Z' then (c as int - 'A' as int + 'a' as int) as char else c
  }

  function Lower(s: string): string { if s == "" then "" else [LowerChar(s[0])] + Lower(s[1..]) }

  /** `Host foo` or `Host=foo`; an `=` anywhere in the line wins over the first blank. */
  function SplitKv(line: string): (string, string) {
    var l := TrimStart(line);
    var eq := IndexOf(l, '=');
    if eq < |l| then (TrimEnd(l[..eq]), l[eq + 1..])
    else
      var sp := FirstSpace(l);
      (l[..sp], l[sp..])
  }

  function FirstWord(value: string): string {
    var w := Words(value);
    if w == [] then "" else w[0]
  }

  function DirectiveOf(raw: string): Directive {
    var line := Trim(raw);
    if line == "" || line[0] == '#' then Other
    else
      var (key, rest) := SplitKv(line);
      var name, value := Lower(key), Trim(rest);
      if name == "host" then HostLine(Words(value))
      else if name == "hostname" then HostName(FirstWord(value))
      else if name == "include" then Include
      else if name == "match" then MatchLine
      else Other
  }

  function Directives(lines: seq<string>): (ds: seq<Directive>)
    ensures |ds| == |lines|
  {
    if lines == [] then [] else Directives(lines[..|lines| - 1]) + [DirectiveOf(lines[|lines| - 1])]
  }

  datatype Block = Block(aliases: seq<string>, hostName: Option<string>)

  // ---- The reading by segments

  predicate Cuts(d: Directive) { d.HostLine? || d.MatchLine? }

  /** The directives up to the next cut. */
  function Segment(ds: seq<Directive>): seq<Directive> {
    if ds == [] || Cuts(ds[0]) then [] else [ds[0]] + Segment(ds[1..])
  }

  /** The first HostName with a value. */
  function FirstName(ds: seq<Directive>): Option<string> {
    if ds == [] then None
    else if ds[0].HostName? && ds[0].first != "" then Some(ds[0].first)
    else FirstName(ds[1..])
  }

  /** One block per Host line: its aliases and the first HostName of its segment. */
  function BlocksOf(ds: seq<Directive>): seq<Block> {
    if ds == [] then []
    else if ds[0].HostLine? then [Block(ds[0].aliases, FirstName(Segment(ds[1..])))] + BlocksOf(ds[1..])
    else BlocksOf(ds[1..])
  }

  /** Whether the last cut opened a Host block. */
  predicate Open(ds: seq<Directive>) {
    ds != [] && var last := ds[|ds| - 1];
                last.HostLine? || (!last.MatchLine? && Open(ds[..|ds| - 1]))
  }

  // ---- Choosing hosts

  predicate Selects(patterns: seq<string>, alias: string) {
    (alias == "" || alias[0] != '!') && exists i :: 0 <= i < |patterns| && Glob.Matches(patterns[i], alias)
  }

  function MatchedAlias(aliases: seq<string>, patterns: seq<string>): Option<string> {
    if aliases == [] then None
    else if Selects(patterns, aliases[0]) then Some(aliases[0])
    else MatchedAlias(aliases[1..], patterns)
  }

  predicate IsLiteral(alias: string) { '*' !in alias && '?' !in alias }

  datatype Choice = NotOurs | Scan(host: string) | NothingToScan

  function Choose(b: Block, patterns: seq<string>): Choice {
    match MatchedAlias(b.aliases, patterns)
    case None => NotOurs
    case Some(alias) =>
      if b.hostName.Some? then Scan(b.hostName.value)
      else if IsLiteral(alias) then Scan(alias)
      else NothingToScan
  }

  function Chosen(bs: seq<Block>, patterns: seq<string>): seq<string> {
    if bs == [] then []
    else
      var c := Choose(bs[|bs| - 1], patterns);
      Chosen(bs[..|bs| - 1], patterns) + if c.Scan? then [c.host] else []
  }

  function Skipped(bs: seq<Block>, patterns: seq<string>): nat {
    if bs == [] then 0
    else Skipped(bs[..|bs| - 1], patterns) + if Choose(bs[|bs| - 1], patterns).NothingToScan? then 1 else 0
  }

  datatype Warning = NameOutside(line: nat) | Includes(n: nat) | Matches(n: nat) | GlobOnly(n: nat)

  function Outside(ds: seq<Directive>): seq<Warning> {
    if ds == [] then []
    else
      var n := |ds| - 1;
      Outside(ds[..n]) + if ds[n].HostName? && !Open(ds[..n]) then [NameOutside(n)] else []
  }

  function Count(ds: seq<Directive>, d: Directive): nat {
    if ds == [] then 0 else Count(ds[..|ds| - 1], d) + if ds[|ds| - 1] == d then 1 else 0
  }

  function Note(n: nat, w: Warning): seq<Warning> { if n > 0 then [w] else [] }

  function WarningsOf(ds: seq<Directive>, patterns: seq<string>): seq<Warning> {
    Outside(ds) + Note(Count(ds, Include), Includes(Count(ds, Include)))
    + Note(Count(ds, MatchLine), Matches(Count(ds, MatchLine)))
    + Note(Skipped(BlocksOf(ds), patterns), GlobOnly(Skipped(BlocksOf(ds), patterns)))
  }

  // ---- The scan

  method ExtractHosts(text: string, patterns: seq<string>) returns (hosts: seq<string>, warnings: seq<Warning>)
    ensures var ds := Directives(Lines(text));
            && hosts == FirstOccurrences(Chosen(BlocksOf(ds), patterns))
            && warnings == WarningsOf(ds, patterns)
  {
    var lines := Lines(text);
    var blocks, includes, matches := Collect(lines);
    warnings := blocks.1 + Note(includes, Includes(includes)) + Note(matches, Matches(matches));
    var all, skipped := ChooseAll(blocks.0, patterns);
    if skipped > 0 {
      warnings := warnings + [GlobOnly(skipped)];
    } else {
      Empties(warnings);
    }
    hosts := Retain(all);
  }

  /** The first loop: the block being read is flushed at the next Host or Match line. */
  method Collect(lines: seq<string>) returns (r: (seq<Block>, seq<Warning>), includes: nat, matches: nat)
    ensures var ds := Directives(lines);
            r == (BlocksOf(ds), Outside(ds)) && includes == Count(ds, Include) && matches == Count(ds, MatchLine)
  {
    hide DirectiveOf, Directives, BlocksOf, Open, Outside, Count, NameLast;
    StartsEmpty(lines);
    var blocks: seq<Block>, warnings: seq<Warning>, current: Option<Block> := [], [], None;
    includes, matches := 0, 0;
    ghost var seen: seq<Directive> := [];
    for i := 0 to |lines|
      invariant seen == Directives(lines[..i]) && |seen| == i
      invariant BlocksOf(seen) == blocks + Pending(current)
      invariant current.Some? <==> Open(seen)
      invariant warnings == Outside(seen) && includes == Count(seen, Include) && matches == Count(seen, MatchLine)
    {
      var d := DirectiveOf(lines[i]);
      DirectivesGrow(lines, i);
      BlocksAppend(seen, d);
      TalliesAppend(seen, d);
      seen := seen + [d];
      if d.HostLine? {
        Empties(blocks);
        if current.Some? {
          blocks := blocks + [current.value];
        }
        current := Some(Block(d.aliases, None));
      } else if d.HostName? {
        if current.Some? {
          UpdatePending(blocks, current.value, d.first);
          if current.value.hostName.None? && d.first != "" {
            current := Some(current.value.(hostName := Some(d.first)));
          }
        } else {
          warnings := warnings + [NameOutside(i)];
        }
      } else if d.Include? {
        includes := includes + 1;
      } else if d.MatchLine? {
        matches := matches + 1;
        if current.Some? {
          blocks := blocks + [current.value];
          Empties(blocks);
          current := None;
        }
      }
    }
    assert lines[..|lines|] == lines;
    Empties(blocks);
    if current.Some? {
      blocks := blocks + [current.value];
    }
    r := (blocks, warnings);
  }

  lemma StartsEmpty(lines: seq<string>)
    ensures Directives(lines[..0]) == [] && BlocksOf([]) == [] && !Open([]) && Outside([]) == []
    ensures forall d :: Count([], d) == 0
  {
  }

  lemma DirectivesGrow(lines: seq<string>, i: nat)
    requires i < |lines|
    ensures Directives(lines[..i + 1]) == Directives(lines[..i]) + [DirectiveOf(lines[i])]
  {
    assert lines[..i + 1][..i] == lines[..i];
  }

  lemma TalliesAppend(ds: seq<Directive>, d: Directive)
    ensures Open(ds + [d]) <==> d.HostLine? || (!d.MatchLine? && Open(ds))
    ensures Outside(ds + [d]) == if d.HostName? && !Open(ds) then Outside(ds) + [NameOutside(|ds|)] else Outside(ds)
    ensures forall e :: Count(ds + [d], e) == Count(ds, e) + if d == e then 1 else 0
  {
    assert (ds + [d])[..|ds|] == ds;
    Empties(Outside(ds));
  }

  function Pending(current: Option<Block>): seq<Block> {
    if current.Some? then [current.value] else []
  }

  method ChooseAll(bs: seq<Block>, patterns: seq<string>) returns (hosts: seq<string>, skipped: nat)
    ensures hosts == Chosen(bs, patterns) && skipped == Skipped(bs, patterns)
  {
    hosts, skipped := [], 0;
    for i := 0 to |bs|
      invariant hosts == Chosen(bs[..i], patterns) && skipped == Skipped(bs[..i], patterns)
    {
      assert bs[..i + 1][..i] == bs[..i];
      var c := Choose(bs[i], patterns);
      match c {
        case Scan(h) => hosts := hosts + [h];
        case NothingToScan => skipped := skipped + 1;
        case NotOurs =>
      }
    }
    assert bs[..|bs|] == bs;
  }

  method Retain(all: seq<string>) returns (hosts: seq<string>)
    ensures hosts == FirstOccurrences(all)
  {
    hosts := [];
    var seen: set<string> := {};
    for i := 0 to |all|
      invariant hosts == FirstOccurrences(all[..i])
      invariant forall x :: x in seen <==> x in all[..i]
    {
      assert all[..i + 1][..i] == all[..i];
      assert all[..i + 1] == all[..i] + [all[i]];
      if all[i] !in seen {
        hosts := hosts + [all[i]];
      }
      seen := seen + {all[i]};
    }
    assert all[..|all|] == all;
  }

  // ---- Why the scan reads segments

  predicate HasCut(ds: seq<Directive>) { exists i :: 0 <= i < |ds| && Cuts(ds[i]) }

  lemma HasCutCons(ds: seq<Directive>)
    requires ds != []
    ensures HasCut(ds) <==> Cuts(ds[0]) || HasCut(ds[1..])
  {
    if HasCut(ds[1..]) {
      var i :| 0 <= i < |ds| - 1 && Cuts(ds[1..][i]);
      assert Cuts(ds[i + 1]);
    }
    if i :| 0 <= i < |ds| && Cuts(ds[i]) && i > 0 {
      assert Cuts(ds[1..][i - 1]);
    }
  }

  lemma {:induction false} SegmentAppend(ds: seq<Directive>, d: Directive)
    ensures Segment(ds + [d]) == Segment(ds) + if HasCut(ds) || Cuts(d) then [] else [d]
    decreases |ds|
  {
    if ds == [] {
      assert [] + [d] == [d] && [d][1..] == [];
    } else {
      DropHead(ds, [d]);
      HasCutCons(ds);
      if !Cuts(ds[0]) {
        SegmentAppend(ds[1..], d);
      }
    }
  }

  lemma {:induction false} FirstNameAppend(ds: seq<Directive>, d: Directive)
    ensures FirstName(ds + [d])
         == if FirstName(ds).Some? then FirstName(ds) else if d.HostName? && d.first != "" then Some(d.first) else None
    decreases |ds|
  {
    if ds == [] {
      assert [] + [d] == [d] && [d][1..] == [];
    } else {
      DropHead(ds, [d]);
      FirstNameAppend(ds[1..], d);
    }
  }

  /** A cut behind the head decides alone whether a block is open. */
  lemma {:induction false} OpenCons(ds: seq<Directive>)
    requires ds != []
    ensures Open(ds) <==> if HasCut(ds[1..]) then Open(ds[1..]) else ds[0].HostLine?
    decreases |ds|
  {
    var n := |ds| - 1;
    if n > 0 {
      OpenCons(ds[..n]);
      assert ds[..n][1..] == ds[1..][..n - 1];
      HasCutLast(ds[1..]);
    }
  }

  lemma HasCutLast(ds: seq<Directive>)
    requires ds != []
    ensures HasCut(ds) <==> HasCut(ds[..|ds| - 1]) || Cuts(ds[|ds| - 1])
  {
    var n := |ds| - 1;
    if HasCut(ds[..n]) {
      var i :| 0 <= i < n && Cuts(ds[..n][i]);
      assert Cuts(ds[i]);
    }
    if i :| 0 <= i < |ds| && Cuts(ds[i]) && i < n {
      assert Cuts(ds[..n][i]);
    }
  }

  /** The last block takes a name if it has none. */
  function NameLast(bs: seq<Block>, first: string): seq<Block> {
    if bs == [] || bs[|bs| - 1].hostName.Some? || first == "" then bs
    else bs[..|bs| - 1] + [bs[|bs| - 1].(hostName := Some(first))]
  }

  lemma UpdatePending(blocks: seq<Block>, current: Block, first: string)
    ensures NameLast(blocks + [current], first)
         == blocks + [if current.hostName.None? && first != "" then current.(hostName := Some(first)) else current]
  {
    assert (blocks + [current])[..|blocks|] == blocks;
  }

  lemma NameLastCons(b: Block, bs: seq<Block>, first: string)
    requires bs != []
    ensures NameLast([b] + bs, first) == [b] + NameLast(bs, first)
  {
    assert ([b] + bs)[..|bs|] == [b] + bs[..|bs| - 1];
  }

  lemma {:induction false} NoCutNoBlock(ds: seq<Directive>)
    ensures !HasCut(ds) ==> BlocksOf(ds) == []
    ensures Open(ds) ==> BlocksOf(ds) != []
    decreases |ds|
  {
    if ds != [] {
      HasCutCons(ds);
      OpenCons(ds);
      NoCutNoBlock(ds[1..]);
    }
  }

  /** One more directive either opens a block, names the open one, or changes nothing. */
  lemma {:induction false} BlocksAppend(ds: seq<Directive>, d: Directive)
    ensures BlocksOf(ds + [d]) ==
      if d.HostLine? then BlocksOf(ds) + [Block(d.aliases, None)]
      else if d.HostName? && Open(ds) then NameLast(BlocksOf(ds), d.first)
      else BlocksOf(ds)
    decreases |ds|
  {
    if ds == [] {
      assert [] + [d] == [d] && [d][1..] == [];
    } else {
      DropHead(ds, [d]);
      BlocksAppend(ds[1..], d);
      OpenCons(ds);
      NoCutNoBlock(ds[1..]);
      if ds[0].HostLine? {
        SegmentAppend(ds[1..], d);
        FirstNameAppend(Segment(ds[1..]), d);
        Empties(Segment(ds[1..]));
        var b := Block(ds[0].aliases, FirstName(Segment(ds[1..])));
        if d.HostName? && Open(ds[1..]) {
          NameLastCons(b, BlocksOf(ds[1..]), d.first);
        }
      }
    }
  }

  // ---- What the output is

  lemma {:induction false} ChosenAreChoices(bs: seq<Block>, patterns: seq<string>, h: string)
    ensures h in Chosen(bs, patterns) <==> exists i :: 0 <= i < |bs| && Choose(bs[i], patterns) == Scan(h)
    decreases |bs|
  {
    hide Choose;
    if bs != [] {
      var n := |bs| - 1;
      ChosenAreChoices(bs[..n], patterns, h);
      if h in Chosen(bs[..n], patterns) {
        var i :| 0 <= i < n && Choose(bs[..n][i], patterns) == Scan(h);
        assert Choose(bs[i], patterns) == Scan(h);
      }
      if i :| 0 <= i < |bs| && Choose(bs[i], patterns) == Scan(h) && i < n {
        assert Choose(bs[..n][i], patterns) == Scan(h);
      }
    }
  }

  /** Why a block yields a host: its HostName, or its first selected alias if that is no pattern. */
  ghost predicate ComesFrom(b: Block, patterns: seq<string>, h: string) {
    exists i :: 0 <= i < |b.aliases| && FirstSelected(b.aliases, patterns, i)
      && h == (if b.hostName.Some? then b.hostName.value else b.aliases[i])
      && (b.hostName.Some? || IsLiteral(h))
  }

  predicate FirstSelected(aliases: seq<string>, patterns: seq<string>, i: nat)
    requires i < |aliases|
  {
    Selects(patterns, aliases[i]) && forall j :: 0 <= j < i ==> !Selects(patterns, aliases[j])
  }

  lemma {:induction false} MatchedAliasIsFirst(aliases: seq<string>, patterns: seq<string>, i: nat)
    requires i < |aliases|
    ensures FirstSelected(aliases, patterns, i) ==> MatchedAlias(aliases, patterns) == Some(aliases[i])
    decreases |aliases|
  {
    hide Selects;
    if FirstSelected(aliases, patterns, i) && i > 0 {
      assert FirstSelected(aliases[1..], patterns, i - 1);
      MatchedAliasIsFirst(aliases[1..], patterns, i - 1);
    }
  }

  lemma {:induction false} MatchedAliasExists(aliases: seq<string>, patterns: seq<string>) returns (i: nat)
    requires MatchedAlias(aliases, patterns).Some?
    ensures i < |aliases| && FirstSelected(aliases, patterns, i)
    decreases |aliases|
  {
    hide Selects;
    if Selects(patterns, aliases[0]) {
      i := 0;
    } else {
      var j := MatchedAliasExists(aliases[1..], patterns);
      i := j + 1;
    }
  }

  lemma ScansExactly(b: Block, patterns: seq<string>, h: string)
    ensures Choose(b, patterns) == Scan(h) <==> ComesFrom(b, patterns, h)
  {
    hide Selects, FirstSelected;
    if Choose(b, patterns) == Scan(h) {
      var i := MatchedAliasExists(b.aliases, patterns);
      MatchedAliasIsFirst(b.aliases, patterns, i);
    }
    if ComesFrom(b, patterns, h) {
      var i :| 0 <= i < |b.aliases| && FirstSelected(b.aliases, patterns, i)
        && h == (if b.hostName.Some? then b.hostName.value else b.aliases[i]);
      MatchedAliasIsFirst(b.aliases, patterns, i);
    }
  }

  /** Exactly the hosts the segments give come out, each once. */
  lemma ExtractedHosts(ds: seq<Directive>, patterns: seq<string>, h: string)
    ensures var hosts := FirstOccurrences(Chosen(BlocksOf(ds), patterns));
            && Distinct(hosts)
            && (h in hosts <==> exists i :: 0 <= i < |BlocksOf(ds)| && ComesFrom(BlocksOf(ds)[i], patterns, h))
  {
    hide Choose, ComesFrom, BlocksOf;
    FirstOccurrencesFacts(Chosen(BlocksOf(ds), patterns));
    ChosenAreChoices(BlocksOf(ds), patterns, h);
    forall b: Block ensures Choose(b, patterns) == Scan(h) <==> ComesFrom(b, patterns, h) {
      ScansExactly(b, patterns, h);
    }
  }
}
