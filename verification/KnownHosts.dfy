/**
 The host-key trust store: OpenSSH's own known_hosts plus a pin file this program appends to on
 first use. A checker loads both stores once, keeping the entries of one host, and decides on the
 presented key.
 */
module KnownHosts {
  import opened Wrappers
  import opened Text
  import opened HostNames
  import Glob

  datatype Store = System | Pin

  /** A presented key: the two first words of its OpenSSH form. */
  datatype Key = Key(keyType: string, blob: string)

  ghost predicate ValidKey(k: Key) {
    k.keyType != "" && k.blob != "" && Spaceless(k.keyType) && Spaceless(k.blob)
  }

  datatype Entry = Entry(hostField: string, keyType: string, keyData: string, store: Store, revoked: bool)

  /** What loading keeps: the entries of the host and the first marker that cannot be evaluated. */
  datatype Loaded = Loaded(entries: seq<Entry>, unsupported: Option<string>)

  /** A hashed host field `|1|salt|mac` is checked with HMAC, which stays abstract. */
  type HashedMatch = (string, string, string) -> bool

  function CanonicalKeyType(t: string): string {
    if t == "rsa-sha2-256" || t == "rsa-sha2-512" then "ssh-rsa" else t
  }

  predicate SameKey(keyType: string, keyData: string, k: Key) {
    CanonicalKeyType(keyType) == CanonicalKeyType(k.keyType) && keyData == k.blob
  }

  // ---- Loading

  ghost predicate FieldMatches(field: string, candidate: string, hashed: HashedMatch) {
    if StartsWith(field, "|1|") then
      var rest := field[3..];
      var bar := IndexOf(rest, '|');
      bar < |rest| && hashed(rest[..bar], rest[bar + 1..], candidate)
    else
      exists i :: 0 <= i < |Split(field, ',')| && Glob.Accepts(Split(field, ',')[i], candidate)
  }

  method HostFieldMatches(field: string, candidate: string, hashed: HashedMatch) returns (r: bool)
    ensures r == FieldMatches(field, candidate, hashed)
  {
    if StartsWith(field, "|1|") {
      var rest := field[3..];
      var bar := IndexOf(rest, '|');
      return bar < |rest| && hashed(rest[..bar], rest[bar + 1..], candidate);
    }
    var patterns := Split(field, ',');
    for i := 0 to |patterns|
      invariant forall j :: 0 <= j < i ==> !Glob.Accepts(patterns[j], candidate)
    {
      var hit := Glob.GlobMatch(patterns[i], candidate);
      if hit {
        return true;
      }
    }
    return false;
  }

  /** A line read without regard to the host: its marker and its first three words. */
  datatype Parsed = Ignored | Fields(marker: Option<string>, field: string, keyType: string, keyData: string)

  function Parse(raw: string): Parsed { ParseTrimmed(Trim(raw)) }

  function ParseTrimmed(line: string): Parsed {
    if line == "" || line[0] == '#' then Ignored
    else if line[0] == '@' then
      var r := line[1..];
      var sp := FirstSpace(r);
      if sp == |r| then Ignored else FieldsOf(Some(r[..sp]), TrimStart(r[sp + 1..]))
    else FieldsOf(None, line)
  }

  function FieldsOf(marker: Option<string>, rest: string): Parsed {
    var w := Words(rest);
    if |w| < 3 then Ignored else Fields(marker, w[0], w[1], w[2])
  }

  /** The effect of one line on what has been loaded so far. */
  ghost function Absorb(l: Loaded, raw: string, store: Store, candidate: string, hashed: HashedMatch): Loaded {
    match Parse(raw)
    case Ignored => l
    case Fields(marker, field, keyType, keyData) =>
      if !FieldMatches(field, candidate, hashed) then l
      else if marker == None || marker == Some("revoked") then
        l.(entries := l.entries + [Entry(field, keyType, keyData, store, marker.Some?)])
      else if l.unsupported.None? then l.(unsupported := marker)
      else l
  }

  ghost function LoadLines(l: Loaded, lines: seq<string>, store: Store, candidate: string, hashed: HashedMatch): Loaded
  {
    if lines == [] then l
    else
      Absorb(LoadLines(l, lines[..|lines| - 1], store, candidate, hashed), lines[|lines| - 1], store, candidate, hashed)
  }

  const EMPTY := Loaded([], None)

  /** Both stores in order, the system one first. A missing file has the content "". */
  ghost function Load(system: string, pin: string, candidate: string, hashed: HashedMatch): Loaded {
    LoadLines(LoadLines(EMPTY, Lines(system), System, candidate, hashed), Lines(pin), Pin, candidate, hashed)
  }

  method LoadEntries(system: string, pin: string, candidate: string, hashed: HashedMatch)
      returns (entries: seq<Entry>, unsupported: Option<string>)
    ensures Loaded(entries, unsupported) == Load(system, pin, candidate, hashed)
  {
    entries, unsupported := LoadStore([], None, system, System, candidate, hashed);
    entries, unsupported := LoadStore(entries, unsupported, pin, Pin, candidate, hashed);
  }

  method LoadStore(before: seq<Entry>, marker: Option<string>, content: string, store: Store, candidate: string,
                   hashed: HashedMatch)
      returns (entries: seq<Entry>, unsupported: Option<string>)
    ensures Loaded(entries, unsupported) == LoadLines(Loaded(before, marker), Lines(content), store, candidate, hashed)
  {
    entries, unsupported := before, marker;
    var lines := Lines(content);
    for i := 0 to |lines|
      invariant Loaded(entries, unsupported) == LoadLines(Loaded(before, marker), lines[..i], store, candidate, hashed)
    {
      LoadOneMoreLine(Loaded(before, marker), lines[..i], lines[i], store, candidate, hashed);
      assert lines[..i] + [lines[i]] == lines[..i + 1];
      var parsed := Parse(lines[i]);
      if parsed.Ignored? {
        continue;
      }
      var ours := HostFieldMatches(parsed.field, candidate, hashed);
      if !ours {
        continue;
      }
      if parsed.marker == None || parsed.marker == Some("revoked") {
        entries := entries + [Entry(parsed.field, parsed.keyType, parsed.keyData, store, parsed.marker.Some?)];
      } else if unsupported.None? {
        unsupported := parsed.marker;
      }
    }
    assert lines[..|lines|] == lines;
  }

  // ---- Deciding on a presented key

  datatype Decision =
    | Revoked
    | Known
    | Changed(conflict: Entry)
    | Unsupported(marker: string)
    | FirstUse

  ghost predicate Holds(entries: seq<Entry>, k: Key, revoked: bool) {
    exists e :: e in entries && e.revoked == revoked && SameKey(e.keyType, e.keyData, k)
  }

  function FirstTrusted(entries: seq<Entry>): Option<Entry> {
    if entries == [] then None
    else if !entries[0].revoked then Some(entries[0])
    else FirstTrusted(entries[1..])
  }

  ghost function Decide(l: Loaded, k: Key): Decision {
    if Holds(l.entries, k, true) then Revoked
    else if Holds(l.entries, k, false) then Known
    else match FirstTrusted(l.entries)
      case Some(e) => Changed(e)
      case None => if l.unsupported.Some? then Unsupported(l.unsupported.value) else FirstUse
  }

  // ---- The five answers, each by what was loaded

  /** The entry holds this key; the three names of RSA keys are one. */
  predicate HoldsKey(e: Entry, k: Key) {
    var rsa := {"ssh-rsa", "rsa-sha2-256", "rsa-sha2-512"};
    e.keyData == k.blob && (e.keyType == k.keyType || (e.keyType in rsa && k.keyType in rsa))
  }

  ghost predicate RevokedFor(entries: seq<Entry>, k: Key) {
    exists i :: 0 <= i < |entries| && entries[i].revoked && HoldsKey(entries[i], k)
  }

  ghost predicate KnownFor(entries: seq<Entry>, k: Key) {
    exists i :: 0 <= i < |entries| && !entries[i].revoked && HoldsKey(entries[i], k)
  }

  ghost predicate NoneTrusted(entries: seq<Entry>) { forall i :: 0 <= i < |entries| ==> entries[i].revoked }

  ghost predicate IsFirstTrusted(entries: seq<Entry>, e: Entry) {
    exists i :: 0 <= i < |entries| && entries[i] == e && !e.revoked && forall j :: 0 <= j < i ==> entries[j].revoked
  }

  /** Exactly when each answer is given, and what it carries. */
  ghost predicate Answers(entries: seq<Entry>, unsupported: Option<string>, k: Key, d: Decision) {
    && (d.Revoked? <==> RevokedFor(entries, k))
    && (d.Known? <==> !RevokedFor(entries, k) && KnownFor(entries, k))
    && (d.Changed? <==> !RevokedFor(entries, k) && !KnownFor(entries, k) && !NoneTrusted(entries))
    && (d.Unsupported? <==> !RevokedFor(entries, k) && NoneTrusted(entries) && unsupported.Some?)
    && (d.FirstUse? <==> !RevokedFor(entries, k) && NoneTrusted(entries) && unsupported.None?)
    && (d.Changed? ==> IsFirstTrusted(entries, d.conflict))
    && (d.Unsupported? ==> unsupported == Some(d.marker))
  }

  lemma HoldsByPlace(entries: seq<Entry>, k: Key)
    ensures Holds(entries, k, true) <==> RevokedFor(entries, k)
    ensures Holds(entries, k, false) <==> KnownFor(entries, k)
  {
    forall e: Entry ensures SameKey(e.keyType, e.keyData, k) <==> HoldsKey(e, k) {
    }
    forall i | 0 <= i < |entries| ensures entries[i] in entries {
    }
  }

  lemma {:induction false} FirstTrustedExactly(entries: seq<Entry>)
    ensures match FirstTrusted(entries) case None => NoneTrusted(entries) case Some(e) => IsFirstTrusted(entries, e)
    decreases |entries|
  {
    if entries != [] && entries[0].revoked {
      var rest := entries[1..];
      FirstTrustedExactly(rest);
      assert entries == [entries[0]] + rest;
      if FirstTrusted(rest).Some? {
        var e := FirstTrusted(rest).value;
        var i :| 0 <= i < |rest| && rest[i] == e && !e.revoked && forall j :: 0 <= j < i ==> rest[j].revoked;
        assert entries[i + 1] == e;
        assert forall j :: 0 < j < i + 1 ==> entries[j] == rest[j - 1];
      }
    }
  }

  lemma NoneSoFar(entries: seq<Entry>, k: Key)
    ensures !Holds(entries[..0], k, true) && !Holds(entries[..0], k, false) && FirstTrusted(entries[..0]).None?
  {
  }

  /** The two searches, one entry at a time. */
  lemma OneMoreEntry(entries: seq<Entry>, i: nat, k: Key, revoked: bool)
    requires i < |entries|
    ensures Holds(entries[..i + 1], k, revoked) <==>
      Holds(entries[..i], k, revoked) || (entries[i].revoked == revoked && SameKey(entries[i].keyType, entries[i].keyData, k))
    ensures Holds(entries[..i + 1], k, revoked) ==> Holds(entries, k, revoked)
    ensures FirstTrusted(entries[..i + 1])
         == if FirstTrusted(entries[..i]).Some? then FirstTrusted(entries[..i])
            else if entries[i].revoked then None else Some(entries[i])
  {
    hide Holds;
    assert entries[..i + 1] == entries[..i] + [entries[i]];
    assert entries == entries[..i + 1] + entries[i + 1..];
    HoldsConcat(entries[..i], [entries[i]], k, revoked);
    HoldsConcat(entries[..i + 1], entries[i + 1..], k, revoked);
    HoldsOne(entries[i], k, revoked);
    FirstTrustedSnoc(entries[..i], entries[i]);
  }

  lemma HoldsOne(e: Entry, k: Key, revoked: bool)
    ensures Holds([e], k, revoked) <==> e.revoked == revoked && SameKey(e.keyType, e.keyData, k)
  {
    assert e in [e];
  }

  lemma HoldsConcat(a: seq<Entry>, b: seq<Entry>, k: Key, revoked: bool)
    ensures Holds(a + b, k, revoked) <==> Holds(a, k, revoked) || Holds(b, k, revoked)
  {
    assert forall e :: e in a + b <==> e in a || e in b;
  }

  lemma {:induction false} FirstTrustedSnoc(es: seq<Entry>, e: Entry)
    ensures FirstTrusted(es + [e]) == if FirstTrusted(es).Some? then FirstTrusted(es) else if e.revoked then None else Some(e)
    decreases |es|
  {
    if es != [] {
      assert (es + [e])[1..] == es[1..] + [e];
      FirstTrustedSnoc(es[1..], e);
    } else {
      assert es + [e] == [e];
    }
  }

  /** The decision, by conditions on the loaded entries and marker alone. */
  lemma DecideMeaning(l: Loaded, k: Key)
    ensures Answers(l.entries, l.unsupported, k, Decide(l, k))
  {
    hide Holds, RevokedFor, FirstTrusted;
    HoldsByPlace(l.entries, k);
    FirstTrustedExactly(l.entries);
  }

  function ThreeFields(name: string, keyType: string, blob: string): string {
    name + " " + keyType + " " + blob
  }

  /** The line appended for a key trusted on first use. */
  function PinText(host: string, port: nat, k: Key): string {
    ThreeFields(Candidate(host, port), CanonicalKeyType(k.keyType), k.blob)
  }

  /** The pin file on disk, shared by every checker. */
  class PinFile {
    var text: string

    constructor ()
      ensures text == ""
    {
      text := "";
    }
  }

  class KnownHostsChecker {
    const host: string
    const port: nat
    const pin: PinFile
    const entries: seq<Entry>
    const unsupported: Option<string>
    var pinFailed: bool

    constructor (host: string, port: nat, system: string, pin: PinFile, hashed: HashedMatch)
      ensures this.host == host && this.port == port && this.pin == pin && !pinFailed
      ensures Loaded(entries, unsupported) == Load(system, pin.text, Candidate(host, port), hashed)
    {
      this.host, this.port, this.pin := host, port, pin;
      var es, marker := LoadEntries(system, pin.text, Candidate(host, port), hashed);
      entries, unsupported := es, marker;
      pinFailed := false;
    }

    /** `writable`: whether the pin file could be opened and written this time. */
    method Verify(k: Key, writable: bool) returns (d: Decision)
      modifies this, pin
      ensures d == Decide(Loaded(entries, unsupported), k)
      ensures Answers(entries, unsupported, k, d)
      ensures pin.text == old(pin.text) + if d.FirstUse? && writable then PinText(host, port, k) + "\n" else ""
      ensures pinFailed == (old(pinFailed) || (d.FirstUse? && !writable))
    {
      hide Answers, Holds, FirstTrusted, SameKey, PinText;
      DecideMeaning(Loaded(entries, unsupported), k);
      NoneSoFar(entries, k);
      for i := 0 to |entries|
        modifies {}
        invariant !Holds(entries[..i], k, true)
      {
        OneMoreEntry(entries, i, k, true);
        if entries[i].revoked && SameKey(entries[i].keyType, entries[i].keyData, k) {
          return Revoked;
        }
      }
      assert entries[..|entries|] == entries;
      var conflict: Option<Entry> := None;
      for i := 0 to |entries|
        modifies {}
        invariant !Holds(entries[..i], k, false) && conflict == FirstTrusted(entries[..i])
      {
        OneMoreEntry(entries, i, k, false);
        var e := entries[i];
        if !e.revoked {
          if SameKey(e.keyType, e.keyData, k) {
            return Known;
          }
          if conflict.None? {
            conflict := Some(e);
          }
        }
      }
      if conflict.Some? {
        return Changed(conflict.value);
      }
      if unsupported.Some? {
        return Unsupported(unsupported.value);
      }
      if writable {
        pin.text := pin.text + PinText(host, port, k) + "\n";
      } else {
        pinFailed := true;
      }
      return FirstUse;
    }
  }

  // ---- One line at a time

  lemma LoadOneMoreLine(l: Loaded, lines: seq<string>, line: string, store: Store, candidate: string, hashed: HashedMatch)
    ensures LoadLines(l, lines + [line], store, candidate, hashed)
         == Absorb(LoadLines(l, lines, store, candidate, hashed), line, store, candidate, hashed)
  {
    assert (lines + [line])[..|lines|] == lines;
  }

  lemma FieldMatchesName(name: string, candidate: string, hashed: HashedMatch)
    requires Plain(name) && Plain(candidate)
    ensures FieldMatches(name, candidate, hashed) <==> name == candidate
  {
    PlainFacts(name);
    PlainFacts(candidate);
    SplitWithout("", name, ',');
    assert "" + name == name;
    Glob.AcceptsExactlyMatches(name, candidate);
    Glob.LiteralMatchesOnlyItself(name, candidate);
    assert Split(name, ',')[0] == name;
    assert name == "" || name[0] != '|';
  }

  /** A line without a marker whose host field is a plain name is an entry of that name alone. */
  lemma AbsorbPlainLine(l: Loaded, line: string, store: Store, candidate: string, hashed: HashedMatch)
    requires Plain(candidate)
    requires var p := Parse(line); p.Fields? ==> p.marker.None? && Plain(p.field)
    ensures Absorb(l, line, store, candidate, hashed)
         == match Parse(line)
            case Ignored => l
            case Fields(_, field, kt, blob) =>
              if field == candidate then l.(entries := l.entries + [Entry(field, kt, blob, store, false)]) else l
  {
    var p := Parse(line);
    if p.Fields? {
      FieldMatchesName(p.field, candidate, hashed);
    }
  }

  lemma CanonicalIsWord(t: string)
    requires t != "" && Spaceless(t)
    ensures CanonicalKeyType(t) != "" && Spaceless(CanonicalKeyType(t))
    ensures CanonicalKeyType(CanonicalKeyType(t)) == CanonicalKeyType(t)
  {
  }

  lemma ThreeFieldsParse(name: string, kt: string, blob: string)
    requires Plain(name) && Spaceless(kt) && Spaceless(blob) && name != "" && kt != "" && blob != ""
    ensures Parse(ThreeFields(name, kt, blob)) == Fields(None, name, kt, blob)
  {
    PlainFacts(name);
    ThreeWords(name, kt, blob);
    var line := ThreeFields(name, kt, blob);
    assert line[0] == name[0] && line[|line| - 1] == blob[|blob| - 1];
    TrimmedAlready(line);
    assert Parse(line) == FieldsOf(None, line);
  }

  lemma SpacelessHasNoNewline(s: string)
    requires Spaceless(s)
    ensures '\n' !in s
  {
    assert IsSpace('\n');
  }

}
