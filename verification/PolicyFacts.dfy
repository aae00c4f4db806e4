/**
 What a policy file may hold and what its rules do to a finding, written out: ids, lengths, patterns
 and the text of the mark.
 */
module PolicyFacts {
  import opened Wrappers
  import opened Text
  import opened Lists
  import opened Reports
  import opened Acceptance
  import Glob

  // ---- Which rules load

  /** A rule with an id that may be accepted, ten bytes of reason and a date. */
  ghost predicate Acceptable(r: Rule, parse: ParseExpiry) {
    && r.findingId !in {"", "SEC-015", "SEC-016", "SEC-017", "SEC-019", "SEC-020", "SEC-021", "SEC-022", "SEC-023",
                        "SEC-024", "SEC-028", "SEC-040", "DOCK-010", "SEC-042", "SEC-043", "SEC-052", "SEC-055",
                        "SEC-041", "COV-001"}
    && Utf8Len(Trim(r.justification)) >= 10
    && parse(r.expires).Some?
  }

  lemma LoadsExactly(rules: seq<Rule>, parse: ParseExpiry)
    ensures Loadable(rules, parse) <==> forall i :: 0 <= i < |rules| ==> Acceptable(rules[i], parse)
  {
    hide Utf8Len, Trim, NeverAcceptable;
    forall i | 0 <= i < |rules| ensures RuleRefusal(rules[i], parse).None? <==> Acceptable(rules[i], parse) {
      NeverAcceptableIds(rules[i].findingId);
    }
  }

  lemma NeverAcceptableIds(id: string)
    ensures NeverAcceptable(id) <==>
      id in {"SEC-015", "SEC-016", "SEC-017", "SEC-019", "SEC-020", "SEC-021", "SEC-022", "SEC-023", "SEC-024", "SEC-028",
             "SEC-040", "DOCK-010", "SEC-042", "SEC-043", "SEC-052", "SEC-055", "SEC-041", "COV-001"}
  {
  }

  // ---- Which rule applies

  /** The rule is for this finding and its pattern cuts the host name into pieces. */
  ghost predicate Applies(r: Rule, id: string, hostname: string) {
    r.findingId == id && exists pieces :: Glob.CutsInto(r.host, hostname, pieces)
  }

  ghost predicate FirstApplies(rules: seq<Rule>, id: string, hostname: string, i: nat) {
    i < |rules| && Applies(rules[i], id, hostname) && forall j :: 0 <= j < i ==> !Applies(rules[j], id, hostname)
  }

  lemma {:induction false} FirstRuleExactly(rules: seq<Rule>, id: string, hostname: string)
    ensures match FirstRule(rules, id, hostname)
            case None => forall i :: 0 <= i < |rules| ==> !Applies(rules[i], id, hostname)
            case Some(r) => exists i: nat :: FirstApplies(rules, id, hostname, i) && rules[i] == r
    decreases |rules|
  {
    hide Glob.Matches, Applies;
    if rules != [] {
      var rest := rules[1..];
      AppliesIsMatch(rules[0], id, hostname);
      FirstRuleExactly(rest, id, hostname);
      assert forall i :: 0 < i < |rules| ==> rules[i] == rest[i - 1];
      if Applies(rules[0], id, hostname) {
        assert FirstApplies(rules, id, hostname, 0);
      } else if FirstRule(rest, id, hostname).Some? {
        var i: nat :| FirstApplies(rest, id, hostname, i) && rest[i] == FirstRule(rest, id, hostname).value;
        assert FirstApplies(rules, id, hostname, i + 1);
      }
    }
  }

  lemma AppliesIsMatch(r: Rule, id: string, hostname: string)
    ensures Applies(r, id, hostname) <==> r.findingId == id && Glob.Matches(r.host, hostname)
  {
    Glob.MatchesByPieces(r.host, hostname);
  }

  lemma OnlyOneFirst(rules: seq<Rule>, id: string, hostname: string, i: nat, j: nat)
    requires FirstApplies(rules, id, hostname, i) && FirstApplies(rules, id, hostname, j)
    ensures i == j
  {
    hide Applies;
  }

  // ---- What it does to a finding

  /** The date has passed. */
  predicate Lapsed(r: Rule, parse: ParseExpiry, now: int) { parse(r.expires).Some? && parse(r.expires).value < now }

  function Mark(r: Rule): string {
    "ACCEPTED: " + Trim(r.justification) + " (until " + r.expires + (if r.ticket.Some? then ", " + r.ticket.value else "") + ")"
  }

  /**
   A live finding is marked exactly if the first rule that applies has not lapsed, with that rule's
   mark and nothing else changed; if it has lapsed the finding stays as it is and is noted.
   */
  lemma OverlayExactly(rules: seq<Rule>, parse: ParseExpiry, now: int, hostname: string, f: Finding)
    ensures f.suppressed.Some? ==> Overlay(rules, parse, now, hostname, f) == f && !Noted(rules, parse, now, hostname, f)
    ensures forall i: nat :: f.suppressed.None? && FirstApplies(rules, f.id, hostname, i) ==>
      && Overlay(rules, parse, now, hostname, f)
         == (if Lapsed(rules[i], parse, now) then f else f.(suppressed := Some(Mark(rules[i]))))
      && (Noted(rules, parse, now, hostname, f) <==> Lapsed(rules[i], parse, now))
    ensures (forall i: nat :: !FirstApplies(rules, f.id, hostname, i)) ==>
      Overlay(rules, parse, now, hostname, f) == f && !Noted(rules, parse, now, hostname, f)
  {
    hide FirstRule, Applies, Mark, Marker;
    FirstRuleExactly(rules, f.id, hostname);
    forall i: nat | f.suppressed.None? && FirstApplies(rules, f.id, hostname, i)
      ensures FirstRule(rules, f.id, hostname) == Some(rules[i]) && Marker(rules[i]) == Mark(rules[i])
    {
      FirstIsTaken(rules, f.id, hostname, i);
      MarkIs(rules[i]);
    }
  }

  lemma FirstIsTaken(rules: seq<Rule>, id: string, hostname: string, i: nat)
    requires FirstApplies(rules, id, hostname, i)
    ensures i < |rules| && FirstRule(rules, id, hostname) == Some(rules[i])
  {
    hide Applies, FirstRule;
    FirstRuleExactly(rules, id, hostname);
    if FirstRule(rules, id, hostname).Some? {
      var j: nat :| FirstApplies(rules, id, hostname, j) && rules[j] == FirstRule(rules, id, hostname).value;
      OnlyOneFirst(rules, id, hostname, i, j);
    }
  }

  lemma MarkIs(r: Rule)
    ensures Marker(r) == Mark(r)
  {
    assert "ACCEPTED:" + " " == "ACCEPTED: ";
  }

  // ---- What it reports

  /** `notes` are the ids of the findings whose rule had lapsed, in order; `at` says which findings these are. */
  ghost predicate NotedAt(rules: seq<Rule>, parse: ParseExpiry, now: int, hostname: string, fs: seq<Finding>,
                          notes: seq<string>, at: seq<nat>) {
    && |notes| == |at| && Ascending(at)
    && (forall k :: 0 <= k < |at| ==> at[k] < |fs| && Noted(rules, parse, now, hostname, fs[at[k]]) && notes[k] == fs[at[k]].id)
    && (forall i :: 0 <= i < |fs| && Noted(rules, parse, now, hostname, fs[i]) ==> i in at)
  }

  lemma {:induction false} NotesExactly(rules: seq<Rule>, parse: ParseExpiry, now: int, hostname: string, fs: seq<Finding>)
      returns (at: seq<nat>)
    ensures NotedAt(rules, parse, now, hostname, fs, NotedIds(rules, parse, now, hostname, fs), at)
    decreases |fs|
  {
    hide Noted, NotedAt;
    if fs == [] {
      at := [];
      NothingNoted(rules, parse, now, hostname);
    } else {
      var n := |fs| - 1;
      at := NotesExactly(rules, parse, now, hostname, fs[..n]);
      var notes := NotedIds(rules, parse, now, hostname, fs[..n]);
      assert fs == fs[..n] + [fs[n]];
      NotedSnoc(rules, parse, now, hostname, fs[..n], fs[n], notes, at);
      if Noted(rules, parse, now, hostname, fs[n]) {
        at := at + [n];
      } else {
        Empties(notes);
      }
    }
  }

  lemma NothingNoted(rules: seq<Rule>, parse: ParseExpiry, now: int, hostname: string)
    ensures NotedAt(rules, parse, now, hostname, [], [], [])
  {
  }

  lemma NotedSnoc(rules: seq<Rule>, parse: ParseExpiry, now: int, hostname: string, fs: seq<Finding>, f: Finding,
                  notes: seq<string>, at: seq<nat>)
    requires NotedAt(rules, parse, now, hostname, fs, notes, at)
    ensures if Noted(rules, parse, now, hostname, f)
            then NotedAt(rules, parse, now, hostname, fs + [f], notes + [f.id], at + [|fs|])
            else NotedAt(rules, parse, now, hostname, fs + [f], notes, at)
  {
    hide Noted;
    var more := at + [|fs|];
    forall i | i in at || i == |fs| ensures i in more {
      assert more[|at|] == |fs|;
      assert at <= more;
    }
  }
}
