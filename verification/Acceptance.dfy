/**
 The accepted-risk policy: which rules a policy file may hold, and how the rules mark findings.
 A suppressed finding keeps its place in the list and counts for neither score nor verdict.
 */
module Acceptance {
  import opened Wrappers
  import opened Text
  import opened Reports
  import opened Scoring
  import Glob

  const EXTRA_NEVER_ACCEPTABLE: seq<string> := ["SEC-041", "COV-001"]
  const MIN_JUSTIFICATION: nat := 10
  const ACCEPTED_MARKER := "ACCEPTED:"

  datatype Rule = Rule(findingId: string, host: string, justification: string, expires: string, ticket: Option<string>)

  /** An expiry date as a point in time; date parsing stays abstract. */
  type ParseExpiry = string -> Option<int>

  predicate NeverAcceptable(id: string) { id in COMPROMISE_IDS || id in EXTRA_NEVER_ACCEPTABLE }

  // ---- Loading a policy

  datatype Refusal = MissingId | CompromiseIndicator | ShortJustification | BadExpiry

  function RuleRefusal(r: Rule, parse: ParseExpiry): Option<Refusal> {
    if r.findingId == "" then Some(MissingId)
    else if NeverAcceptable(r.findingId) then Some(CompromiseIndicator)
    else if Utf8Len(Trim(r.justification)) < MIN_JUSTIFICATION then Some(ShortJustification)
    else if parse(r.expires).None? then Some(BadExpiry)
    else None
  }

  predicate Loadable(rules: seq<Rule>, parse: ParseExpiry) {
    forall i :: 0 <= i < |rules| ==> RuleRefusal(rules[i], parse).None?
  }

  /** All rules or none: the first unacceptable rule refuses the file, with its position. */
  method Load(rules: seq<Rule>, parse: ParseExpiry) returns (r: Result<seq<Rule>, (nat, Refusal)>)
    ensures r.Ok? <==> Loadable(rules, parse)
    ensures r.Ok? ==> r.value == rules
    ensures r.Err? ==>
      && r.error.0 < |rules| && RuleRefusal(rules[r.error.0], parse) == Some(r.error.1)
      && Loadable(rules[..r.error.0], parse)
  {
    for i := 0 to |rules|
      invariant Loadable(rules[..i], parse)
    {
      var refusal := RuleRefusal(rules[i], parse);
      if refusal.Some? {
        return Err((i, refusal.value));
      }
    }
    assert rules[..|rules|] == rules;
    return Ok(rules);
  }

  // ---- Applying it

  /** The first rule for the finding on this host, expired or not. */
  function FirstRule(rules: seq<Rule>, id: string, hostname: string): Option<Rule> {
    if rules == [] then None
    else if rules[0].findingId == id && Glob.Matches(rules[0].host, hostname) then Some(rules[0])
    else FirstRule(rules[1..], id, hostname)
  }

  predicate Expired(rule: Rule, parse: ParseExpiry, now: int) {
    var expiry := parse(rule.expires);
    expiry.Some? && expiry.value < now
  }

  function Marker(rule: Rule): string {
    ACCEPTED_MARKER + " " + Trim(rule.justification) + " (until " + rule.expires
    + (match rule.ticket case Some(t) => ", " + t case None => "") + ")"
  }

  function Overlay(rules: seq<Rule>, parse: ParseExpiry, now: int, hostname: string, f: Finding): Finding {
    if f.suppressed.Some? then f
    else match FirstRule(rules, f.id, hostname)
      case None => f
      case Some(rule) => if Expired(rule, parse, now) then f else f.(suppressed := Some(Marker(rule)))
  }

  /** A rule matched this finding and had expired. */
  predicate Noted(rules: seq<Rule>, parse: ParseExpiry, now: int, hostname: string, f: Finding) {
    f.suppressed.None? &&
    match FirstRule(rules, f.id, hostname) case None => false case Some(rule) => Expired(rule, parse, now)
  }

  function OverlayAll(rules: seq<Rule>, parse: ParseExpiry, now: int, hostname: string, fs: seq<Finding>): (r: seq<Finding>)
    ensures |r| == |fs|
    ensures forall i :: 0 <= i < |fs| ==> r[i] == Overlay(rules, parse, now, hostname, fs[i])
  {
    if fs == [] then []
    else [Overlay(rules, parse, now, hostname, fs[0])] + OverlayAll(rules, parse, now, hostname, fs[1..])
  }

  function NotedIds(rules: seq<Rule>, parse: ParseExpiry, now: int, hostname: string, fs: seq<Finding>): seq<string> {
    if fs == [] then []
    else
      var n := |fs| - 1;
      NotedIds(rules, parse, now, hostname, fs[..n])
      + if Noted(rules, parse, now, hostname, fs[n]) then [fs[n].id] else []
  }

  class Acceptances {
    const rules: seq<Rule>
    const parse: ParseExpiry

    constructor (rules: seq<Rule>, parse: ParseExpiry)
      requires Loadable(rules, parse)
      ensures this.rules == rules && this.parse == parse
    {
      this.rules, this.parse := rules, parse;
    }

    method FindRule(id: string, hostname: string) returns (rule: Option<Rule>)
      ensures rule == FirstRule(rules, id, hostname)
    {
      for i := 0 to |rules|
        invariant FirstRule(rules, id, hostname) == FirstRule(rules[i..], id, hostname)
      {
        if rules[i].findingId == id && Glob.Matches(rules[i].host, hostname) {
          return Some(rules[i]);
        }
      }
      return None;
    }

    /** Marks the findings in place; `notes` names the findings whose acceptance had expired. */
    method Apply(hostname: string, now: int, findings: array<Finding>) returns (notes: seq<string>)
      modifies findings
      ensures findings[..] == OverlayAll(rules, parse, now, hostname, old(findings[..]))
      ensures notes == NotedIds(rules, parse, now, hostname, old(findings[..]))
    {
      hide FirstRule, Marker, Glob.Matches;
      notes := [];
      ghost var was := findings[..];
      for i := 0 to findings.Length
        invariant forall j :: 0 <= j < i ==> findings[j] == Overlay(rules, parse, now, hostname, was[j])
        invariant forall j :: i <= j < findings.Length ==> findings[j] == was[j]
        invariant notes == NotedIds(rules, parse, now, hostname, was[..i])
      {
        assert was[..i + 1][..i] == was[..i];
        var f := findings[i];
        if f.suppressed.Some? {
          continue;
        }
        var rule := FindRule(f.id, hostname);
        if rule.None? {
          continue;
        }
        var expiry := parse(rule.value.expires);
        if (if expiry.Some? then expiry.value else now) < now {
          notes := notes + [f.id];
          continue;
        }
        findings[i] := f.(suppressed := Some(Marker(rule.value)));
      }
      assert was[..findings.Length] == was;
    }
  }

  // ---- What a loaded policy can and cannot do

  lemma OverlaySuppresses(rules: seq<Rule>, parse: ParseExpiry, now: int, hostname: string, fs: seq<Finding>)
    ensures Suppresses(OverlayAll(rules, parse, now, hostname, fs), fs)
  {
  }

  lemma {:induction false} FirstRuleIsARule(rules: seq<Rule>, id: string, hostname: string)
    ensures FirstRule(rules, id, hostname).Some? ==>
      FirstRule(rules, id, hostname).value in rules && FirstRule(rules, id, hostname).value.findingId == id
    decreases |rules|
  {
    if rules != [] {
      FirstRuleIsARule(rules[1..], id, hostname);
    }
  }

  lemma CompromiseIsNeverOverlaid(rules: seq<Rule>, parse: ParseExpiry, now: int, hostname: string, f: Finding)
    requires Loadable(rules, parse) && NeverAcceptable(f.id)
    ensures Overlay(rules, parse, now, hostname, f) == f
  {
    FirstRuleIsARule(rules, f.id, hostname);
  }

  lemma OverlayKeepsHas(rules: seq<Rule>, parse: ParseExpiry, now: int, hostname: string, fs: seq<Finding>, id: string)
    requires Loadable(rules, parse) && NeverAcceptable(id)
    ensures Has(OverlayAll(rules, parse, now, hostname, fs), id) <==> Has(fs, id)
  {
    var r := OverlayAll(rules, parse, now, hostname, fs);
    forall i | 0 <= i < |fs| && fs[i].id == id ensures r[i] == fs[i] {
      CompromiseIsNeverOverlaid(rules, parse, now, hostname, fs[i]);
    }
    forall i | 0 <= i < |fs| ensures r[i].id == fs[i].id {
    }
  }

  /**
   No policy that loads can hide or invent a compromise, on any host at any time, and none can
   worsen a verdict, raise a sub-score or rewrite a suppression the scanners made.
   */
  lemma PolicyCannotHideCompromise(rules: seq<Rule>, parse: ParseExpiry, now: int, hostname: string, fs: seq<Finding>)
    requires Loadable(rules, parse)
    ensures var r := OverlayAll(rules, parse, now, hostname, fs);
            && (VerdictOf(r).Compromised? <==> VerdictOf(fs).Compromised?)
            && Rank(VerdictOf(r)) <= Rank(VerdictOf(fs))
            && (forall c: Category :: Capped(r, c) <= Capped(fs, c))
            && Suppresses(r, fs)
  {
    var r := OverlayAll(rules, parse, now, hostname, fs);
    OverlaySuppresses(rules, parse, now, hostname, fs);
    SuppressingNeverWorsens(r, fs);
    VerdictReadsLive(r);
    VerdictReadsLive(fs);
    forall i | 0 <= i < |COMPROMISE_IDS| ensures Has(r, COMPROMISE_IDS[i]) <==> Has(fs, COMPROMISE_IDS[i]) {
      OverlayKeepsHas(rules, parse, now, hostname, fs, COMPROMISE_IDS[i]);
    }
    forall c: Category ensures Capped(r, c) <= Capped(fs, c) {
      SuppressingLowersSums(r, fs, c);
    }
  }

  /** A rule list with a compromise indicator does not load, wherever the rule stands. */
  lemma CompromiseRuleRefused(rules: seq<Rule>, parse: ParseExpiry, rule: Rule)
    requires rule in rules && rule.findingId in COMPROMISE_IDS
    ensures !Loadable(rules, parse)
  {
    var i :| 0 <= i < |rules| && rules[i] == rule;
    assert RuleRefusal(rules[i], parse).Some?;
  }

  lemma {:induction false} FirstRuleConcat(a: seq<Rule>, b: seq<Rule>, id: string, hostname: string)
    ensures FirstRule(a + b, id, hostname)
         == if FirstRule(a, id, hostname).Some? then FirstRule(a, id, hostname) else FirstRule(b, id, hostname)
    decreases |a|
  {
    if a == [] {
      assert a + b == b;
    } else {
      DropHead(a, b);
      FirstRuleConcat(a[1..], b, id, hostname);
    }
  }

  /** The first match wins before its date is looked at: behind an expired rule a live one has no effect. */
  lemma ExpiredRuleShadows(rules: seq<Rule>, more: seq<Rule>, parse: ParseExpiry, now: int, hostname: string, f: Finding)
    requires FirstRule(rules, f.id, hostname).Some? && Expired(FirstRule(rules, f.id, hostname).value, parse, now)
    ensures Overlay(rules + more, parse, now, hostname, f) == f
    ensures f.suppressed.None? ==> Noted(rules + more, parse, now, hostname, f)
  {
    FirstRuleConcat(rules, more, f.id, hostname);
  }

  // ---- The same report at two times

  /** Rules only expire: what a later look accepts an earlier one accepted too. */
  lemma LaterAcceptsLess(rules: seq<Rule>, parse: ParseExpiry, early: int, late: int, hostname: string, fs: seq<Finding>)
    requires early <= late
    ensures Suppresses(OverlayAll(rules, parse, early, hostname, fs), OverlayAll(rules, parse, late, hostname, fs))
  {
  }

  /** No rule's date lies between the two times. */
  predicate NoneLapses(rules: seq<Rule>, parse: ParseExpiry, a: int, b: int) {
    forall i :: 0 <= i < |rules| ==> (Expired(rules[i], parse, a) <==> Expired(rules[i], parse, b))
  }

  lemma SameMarksUnlessLapsed(rules: seq<Rule>, parse: ParseExpiry, a: int, b: int, hostname: string, fs: seq<Finding>)
    requires NoneLapses(rules, parse, a, b)
    ensures OverlayAll(rules, parse, a, hostname, fs) == OverlayAll(rules, parse, b, hostname, fs)
  {
    forall i | 0 <= i < |fs|
      ensures Overlay(rules, parse, a, hostname, fs[i]) == Overlay(rules, parse, b, hostname, fs[i])
    {
      FirstRuleIsARule(rules, fs[i].id, hostname);
    }
  }

  // ---- Counting accepted risks

  predicate CarriesMarker(f: Finding) {
    f.suppressed.Some? && ACCEPTED_MARKER <= f.suppressed.value
  }

  function AcceptedCount(fs: seq<Finding>): nat {
    if fs == [] then 0 else (if CarriesMarker(fs[0]) then 1 else 0) + AcceptedCount(fs[1..])
  }

  function LiveCount(fs: seq<Finding>): nat {
    if fs == [] then 0 else (if fs[0].suppressed.None? then 1 else 0) + LiveCount(fs[1..])
  }

  lemma MarkerIsMarked(rule: Rule)
    ensures ACCEPTED_MARKER <= Marker(rule)
  {
    var rest := " " + Trim(rule.justification) + " (until " + rule.expires
                + (match rule.ticket case Some(t) => ", " + t case None => "") + ")";
    assert Marker(rule) == ACCEPTED_MARKER + rest;
  }

  /** Each finding a policy takes out of the live ones is counted as accepted, and nothing else is. */
  lemma {:induction false} AcceptedAreCounted(rules: seq<Rule>, parse: ParseExpiry, now: int, hostname: string, fs: seq<Finding>)
    ensures var r := OverlayAll(rules, parse, now, hostname, fs);
            AcceptedCount(r) + LiveCount(r) == AcceptedCount(fs) + LiveCount(fs)
    decreases |fs|
  {
    if fs != [] {
      AcceptedAreCounted(rules, parse, now, hostname, fs[1..]);
      var r := OverlayAll(rules, parse, now, hostname, fs);
      assert r[1..] == OverlayAll(rules, parse, now, hostname, fs[1..]);
      var rule := FirstRule(rules, fs[0].id, hostname);
      if rule.Some? {
        MarkerIsMarked(rule.value);
      }
    }
  }
}
