/** Score and verdict of a list of findings. */
module Scoring {
  import opened Reports

  const SYSCTL_CRITICAL_THRESHOLD: nat := 3

  /** The findings whose presence forces exit code 3. */
  const COMPROMISE_IDS: seq<string> := [
    "SEC-015", "SEC-016", "SEC-017", "SEC-019", "SEC-020", "SEC-021", "SEC-022", "SEC-023",
    "SEC-024", "SEC-028", "SEC-040", "DOCK-010", "SEC-042", "SEC-043", "SEC-052", "SEC-055"]

  // ---- Score

  function Counted(f: Finding, c: Category): nat {
    if f.suppressed.None? && f.category == c then f.weight as nat else 0
  }

  /** The true, unbounded sum of the live weights of a category. */
  function Sum(fs: seq<Finding>, c: Category): nat {
    if fs == [] then 0 else Sum(fs[..|fs| - 1], c) + Counted(fs[|fs| - 1], c)
  }

  function Min(a: nat, b: nat): nat { if a <= b then a else b }

  function Cap(c: Category): nat {
    match c case Security => 60 case Reliability => 30 case Hygiene => 10
  }

  function Capped(fs: seq<Finding>, c: Category): nat { Min(Sum(fs, c), Cap(c)) }

  datatype Score = Score(total: u8, security: u8, reliability: u8, hygiene: u8)

  function SaturatingAdd(a: u8, b: u8): u8 {
    if a as int + b as int > 255 then 255 else a + b
  }

  function MinU8(a: u8, b: u8): u8 { if a <= b then a else b }

  /** The loop over three saturating bytes loses nothing below the caps. */
  method ComputeScore(fs: seq<Finding>) returns (s: Score)
    ensures s.security as nat == Capped(fs, Security)
    ensures s.reliability as nat == Capped(fs, Reliability)
    ensures s.hygiene as nat == Capped(fs, Hygiene)
    ensures s.total as nat == s.security as nat + s.reliability as nat + s.hygiene as nat <= 100
    ensures s.security as nat == (if Sum(fs, Security) <= 60 then Sum(fs, Security) else 60)
    ensures s.reliability as nat == (if Sum(fs, Reliability) <= 30 then Sum(fs, Reliability) else 30)
    ensures s.hygiene as nat == (if Sum(fs, Hygiene) <= 10 then Sum(fs, Hygiene) else 10)
  {
    var sec: u8, rel: u8, hyg: u8 := 0, 0, 0;
    for i := 0 to |fs|
      invariant sec as nat == Min(Sum(fs[..i], Security), 255)
      invariant rel as nat == Min(Sum(fs[..i], Reliability), 255)
      invariant hyg as nat == Min(Sum(fs[..i], Hygiene), 255)
    {
      assert fs[..i + 1][..i] == fs[..i];
      var f := fs[i];
      if f.suppressed.Some? {
        continue;
      }
      match f.category {
        case Security => sec := SaturatingAdd(sec, f.weight);
        case Reliability => rel := SaturatingAdd(rel, f.weight);
        case Hygiene => hyg := SaturatingAdd(hyg, f.weight);
      }
    }
    assert fs[..|fs|] == fs;
    s := Score(MinU8(MinU8(sec, 60) + MinU8(rel, 30) + MinU8(hyg, 10), 100), MinU8(sec, 60), MinU8(rel, 30), MinU8(hyg, 10));
  }

  lemma {:induction false} SumConcat(a: seq<Finding>, b: seq<Finding>, c: Category)
    ensures Sum(a + b, c) == Sum(a, c) + Sum(b, c)
    decreases |b|
  {
    if b == [] {
      assert a + b == a;
    } else {
      assert (a + b)[..|a + b| - 1] == a + b[..|b| - 1];
      SumConcat(a, b[..|b| - 1], c);
    }
  }

  /** A finding counts with its weight in its own category while it is not suppressed, and nowhere else. */
  lemma SumSplits(a: seq<Finding>, f: Finding, b: seq<Finding>, c: Category)
    ensures Sum(a + [f] + b, c)
         == Sum(a, c) + Sum(b, c) + if f.suppressed.None? && f.category == c then f.weight as nat else 0
    ensures Sum([], c) == 0
  {
    SumConcat(a + [f], b, c);
    SumConcat(a, [f], c);
    assert [f][..0] == [];
  }

  lemma SumWithout(fs: seq<Finding>, i: nat, c: Category)
    requires i < |fs|
    ensures Sum(fs, c) == Sum(fs[..i] + fs[i + 1..], c) + Counted(fs[i], c)
  {
    assert fs == fs[..i] + ([fs[i]] + fs[i + 1..]);
    SumConcat(fs[..i], [fs[i]] + fs[i + 1..], c);
    SumConcat([fs[i]], fs[i + 1..], c);
    SumConcat(fs[..i], fs[i + 1..], c);
    assert [fs[i]][..0] == [];
  }

  lemma MultisetWithout(fs: seq<Finding>, i: nat)
    requires i < |fs|
    ensures multiset(fs[..i] + fs[i + 1..]) == multiset(fs) - multiset{fs[i]}
  {
    assert fs == fs[..i] + [fs[i]] + fs[i + 1..];
  }

  lemma SumOfNone(b: seq<Finding>, c: Category)
    ensures Sum([], c) <= Sum(b, c)
  {
  }

  /** More findings never lower a category, wherever and in whatever order they appear. */
  lemma {:induction false} SumIsMonotone(a: seq<Finding>, b: seq<Finding>, c: Category)
    requires multiset(a) <= multiset(b)
    ensures Sum(a, c) <= Sum(b, c)
    decreases |a|
  {
    hide Sum, Counted;
    if a == [] {
      SumOfNone(b, c);
    } else {
      var n := |a| - 1;
      assert a[n] in multiset(a) && a[n] in multiset(b);
      var i :| 0 <= i < |b| && b[i] == a[n];
      MultisetWithout(b, i);
      MultisetWithout(a, n);
      assert a[..n] + a[n + 1..] == a[..n];
      SumIsMonotone(a[..n], b[..i] + b[i + 1..], c);
      SumWithout(a, n, c);
      SumWithout(b, i, c);
    }
  }

  /** The score does not depend on the order of the findings. */
  lemma ScoreIgnoresOrder(a: seq<Finding>, b: seq<Finding>, c: Category)
    requires multiset(a) == multiset(b)
    ensures Capped(a, c) == Capped(b, c)
  {
    SumIsMonotone(a, b, c);
    SumIsMonotone(b, a, c);
  }

  // ---- Verdict

  datatype Verdict = Clean | Critical | Compromised

  function Rank(v: Verdict): nat { match v case Clean => 0 case Critical => 1 case Compromised => 2 }

  function Worse(a: Verdict, b: Verdict): Verdict { if Rank(a) >= Rank(b) then a else b }

  function Live(fs: seq<Finding>): seq<Finding> {
    if fs == [] then []
    else if fs[0].suppressed.None? then [fs[0]] + Live(fs[1..])
    else Live(fs[1..])
  }

  predicate Has(fs: seq<Finding>, id: string) {
    exists i :: 0 <= i < |fs| && fs[i].id == id && fs[i].suppressed.None?
  }

  function SysctlCount(fs: seq<Finding>): nat {
    if fs == [] then 0
    else (if fs[0].id == "SEC-007" && fs[0].suppressed.None? then 1 else 0) + SysctlCount(fs[1..])
  }

  predicate CompromisedHost(fs: seq<Finding>) {
    exists i :: 0 <= i < |COMPROMISE_IDS| && Has(fs, COMPROMISE_IDS[i])
  }

  const CRITICAL_IDS: seq<string> := [
    "SEC-001", "SEC-002", "SEC-003", "SEC-004", "REL-001", "REL-002", "SEC-005", "SEC-012", "HYG-001"]

  predicate HasCritical(fs: seq<Finding>) {
    || (exists i :: 0 <= i < |CRITICAL_IDS| && Has(fs, CRITICAL_IDS[i]))
    || SysctlCount(fs) >= SYSCTL_CRITICAL_THRESHOLD
  }

  function VerdictOf(fs: seq<Finding>): Verdict {
    var live := Live(fs);
    if CompromisedHost(live) then Compromised else if HasCritical(live) then Critical else Clean
  }

  lemma {:induction false} LiveHas(fs: seq<Finding>, id: string)
    ensures Has(Live(fs), id) <==> Has(fs, id)
    decreases |fs|
  {
    if fs != [] {
      LiveHas(fs[1..], id);
      HasCons(fs[0], fs[1..], id);
      assert fs == [fs[0]] + fs[1..];
      if fs[0].suppressed.None? {
        HasCons(fs[0], Live(fs[1..]), id);
      }
    }
  }

  lemma HasCons(f: Finding, fs: seq<Finding>, id: string)
    ensures Has([f] + fs, id) <==> (f.id == id && f.suppressed.None?) || Has(fs, id)
  {
    var all := [f] + fs;
    if Has(fs, id) {
      var i :| 0 <= i < |fs| && fs[i].id == id && fs[i].suppressed.None?;
      assert all[i + 1] == fs[i];
    }
    if f.id == id && f.suppressed.None? {
      assert all[0] == f;
    }
  }

  lemma {:induction false} LiveSysctl(fs: seq<Finding>)
    ensures SysctlCount(Live(fs)) == SysctlCount(fs)
    decreases |fs|
  {
    if fs != [] {
      LiveSysctl(fs[1..]);
      assert fs[0].suppressed.None? ==> Live(fs)[1..] == Live(fs[1..]);
    }
  }

  /** Filtering the live findings first changes no flag: the verdict reads the unsuppressed findings. */
  lemma VerdictReadsLive(fs: seq<Finding>)
    ensures VerdictOf(fs).Compromised? <==> CompromisedHost(fs)
    ensures VerdictOf(fs).Clean? <==> !CompromisedHost(fs) && !HasCritical(fs)
  {
    forall id: string ensures Has(Live(fs), id) <==> Has(fs, id) {
      LiveHas(fs, id);
    }
    LiveSysctl(fs);
  }

  /** `a` is `b` with possibly more findings suppressed. */
  ghost predicate Suppresses(a: seq<Finding>, b: seq<Finding>) {
    && |a| == |b|
    && forall i :: 0 <= i < |a| ==>
         && a[i].id == b[i].id && a[i].category == b[i].category && a[i].weight == b[i].weight
         && (b[i].suppressed.Some? ==> a[i].suppressed == b[i].suppressed)
  }

  lemma {:induction false} SuppressingLowersSums(a: seq<Finding>, b: seq<Finding>, c: Category)
    requires Suppresses(a, b)
    ensures Sum(a, c) <= Sum(b, c)
    decreases |a|
  {
    if a != [] {
      SuppressingLowersSums(a[..|a| - 1], b[..|b| - 1], c);
    }
  }

  lemma {:induction false} SuppressingLowersSysctl(a: seq<Finding>, b: seq<Finding>)
    requires Suppresses(a, b)
    ensures SysctlCount(a) <= SysctlCount(b)
    decreases |a|
  {
    if a != [] {
      SuppressingLowersSysctl(a[1..], b[1..]);
    }
  }

  /** Suppressing findings never worsens the verdict. */
  lemma SuppressingNeverWorsens(a: seq<Finding>, b: seq<Finding>)
    requires Suppresses(a, b)
    ensures Rank(VerdictOf(a)) <= Rank(VerdictOf(b))
  {
    VerdictReadsLive(a);
    VerdictReadsLive(b);
    SuppressingLowersSysctl(a, b);
    forall id: string | Has(a, id) ensures Has(b, id) {
      var i :| 0 <= i < |a| && a[i].id == id && a[i].suppressed.None?;
      assert b[i].suppressed.None?;
    }
  }
}
