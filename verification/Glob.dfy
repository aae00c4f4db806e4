/**
 The two glob matchers of the program: the plain recursion of the acceptance policy, and the
 greedy loop with one saved star that guards the host-key trust store. Patterns and texts are
 sequences of bytes, one `char` per byte.
 */
module Glob {
  /** `*` and `?` only, anchored at both ends: the reference semantics. */
  predicate Matches(p: string, s: string)
    decreases |p| + |s|
  {
    if p == "" then s == ""
    else if p[0] == '*' then Matches(p[1..], s) || (s != "" && Matches(p, s[1..]))
    else s != "" && (p[0] == '?' || p[0] == s[0]) && Matches(p[1..], s[1..])
  }

  /** The last `*` seen by the loop and the text position its expansion currently ends at. */
  datatype Star = NoStar | Star(p: nat, t: nat)

  ghost predicate StarInRange(p: string, t: string, pi: nat, ti: nat, star: Star) {
    && pi <= |p| && ti <= |t|
    && (star.Star? ==> star.p < pi && star.t <= ti && p[star.p] == '*')
  }

  ghost function Budget(t: string, star: Star): int {
    if star.Star? then |t| - star.t else |t| + 1
  }

  predicate AllStars(p: string, pi: nat)
    requires pi <= |p|
  {
    forall i :: pi <= i < |p| ==> p[i] == '*'
  }

  /** What the loop answers from one of its intermediate states. */
  ghost predicate AcceptsFrom(p: string, t: string, pi: nat, ti: nat, star: Star)
    requires StarInRange(p, t, pi, ti, star)
    decreases Budget(t, star), |t| - ti, |p| - pi
  {
    if ti == |t| then AllStars(p, pi)
    else if pi < |p| && (p[pi] == '?' || p[pi] == t[ti]) then AcceptsFrom(p, t, pi + 1, ti + 1, star)
    else if pi < |p| && p[pi] == '*' then AcceptsFrom(p, t, pi + 1, ti, Star(pi, ti))
    else if star.Star? then AcceptsFrom(p, t, star.p + 1, star.t + 1, Star(star.p, star.t + 1))
    else false
  }

  ghost predicate Accepts(p: string, t: string) {
    AcceptsFrom(p, t, 0, 0, NoStar)
  }

  /** The loop itself. It tests for an equal byte before it tests for `*`. */
  method GlobMatch(p: string, t: string) returns (r: bool)
    ensures r == Accepts(p, t)
    ensures r ==> Matches(p, t)
    ensures '*' !in t ==> r == Matches(p, t)
  {
    AcceptsImpliesMatches(p, t);
    if '*' !in t {
      AcceptsExactlyMatches(p, t);
    }
    var pi: nat, ti: nat, star := 0, 0, NoStar;
    while ti < |t|
      invariant StarInRange(p, t, pi, ti, star)
      invariant Accepts(p, t) == AcceptsFrom(p, t, pi, ti, star)
      decreases Budget(t, star), |t| - ti, |p| - pi
    {
      if pi < |p| && (p[pi] == '?' || p[pi] == t[ti]) {
        pi, ti := pi + 1, ti + 1;
      } else if pi < |p| && p[pi] == '*' {
        star := Star(pi, ti);
        pi := pi + 1;
      } else if star.Star? {
        star := Star(star.p, star.t + 1);
        pi, ti := star.p + 1, star.t;
      } else {
        return false;
      }
    }
    ghost var tail: nat := pi;
    while pi < |p| && p[pi] == '*'
      invariant tail <= pi <= |p|
      invariant forall i :: tail <= i < pi ==> p[i] == '*'
    {
      pi := pi + 1;
    }
    r := pi == |p|;
  }

  // ---- Soundness: the loop accepts nothing the recursion rejects, whatever the text.

  lemma StarsMatchNothing(p: string)
    ensures AllStars(p, 0) <==> Matches(p, "")
  {
    if p != "" {
      StarsMatchNothing(p[1..]);
      assert AllStars(p, 0) <==> p[0] == '*' && AllStars(p[1..], 0) by {
        assert forall i :: 0 <= i < |p| - 1 ==> p[1..][i] == p[i + 1];
        assert forall i :: 1 <= i < |p| ==> p[i] == p[1..][i - 1];
      }
    }
  }

  lemma MatchesStep(p: string, t: string, pi: nat, ti: nat)
    requires pi < |p| && ti <= |t|
    ensures p[pi] == '*' ==>
      (Matches(p[pi..], t[ti..]) <==>
       Matches(p[pi + 1..], t[ti..]) || (ti < |t| && Matches(p[pi..], t[ti + 1..])))
    ensures p[pi] != '*' ==>
      (Matches(p[pi..], t[ti..]) <==>
       ti < |t| && (p[pi] == '?' || p[pi] == t[ti]) && Matches(p[pi + 1..], t[ti + 1..]))
  {
    assert p[pi..][1..] == p[pi + 1..];
    if ti < |t| {
      assert t[ti..][1..] == t[ti + 1..];
    }
  }

  /** Everything still matchable from here is a match of the whole. */
  ghost predicate SoundState(p: string, t: string, pi: nat, ti: nat, star: Star)
    requires StarInRange(p, t, pi, ti, star)
  {
    && (Matches(p[pi..], t[ti..]) ==> Matches(p, t))
    && (star.Star? ==> (Matches(p[star.p..], t[star.t..]) ==> Matches(p, t)))
  }

  lemma {:induction false} AcceptsFromSound(p: string, t: string, pi: nat, ti: nat, star: Star)
    requires StarInRange(p, t, pi, ti, star) && SoundState(p, t, pi, ti, star)
    requires AcceptsFrom(p, t, pi, ti, star)
    ensures Matches(p, t)
    decreases Budget(t, star), |t| - ti, |p| - pi
  {
    if ti == |t| {
      assert AllStars(p[pi..], 0);
      StarsMatchNothing(p[pi..]);
      assert t[ti..] == "";
    } else if pi < |p| && (p[pi] == '?' || p[pi] == t[ti]) {
      MatchesStep(p, t, pi, ti);
      MatchesStep(p, t, pi, ti + 1);
      AcceptsFromSound(p, t, pi + 1, ti + 1, star);
    } else if pi < |p| && p[pi] == '*' {
      MatchesStep(p, t, pi, ti);
      AcceptsFromSound(p, t, pi + 1, ti, Star(pi, ti));
    } else {
      MatchesStep(p, t, star.p, star.t);
      MatchesStep(p, t, star.p, star.t + 1);
      AcceptsFromSound(p, t, star.p + 1, star.t + 1, Star(star.p, star.t + 1));
    }
  }

  lemma AcceptsImpliesMatches(p: string, t: string)
    ensures Accepts(p, t) ==> Matches(p, t)
  {
    if Accepts(p, t) {
      assert p[0..] == p && t[0..] == t;
      AcceptsFromSound(p, t, 0, 0, NoStar);
    }
  }

  // ---- Completeness: one saved star is enough when the text holds no `*`.

  lemma {:induction false} StripLiteral(p: string, t: string, n: nat)
    requires n <= |p| && Matches(p, t) && forall i :: 0 <= i < n ==> p[i] != '*'
    ensures n <= |t| && Matches(p[n..], t[n..])
    decreases n
  {
    if n == 0 {
      assert p[0..] == p && t[0..] == t;
    } else {
      StripLiteral(p[1..], t[1..], n - 1);
      assert p[1..][n - 1..] == p[n..] && t[1..][n - 1..] == t[n..];
    }
  }

  lemma {:induction false} StarLanding(p: string, t: string) returns (k: nat)
    requires p != "" && p[0] == '*' && Matches(p, t)
    ensures k <= |t| && Matches(p[1..], t[k..])
    decreases |t|
  {
    if Matches(p[1..], t) {
      k := 0;
      assert t[0..] == t;
    } else {
      k := StarLanding(p, t[1..]);
      assert t[1..][k..] == t[k + 1..];
      k := k + 1;
    }
  }

  lemma {:induction false} StarAbsorbs(p: string, t: string, i: nat, j: nat)
    requires i <= j <= |t| && p != "" && p[0] == '*' && Matches(p, t[j..])
    ensures Matches(p, t[i..])
    decreases j - i
  {
    if i < j {
      StarAbsorbs(p, t, i + 1, j);
      assert t[i..][1..] == t[i + 1..];
    }
  }

  /** Moving the saved star further still leaves the star-free run after it to match. */
  lemma LaterStarStart(p: string, t: string, pi: nat, ti: nat, star: Star) returns (k: nat)
    requires StarInRange(p, t, pi, ti, star) && star.Star? && star.t < |t|
    requires ti - star.t == pi - star.p - 1
    requires forall i :: star.p < i < pi ==> p[i] != '*'
    requires Matches(p[star.p..], t[star.t + 1..])
    ensures ti < k <= |t| && Matches(p[pi..], t[k..])
  {
    var q, u := p[star.p..], t[star.t + 1..];
    var j := StarLanding(q, u);
    var n := pi - star.p - 1;
    assert q[1..] == p[star.p + 1..] && u[j..] == t[star.t + 1 + j..];
    StripLiteral(p[star.p + 1..], t[star.t + 1 + j..], n);
    k := star.t + 1 + j + n;
    assert p[star.p + 1..][n..] == p[pi..] && t[star.t + 1 + j..][n..] == t[k..];
  }

  /** A whole match survives here, or by restarting from the saved star further right. */
  ghost predicate CompleteState(p: string, t: string, pi: nat, ti: nat, star: Star)
    requires StarInRange(p, t, pi, ti, star)
  {
    && (star.Star? ==> ti - star.t == pi - star.p - 1 && forall i :: star.p < i < pi ==> p[i] != '*')
    && (Matches(p, t) ==>
          Matches(p[pi..], t[ti..]) || (star.Star? && star.t < |t| && Matches(p[star.p..], t[star.t + 1..])))
  }

  lemma EmptyMatchesEmpty(t: string)
    ensures Matches("", t) <==> t == ""
  {
  }

  lemma {:induction false} AcceptsFromComplete(p: string, t: string, pi: nat, ti: nat, star: Star)
    requires '*' !in t
    requires StarInRange(p, t, pi, ti, star) && CompleteState(p, t, pi, ti, star)
    requires Matches(p, t)
    ensures AcceptsFrom(p, t, pi, ti, star)
    decreases Budget(t, star), |t| - ti, |p| - pi
  {
    hide Matches;
    if ti == |t| {
      if !Matches(p[pi..], t[ti..]) {
        var k := LaterStarStart(p, t, pi, ti, star);
        assert false;
      }
      assert t[ti..] == "";
      StarsMatchNothing(p[pi..]);
      assert forall i :: pi <= i < |p| ==> p[i] == p[pi..][i - pi];
    } else if pi < |p| && (p[pi] == '?' || p[pi] == t[ti]) {
      MatchesStep(p, t, pi, ti);
      AcceptsFromComplete(p, t, pi + 1, ti + 1, star);
    } else if pi < |p| && p[pi] == '*' {
      if !Matches(p[pi..], t[ti..]) {
        var k := LaterStarStart(p, t, pi, ti, star);
        StarAbsorbs(p[pi..], t, ti, k);
      }
      MatchesStep(p, t, pi, ti);
      AcceptsFromComplete(p, t, pi + 1, ti, Star(pi, ti));
    } else {
      if pi < |p| {
        MatchesStep(p, t, pi, ti);
      } else {
        assert p[pi..] == "";
        EmptyMatchesEmpty(t[ti..]);
      }
      assert !Matches(p[pi..], t[ti..]);
      MatchesStep(p, t, star.p, star.t + 1);
      AcceptsFromComplete(p, t, star.p + 1, star.t + 1, Star(star.p, star.t + 1));
    }
  }

  /** On every text without `*` the loop is the recursion. */
  lemma AcceptsExactlyMatches(p: string, t: string)
    requires '*' !in t
    ensures Accepts(p, t) <==> Matches(p, t)
  {
    AcceptsImpliesMatches(p, t);
    if Matches(p, t) {
      assert p[0..] == p && t[0..] == t;
      AcceptsFromComplete(p, t, 0, 0, NoStar);
    }
  }

  // ---- The gap: which texts some pattern is decided differently on.

  function Repeat(c: char, n: nat): (r: string)
    ensures |r| == n && forall i :: 0 <= i < n ==> r[i] == c
  {
    seq(n, _ => c)
  }

  lemma {:induction false} LiteralRun(p: string, t: string, i: nat)
    requires i <= |t| && |t| < |p|
    requires forall j :: i <= j < |t| ==> p[j] == '?' || p[j] == t[j]
    requires p[|p| - 1] == '?'
    ensures !AcceptsFrom(p, t, i, i, NoStar)
    decreases |t| - i
  {
    if i < |t| {
      LiteralRun(p, t, i + 1);
    }
  }

  lemma {:induction false} QuestionsMatch(s: string)
    ensures Matches(Repeat('?', |s|), s)
    decreases |s|
  {
    if s != "" {
      QuestionsMatch(s[1..]);
      assert Repeat('?', |s|)[1..] == Repeat('?', |s| - 1);
    }
  }

  lemma {:induction false} LiteralPrefixMatches(u: string, p: string, s: string)
    requires Matches(p, s) && '*' !in u
    ensures Matches(u + p, u + s)
    decreases |u|
  {
    if u == "" {
      assert u + p == p && u + s == s;
    } else {
      LiteralPrefixMatches(u[1..], p, s);
      assert (u + p)[1..] == u[1..] + p && (u + s)[1..] == u[1..] + s;
    }
  }

  lemma FirstStar(t: string) returns (k: nat)
    requires '*' in t
    ensures k < |t| && t[k] == '*' && '*' !in t[..k]
  {
    k := 0;
    while t[k] != '*'
      invariant k < |t| && '*' in t[k..] && '*' !in t[..k]
      decreases |t| - k
    {
      k := k + 1;
    }
  }

  /** The witness pattern for a text with a `*`: copy up to the star, then one `?` too many. */
  lemma GapPattern(t: string) returns (p: string)
    requires '*' in t
    ensures Matches(p, t) && !Accepts(p, t)
  {
    var k := FirstStar(t);
    var u, rest := t[..k], t[k..];
    var q := Repeat('?', |rest|);
    p := u + ("*" + q);
    assert t == u + rest;
    QuestionsMatch(rest);
    assert ("*" + q)[1..] == q;
    LiteralPrefixMatches(u, "*" + q, rest);
    LiteralRun(p, t, 0);
  }

  /** The two matchers agree for every pattern exactly on the texts that hold no `*`. */
  lemma MatchersAgreeExactly(t: string)
    ensures (forall p :: Accepts(p, t) <==> Matches(p, t)) <==> '*' !in t
  {
    if '*' in t {
      var p := GapPattern(t);
      assert !(Accepts(p, t) <==> Matches(p, t));
    } else {
      forall p ensures Accepts(p, t) <==> Matches(p, t) {
        AcceptsExactlyMatches(p, t);
      }
    }
  }

  /** A pattern without wildcards matches itself and nothing else. */
  lemma {:induction false} LiteralMatchesOnlyItself(p: string, t: string)
    requires '*' !in p && '?' !in p
    ensures Matches(p, t) <==> p == t
    decreases |p|
  {
    if p != "" && t != "" {
      LiteralMatchesOnlyItself(p[1..], t[1..]);
      assert p == [p[0]] + p[1..] && t == [t[0]] + t[1..];
    }
  }

  // ---- What the reference semantics means

  function Concat(pieces: seq<string>): string {
    if pieces == [] then "" else pieces[0] + Concat(pieces[1..])
  }

  /** The text is cut into one piece per pattern character: any text for `*`, one character for `?`, itself otherwise. */
  ghost predicate CutsInto(p: string, s: string, pieces: seq<string>) {
    && |pieces| == |p| && Concat(pieces) == s
    && forall i :: 0 <= i < |p| ==> p[i] == '*' || (|pieces[i]| == 1 && (p[i] == '?' || pieces[i][0] == p[i]))
  }

  lemma MatchesByPieces(p: string, s: string)
    ensures Matches(p, s) <==> exists pieces :: CutsInto(p, s, pieces)
  {
    if Matches(p, s) {
      var pieces := CutOf(p, s);
    }
    if pieces :| CutsInto(p, s, pieces) {
      CutMatches(p, s, pieces);
    }
  }

  lemma {:induction false} CutOf(p: string, s: string) returns (pieces: seq<string>)
    requires Matches(p, s)
    ensures CutsInto(p, s, pieces)
    decreases |p| + |s|
  {
    if p == "" {
      pieces := [];
    } else if p[0] == '*' && !Matches(p[1..], s) {
      var rest := CutOf(p, s[1..]);
      pieces := [[s[0]] + rest[0]] + rest[1..];
      assert pieces[1..] == rest[1..];
      assert Concat(pieces) == [s[0]] + (rest[0] + Concat(rest[1..]));
    } else {
      var head := if p[0] == '*' then "" else s[..1];
      var rest := CutOf(p[1..], s[|head|..]);
      pieces := [head] + rest;
      assert pieces[1..] == rest && p == [p[0]] + p[1..];
      assert head + s[|head|..] == s;
    }
  }

  lemma {:induction false} CutMatches(p: string, s: string, pieces: seq<string>)
    requires CutsInto(p, s, pieces)
    ensures Matches(p, s)
    decreases |p|, |s|
  {
    if p != "" {
      var head, rest := pieces[0], Concat(pieces[1..]);
      assert s == head + rest;
      if p[0] == '*' && head != "" {
        var fewer := [head[1..]] + pieces[1..];
        assert fewer[1..] == pieces[1..];
        assert s[1..] == head[1..] + rest;
        CutMatches(p, s[1..], fewer);
      } else {
        assert s[|head|..] == rest && p == [p[0]] + p[1..];
        CutMatches(p[1..], rest, pieces[1..]);
      }
    }
  }
}
