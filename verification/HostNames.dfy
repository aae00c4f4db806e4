/** Command-line addresses, the host and port they split into, and the name OpenSSH stores them under. */
module HostNames {
  import opened Wrappers
  import opened Text

  predicate NameChar(c: char) { IsAlnum(c) || c in "-_.:[]" }

  predicate Plain(s: string) { forall i :: 0 <= i < |s| ==> NameChar(s[i]) }

  predicate ValidHost(host: string) { host != "" && host[0] != '-' && Plain(host) }

  function ParsePort(s: string): Option<nat> {
    var digits := if s != "" && s[0] == '+' then s[1..] else s;
    if digits != "" && AllDigits(digits) && DecimalValue(digits) <= 65535
    then Some(DecimalValue(digits))
    else None
  }

  function PortOr22(s: string): nat {
    var p := ParsePort(s);
    if p.Some? then p.value else 22
  }

  /** `[addr]:port`, bare IPv6, `host:port` or `host`. */
  function SplitHostPort(host: string): (string, nat) {
    var rest := if host != "" then host[1..] else "";
    var close := IndexOf(rest, ']');
    if host != "" && host[0] == '[' && close < |rest| then
      var tail := rest[close + 1..];
      (rest[..close], if tail != "" && tail[0] == ':' then PortOr22(tail[1..]) else 22)
    else
      var colon := IndexOf(host, ':');
      if colon == |host| then (host, 22)
      else
        var p := host[colon + 1..];
        if ':' in p then (host, 22)
        else if p != "" && AllDigits(p) then (host[..colon], PortOr22(p))
        else (host, 22)
  }

  function Bracketed(host: string, port: string): string { "[" + host + "]:" + port }

  /** The name a host is stored under; OpenSSH brackets it when the port is not 22. */
  function Candidate(host: string, port: nat): string {
    if port == 22 then host else Bracketed(host, Decimal(port))
  }

  // ---- A stored name is free of every character the trust store gives a meaning

  lemma PlainFacts(s: string)
    requires Plain(s)
    ensures Spaceless(s) && '*' !in s && '?' !in s && ',' !in s && '|' !in s && '\n' !in s
    ensures s != "" ==> s[0] != '#' && s[0] != '@'
  {
  }

  lemma SplitHostIsPlain(target: string)
    requires ValidHost(target)
    ensures Plain(SplitHostPort(target).0)
  {
  }

  lemma BracketedIsPlain(host: string, port: string)
    requires Plain(host) && AllDigits(port)
    ensures Plain(Bracketed(host, port))
  {
    assert forall i :: 0 <= i < |port| ==> IsDigit(port[i]);
  }

  lemma CandidateIsPlain(target: string)
    requires ValidHost(target)
    ensures var (host, port) := SplitHostPort(target); Plain(Candidate(host, port))
  {
    var (host, port) := SplitHostPort(target);
    SplitHostIsPlain(target);
    DecimalRoundTrip(port);
    BracketedIsPlain(host, Decimal(port));
  }

  // ---- Different hosts or ports are stored under different names

  /** A split host never looks like a bracketed name. */
  lemma SplitHostHasNoBracketPair(target: string)
    requires ValidHost(target)
    ensures var h := SplitHostPort(target).0; !(h != "" && h[0] == '[' && ']' in h[1..])
  {
    var h := SplitHostPort(target).0;
    var rest := target[1..];
    var close := IndexOf(rest, ']');
    IndexOfFirst(rest, ']');
    if target[0] == '[' && close < |rest| {
      assert h == rest[..close];
    } else {
      assert h <= target;
      if h != "" && h[0] == '[' {
        assert h[1..] <= rest;
      }
    }
  }

  lemma LastColonSplits(a: string, p: string, b: string, q: string)
    requires a + ":" + p == b + ":" + q && ':' !in p && ':' !in q
    ensures a == b && p == q
  {
    var x := a + ":" + p;
    assert x[|a|] == ':' && x[|b|] == ':';
    assert forall i :: |a| < i < |x| ==> x[i] == p[i - |a| - 1];
    assert forall i :: |b| < i < |x| ==> x[i] == q[i - |b| - 1];
    assert x[..|a|] == a && x[..|b|] == b && x[|a| + 1..] == p && x[|b| + 1..] == q;
  }

  lemma DigitsHaveNoColon(s: string)
    requires AllDigits(s)
    ensures ':' !in s
  {
  }

  lemma BracketedIsInjective(h: string, x: string, g: string, y: string)
    requires Bracketed(h, x) == Bracketed(g, y) && ':' !in x && ':' !in y
    ensures h == g && x == y
  {
    var a, b := "[" + h + "]", "[" + g + "]";
    assert Bracketed(h, x) == a + ":" + x && Bracketed(g, y) == b + ":" + y;
    LastColonSplits(a, x, b, y);
    assert a[1..|h| + 1] == h && b[1..|g| + 1] == g;
  }

  lemma BracketedIsNoSplitHost(target: string, h: string, x: string)
    requires ValidHost(target)
    ensures SplitHostPort(target).0 != Bracketed(h, x)
  {
    SplitHostHasNoBracketPair(target);
    var name := Bracketed(h, x);
    assert name[1..] == h + "]:" + x;
    assert name[1..][|h|] == ']';
  }

  /** Two addresses are stored under one name only when they split into one host and port. */
  lemma CandidatesAreInjective(a: string, b: string)
    requires ValidHost(a) && ValidHost(b)
    ensures var (h, p) := SplitHostPort(a);
            var (g, q) := SplitHostPort(b);
            Candidate(h, p) == Candidate(g, q) <==> h == g && p == q
  {
    var (h, p) := SplitHostPort(a);
    var (g, q) := SplitHostPort(b);
    BracketedIsNoSplitHost(a, g, Decimal(q));
    BracketedIsNoSplitHost(b, h, Decimal(p));
    if p != 22 && q != 22 && Candidate(h, p) == Candidate(g, q) {
      DecimalRoundTrip(p);
      DecimalRoundTrip(q);
      DigitsHaveNoColon(Decimal(p));
      DigitsHaveNoColon(Decimal(q));
      BracketedIsInjective(h, Decimal(p), g, Decimal(q));
    }
  }

  // ---- The forms of an address

  /** The port a text of digits names, 22 if it is too large. */
  function PortOf(digits: string): nat
    requires AllDigits(digits)
  {
    if DecimalValue(digits) <= 65535 then DecimalValue(digits) else 22
  }

  lemma {:induction false} IndexOfAt(a: string, c: char, b: string)
    requires c !in a
    ensures IndexOf(a + ([c] + b), c) == |a|
    decreases |a|
  {
    var s := a + ([c] + b);
    if a != "" {
      assert s[1..] == a[1..] + ([c] + b) && a[0] in a;
      IndexOfAt(a[1..], c, b);
    } else {
      assert s == [c] + b;
    }
  }

  /** `[addr]` and `[addr]:port`; anything else behind the bracket leaves port 22. */
  lemma BracketForms(addr: string, p: string, junk: string)
    requires ']' !in addr && p != "" && AllDigits(p) && (junk == "" || junk[0] != ':')
    ensures SplitHostPort("[" + (addr + ("]" + junk))) == (addr, 22)
    ensures SplitHostPort("[" + (addr + ("]" + (":" + p)))) == (addr, PortOf(p))
    ensures SplitHostPort("[" + (addr + ("]" + (":+" + p)))) == (addr, PortOf(p))
  {
    Bracket(addr, junk);
    Bracket(addr, ":" + p);
    Bracket(addr, ":+" + p);
    assert IsDigit(p[0]);
    assert (":" + p)[1..] == p && (":+" + p)[1..] == "+" + p && ("+" + p)[1..] == p;
  }

  lemma Bracket(addr: string, tail: string)
    requires ']' !in addr
    ensures SplitHostPort("[" + (addr + ("]" + tail)))
         == (addr, if tail != "" && tail[0] == ':' then PortOr22(tail[1..]) else 22)
  {
    var host, rest := "[" + (addr + ("]" + tail)), addr + ("]" + tail);
    assert host[1..] == rest;
    IndexOfAt(addr, ']', tail);
    assert rest[..|addr|] == addr && rest[|addr| + 1..] == tail;
  }

  /** A name, `name:port`, a name with a tail that is no port, and a bare IPv6 address. */
  lemma BareForms(name: string, p: string)
    requires ':' !in name && (name == "" || name[0] != '[')
    ensures SplitHostPort(name) == (name, 22)
    ensures p != "" && AllDigits(p) ==> SplitHostPort(name + (":" + p)) == (name, PortOf(p))
    ensures p == "" || !AllDigits(p) ==> SplitHostPort(name + (":" + p)) == (name + (":" + p), 22)
  {
    hide SplitHostPort;
    NoColon(name);
    OneColon(name, p);
    if p != "" && AllDigits(p) {
      DigitsHaveNoColon(p);
      PortReads(p);
    }
  }

  lemma NoColon(name: string)
    requires ':' !in name && (name == "" || name[0] != '[')
    ensures SplitHostPort(name) == (name, 22)
  {
    IndexOfFirst(name, ':');
  }

  lemma OneColon(name: string, p: string)
    requires ':' !in name && (name == "" || name[0] != '[')
    ensures SplitHostPort(name + (":" + p))
         == if ':' !in p && p != "" && AllDigits(p) then (name, PortOr22(p)) else (name + (":" + p), 22)
  {
    hide AllDigits, PortOr22;
    var host := name + (":" + p);
    IndexOfAt(name, ':', p);
    assert host[..|name|] == name && host[|name| + 1..] == p;
    assert host[0] != '[';
  }

  lemma PortReads(p: string)
    requires p != "" && AllDigits(p)
    ensures PortOr22(p) == PortOf(p)
  {
    hide DecimalValue;
    assert IsDigit(p[0]);
  }

  /** What a host is stored as is an address of that host and port. */
  lemma CandidateSplitsBack(host: string, port: nat)
    requires ']' !in host && ':' !in host && (host == "" || host[0] != '[') && port <= 65535
    ensures SplitHostPort(Candidate(host, port)) == (host, port)
  {
    hide SplitHostPort, Decimal, DecimalValue, AllDigits;
    DecimalRoundTrip(port);
    if port == 22 {
      BareForms(host, "1");
    } else {
      BracketForms(host, Decimal(port), "");
      assert Bracketed(host, Decimal(port)) == "[" + (host + ("]" + (":" + Decimal(port))));
    }
  }
}
