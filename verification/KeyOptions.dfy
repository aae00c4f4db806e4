/**
 The option prefix of an authorized_keys line: split on commas outside double quotes, where a
 backslash inside quotes escapes the next character.
 */
module KeyOptions {
  import opened Text

  /** The scanner between two characters. */
  datatype Quote = Quote(quoted: bool, escaped: bool)

  const START := Quote(false, false)

  predicate Splits(q: Quote, c: char) { c == ',' && !q.quoted }

  /** The state after a character that does not split. */
  function Next(q: Quote, c: char): Quote {
    if c == '\\' && q.quoted && !q.escaped then Quote(q.quoted, true)
    else if c == '"' && !q.escaped then Quote(!q.quoted, q.escaped)
    else Quote(q.quoted, false)
  }

  function Flush(cur: string): seq<string> {
    var t := Trim(cur);
    if t == "" then [] else [t]
  }

  /** The options still to come, `cur` being read. A split leaves the state as it is. */
  function Run(cur: string, q: Quote, s: string): seq<string>
    decreases |s|
  {
    if s == "" then Flush(cur)
    else if Splits(q, s[0]) then Flush(cur) + Run("", q, s[1..])
    else Run(cur + [s[0]], Next(q, s[0]), s[1..])
  }

  function Parse(s: string): seq<string> { Run("", START, s) }

  method ParseKeyOptions(prefix: string) returns (out: seq<string>)
    ensures out == Parse(prefix)
  {
    out := [];
    var cur, quoted, escaped := "", false, false;
    for i := 0 to |prefix|
      invariant Parse(prefix) == out + Run(cur, Quote(quoted, escaped), prefix[i..])
    {
      var c := prefix[i];
      assert prefix[i..][1..] == prefix[i + 1..];
      if c == '\\' && quoted && !escaped {
        escaped := true;
      } else if c == '"' && !escaped {
        quoted := !quoted;
      } else if c == ',' && !quoted {
        var t := Trim(cur);
        Assoc(out, Flush(cur), Run("", Quote(quoted, escaped), prefix[i + 1..]));
        if t != "" {
          out := out + [t];
        }
        Empties(out);
        cur := "";
        continue;
      } else {
        escaped := false;
      }
      cur := cur + [c];
    }
    var t := Trim(cur);
    if t != "" {
      out := out + [t];
    }
    Empties(out);
  }

  // ---- What an option looks like

  function ScanTo(q: Quote, o: string): Quote
    decreases |o|
  {
    if o == "" then q else ScanTo(Next(q, o[0]), o[1..])
  }

  predicate NoSplit(q: Quote, o: string)
    decreases |o|
  {
    o == "" || (!Splits(q, o[0]) && NoSplit(Next(q, o[0]), o[1..]))
  }

  /** One option: trimmed and not empty, with no comma outside its quotes. */
  predicate IsOption(o: string) { Trimmed(o) && NoSplit(START, o) }

  predicate Balanced(o: string) { !ScanTo(START, o).quoted }

  /** A list of options; only the last may leave a quote open. */
  predicate IsOptionList(os: seq<string>) {
    && (forall i :: 0 <= i < |os| ==> IsOption(os[i]))
    && (forall i :: 0 <= i < |os| - 1 ==> Balanced(os[i]))
  }

  // ---- Escaped implies quoted

  predicate Sane(q: Quote) { q.escaped ==> q.quoted }

  lemma {:induction false} ScanConcat(q: Quote, a: string, b: string)
    ensures ScanTo(q, a + b) == ScanTo(ScanTo(q, a), b)
    ensures NoSplit(q, a + b) <==> NoSplit(q, a) && NoSplit(ScanTo(q, a), b)
    decreases |a|
  {
    if a == "" {
      Empties(b);
    } else {
      DropHead(a, b);
      ScanConcat(Next(q, a[0]), a[1..], b);
    }
  }

  lemma {:induction false} ScanStaysSane(q: Quote, a: string)
    requires Sane(q)
    ensures Sane(ScanTo(q, a))
    decreases |a|
  {
    if a != "" {
      ScanStaysSane(Next(q, a[0]), a[1..]);
    }
  }

  lemma {:induction false} BlankScan(q: Quote, blank: string)
    requires Blank(blank)
    ensures ScanTo(q, blank).quoted == q.quoted
    ensures q == START ==> ScanTo(q, blank) == START
    decreases |blank|
  {
    if blank != "" {
      BlankScan(Next(q, blank[0]), blank[1..]);
    }
  }

  // ---- Trimming a piece keeps what it is

  lemma TrimKeepsScan(cur: string)
    requires NoSplit(START, cur)
    ensures NoSplit(START, Trim(cur)) && ScanTo(START, Trim(cur)).quoted == ScanTo(START, cur).quoted
  {
    var lead := TrimStartDrops(cur);
    var t := TrimStart(cur);
    var trail := TrimEndDrops(t);
    ScanConcat(START, lead, t);
    BlankScan(START, lead);
    ScanConcat(START, TrimEnd(t), trail);
    BlankScan(ScanTo(START, TrimEnd(t)), trail);
  }

  // ---- Parsing yields an option list

  lemma FlushIsOption(cur: string)
    requires NoSplit(START, cur)
    ensures forall i :: 0 <= i < |Flush(cur)| ==>
      IsOption(Flush(cur)[i]) && (Balanced(Flush(cur)[i]) <==> !ScanTo(START, cur).quoted)
  {
    TrimEnds(cur);
    TrimKeepsScan(cur);
  }

  lemma {:induction false} RunYieldsOptions(cur: string, q: Quote, s: string)
    requires NoSplit(START, cur) && ScanTo(START, cur) == q && Sane(q)
    ensures IsOptionList(Run(cur, q, s))
    decreases |s|
  {
    FlushIsOption(cur);
    if s != "" {
      if Splits(q, s[0]) {
        RunYieldsOptions("", q, s[1..]);
      } else {
        ScanConcat(START, cur, [s[0]]);
        assert [s[0]][1..] == "";
        RunYieldsOptions(cur + [s[0]], Next(q, s[0]), s[1..]);
      }
    }
  }

  lemma ParseYieldsOptions(s: string)
    ensures IsOptionList(Parse(s))
  {
    RunYieldsOptions("", START, s);
  }

  // ---- An option list survives being joined and parsed

  lemma {:induction false} RunThrough(cur: string, q: Quote, o: string, rest: string)
    requires NoSplit(q, o)
    ensures Run(cur, q, o + rest) == Run(cur + o, ScanTo(q, o), rest)
    decreases |o|
  {
    if o == "" {
      Empties(rest);
      Empties(cur);
    } else {
      DropHead(o, rest);
      RunThrough(cur + [o[0]], Next(q, o[0]), o[1..], rest);
      Assoc(cur, [o[0]], o[1..]);
    }
  }

  lemma FlushOption(o: string)
    requires Trimmed(o)
    ensures Flush(o) == [o]
  {
    TrimmedAlready(o);
  }

  lemma {:induction false} JoinedParses(os: seq<string>)
    requires IsOptionList(os)
    ensures Parse(Join(os, ",")) == os
    decreases |os|
  {
    if os == [] {
      assert Trim("") == "";
    } else {
      var o := os[0];
      Empties(o);
      FlushOption(o);
      if |os| == 1 {
        RunThrough("", START, o, "");
      } else {
        var rest := Join(os[1..], ",");
        Assoc(o, ",", rest);
        RunThrough("", START, o, "," + rest);
        ScanStaysSane(START, o);
        assert ("," + rest)[1..] == rest;
        JoinedParses(os[1..]);
        assert os == [o] + os[1..];
      }
    }
  }

  /**
   Parsing is a normal form: joining what was parsed and parsing again gives the same options, and
   the lists that come back unchanged are exactly the option lists.
   */
  lemma ParseIsNormalForm(s: string, os: seq<string>)
    ensures Parse(Join(Parse(s), ",")) == Parse(s)
    ensures Parse(Join(os, ",")) == os <==> IsOptionList(os)
  {
    ParseYieldsOptions(s);
    JoinedParses(Parse(s));
    ParseYieldsOptions(Join(os, ","));
    if IsOptionList(os) {
      JoinedParses(os);
    }
  }
}
