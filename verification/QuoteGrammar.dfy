/**
 The quoting of `authorized_keys` options as a grammar, without the scanner's flags: which texts hold
 no separating comma, and what parsing makes of any prefix.
 */
module QuoteGrammar {
  import opened Text
  import opened KeyOptions

  /** Inside quotes: a character that is neither quote nor backslash, or a backslash and any character. */
  datatype Item = Lit(c: char) | Esc(c: char)

  /** Outside: a character that is neither quote nor comma, or a quoted stretch. */
  datatype Token = Plain(c: char) | Quoted(items: seq<Item>)

  /** How a text ends: with its quotes closed, or inside a quote, perhaps behind a lone backslash. */
  datatype End = Closed | Open(items: seq<Item>, dangling: bool)

  predicate ItemsOk(items: seq<Item>) {
    forall i :: 0 <= i < |items| && items[i].Lit? ==> items[i].c != '"' && items[i].c != '\\'
  }

  predicate TokenOk(t: Token) {
    match t case Plain(c) => c != '"' && c != ',' case Quoted(items) => ItemsOk(items)
  }

  predicate TokensOk(ts: seq<Token>) { forall i :: 0 <= i < |ts| ==> TokenOk(ts[i]) }

  predicate EndOk(e: End) { e.Open? ==> ItemsOk(e.items) }

  function ItemText(i: Item): string { match i case Lit(c) => [c] case Esc(c) => ['\\', c] }

  function ItemsText(items: seq<Item>): string {
    if items == [] then "" else ItemText(items[0]) + ItemsText(items[1..])
  }

  function TokenText(t: Token): string {
    match t case Plain(c) => [c] case Quoted(items) => "\"" + (ItemsText(items) + "\"")
  }

  function TokensText(ts: seq<Token>): string {
    if ts == [] then "" else TokenText(ts[0]) + TokensText(ts[1..])
  }

  function EndText(e: End): string {
    match e case Closed => "" case Open(items, dangling) => "\"" + (ItemsText(items) + if dangling then "\\" else "")
  }

  /** The text of one piece between separating commas, its quotes closed or not. */
  ghost predicate IsPieceText(o: string, closed: bool) {
    exists ts, e :: TokensOk(ts) && EndOk(e) && (e.Closed? <==> closed) && o == TokensText(ts) + EndText(e)
  }

  // ---- The grammar is what the scanner accepts

  const INSIDE := Quote(true, false)

  lemma ScanOne(q: Quote, c: char)
    ensures ScanTo(q, [c]) == Next(q, c) && (NoSplit(q, [c]) <==> !Splits(q, c))
  {
    assert [c][1..] == "";
  }

  lemma ScanItem(i: Item)
    requires i.Lit? ==> i.c != '"' && i.c != '\\'
    ensures ScanTo(INSIDE, ItemText(i)) == INSIDE && NoSplit(INSIDE, ItemText(i))
  {
    if i.Esc? {
      assert ['\\', i.c] == ['\\'] + [i.c];
      ScanConcat(INSIDE, ['\\'], [i.c]);
      ScanOne(INSIDE, '\\');
      ScanOne(Quote(true, true), i.c);
    } else {
      ScanOne(INSIDE, i.c);
    }
  }

  lemma {:induction false} ScanItems(items: seq<Item>)
    requires ItemsOk(items)
    ensures ScanTo(INSIDE, ItemsText(items)) == INSIDE && NoSplit(INSIDE, ItemsText(items))
    decreases |items|
  {
    if items != [] {
      ScanItem(items[0]);
      ScanItems(items[1..]);
      ScanConcat(INSIDE, ItemText(items[0]), ItemsText(items[1..]));
    }
  }

  lemma ScanQuoted(items: seq<Item>, last: string)
    requires ItemsOk(items) && last in ["\"", "\\", ""]
    ensures var text := "\"" + (ItemsText(items) + last);
            && NoSplit(START, text)
            && ScanTo(START, text) == if last == "\"" then START else Quote(true, last == "\\")
  {
    hide ItemsText;
    ScanItems(items);
    ScanConcat(START, "\"", ItemsText(items) + last);
    ScanConcat(INSIDE, ItemsText(items), last);
    ScanOne(START, '"');
    ScanOne(INSIDE, '"');
    ScanOne(INSIDE, '\\');
  }

  lemma {:induction false} ScanTokens(ts: seq<Token>)
    requires TokensOk(ts)
    ensures ScanTo(START, TokensText(ts)) == START && NoSplit(START, TokensText(ts))
    decreases |ts|
  {
    if ts != [] {
      match ts[0] {
        case Plain(c) => ScanOne(START, c);
        case Quoted(items) => ScanQuoted(items, "\"");
      }
      ScanTokens(ts[1..]);
      ScanConcat(START, TokenText(ts[0]), TokensText(ts[1..]));
    }
  }

  lemma GrammarScans(ts: seq<Token>, e: End)
    requires TokensOk(ts) && EndOk(e)
    ensures var o := TokensText(ts) + EndText(e); NoSplit(START, o) && (ScanTo(START, o).quoted <==> e.Open?)
  {
    ScanTokens(ts);
    ScanConcat(START, TokensText(ts), EndText(e));
    if e.Open? {
      ScanQuoted(e.items, if e.dangling then "\\" else "");
    }
  }

  lemma ItemsCons(head: Item, tail: seq<Item>, last: string)
    requires (head.Lit? ==> head.c != '"' && head.c != '\\') && ItemsOk(tail)
    ensures ItemsOk([head] + tail)
    ensures ItemsText([head] + tail) + last == ItemText(head) + (ItemsText(tail) + last)
  {
    assert ([head] + tail)[1..] == tail;
  }

  lemma TokensCons(t: Token, more: seq<Token>, e: End)
    requires TokenOk(t) && TokensOk(more)
    ensures TokensOk([t] + more)
    ensures TokensText([t] + more) + EndText(e) == TokenText(t) + (TokensText(more) + EndText(e))
  {
    hide TokenText, EndText, TokenOk;
    assert ([t] + more)[1..] == more;
  }

  /** The item a text inside quotes begins with. */
  lemma NextItem(s: string) returns (head: Item, more: string)
    requires s != "" && s[0] != '"' && s != "\\" && NoSplit(INSIDE, s)
    ensures head.Lit? ==> head.c != '"' && head.c != '\\'
    ensures s == ItemText(head) + more && NoSplit(INSIDE, more) && |more| < |s|
  {
    if s[0] == '\\' {
      head, more := Esc(s[1]), s[2..];
      assert s[1..][1..] == more;
    } else {
      head, more := Lit(s[0]), s[1..];
    }
  }

  /** What stands behind an opening quote: items up to the closing quote and the rest, or items up to the end. */
  lemma {:induction false} ReadInside(s: string) returns (items: seq<Item>, closed: bool, dangling: bool, rest: string)
    requires NoSplit(INSIDE, s)
    ensures ItemsOk(items)
    ensures closed ==> s == ItemsText(items) + ("\"" + rest) && |rest| < |s| && NoSplit(START, rest)
    ensures !closed ==> s == ItemsText(items) + if dangling then "\\" else ""
    decreases |s|
  {
    if s == "" || s == "\\" {
      items, closed, dangling, rest := [], false, s != "", "";
    } else if s[0] == '"' {
      items, closed, dangling, rest := [], true, false, s[1..];
      assert s == "\"" + rest;
    } else {
      hide ItemsText, ItemsOk, NoSplit;
      var head, more := NextItem(s);
      var tail;
      tail, closed, dangling, rest := ReadInside(more);
      items := [head] + tail;
      ItemsCons(head, tail, if closed then "\"" + rest else if dangling then "\\" else "");
    }
  }

  lemma {:induction false} ReadTokens(o: string) returns (ts: seq<Token>, e: End)
    requires NoSplit(START, o)
    ensures TokensOk(ts) && EndOk(e) && o == TokensText(ts) + EndText(e)
    decreases |o|
  {
    hide ItemsText, ItemsOk;
    if o == "" {
      ts, e := [], Closed;
    } else if o[0] == '"' {
      var items, closed, dangling, rest := ReadInside(o[1..]);
      assert o == "\"" + o[1..];
      if closed {
        var more;
        more, e := ReadTokens(rest);
        ts := [Quoted(items)] + more;
        TokensCons(Quoted(items), more, e);
        assert o == "\"" + (ItemsText(items) + "\"") + rest;
      } else {
        ts, e := [], Open(items, dangling);
        Empties(EndText(e));
      }
    } else {
      var more;
      more, e := ReadTokens(o[1..]);
      ts := [Plain(o[0])] + more;
      TokensCons(Plain(o[0]), more, e);
      assert o == [o[0]] + o[1..];
    }
  }

  /** The texts without a separating comma are those of the grammar; their quotes are closed exactly if it closes them. */
  lemma PiecesExactly(o: string, closed: bool)
    ensures IsPieceText(o, closed) <==> NoSplit(START, o) && (Balanced(o) <==> closed)
  {
    hide TokensText, EndText, TokensOk, EndOk, NoSplit, ScanTo;
    if IsPieceText(o, closed) {
      var ts, e :| TokensOk(ts) && EndOk(e) && (e.Closed? <==> closed) && o == TokensText(ts) + EndText(e);
      GrammarScans(ts, e);
    }
    if NoSplit(START, o) {
      var ts, e := ReadTokens(o);
      GrammarScans(ts, e);
    }
  }

  /** An option: a trimmed, nonempty text of the grammar. */
  lemma OptionsExactly(o: string)
    ensures IsOption(o) && Balanced(o) <==> Trimmed(o) && IsPieceText(o, true)
    ensures IsOption(o) <==> Trimmed(o) && (IsPieceText(o, true) || IsPieceText(o, false))
  {
    hide IsPieceText, NoSplit, ScanTo;
    PiecesExactly(o, true);
    PiecesExactly(o, false);
  }

  // ---- What parsing makes of any prefix

  /** The pieces between separating commas; only the last can leave a quote open. */
  ghost predicate ArePieces(ps: seq<string>) {
    && ps != []
    && (forall i :: 0 <= i < |ps| - 1 ==> IsPieceText(ps[i], true))
    && (IsPieceText(ps[|ps| - 1], true) || IsPieceText(ps[|ps| - 1], false))
  }

  /** The pieces less their outer blanks, without those that are nothing else. */
  function Kept(ps: seq<string>): seq<string> {
    if ps == [] then [] else (if Blank(ps[0]) then [] else [Trim(ps[0])]) + Kept(ps[1..])
  }

  lemma {:induction false} PiecesParse(ps: seq<string>)
    requires ArePieces(ps)
    ensures Parse(Join(ps, ",")) == Kept(ps)
    decreases |ps|
  {
    hide IsPieceText, Blank, Trim, NoSplit, ScanTo;
    var p, rest := ps[0], ps[1..];
    PiecesExactly(p, true);
    PiecesExactly(p, false);
    BlankIsTrimmedAway(p);
    Empties(p);
    if |ps| == 1 {
      RunThrough("", START, p, "");
      Empties(Flush(p));
    } else {
      var text := Join(rest, ",");
      Assoc(p, ",", text);
      RunThrough("", START, p, "," + text);
      StartAgain(p);
      assert ("," + text)[1..] == text;
      assert rest[|rest| - 1] == ps[|ps| - 1];
      PiecesParse(rest);
    }
  }

  lemma StartAgain(p: string)
    requires Balanced(p)
    ensures ScanTo(START, p) == START
  {
    ScanStaysSane(START, p);
  }

  /** Every prefix is such pieces, joined by the commas between them. */
  lemma {:induction false} CutIntoPieces(cur: string, s: string) returns (ps: seq<string>)
    requires NoSplit(START, cur)
    ensures ArePieces(ps) && cur + s == Join(ps, ",")
    decreases |s|
  {
    hide IsPieceText, NoSplit, ScanTo;
    var q := ScanTo(START, cur);
    PiecesExactly(cur, true);
    PiecesExactly(cur, false);
    if s == "" {
      ps := [cur];
      Empties(cur);
    } else if Splits(q, s[0]) {
      NothingSplits();
      var rest := CutIntoPieces("", s[1..]);
      Empties(s[1..]);
      ps := [cur] + rest;
      assert ps[1..] == rest && ps[|ps| - 1] == rest[|rest| - 1];
      assert cur + s == cur + "," + s[1..];
    } else {
      ScanConcat(START, cur, [s[0]]);
      ScanOne(q, s[0]);
      ps := CutIntoPieces(cur + [s[0]], s[1..]);
      assert cur + [s[0]] + s[1..] == cur + s;
    }
  }

  lemma NothingSplits()
    ensures NoSplit(START, "")
  {
  }

  /**
   For every prefix: it is pieces of the grammar joined by commas, and parsing yields exactly these
   pieces, trimmed, without the blank ones.
   */
  lemma ParseExactly(s: string) returns (ps: seq<string>)
    ensures ArePieces(ps) && s == Join(ps, ",") && Parse(s) == Kept(ps)
  {
    NothingSplits();
    ps := CutIntoPieces("", s);
    Empties(s);
    PiecesParse(ps);
  }
}
