/** The string operations of the standard library that the parsers are built from. */
module Text {
  /** Unicode `White_Space`. */
  predicate IsSpace(c: char) {
    || '\t' <= c <= '\r' || c == ' ' || c == '\U{85}' || c == '\U{A0}' || c == '\U{1680}'
    || '\U{2000}' <= c <= '\U{200A}' || c == '\U{2028}' || c == '\U{2029}' || c == '\U{202F}'
    || c == '\U{205F}' || c == '\U{3000}'
  }

  predicate IsDigit(c: char) { '0' <= c <= '9' }

  predicate IsAlnum(c: char) { IsDigit(c) || 'a' <= c <= 'z' || 'A' <= c <= 'Z' }

  predicate Spaceless(s: string) { forall i :: 0 <= i < |s| ==> !IsSpace(s[i]) }

  predicate Blank(s: string) { forall i :: 0 <= i < |s| ==> IsSpace(s[i]) }

  predicate StartsWith(s: string, prefix: string) { prefix <= s }

  function TrimStart(s: string): string {
    if s != "" && IsSpace(s[0]) then TrimStart(s[1..]) else s
  }

  function TrimEnd(s: string): string {
    if s != "" && IsSpace(s[|s| - 1]) then TrimEnd(s[..|s| - 1]) else s
  }

  function Trim(s: string): string { TrimEnd(TrimStart(s)) }

  function IndexOf(s: string, c: char): (i: nat)
    ensures i <= |s|
  {
    if s == "" || s[0] == c then 0 else 1 + IndexOf(s[1..], c)
  }

  function FirstSpace(s: string): (i: nat)
    ensures i <= |s|
  {
    if s == "" || IsSpace(s[0]) then 0 else 1 + FirstSpace(s[1..])
  }

  /** `split_whitespace`: the maximal runs without whitespace; `cur` is the run being read. */
  function WordsFrom(cur: string, s: string): seq<string>
    decreases |s|
  {
    var done := if cur == "" then [] else [cur];
    if s == "" then done
    else if IsSpace(s[0]) then done + WordsFrom("", s[1..])
    else WordsFrom(cur + [s[0]], s[1..])
  }

  function Words(s: string): seq<string> { WordsFrom("", s) }

  /** `lines`; a `\r` before the newline stays, every caller trims the line. */
  function LinesFrom(cur: string, s: string): seq<string>
    decreases |s|
  {
    if s == "" then (if cur == "" then [] else [cur])
    else if s[0] == '\n' then [cur] + LinesFrom("", s[1..])
    else LinesFrom(cur + [s[0]], s[1..])
  }

  function Lines(s: string): seq<string> { LinesFrom("", s) }

  /** `split(c)`: always at least one piece. */
  function SplitFrom(cur: string, s: string, c: char): (r: seq<string>)
    ensures r != []
    decreases |s|
  {
    if s == "" then [cur]
    else if s[0] == c then [cur] + SplitFrom("", s[1..], c)
    else SplitFrom(cur + [s[0]], s[1..], c)
  }

  function Split(s: string, c: char): seq<string> { SplitFrom("", s, c) }

  function Join(parts: seq<string>, sep: string): string {
    if parts == [] then ""
    else if |parts| == 1 then parts[0]
    else parts[0] + sep + Join(parts[1..], sep)
  }

  predicate AllDigits(s: string) { forall i :: 0 <= i < |s| ==> IsDigit(s[i]) }

  function Decimal(n: nat): string {
    var digit := ['0' + (n % 10) as char];
    if n < 10 then digit else Decimal(n / 10) + digit
  }

  function Utf8Width(c: char): (w: nat)
    ensures 1 <= w <= 4
  {
    if c < '\U{80}' then 1 else if c < '\U{800}' then 2 else if c < '\U{10000}' then 3 else 4
  }

  /** The length of a string in bytes, as `str::len` and file offsets count it. */
  function Utf8Len(s: string): (n: nat)
    ensures |s| <= n
  {
    if s == "" then 0 else Utf8Width(s[0]) + Utf8Len(s[1..])
  }

  // ---- Concatenation

  lemma Assoc<T>(a: seq<T>, b: seq<T>, c: seq<T>)
    ensures a + (b + c) == (a + b) + c
  {
  }

  lemma DropHead<T>(a: seq<T>, b: seq<T>)
    requires a != []
    ensures (a + b)[1..] == a[1..] + b && (a + b)[0] == a[0] && a == [a[0]] + a[1..]
  {
  }

  lemma Empties<T>(a: seq<T>)
    ensures a + [] == a && [] + a == a
  {
  }

  // ---- Searching and trimming

  lemma {:induction false} IndexOfFirst(s: string, c: char)
    ensures c !in s[..IndexOf(s, c)]
    ensures IndexOf(s, c) < |s| ==> s[IndexOf(s, c)] == c
    ensures IndexOf(s, c) == |s| <==> c !in s
    decreases |s|
  {
    if s != "" && s[0] != c {
      IndexOfFirst(s[1..], c);
      var i := IndexOf(s, c);
      assert s[..i] == [s[0]] + s[1..][..i - 1] && s == [s[0]] + s[1..];
    }
  }

  lemma {:induction false} FirstSpaceFirst(s: string)
    ensures FirstSpace(s) < |s| ==> IsSpace(s[FirstSpace(s)])
    decreases |s|
  {
    if s != "" && !IsSpace(s[0]) {
      FirstSpaceFirst(s[1..]);
    }
  }

  lemma BlankCons(c: char, s: string)
    requires IsSpace(c) && Blank(s)
    ensures Blank([c] + s)
  {
  }

  lemma {:induction false} TrimStartDrops(s: string) returns (blank: string)
    ensures s == blank + TrimStart(s) && Blank(blank)
    ensures TrimStart(s) == "" || !IsSpace(TrimStart(s)[0])
    decreases |s|
  {
    if s != "" && IsSpace(s[0]) {
      var b := TrimStartDrops(s[1..]);
      BlankCons(s[0], b);
      blank := [s[0]] + b;
      assert blank + TrimStart(s[1..]) == [s[0]] + (b + TrimStart(s[1..])) == s;
    } else {
      blank := "";
      assert blank + s == s;
    }
  }

  lemma {:induction false} TrimEndDrops(s: string) returns (blank: string)
    ensures s == TrimEnd(s) + blank && Blank(blank)
    decreases |s|
  {
    if s != "" && IsSpace(s[|s| - 1]) {
      var n := |s| - 1;
      var b := TrimEndDrops(s[..n]);
      blank := b + [s[n]];
      assert TrimEnd(s[..n]) + blank == (TrimEnd(s[..n]) + b) + [s[n]] == s;
    } else {
      blank := "";
      assert s + blank == s;
    }
  }

  lemma {:induction false} TrimStartOfConcat(w: string, s: string)
    ensures Blank(w) ==> TrimStart(w + s) == TrimStart(s)
    ensures !Blank(w) ==> TrimStart(w + s) == TrimStart(w) + s && TrimStart(w) != ""
    decreases |w|
  {
    if w == "" {
      assert w + s == s;
    } else if IsSpace(w[0]) {
      assert (w + s)[1..] == w[1..] + s;
      TrimStartOfConcat(w[1..], s);
    }
  }

  lemma {:induction false} TrimEndSkips(s: string, trail: string)
    requires Blank(trail)
    ensures TrimEnd(s + trail) == TrimEnd(s)
    decreases |trail|
  {
    if trail == "" {
      Empties(s);
    } else {
      var n := |trail| - 1;
      assert (s + trail)[..|s + trail| - 1] == s + trail[..n];
      TrimEndSkips(s, trail[..n]);
    }
  }

  /** Trimming takes off the blanks at both ends and nothing else. */
  lemma TrimExactly(lead: string, core: string, trail: string)
    requires Blank(lead) && Blank(trail) && (core == "" || Trimmed(core))
    ensures Trim(lead + core + trail) == core
  {
    Assoc(lead, core, trail);
    TrimStartOfConcat(lead, core + trail);
    if core == "" {
      Empties(trail);
      TrimStartOfConcat(trail, "");
    } else {
      assert TrimStart(core + trail) == core + trail;
      TrimEndSkips(core, trail);
    }
  }

  lemma BlankIsTrimmedAway(s: string)
    ensures Trim(s) == "" <==> Blank(s)
  {
    var lead := TrimStartDrops(s);
    var trail := TrimEndDrops(TrimStart(s));
    if Trim(s) == "" {
      assert s == lead + trail;
    }
    if TrimStart(s) != "" {
      assert s[|lead|] == TrimStart(s)[0];
      assert !Blank(s);
    }
  }

  // ---- Properties of splitting and joining

  lemma {:induction false} WordsAtSpace(cur: string, a: string, c: char, b: string)
    requires IsSpace(c)
    ensures WordsFrom(cur, a + [c] + b) == WordsFrom(cur, a) + WordsFrom("", b)
    decreases |a|
  {
    var s := a + [c] + b;
    if a == "" {
      assert s[1..] == b;
    } else {
      assert s[1..] == a[1..] + [c] + b;
      if IsSpace(a[0]) {
        WordsAtSpace("", a[1..], c, b);
      } else {
        WordsAtSpace(cur + [a[0]], a[1..], c, b);
      }
    }
  }

  lemma {:induction false} WordOfItself(cur: string, w: string)
    requires Spaceless(w)
    ensures WordsFrom(cur, w) == if cur + w == "" then [] else [cur + w]
    decreases |w|
  {
    if w == "" {
      assert cur + w == cur;
    } else {
      assert cur + w == cur + [w[0]] + w[1..];
      WordOfItself(cur + [w[0]], w[1..]);
    }
  }

  lemma {:induction false} WordsOfBlank(s: string)
    requires Blank(s)
    ensures Words(s) == []
    decreases |s|
  {
    if s != "" {
      WordsOfBlank(s[1..]);
    }
  }

  lemma WordsIgnoreLeadingBlank(blank: string, s: string)
    requires Blank(blank)
    ensures Words(blank + s) == Words(s)
  {
    if blank == "" {
      assert blank + s == s;
    } else {
      var n := |blank| - 1;
      assert blank + s == blank[..n] + [blank[n]] + s;
      WordsAtSpace("", blank[..n], blank[n], s);
      WordsOfBlank(blank[..n]);
    }
  }

  lemma WordsIgnoreTrailingBlank(s: string, blank: string)
    requires Blank(blank)
    ensures Words(s + blank) == Words(s)
  {
    if blank == "" {
      assert s + blank == s;
    } else {
      assert s + blank == s + [blank[0]] + blank[1..];
      WordsAtSpace("", s, blank[0], blank[1..]);
      WordsOfBlank(blank[1..]);
    }
  }

  lemma WordsOfTrimStart(s: string)
    ensures Words(TrimStart(s)) == Words(s)
  {
    var blank := TrimStartDrops(s);
    WordsIgnoreLeadingBlank(blank, TrimStart(s));
  }

  lemma WordsOfTrimEnd(s: string)
    ensures Words(TrimEnd(s)) == Words(s)
  {
    var blank := TrimEndDrops(s);
    WordsIgnoreTrailingBlank(TrimEnd(s), blank);
  }

  lemma WordsOfTrim(s: string)
    ensures Words(TrimStart(s)) == Words(s) && Words(Trim(s)) == Words(s)
  {
    WordsOfTrimStart(s);
    WordsOfTrimEnd(TrimStart(s));
  }

  /** A word, the blank behind it, and the rest. */
  lemma WordAhead(word: string, blank: string, rest: string)
    requires word != "" && Spaceless(word) && blank != "" && Blank(blank)
    ensures Words(word + blank + rest) == [word] + Words(rest)
  {
    assert word + blank + rest == word + [blank[0]] + (blank[1..] + rest);
    WordsAtSpace("", word, blank[0], blank[1..] + rest);
    WordsIgnoreLeadingBlank(blank[1..], rest);
    WordOfItself("", word);
    assert "" + word == word;
  }

  /** The word a text begins with. */
  lemma WordFirst(word: string, rest: string)
    requires word != "" && Spaceless(word) && (rest == "" || IsSpace(rest[0]))
    ensures Words(word + rest) != [] && Words(word + rest)[0] == word
  {
    if rest == "" {
      Empties(word);
      WordOfItself("", word);
      Empties(word);
    } else {
      assert rest == rest[..1] + rest[1..];
      Assoc(word, rest[..1], rest[1..]);
      WordAhead(word, rest[..1], rest[1..]);
    }
  }

  predicate Trimmed(o: string) { o != "" && !IsSpace(o[0]) && !IsSpace(o[|o| - 1]) }

  lemma TrimEnds(s: string)
    ensures Trim(s) == "" || Trimmed(Trim(s))
  {
    var lead := TrimStartDrops(s);
    var t := TrimStart(s);
    TrimEndShape(t);
  }

  lemma {:induction false} TrimEndShape(t: string)
    requires t == "" || !IsSpace(t[0])
    ensures TrimEnd(t) == "" || Trimmed(TrimEnd(t))
    decreases |t|
  {
    if t != "" && IsSpace(t[|t| - 1]) {
      TrimEndShape(t[..|t| - 1]);
    }
  }

  lemma TrimmedAlready(s: string)
    requires s == "" || Trimmed(s)
    ensures Trim(s) == s
  {
  }

  lemma ThreeWords(x: string, y: string, z: string)
    requires Spaceless(x) && Spaceless(y) && Spaceless(z)
    ensures Words(x + " " + y + " " + z) ==
      (if x == "" then [] else [x]) + (if y == "" then [] else [y]) + (if z == "" then [] else [z])
  {
    assert x + " " + y + " " + z == x + [' '] + (y + [' '] + z);
    WordsAtSpace("", x, ' ', y + [' '] + z);
    WordsAtSpace("", y, ' ', z);
    WordOfItself("", x);
    WordOfItself("", y);
    WordOfItself("", z);
    assert "" + x == x && "" + y == y && "" + z == z;
  }

  /** A text a line can be appended to without touching its last line. */
  predicate Terminated(s: string) { s == "" || s[|s| - 1] == '\n' }

  lemma {:induction false} LinesSplitAtNewline(cur: string, a: string, b: string)
    requires a != "" && Terminated(a)
    ensures LinesFrom(cur, a + b) == LinesFrom(cur, a) + LinesFrom("", b)
    decreases |a|
  {
    var s := a + b;
    assert s[1..] == a[1..] + b;
    if |a| == 1 {
      assert s[1..] == b;
    } else if a[0] == '\n' {
      LinesSplitAtNewline("", a[1..], b);
    } else {
      LinesSplitAtNewline(cur + [a[0]], a[1..], b);
    }
  }

  lemma LinesAfterTerminated(a: string, b: string)
    requires Terminated(a)
    ensures Lines(a + b) == Lines(a) + Lines(b)
  {
    if a == "" {
      assert a + b == b;
    } else {
      LinesSplitAtNewline("", a, b);
    }
  }

  lemma {:induction false} OneLine(cur: string, l: string)
    requires '\n' !in l
    ensures LinesFrom(cur, l + "\n") == [cur + l]
    ensures LinesFrom(cur, l) == if cur + l == "" then [] else [cur + l]
    decreases |l|
  {
    if l == "" {
      assert l + "\n" == "\n" && cur + l == cur;
    } else {
      assert (l + "\n")[1..] == l[1..] + "\n" && cur + l == cur + [l[0]] + l[1..];
      OneLine(cur + [l[0]], l[1..]);
    }
  }

  /** Every text is some complete lines followed by an unterminated rest. */
  function TailStart(s: string): (n: nat)
    ensures n <= |s|
  {
    if s == "" || s[|s| - 1] == '\n' then |s| else TailStart(s[..|s| - 1])
  }

  lemma {:induction false} TailSplits(s: string)
    ensures Terminated(s[..TailStart(s)]) && '\n' !in Tail(s)
    ensures s == s[..TailStart(s)] + Tail(s)
    decreases |s|
  {
    if s == "" || s[|s| - 1] == '\n' {
      assert s[..|s|] == s;
    } else {
      var m, n := |s| - 1, TailStart(s);
      TailSplits(s[..m]);
      assert s[..m][..n] == s[..n] && s[n..] == s[..m][n..] + [s[m]];
    }
  }

  function Tail(s: string): string { s[TailStart(s)..] }

  lemma {:induction false} SplitWithout(cur: string, s: string, c: char)
    requires c !in s
    ensures SplitFrom(cur, s, c) == [cur + s]
    decreases |s|
  {
    if s == "" {
      assert cur + s == cur;
    } else {
      SplitWithout(cur + [s[0]], s[1..], c);
      assert cur + s == cur + [s[0]] + s[1..];
    }
  }

  /** A complete line is one of the lines, wherever it stands. */
  lemma LineIsLine(before: string, line: string, after: string)
    requires Terminated(before) && '\n' !in line
    ensures line in Lines(before + (line + "\n") + after)
    ensures line != "" ==> line in Lines(before + line)
  {
    OneLine("", line);
    Empties(line);
    LinesAfterTerminated(before, line + "\n");
    LinesAfterTerminated(before, line);
    LinesAfterTerminated(before + (line + "\n"), after);
    assert [line][0] == line;
    InConcat(Lines(before), [line], Lines(after), line);
  }

  lemma InConcat<T>(a: seq<T>, b: seq<T>, c: seq<T>, x: T)
    requires x in b
    ensures x in a + b && x in a + b + c
  {
  }

  /** `s[i..j]` lies between two separators, or a separator and an end. */
  predicate IsPiece(s: string, c: char, i: nat, j: nat) {
    && i <= j <= |s| && c !in s[i..j]
    && (i == 0 || s[i - 1] == c) && (j == |s| || s[j] == c)
  }

  /** The pieces of a split are exactly the maximal stretches without the separator. */
  lemma SplitExactly(s: string, c: char, piece: string)
    ensures piece in Split(s, c) <==> exists i: nat, j: nat :: IsPiece(s, c, i, j) && s[i..j] == piece
  {
    if piece in Split(s, c) {
      Empties(s);
      var i, j := SplitPieceAt("", s, c, piece);
    }
    if i: nat, j: nat :| IsPiece(s, c, i, j) && s[i..j] == piece {
      Empties(s);
      PieceIsSplit("", s, c, i, j);
    }
  }

  /** In front of the first separator there is one piece. */
  lemma FirstPiece(cur: string, rest: string, c: char, i: nat, j: nat)
    requires c !in cur && i <= |cur|
    ensures IsPiece(cur + [c] + rest, c, i, j) <==> i == 0 && j == |cur|
    ensures (cur + [c] + rest)[0..|cur|] == cur
  {
    var t := cur + [c] + rest;
    assert t[|cur|] == c;
    assert forall k :: 0 <= k < |cur| ==> t[k] == cur[k] && cur[k] in cur;
    assert i <= |cur| < j <= |t| ==> t[i..j][|cur| - i] == c;
    assert t[0..|cur|] == cur;
  }

  /** Behind it the pieces are those of the rest. */
  lemma LaterPiece(cur: string, rest: string, c: char, i: nat, j: nat)
    requires i <= j <= |rest|
    ensures var n := |cur| + 1;
            && (IsPiece(cur + [c] + rest, c, n + i, n + j) <==> IsPiece(rest, c, i, j))
            && (cur + [c] + rest)[n + i..n + j] == rest[i..j]
  {
    var t, n := cur + [c] + rest, |cur| + 1;
    assert t[n + i..n + j] == rest[i..j];
    assert t[n + i - 1] == if i == 0 then c else rest[i - 1];
  }

  lemma {:induction false} SplitPieceAt(cur: string, s: string, c: char, piece: string) returns (i: nat, j: nat)
    requires c !in cur && piece in SplitFrom(cur, s, c)
    ensures IsPiece(cur + s, c, i, j) && (cur + s)[i..j] == piece
    decreases |s|
  {
    hide IsPiece;
    if s == "" {
      i, j := 0, |cur|;
      WholePiece(cur, c);
      Empties(cur);
    } else if s[0] == c {
      assert cur + s == cur + [c] + s[1..];
      if piece == cur {
        i, j := 0, |cur|;
        FirstPiece(cur, s[1..], c, i, j);
      } else {
        i, j := SplitPieceAt("", s[1..], c, piece);
        Empties(s[1..]);
        PieceInRange(s[1..], c, i, j);
        LaterPiece(cur, s[1..], c, i, j);
        i, j := |cur| + 1 + i, |cur| + 1 + j;
      }
    } else {
      assert cur + [s[0]] + s[1..] == cur + s;
      i, j := SplitPieceAt(cur + [s[0]], s[1..], c, piece);
    }
  }

  lemma WholePiece(s: string, c: char)
    requires c !in s
    ensures IsPiece(s, c, 0, |s|) && s[0..|s|] == s
    ensures forall i: nat, j: nat :: IsPiece(s, c, i, j) ==> i == 0 && j == |s|
  {
    assert s[0..|s|] == s;
    assert forall i :: 0 <= i < |s| ==> s[i] in s;
  }

  lemma PieceInRange(s: string, c: char, i: nat, j: nat)
    requires IsPiece(s, c, i, j)
    ensures i <= j <= |s|
  {
  }

  lemma {:induction false} PieceIsSplit(cur: string, s: string, c: char, i: nat, j: nat)
    requires c !in cur && IsPiece(cur + s, c, i, j)
    ensures i <= j <= |cur + s| && (cur + s)[i..j] in SplitFrom(cur, s, c)
    decreases |s|
  {
    hide IsPiece;
    PieceInRange(cur + s, c, i, j);
    if s == "" {
      WholePiece(cur, c);
      Empties(cur);
    } else if s[0] == c {
      assert cur + s == cur + [c] + s[1..];
      if i <= |cur| {
        FirstPiece(cur, s[1..], c, i, j);
      } else {
        LaterPiece(cur, s[1..], c, i - |cur| - 1, j - |cur| - 1);
        Empties(s[1..]);
        PieceIsSplit("", s[1..], c, i - |cur| - 1, j - |cur| - 1);
      }
    } else {
      assert cur + [s[0]] + s[1..] == cur + s;
      PieceIsSplit(cur + [s[0]], s[1..], c, i, j);
    }
  }

  function DecimalValue(s: string): nat
    requires AllDigits(s)
  {
    if s == "" then 0
    else
      assert IsDigit(s[|s| - 1]);
      DecimalValue(s[..|s| - 1]) * 10 + (s[|s| - 1] as int - '0' as int)
  }

  lemma {:induction false} DecimalRoundTrip(n: nat)
    ensures AllDigits(Decimal(n)) && Decimal(n) != "" && DecimalValue(Decimal(n)) == n
  {
    var s := Decimal(n);
    if n >= 10 {
      DecimalRoundTrip(n / 10);
      assert s[..|s| - 1] == Decimal(n / 10);
    } else {
      assert s[..0] == "";
    }
  }
}
