/** Which texts stand for which tokens, and that the lexer reads exactly those
    (queryx/sql/lexer.py, queryx/sql/tokens.py). */
module Spelling {
  import opened Wrappers
  import opened Sql
  import opened Parser
  import opened Lexer
  import opened PrintedText
  import G = Grammar

  // -- words ---------------------------------------------------------------------

  predicate IsWord(w: string) {
    w != "" && IsWordStart(w[0]) && forall i :: 0 <= i < |w| ==> IsWordChar(w[i])
  }

  /** The capital letter k or its small form; any other character stands for itself. */
  predicate SameLetter(c: char, k: char) {
    (c == k && !('a' <= c <= 'z')) || ('A' <= k <= 'Z' && c as int == k as int + 32)
  }

  /** The word k, in capitals, written with letters of any case. */
  predicate AnyCase(w: string, k: string) {
    |w| == |k| && forall i :: 0 <= i < |w| ==> SameLetter(w[i], k[i])
  }

  /** The words reserved for a token. */
  predicate ReservedFor(t: Token, k: string) {
    match t
    case AND => k == "AND"
    case OR => k == "OR"
    case NOT => k == "NOT"
    case Agg(f) => k == FuncName(f)
    case Keyword(word) => (k == word && k in OTHER_KEYWORDS) || (word == "INT" && k == "INTEGER")
    case _ => false
  }

  predicate Reserved(k: string) {
    || k == "AND" || k == "OR" || k == "NOT" || k == "COUNT" || k == "SUM" || k == "AVG" || k == "MIN" || k == "MAX"
    || k == "INTEGER" || k in OTHER_KEYWORDS
  }

  /** A reserved word in any case stands for its token, and any other word for the identifier of just
      that spelling. */
  ghost predicate WordFor(t: Token, w: string) {
    IsWord(w) &&
    if t.Ident? then t.name == w && forall k :: AnyCase(w, k) ==> !Reserved(k)
    else exists k :: AnyCase(w, k) && ReservedFor(t, k)
  }

  lemma {:induction false} UpperIff(w: string, k: string)
    ensures Upper(w) == k <==> AnyCase(w, k)
  {
    if |w| == |k| {
      assert Upper(w) == k <==> forall i :: 0 <= i < |w| ==> UpperChar(w[i]) == k[i];
      assert forall i :: 0 <= i < |w| ==> (UpperChar(w[i]) == k[i] <==> SameLetter(w[i], k[i]));
    }
  }

  /** No word is listed twice. */
  lemma {:induction false} OtherWords()
    ensures "AND" !in OTHER_KEYWORDS && "OR" !in OTHER_KEYWORDS && "NOT" !in OTHER_KEYWORDS
    ensures "COUNT" !in OTHER_KEYWORDS && "SUM" !in OTHER_KEYWORDS && "AVG" !in OTHER_KEYWORDS
    ensures "MIN" !in OTHER_KEYWORDS && "MAX" !in OTHER_KEYWORDS && "INTEGER" !in OTHER_KEYWORDS
    ensures "INT" in OTHER_KEYWORDS
  {
  }

  lemma {:induction false} WordTokenIs(w: string, t: Token)
    ensures WordToken(w) == t <==>
      if t.Ident? then t.name == w && !Reserved(Upper(w)) else ReservedFor(t, Upper(w))
  {
    OtherWords();
    var u := Upper(w);
    if t.Keyword? {
      assert ReservedFor(t, u) ==> u == t.word || u == "INTEGER";
    } else if t.Agg? {
      assert ReservedFor(t, u) ==> u == FuncName(t.func);
    }
  }

  lemma {:induction false} WordIff(w: string, t: Token)
    requires IsWord(w)
    ensures WordToken(w) == t <==> WordFor(t, w)
  {
    WordTokenIs(w, t);
    forall k ensures AnyCase(w, k) <==> Upper(w) == k { UpperIff(w, k); }
  }

  // -- numbers ---------------------------------------------------------------------

  function Padding(z: nat): string {
    seq(z, _ => '0')
  }

  /** The decimal digits of n, after any number of zeros. */
  ghost predicate NumberFor(n: nat, w: string) {
    exists z: nat :: w == Padding(z) + Decimal(n)
  }

  lemma {:induction false} PaddingZero(z: nat)
    ensures AllDigits(Padding(z)) && NumberOf(Padding(z)) == 0
  {
    if z > 0 {
      PaddingZero(z - 1);
      assert Padding(z)[..z - 1] == Padding(z - 1);
    }
  }

  lemma {:induction false} NumberOfZeros(z: nat, d: string)
    requires AllDigits(d)
    ensures AllDigits(Padding(z) + d) && NumberOf(Padding(z) + d) == NumberOf(d)
    decreases |d|
  {
    if d == "" {
      PaddingZero(z);
      assert Padding(z) + d == Padding(z);
    } else {
      var (w, front) := (Padding(z) + d, d[..|d| - 1]);
      NumberOfZeros(z, front);
      assert w[..|w| - 1] == Padding(z) + front && w[|w| - 1] == d[|d| - 1];
    }
  }

  lemma {:induction false} NumberGrows(n: nat, w: string, d: nat)
    requires NumberFor(n, w) && d < 10
    ensures NumberFor(10 * n + d, w + [Digit(d)])
  {
    var z: nat :| w == Padding(z) + Decimal(n);
    if n == 0 {
      assert Padding(z) + "0" == Padding(z + 1);
      assert w + [Digit(d)] == Padding(z + 1) + Decimal(d);
    } else {
      assert w + [Digit(d)] == Padding(z) + (Decimal(n) + [Digit(d)]);
      assert Decimal(10 * n + d) == Decimal(n) + [Digit(d)];
    }
  }

  lemma {:induction false} NumberZeros(w: string)
    requires w != "" && AllDigits(w)
    ensures NumberFor(NumberOf(w), w)
    decreases |w|
  {
    var last := |w| - 1;
    var (rest, d) := (w[..last], DigitValue(w[last]));
    assert w == rest + [Digit(d)];
    if rest == "" {
      assert NumberOf(rest) == 0;
      assert w == Padding(0) + Decimal(d);
    } else {
      NumberZeros(rest);
      NumberGrows(NumberOf(rest), rest, d);
    }
  }

  lemma {:induction false} NumberIff(n: nat, w: string)
    ensures NumberFor(n, w) <==> w != "" && AllDigits(w) && NumberOf(w) == n
  {
    if NumberFor(n, w) {
      var z: nat :| w == Padding(z) + Decimal(n);
      var d := Decimal(n);
      DecimalDigits(n);
      NumberOfZeros(z, d);
      NumberOfDecimal(n);
    } else if w != "" && AllDigits(w) {
      NumberZeros(w);
    }
  }

  // -- texts -----------------------------------------------------------------------

  /** Every quote twice. */
  function Doubled(t: string): string {
    if t == "" then "" else (if t[0] == '\'' then "''" else [t[0]]) + Doubled(t[1..])
  }

  predicate Starts(s: string, c: char) { s != "" && s[0] == c }

  lemma {:induction false} DoubledRead(t: string, rest: string, before: string)
    requires !Starts(rest, '\'')
    ensures ScanString(Doubled(t) + "'" + rest, before) == Some((Str(before + t), rest))
    decreases |t|
  {
    var s := Doubled(t) + "'" + rest;
    if t == "" {
      assert s[1..] == rest && before + t == before;
    } else {
      var tail := Doubled(t[1..]) + "'" + rest;
      assert s[|s| - |tail|..] == tail && |s| - |tail| == if t[0] == '\'' then 2 else 1;
      DoubledRead(t[1..], rest, before + [t[0]]);
      assert before + [t[0]] + t[1..] == before + t;
    }
  }

  lemma {:induction false} ReadDoubled(s: string, before: string) returns (t: string)
    requires ScanString(s, before).Some?
    ensures var (token, rest) := ScanString(s, before).value;
      token == Str(before + t) && s == Doubled(t) + "'" + rest && !Starts(rest, '\'')
    decreases |s|
  {
    if s[0] == '\'' && !(|s| >= 2 && s[1] == '\'') {
      t := "";
      assert before + t == before;
    } else {
      var n := if s[0] == '\'' then 2 else 1;
      var c := s[0];
      var more := ReadDoubled(s[n..], before + [c]);
      t := [c] + more;
      assert before + [c] + more == before + t && t[1..] == more;
      assert s == s[..n] + s[n..];
    }
  }

  // -- single tokens ------------------------------------------------------------------

  predicate SignFor(t: Token, w: string) {
    match t
    case Comma => w == ","
    case LParen => w == "("
    case RParen => w == ")"
    case Semicolon => w == ";"
    case STAR => w == "*"
    case Minus => w == "-"
    case Dot => w == "."
    case Cmp(EQ) => w == "="
    case Cmp(NEQ) => w == "!=" || w == "<>"
    case Cmp(LT) => w == "<"
    case Cmp(GT) => w == ">"
    case Cmp(LTE) => w == "<="
    case Cmp(GTE) => w == ">="
    case _ => false
  }

  /** The text stands for the token. */
  ghost predicate Stands(t: Token, w: string) {
    match t
    case Number(n) => NumberFor(n, w)
    case Str(text) => w == "'" + Doubled(text) + "'"
    case Ident(_) => WordFor(t, w)
    case AND => WordFor(t, w)
    case OR => WordFor(t, w)
    case NOT => WordFor(t, w)
    case Agg(_) => WordFor(t, w)
    case Keyword(_) => WordFor(t, w)
    case EOF => false
    case _ => SignFor(t, w)
  }

  /** The token ends where this text goes on: nothing of it would make the token longer, or a comment,
      or a number that runs into a word. */
  predicate EndsAt(t: Token, rest: string) {
    match t
    case Str(_) => !Starts(rest, '\'')
    case Minus => !Starts(rest, '-')
    case Cmp(LT) => !Starts(rest, '=') && !Starts(rest, '>')
    case Cmp(GT) => !Starts(rest, '=')
    case Cmp(_) => true
    case Comma => true
    case LParen => true
    case RParen => true
    case Semicolon => true
    case STAR => true
    case Dot => true
    case _ => rest == "" || !IsWordChar(rest[0])
  }

  lemma {:induction false} SignRead(t: Token, w: string, rest: string)
    requires SignFor(t, w) && EndsAt(t, rest)
    ensures ScanToken(w + rest) == Some((t, rest)) && !IsSpace((w + rest)[0]) && !AtComment(w + rest)
  {
    var s := w + rest;
    assert s[0] == w[0] && s[|w|..] == rest;
    if |w| == 2 { assert s[1] == w[1]; } else if rest != "" { assert s[1] == rest[0]; }
  }

  lemma {:induction false} WordRead(t: Token, w: string, rest: string)
    requires WordFor(t, w) && (rest == "" || !IsWordChar(rest[0]))
    ensures ScanToken(w + rest) == Some((t, rest)) && !IsSpace((w + rest)[0]) && !AtComment(w + rest)
  {
    var s := w + rest;
    assert s[0] == w[0] && s[..|w|] == w && s[|w|..] == rest;
    RunIs(s, IsWordChar, |w|);
    WordIff(w, t);
  }

  lemma {:induction false} NumberRead(n: nat, w: string, rest: string)
    requires NumberFor(n, w) && (rest == "" || !IsWordChar(rest[0]))
    ensures ScanToken(w + rest) == Some((Number(n), rest)) && !IsSpace((w + rest)[0]) && !AtComment(w + rest)
  {
    NumberIff(n, w);
    DigitsRead(w, rest);
  }

  lemma {:induction false} DigitsRead(w: string, rest: string)
    requires w != "" && AllDigits(w) && (rest == "" || !IsWordChar(rest[0]))
    ensures ScanToken(w + rest) == Some((Number(NumberOf(w)), rest)) && IsDigit((w + rest)[0])
  {
    var s := w + rest;
    assert s[0] == w[0] && s[..|w|] == w && s[|w|..] == rest;
    RunIs(s, IsDigit, |w|);
  }

  lemma {:induction false} TokenRead(t: Token, w: string, rest: string)
    requires Stands(t, w) && EndsAt(t, rest)
    ensures w != "" && ScanToken(w + rest) == Some((t, rest))
    ensures !IsSpace((w + rest)[0]) && !AtComment(w + rest)
  {
    match t
    case Number(n) => NumberIff(n, w); NumberRead(n, w, rest);
    case Str(text) =>
      DoubledRead(text, rest, "");
      var s := w + rest;
      assert s[1..] == Doubled(text) + "'" + rest && "" + text == text;
    case Ident(_) => WordRead(t, w, rest);
    case AND => WordRead(t, w, rest);
    case OR => WordRead(t, w, rest);
    case NOT => WordRead(t, w, rest);
    case Agg(_) => WordRead(t, w, rest);
    case Keyword(_) => WordRead(t, w, rest);
    case _ => SignRead(t, w, rest);
  }

  lemma {:induction false} ReadWord(s: string) returns (w: string)
    requires s != "" && IsWordStart(s[0])
    ensures var (t, rest) := ScanToken(s).value;
      s == w + rest && w != "" && Stands(t, w) && EndsAt(t, rest)
  {
    var n := Run(s, IsWordChar);
    RunStops(s, IsWordChar);
    w := s[..n];
    WordIff(w, WordToken(w));
    WordKind(WordToken(w), w);
  }

  lemma {:induction false} ReadNumber(s: string) returns (w: string)
    requires s != "" && IsDigit(s[0]) && ScanToken(s).Some?
    ensures var (t, rest) := ScanToken(s).value;
      s == w + rest && w != "" && Stands(t, w) && EndsAt(t, rest)
  {
    var n := Run(s, IsDigit);
    RunStops(s, IsDigit);
    w := s[..n];
    NumberIff(NumberOf(w), w);
  }

  lemma {:induction false} ReadToken(s: string) returns (w: string)
    requires s != "" && !AtComment(s) && ScanToken(s).Some?
    ensures var (t, rest) := ScanToken(s).value;
      s == w + rest && w != "" && Stands(t, w) && EndsAt(t, rest)
  {
    var (t, rest) := ScanToken(s).value;
    if IsWordStart(s[0]) {
      w := ReadWord(s);
    } else if IsDigit(s[0]) {
      w := ReadNumber(s);
    } else if s[0] == '\'' {
      var text := ReadDoubled(s[1..], "");
      assert "" + text == text;
      w := "'" + Doubled(text) + "'";
      assert s == ['\''] + s[1..];
    } else {
      w := ReadSign(s);
    }
  }

  lemma {:induction false} WordKind(t: Token, w: string)
    requires WordFor(t, w)
    ensures Stands(t, w) && forall rest :: EndsAt(t, rest) <==> rest == "" || !IsWordChar(rest[0])
  {
  }

  lemma {:induction false} ReadSign(s: string) returns (w: string)
    requires s != "" && !AtComment(s) && ScanSymbol(s).Some?
    ensures var (t, rest) := ScanSymbol(s).value;
      s == w + rest && w != "" && Stands(t, w) && EndsAt(t, rest)
  {
    var (t, rest) := ScanSymbol(s).value;
    w := s[..|s| - |rest|];
    assert w[0] == s[0];
  }

  // -- what stands between tokens ---------------------------------------------------------

  /** Blanks and comments, each comment up to the end of its line; only behind the last token may a
      comment run to the end of the text instead. */
  ghost predicate Gap(g: string, last: bool)
    decreases |g|
  {
    || g == ""
    || (IsSpace(g[0]) && Gap(g[1..], last))
    || (AtComment(g) && exists k | 2 <= k <= |g| && LineTo(g, k) :: if k == |g| then last else Gap(g[k..], last))
  }

  /** No line ends before k, and one does at k unless the text does. */
  predicate LineTo(g: string, k: nat) {
    k <= |g| && (forall i :: 0 <= i < k ==> g[i] != '\n') && (k < |g| ==> g[k] == '\n')
  }

  lemma {:induction false} LineRun(s: string, k: nat)
    requires LineTo(s, k)
    ensures Run(s, NotNewline) == k
  {
    RunIs(s, NotNewline, k);
  }

  lemma {:induction false} GapSkipped(g: string, s: string)
    requires Gap(g, false)
    ensures SkipTrivia(g + s) == SkipTrivia(s)
    decreases |g|
  {
    var all := g + s;
    if g == "" {
      assert all == s;
    } else if IsSpace(g[0]) {
      assert all[1..] == g[1..] + s;
      GapSkipped(g[1..], s);
    } else {
      var k :| 2 <= k <= |g| && LineTo(g, k) && if k == |g| then false else Gap(g[k..], false);
      assert all[k..] == g[k..] + s && all[0] == g[0] && all[1] == g[1];
      LineRun(all, k);
      GapSkipped(g[k..], s);
    }
  }

  lemma {:induction false} LastGap(g: string)
    ensures SkipTrivia(g) == "" <==> Gap(g, true)
    decreases |g|
  {
    if g != "" {
      if IsSpace(g[0]) {
        LastGap(g[1..]);
      } else if AtComment(g) {
        var n := Run(g, NotNewline);
        RunStops(g, NotNewline);
        LastGap(g[n..]);
        assert LineTo(g, n) && g[|g|..] == "";
        if Gap(g, true) {
          var k :| 2 <= k <= |g| && LineTo(g, k) && if k == |g| then true else Gap(g[k..], true);
          LineRun(g, k);
        }
      }
    }
  }

  /** One blank, or a whole comment line. */
  predicate Blank(c: string) {
    || (|c| == 1 && IsSpace(c[0]))
    || (AtComment(c) && LineTo(c, |c| - 1))
  }

  lemma {:induction false} BlankGap(c: string, h: string, last: bool)
    requires Blank(c) && Gap(h, last)
    ensures Gap(c + h, last)
  {
    var g, k := c + h, |c| - 1;
    assert g[|c|..] == h;
    if k > 0 {
      assert g[0] == c[0] && g[1] == c[1] && LineTo(g, k);
      assert g[k..][0] == c[k] && g[k..][1..] == h;
      assert Gap(g[k..], last);
    }
  }

  /** The first blank, or a comment up to the end of the text. */
  lemma {:induction false} FirstBlank(s: string) returns (c: string, rest: string)
    requires s != "" && (IsSpace(s[0]) || AtComment(s))
    ensures s == c + rest && |rest| < |s|
    ensures Blank(c) || (c == s && Gap(s, true))
  {
    if IsSpace(s[0]) {
      c, rest := s[..1], s[1..];
    } else {
      var n := Run(s, NotNewline);
      RunStops(s, NotNewline);
      if n < |s| {
        c, rest := s[..n + 1], s[n + 1..];
      } else {
        assert LineTo(s, n);
        c, rest := s, "";
      }
    }
  }

  /** All blanks at the front. */
  lemma {:induction false} FirstGap(s: string) returns (g: string, x: string)
    ensures s == g + x && Gap(g, x == "")
    ensures x != "" ==> !IsSpace(x[0]) && !AtComment(x)
    decreases |s|
  {
    if s != "" && (IsSpace(s[0]) || AtComment(s)) {
      var c, rest := FirstBlank(s);
      if Blank(c) {
        var h;
        h, x := FirstGap(rest);
        g := c + h;
        BlankGap(c, h, x == "");
      } else {
        g, x := s, "";
      }
    } else {
      g, x := "", s;
    }
  }

  lemma {:induction false} SkippedGap(s: string) returns (g: string)
    requires SkipTrivia(s) != ""
    ensures s == g + SkipTrivia(s) && Gap(g, false)
    ensures !IsSpace(SkipTrivia(s)[0]) && !AtComment(SkipTrivia(s))
  {
    var x;
    g, x := FirstGap(s);
    LastGap(s);
    assert g + "" == g;
    GapSkipped(g, x);
  }

  // -- whole texts --------------------------------------------------------------------

  /** From a gap at the front, the token stands between g and k. */
  ghost predicate TokenAt(s: string, g: nat, k: nat, t: Token) {
    g < k <= |s| && Gap(s[..g], false) && Stands(t, s[g..k]) && EndsAt(t, s[k..])
  }

  /** The text is a spelling of these tokens, with gaps before, between and behind them. */
  ghost predicate Written(ts: Tokens, s: string)
    decreases |s|
  {
    if ts == [] then Gap(s, true)
    else exists g: nat, k: nat | TokenAt(s, g, k, ts[0]) :: Written(ts[1..], s[k..])
  }

  lemma {:induction false} LexToken(gap: string, w: string, rest: string, t: Token)
    requires Gap(gap, false) && Stands(t, w) && EndsAt(t, rest)
    ensures Lex(gap + (w + rest)) == Prepend([t], Lex(rest))
  {
    GapSkipped(gap, w + rest);
    TokenRead(t, w, rest);
  }

  lemma {:induction false} BehindFirst(ts: Tokens, s: string) returns (rest: string)
    requires ts != [] && Written(ts, s)
    ensures Written(ts[1..], rest) && |rest| < |s| && Lex(s) == Prepend([ts[0]], Lex(rest))
  {
    var g: nat, k: nat :| TokenAt(s, g, k, ts[0]) && Written(ts[1..], s[k..]);
    assert s == s[..g] + (s[g..k] + s[k..]);
    LexToken(s[..g], s[g..k], s[k..], ts[0]);
    rest := s[k..];
  }

  lemma {:induction false} WrittenLexes(ts: Tokens, s: string)
    requires Written(ts, s)
    ensures Lex(s) == Some(ts + [EOF])
    decreases |s|
  {
    if ts == [] {
      LastGap(s);
      assert ts + [EOF] == [EOF];
    } else {
      var rest := BehindFirst(ts, s);
      WrittenLexes(ts[1..], rest);
      PrependRest(ts, [EOF]);
    }
  }

  lemma {:induction false} PrependRest(ts: Tokens, end: Tokens)
    requires ts != []
    ensures Prepend([ts[0]], Some(ts[1..] + end)) == Some(ts + end)
  {
    assert ts == [ts[0]] + ts[1..];
    assert [ts[0]] + (ts[1..] + end) == ([ts[0]] + ts[1..]) + end;
  }

  lemma {:induction false} WrittenMore(ts: Tokens, s: string, g: nat, k: nat)
    requires ts != [] && TokenAt(s, g, k, ts[0]) && Written(ts[1..], s[k..])
    ensures Written(ts, s)
  {
  }

  /** The first token of a text, and where it stands. */
  lemma {:induction false} FirstToken(s: string) returns (g: nat, k: nat, t: Token)
    requires SkipTrivia(s) != "" && ScanToken(SkipTrivia(s)).Some?
    ensures TokenAt(s, g, k, t) && ScanToken(SkipTrivia(s)) == Some((t, s[k..]))
  {
    var x := SkipTrivia(s);
    var gap := SkippedGap(s);
    var w := ReadToken(x);
    t := ScanToken(x).value.0;
    g, k := |gap|, |gap| + |w|;
    Placed(s, gap, w, ScanToken(x).value.1, t);
  }

  lemma {:induction false} Placed(s: string, gap: string, w: string, rest: string, t: Token)
    requires s == gap + (w + rest) && w != "" && Gap(gap, false) && Stands(t, w) && EndsAt(t, rest)
    ensures TokenAt(s, |gap|, |gap| + |w|, t) && s[|gap| + |w|..] == rest
  {
    assert s[..|gap|] == gap && s[|gap|..|gap| + |w|] == w && s[|gap| + |w|..] == rest;
  }

  lemma {:induction false} LexedWritten(s: string) returns (ts: Tokens)
    requires Lex(s).Some?
    ensures Written(ts, s)
    decreases |s|
  {
    if SkipTrivia(s) == "" {
      LastGap(s);
      ts := [];
    } else {
      var g, k, t := FirstToken(s);
      var more := LexedWritten(s[k..]);
      ts := [t] + more;
      assert ts[1..] == more;
      WrittenMore(ts, s, g, k);
    }
  }

  /** The lexer accepts exactly the texts that spell tokens, and gives back just those and EOF. */
  lemma {:induction false} LexIff(s: string, ts: Tokens)
    ensures Lex(s) == Some(ts + [EOF]) <==> Written(ts, s)
  {
    if Written(ts, s) { WrittenLexes(ts, s); }
    if Lex(s) == Some(ts + [EOF]) {
      var us := LexedWritten(s);
      WrittenLexes(us, s);
      assert ts == (ts + [EOF])[..|ts|] == (us + [EOF])[..|us|] == us;
    }
  }

  /** A text is refused exactly if it spells no tokens at all. */
  lemma {:induction false} LexRefuses(s: string)
    ensures Lex(s).None? <==> forall ts :: !Written(ts, s)
  {
    if Lex(s).Some? {
      var ts := LexedWritten(s);
      assert Written(ts, s);
    } else {
      forall ts ensures !Written(ts, s) { LexIff(s, ts); }
    }
  }

  /** From text to meaning: a text is read as e exactly if it spells a phrase that means e. */
  lemma {:induction false} ParseTextIff(s: string, e: Expr)
    ensures ParseText(s) == Some(e) <==> exists ts :: Written(ts, s) && G.Derives(G.Disjunction, e, ts)
  {
    if ParseText(s) == Some(e) {
      var ts := LexedWritten(s);
      WrittenLexes(ts, s);
      G.ParseIff(ts, e);
    }
    forall ts | Written(ts, s) && G.Derives(G.Disjunction, e, ts) ensures ParseText(s) == Some(e) {
      LexIff(s, ts);
      G.ParseIff(ts, e);
    }
  }
}
