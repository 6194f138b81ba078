/** The text a predicate is printed as, and lexing and parsing it again
    (queryx/planner/explain.py, queryx/sql/lexer.py, queryx/sql/parser.py). */
module PrintedText {
  import opened Wrappers
  import opened Sql
  import opened Parser
  import opened Lexer
  import opened Printer

  function Symbol(op: CmpOp): (s: string)
    ensures s != ""
  {
    match op
    case EQ => "="
    case NEQ => "!="
    case LT => "<"
    case GT => ">"
    case LTE => "<="
    case GTE => ">="
  }

  function Digit(d: nat): (c: char)
    requires d < 10
    ensures IsDigit(c) && DigitValue(c) == d
  {
    (d + 48) as char
  }

  function Decimal(n: nat): (s: string)
    ensures s != ""
  {
    if n < 10 then [Digit(n)] else Decimal(n / 10) + [Digit(n % 10)]
  }

  lemma {:induction false} DecimalDigits(n: nat)
    ensures AllDigits(Decimal(n))
  {
    if n >= 10 { DecimalDigits(n / 10); }
  }

  /** A name the lexer reads as one identifier. */
  predicate IsName(w: string) {
    w != "" && IsWordStart(w[0]) && (forall i :: 0 <= i < |w| ==> IsWordChar(w[i])) && WordToken(w) == Ident(w)
  }

  /** Text that Python's repr puts between single quotes as it is: printable ASCII without quotes
      of that kind or backslashes. */
  predicate IsPlain(t: string) {
    forall i :: 0 <= i < |t| ==> ' ' <= t[i] <= '~' && t[i] != '\'' && t[i] != '\\'
  }

  predicate Readable(e: Expr) {
    match e
    case Column(name, t) => t == None && IsName(name)
    case Literal(v) => v.IntV? || (v.TextV? && IsPlain(v.t))
    case Comparison(_, l, r) => Readable(l) && Readable(r)
    case And(l, r) => Readable(l) && Readable(r)
    case Or(l, r) => Readable(l) && Readable(r)
    case Not(x) => Readable(x)
    case Star => false
    case Aggregate(_, _) => false
  }

  lemma {:induction false} ReadablePrintable(e: Expr)
    requires Readable(e)
    ensures Printable(e)
  {
    match e
    case Comparison(_, l, r) => ReadablePrintable(l); ReadablePrintable(r);
    case And(l, r) => ReadablePrintable(l); ReadablePrintable(r);
    case Or(l, r) => ReadablePrintable(l); ReadablePrintable(r);
    case Not(x) => ReadablePrintable(x);
    case _ =>
  }

  /** `expr_to_str`. */
  function Show(e: Expr): (s: string)
    requires Readable(e)
  {
    match e
    case Column(name, _) => name
    case Literal(v) =>
      if v.TextV? then "'" + v.t + "'"
      else if v.i < 0 then "-" + Decimal(-v.i)
      else Decimal(v.i)
    case Comparison(op, l, r) => Show(l) + " " + Symbol(op) + " " + Show(r)
    case And(l, r) => "(" + Show(l) + " AND " + Show(r) + ")"
    case Or(l, r) => "(" + Show(l) + " OR " + Show(r) + ")"
    case Not(x) => "(NOT " + Show(x) + ")"
  }

  /** What may follow a printed expression. */
  predicate Ends(s: string) { s == "" || s[0] == ' ' || s[0] == ')' }

  // -- one token at a time ---------------------------------------------------------

  lemma {:induction false} LexSpace(s: string)
    ensures Lex(" " + s) == Lex(s)
  {
    assert (" " + s)[1..] == s;
    LexSkips(" " + s);
    LexSkips(s);
  }

  lemma {:induction false} LexStep(s: string, t: Token, rest: string)
    requires s != "" && !IsSpace(s[0]) && !AtComment(s) && ScanToken(s) == Some((t, rest))
    ensures Lex(s) == Prepend([t], Lex(rest))
  {
  }

  lemma {:induction false} LexWord(w: string, rest: string)
    requires w != "" && IsWordStart(w[0]) && (forall i :: 0 <= i < |w| ==> IsWordChar(w[i])) && Ends(rest)
    ensures Lex(w + rest) == Prepend([WordToken(w)], Lex(rest))
  {
    var s := w + rest;
    RunIs(s, IsWordChar, |w|);
    assert s[..|w|] == w && s[|w|..] == rest;
    LexStep(s, WordToken(w), rest);
  }

  lemma {:induction false} NumberOfDecimal(n: nat)
    ensures AllDigits(Decimal(n)) && NumberOf(Decimal(n)) == n
  {
    DecimalDigits(n);
    if n < 10 {
      assert NumberOf([Digit(n)][..0]) == 0;
    } else {
      NumberOfDecimal(n / 10);
      assert Decimal(n)[..|Decimal(n)| - 1] == Decimal(n / 10);
    }
  }

  lemma {:induction false} LexNumber(n: nat, rest: string)
    requires Ends(rest)
    ensures Lex(Decimal(n) + rest) == Prepend([Number(n)], Lex(rest))
  {
    var d := Decimal(n);
    var s := d + rest;
    DecimalDigits(n);
    RunIs(s, IsDigit, |d|);
    assert s[..|d|] == d && s[|d|..] == rest;
    NumberOfDecimal(n);
    LexStep(s, Number(n), rest);
  }

  lemma {:induction false} ScanPlain(t: string, rest: string, text: string)
    requires IsPlain(t) && Ends(rest)
    ensures ScanString(t + "'" + rest, text) == Some((Str(text + t), rest))
    decreases t
  {
    var s := t + "'" + rest;
    if t == "" {
      assert s[1..] == rest && text + t == text;
    } else {
      assert s[1..] == t[1..] + "'" + rest;
      ScanPlain(t[1..], rest, text + [t[0]]);
      assert text + [t[0]] + t[1..] == text + t;
    }
  }

  lemma {:induction false} LexText(t: string, rest: string)
    requires IsPlain(t) && Ends(rest)
    ensures Lex("'" + t + "'" + rest) == Prepend([Str(t)], Lex(rest))
  {
    var s := "'" + t + "'" + rest;
    assert s[1..] == t + "'" + rest;
    ScanPlain(t, rest, "");
    assert "" + t == t;
    LexStep(s, Str(t), rest);
  }

  lemma {:induction false} LexMinus(s: string)
    requires s != "" && IsDigit(s[0])
    ensures Lex("-" + s) == Prepend([Minus], Lex(s))
  {
    assert ("-" + s)[1..] == s && ("-" + s)[1] == s[0];
    LexStep("-" + s, Minus, s);
  }

  lemma {:induction false} LexParen(s: string)
    ensures Lex("(" + s) == Prepend([LParen], Lex(s)) && Lex(")" + s) == Prepend([RParen], Lex(s))
  {
    assert ("(" + s)[1..] == s && (")" + s)[1..] == s;
    LexStep("(" + s, LParen, s);
    LexStep(")" + s, RParen, s);
  }

  lemma {:induction false} LexSymbol(op: CmpOp, s: string)
    ensures Lex(Symbol(op) + " " + s) == Prepend([Cmp(op)], Lex(" " + s))
  {
    var all, n := Symbol(op) + " " + s, |Symbol(op)|;
    assert all[n..] == " " + s && all[n] == ' ' && all[0] == Symbol(op)[0] && (n == 2 ==> all[1] == Symbol(op)[1]);
    LexStep(all, Cmp(op), " " + s);
  }

  lemma {:induction false} Keywords()
    ensures WordToken("AND") == AND && WordToken("OR") == OR && WordToken("NOT") == NOT
  {
    assert Upper("AND") == "AND";
    assert Upper("OR") == "OR";
    assert Upper("NOT") == "NOT";
  }

  lemma {:induction false} LexAnd(s: string)
    ensures Lex(" AND " + s) == Prepend([AND], Lex(s))
  {
    Keywords();
    LexWord("AND", " " + s);
    LexSpace(s);
    assert " AND " + s == " " + ("AND" + (" " + s));
    LexSpace("AND" + (" " + s));
  }

  lemma {:induction false} LexOr(s: string)
    ensures Lex(" OR " + s) == Prepend([OR], Lex(s))
  {
    Keywords();
    LexWord("OR", " " + s);
    LexSpace(s);
    assert " OR " + s == " " + ("OR" + (" " + s));
    LexSpace("OR" + (" " + s));
  }

  lemma {:induction false} LexNot(s: string)
    ensures Lex("NOT " + s) == Prepend([NOT], Lex(s))
  {
    Keywords();
    LexWord("NOT", " " + s);
    LexSpace(s);
    assert "NOT " + s == "NOT" + (" " + s);
  }

  // -- whole expressions -------------------------------------------------------------

  /** Lexing s gives the tokens ts and goes on with s'. */
  predicate Lexes(s: string, ts: Tokens, s': string) {
    Lex(s) == Prepend(ts, Lex(s'))
  }

  lemma {:induction false} LexesThen(s: string, a: Tokens, s': string, b: Tokens, s'': string)
    requires Lexes(s, a, s') && Lexes(s', b, s'')
    ensures Lexes(s, a + b, s'')
  {
    var r := Lex(s'');
    if r.Some? { assert a + (b + r.value) == (a + b) + r.value; }
  }

  lemma {:induction false} JoinBinary(a: string, word: string, b: string, rest: string)
    ensures "(" + a + word + b + ")" + rest == "(" + (a + (word + (b + (")" + rest))))
  {
  }

  lemma {:induction false} JoinNot(a: string, rest: string)
    ensures "(NOT " + a + ")" + rest == "(" + ("NOT " + (a + (")" + rest)))
  {
  }

  lemma {:induction false} JoinComparison(a: string, symbol: string, b: string, rest: string)
    ensures a + " " + symbol + " " + b + rest == a + (" " + (symbol + " " + (b + rest)))
  {
  }

  /** Lexing a printed expression gives its tokens and goes on behind it. */
  lemma {:induction false} LexShow(e: Expr, rest: string)
    requires Readable(e) && Ends(rest)
    ensures Printable(e) && Lexes(Show(e) + rest, TokensOf(e), rest)
    decreases e, 1
  {
    ReadablePrintable(e);
    match e
    case Column(name, _) => LexWord(name, rest);
    case Literal(v) => LexLiteral(e, rest);
    case Comparison(op, l, r) => LexComparison(e, rest);
    case And(l, r) =>
      JoinBinary(Show(l), " AND ", Show(r), rest);
      LexBinary(e, l, " AND ", AND, r, rest);
    case Or(l, r) =>
      JoinBinary(Show(l), " OR ", Show(r), rest);
      LexBinary(e, l, " OR ", OR, r, rest);
    case Not(x) => LexNegation(e, rest);
  }

  lemma {:induction false} LexLiteral(e: Expr, rest: string)
    requires Readable(e) && e.Literal? && Printable(e) && Ends(rest)
    ensures Lexes(Show(e) + rest, TokensOf(e), rest)
  {
    match e.value
    case TextV(t) => LexText(t, rest);
    case IntV(i) =>
      if i < 0 { LexNegative(-i, rest); } else { LexNumber(i, rest); }
  }

  lemma {:induction false} LexNegative(n: nat, rest: string)
    requires Ends(rest)
    ensures Lexes("-" + Decimal(n) + rest, [Minus, Number(n)], rest)
  {
    var d := Decimal(n);
    assert "-" + d + rest == "-" + (d + rest);
    DecimalDigits(n);
    LexMinus(d + rest);
    LexNumber(n, rest);
    LexesThen("-" + (d + rest), [Minus], d + rest, [Number(n)], rest);
    assert [Minus] + [Number(n)] == [Minus, Number(n)];
  }

  lemma {:induction false} LexComparison(e: Expr, rest: string)
    requires Readable(e) && e.Comparison? && Printable(e) && Ends(rest)
    ensures Lexes(Show(e) + rest, TokensOf(e), rest)
    decreases e, 0
  {
    var l, r, op := e.left, e.right, e.op;
    var tail := Show(r) + rest;
    var middle := Symbol(op) + " " + tail;
    JoinComparison(Show(l), Symbol(op), Show(r), rest);
    LexShow(l, " " + middle);
    LexSpace(middle);
    LexSymbol(op, tail);
    LexSpace(tail);
    LexShow(r, rest);
    LexesThen(Show(l) + (" " + middle), TokensOf(l), middle, [Cmp(op)], tail);
    LexesThen(Show(l) + (" " + middle), TokensOf(l) + [Cmp(op)], tail, TokensOf(r), rest);
  }

  lemma {:induction false} LexNegation(e: Expr, rest: string)
    requires Readable(e) && e.Not? && Printable(e)
    ensures Lexes(Show(e) + rest, TokensOf(e), rest)
    decreases e, 0
  {
    var x := e.operand;
    var tail := Show(x) + (")" + rest);
    var all := "(" + ("NOT " + tail);
    JoinNot(Show(x), rest);
    LexParen("NOT " + tail);
    LexNot(tail);
    LexShow(x, ")" + rest);
    LexParen(rest);
    LexesThen(all, [LParen], "NOT " + tail, [NOT], tail);
    assert [LParen] + [NOT] == [LParen, NOT];
    LexesThen(all, [LParen, NOT], tail, TokensOf(x), ")" + rest);
    LexesThen(all, [LParen, NOT] + TokensOf(x), ")" + rest, [RParen], rest);
  }

  lemma {:induction false} LexBinary(e: Expr, l: Expr, word: string, op: Token, r: Expr, rest: string)
    requires Readable(l) && Readable(r)
    requires (e == And(l, r) && word == " AND " && op == AND) || (e == Or(l, r) && word == " OR " && op == OR)
    ensures Printable(e)
    ensures Lexes("(" + (Show(l) + (word + (Show(r) + (")" + rest)))), TokensOf(e), rest)
    decreases e, 0
  {
    ReadablePrintable(l);
    ReadablePrintable(r);
    var right := Show(r) + (")" + rest);
    var left := Show(l) + (word + right);
    LexParen(left);
    LexShow(l, word + right);
    if op == AND { LexAnd(right); } else { LexOr(right); }
    LexShow(r, ")" + rest);
    LexParen(rest);
    LexesThen("(" + left, [LParen], left, TokensOf(l), word + right);
    LexesThen("(" + left, [LParen] + TokensOf(l), word + right, [op], right);
    LexesThen("(" + left, [LParen] + TokensOf(l) + [op], right, TokensOf(r), ")" + rest);
    LexesThen("(" + left, [LParen] + TokensOf(l) + [op] + TokensOf(r), ")" + rest, [RParen], rest);
  }

  /** A whole text that is one expression. */
  function ParseText(s: string): Option<Expr> {
    match Lex(s)
    case None => None
    case Some(ts) => ParseAll(ts)
  }

  /** Printing and then lexing and parsing gives the predicate back, exactly when no comparison is
      an operand of a comparison. */
  lemma {:induction false} PrintRoundTrip(e: Expr)
    requires Readable(e)
    ensures ParseText(Show(e)) == Some(e) <==> Unchained(e)
  {
    LexShow(e, "");
    assert Show(e) + "" == Show(e);
    assert Lex("") == Some([EOF]);
    PrintParse(e);
  }
}
