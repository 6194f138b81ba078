/** Printed predicates parse back, exactly when no comparison is an operand of a comparison
    (queryx/planner/explain.py, queryx/sql/parser.py). */
module Printer {
  import opened Wrappers
  import opened Sql
  import opened Parser

  /** Expressions the printer renders in full: AND, OR, NOT and comparisons over unqualified
      columns, integers and text. */
  predicate Printable(e: Expr) {
    match e
    case Column(_, t) => t == None
    case Literal(v) => !v.BoolV?
    case Comparison(_, l, r) => Printable(l) && Printable(r)
    case And(l, r) => Printable(l) && Printable(r)
    case Or(l, r) => Printable(l) && Printable(r)
    case Not(x) => Printable(x)
    case Star => false
    case Aggregate(_, _) => false
  }

  /** The tokens of the printed text. */
  function TokensOf(e: Expr): (ts: Tokens)
    requires Printable(e)
    ensures ts != []
  {
    match e
    case Column(name, _) => [Ident(name)]
    case Literal(IntV(i)) => if i < 0 then [Minus, Number(-i)] else [Number(i)]
    case Literal(TextV(t)) => [Str(t)]
    case Comparison(op, l, r) => TokensOf(l) + [Cmp(op)] + TokensOf(r)
    case And(l, r) => [LParen] + TokensOf(l) + [AND] + TokensOf(r) + [RParen]
    case Or(l, r) => [LParen] + TokensOf(l) + [OR] + TokensOf(r) + [RParen]
    case Not(x) => [LParen, NOT] + TokensOf(x) + [RParen]
  }

  /** No comparison is an operand of a comparison. */
  predicate Unchained(e: Expr) {
    match e
    case Comparison(_, l, r) => !l.Comparison? && !r.Comparison? && Unchained(l) && Unchained(r)
    case And(l, r) => Unchained(l) && Unchained(r)
    case Or(l, r) => Unchained(l) && Unchained(r)
    case Not(x) => Unchained(x)
    case _ => true
  }

  // -- what parses back --------------------------------------------------------

  /** A printed expression never starts with NOT, so the NOT layer goes straight through. */
  lemma {:induction false} Starts(e: Expr)
    requires Printable(e)
    ensures !TokensOf(e)[0].NOT? && !TokensOf(e)[0].Agg?
    ensures !e.Comparison? ==> (TokensOf(e)[0].LParen? <==> e.And? || e.Or? || e.Not?)
  {
    if e.Comparison? { Starts(e.left); }
  }

  /** Two operands in parentheses, token by token. */
  lemma {:induction false} Regroup(l: Tokens, op: Token, r: Tokens, ts: Tokens)
    ensures [LParen] + l + [op] + r + [RParen] + ts == [LParen] + (l + ([op] + (r + ([RParen] + ts))))
    ensures ([LParen] + l + [op] + r + [RParen] + ts)[0] == LParen
    ensures ([LParen] + l + [op] + r + [RParen] + ts)[1..] == l + ([op] + (r + ([RParen] + ts)))
    ensures ([op] + (r + ([RParen] + ts)))[1..] == r + ([RParen] + ts)
    ensures ([RParen] + ts)[1..] == ts
  {
  }

  lemma {:induction false} InsideAnd(s: Tokens, l: Expr, s': Tokens, r: Expr, ts: Tokens)
    requires PNot(s) == Some((l, [AND] + s')) && PNot(s') == Some((r, [RParen] + ts))
    ensures POr(s) == Some((And(l, r), [RParen] + ts))
  {
    assert ([AND] + s')[1..] == s';
    assert AndRest(l, [AND] + s') == AndRest(And(l, r), [RParen] + ts);
  }

  lemma {:induction false} InsideOr(s: Tokens, l: Expr, s': Tokens, r: Expr, ts: Tokens)
    requires PNot(s) == Some((l, [OR] + s')) && PNot(s') == Some((r, [RParen] + ts))
    ensures POr(s) == Some((Or(l, r), [RParen] + ts))
  {
    assert ([OR] + s')[1..] == s';
    assert PAnd(s) == AndRest(l, [OR] + s') && PAnd(s') == AndRest(r, [RParen] + ts);
    assert OrRest(l, [OR] + s') == OrRest(Or(l, r), [RParen] + ts);
  }

  lemma {:induction false} InsideNot(s: Tokens, s': Tokens, x: Expr, ts: Tokens)
    requires s == [NOT] + s' && PNot(s') == Some((x, [RParen] + ts))
    ensures POr(s) == Some((Not(x), [RParen] + ts))
  {
    assert s[1..] == s';
    assert PNot(s) == Some((Not(x), [RParen] + ts));
    assert PAnd(s) == AndRest(Not(x), [RParen] + ts);
  }

  lemma {:induction false} Wrapped(all: Tokens, inner: Tokens, e: Expr, ts: Tokens)
    requires all == [LParen] + inner && POr(inner) == Some((e, [RParen] + ts))
    ensures PPrimary(all) == Some((e, ts))
  {
    assert all[1..] == inner && ([RParen] + ts)[1..] == ts;
  }

  lemma {:induction false} PrimaryBack(e: Expr, ts: Tokens)
    requires Printable(e) && Unchained(e) && !e.Comparison? && !At(ts, Dot)
    ensures PPrimary(TokensOf(e) + ts) == Some((e, ts))
    decreases e, 1
  {
    match e
    case Column(name, _) => assert ([Ident(name)] + ts)[1..] == ts;
    case Literal(v) => AtomBack(e, ts);
    case And(l, r) => BinaryBack(e, l, AND, r, ts);
    case Or(l, r) => BinaryBack(e, l, OR, r, ts);
    case Not(x) => NegationBack(e, x, ts);
  }

  lemma {:induction false} NegationBack(e: Expr, x: Expr, ts: Tokens)
    requires Printable(e) && Unchained(e) && e == Not(x)
    ensures PPrimary(TokensOf(e) + ts) == Some((e, ts))
    decreases e, 0
  {
    var operand := TokensOf(x) + ([RParen] + ts);
    NotBack(x, [RParen] + ts);
    InsideNot([NOT] + operand, operand, x, ts);
    Wrapped(TokensOf(e) + ts, [NOT] + operand, e, ts);
  }

  lemma {:induction false} BinaryBack(e: Expr, l: Expr, op: Token, r: Expr, ts: Tokens)
    requires Printable(e) && Unchained(e)
    requires (e == And(l, r) && op == AND) || (e == Or(l, r) && op == OR)
    ensures PPrimary(TokensOf(e) + ts) == Some((e, ts))
    decreases e, 0
  {
    var right := TokensOf(r) + ([RParen] + ts);
    var inner := TokensOf(l) + ([op] + right);
    Regroup(TokensOf(l), op, TokensOf(r), ts);
    NotBack(l, [op] + right);
    NotBack(r, [RParen] + ts);
    if op == AND { InsideAnd(inner, l, right, r, ts); } else { InsideOr(inner, l, right, r, ts); }
    Wrapped(TokensOf(e) + ts, inner, e, ts);
  }

  lemma {:induction false} AtomBack(e: Expr, ts: Tokens)
    requires Printable(e) && e.Literal?
    ensures PPrimary(TokensOf(e) + ts) == Some((e, ts))
  {
    var all := TokensOf(e) + ts;
    match e.value
    case IntV(i) =>
      if i < 0 {
        assert all[1] == Number(-i) && all[2..] == ts;
      } else {
        assert all[1..] == ts;
      }
    case TextV(t) => assert all[1..] == ts;
  }

  lemma {:induction false} ComparisonBack(e: Expr, ts: Tokens)
    requires Printable(e) && Unchained(e) && (e.Comparison? || !AtCmp(ts)) && !At(ts, Dot)
    ensures PCmp(TokensOf(e) + ts) == Some((e, ts))
    decreases e, 2
  {
    if e.Comparison? {
      var tail := TokensOf(e.right) + ts;
      assert TokensOf(e) + ts == TokensOf(e.left) + ([Cmp(e.op)] + tail);
      PrimaryBack(e.left, [Cmp(e.op)] + tail);
      PrimaryBack(e.right, ts);
      assert ([Cmp(e.op)] + tail)[1..] == tail;
    } else {
      PrimaryBack(e, ts);
    }
  }

  lemma {:induction false} NotBack(e: Expr, ts: Tokens)
    requires Printable(e) && Unchained(e) && !AtCmp(ts) && !At(ts, Dot)
    ensures PNot(TokensOf(e) + ts) == Some((e, ts))
    decreases e, 3
  {
    Starts(e);
    assert (TokensOf(e) + ts)[0] == TokensOf(e)[0];
    ComparisonBack(e, ts);
  }

  /** A printed expression parses back to itself, and the parser stops right after it. */
  lemma {:induction false} OrBack(e: Expr, ts: Tokens)
    requires Printable(e) && Unchained(e) && !AtCmp(ts) && !At(ts, Dot) && !At(ts, AND) && !At(ts, OR)
    ensures POr(TokensOf(e) + ts) == Some((e, ts))
  {
    NotBack(e, ts);
    assert PAnd(TokensOf(e) + ts) == AndRest(e, ts);
  }

  // -- what does not -------------------------------------------------------------

  /** The parser failed, or stopped in front of a comparison operator. */
  predicate Stuck(r: Parsed) {
    r.None? || AtCmp(r.value.1)
  }

  /** Printed with a comparison inside a comparison, an expression that is not itself a comparison
      is refused. */
  lemma {:induction false} PrimaryStuck(e: Expr, ts: Tokens)
    requires Printable(e) && !Unchained(e) && !e.Comparison?
    ensures PPrimary(TokensOf(e) + ts).None?
    decreases e, 1
  {
    match e
    case And(l, r) =>
      Regroup(TokensOf(l), AND, TokensOf(r), ts);
      BinaryStuck(e, l, AND, r, ts);
    case Or(l, r) =>
      Regroup(TokensOf(l), OR, TokensOf(r), ts);
      BinaryStuck(e, l, OR, r, ts);
    case Not(x) =>
      var inner := [NOT] + (TokensOf(x) + ([RParen] + ts));
      assert (TokensOf(e) + ts)[1..] == inner && inner[1..] == TokensOf(x) + ([RParen] + ts);
      NotStuck(x, [RParen] + ts);
      StuckUp(inner);
  }

  /** Nothing above the NOT layer gets past a comparison operator. */
  lemma {:induction false} StuckUp(ts: Tokens)
    requires Stuck(PNot(ts))
    ensures Stuck(PAnd(ts)) && Stuck(POr(ts))
  {
  }

  lemma {:induction false} BinaryStuck(e: Expr, l: Expr, op: Token, r: Expr, ts: Tokens)
    requires Printable(l) && Printable(r) && (!Unchained(l) || !Unchained(r))
    requires (e == And(l, r) && op == AND) || (e == Or(l, r) && op == OR)
    ensures Stuck(POr(TokensOf(l) + ([op] + (TokensOf(r) + ([RParen] + ts)))))
    decreases e, 0
  {
    var s' := TokensOf(r) + ([RParen] + ts);
    var s := TokensOf(l) + ([op] + s');
    if !Unchained(l) {
      NotStuck(l, [op] + s');
      StuckUp(s);
    } else {
      NotBack(l, [op] + s');
      NotStuck(r, [RParen] + ts);
      StuckUp(s');
      StuckRight(s, l, op, s');
    }
  }

  lemma {:induction false} StuckRight(s: Tokens, l: Expr, op: Token, s': Tokens)
    requires PNot(s) == Some((l, [op] + s')) && Stuck(PNot(s')) && Stuck(PAnd(s')) && (op == AND || op == OR)
    ensures Stuck(POr(s))
  {
    assert ([op] + s')[1..] == s';
    assert PAnd(s) == AndRest(l, [op] + s');
    if op == OR {
      assert AndRest(l, [op] + s') == Some((l, [op] + s'));
      assert POr(s) == OrRest(l, [op] + s');
      if PAnd(s').Some? {
        var (x, rest) := PAnd(s').value;
        assert OrRest(Or(l, x), rest) == Some((Or(l, x), rest));
      }
    } else if PNot(s').Some? {
      var (x, rest) := PNot(s').value;
      assert AndRest(And(l, x), rest) == Some((And(l, x), rest));
    }
  }

  lemma {:induction false} NotStuck(e: Expr, ts: Tokens)
    requires Printable(e) && !Unchained(e)
    ensures Stuck(PNot(TokensOf(e) + ts))
    decreases e, 3
  {
    Starts(e);
    assert (TokensOf(e) + ts)[0] == TokensOf(e)[0];
    ComparisonStuck(e, ts);
  }

  /** A chain of comparisons is read as far as its second operator. */
  lemma {:induction false} ComparisonStuck(e: Expr, ts: Tokens)
    requires Printable(e) && !Unchained(e)
    ensures Stuck(PCmp(TokensOf(e) + ts))
    decreases e, 2
  {
    if !e.Comparison? {
      PrimaryStuck(e, ts);
    } else {
      var l, r, tail := e.left, e.right, TokensOf(e.right) + ts;
      assert TokensOf(e) + ts == TokensOf(l) + ([Cmp(e.op)] + tail) && ([Cmp(e.op)] + tail)[1..] == tail;
      if !Unchained(l) {
        ComparisonStuck(l, [Cmp(e.op)] + tail);
        if !l.Comparison? { PrimaryStuck(l, [Cmp(e.op)] + tail); }
      } else if l.Comparison? {
        ComparisonBack(l, [Cmp(e.op)] + tail);
      } else {
        PrimaryBack(l, [Cmp(e.op)] + tail);
        if r.Comparison? { ChainStuck(r, ts); } else { PrimaryStuck(r, ts); }
      }
    }
  }

  lemma {:induction false} ChainStuck(e: Expr, ts: Tokens)
    requires Printable(e) && e.Comparison?
    ensures Stuck(PPrimary(TokensOf(e) + ts))
    decreases e, 0
  {
    var l, tail := e.left, [Cmp(e.op)] + (TokensOf(e.right) + ts);
    assert TokensOf(e) + ts == TokensOf(l) + tail;
    if l.Comparison? {
      ChainStuck(l, tail);
    } else if Unchained(l) {
      PrimaryBack(l, tail);
    } else {
      PrimaryStuck(l, tail);
    }
  }

  /** Printed predicates parse back exactly when no comparison is an operand of a comparison. */
  lemma {:induction false} PrintParse(e: Expr)
    requires Printable(e)
    ensures ParseAll(TokensOf(e) + [EOF]) == Some(e) <==> Unchained(e)
  {
    if Unchained(e) {
      OrBack(e, [EOF]);
    } else {
      NotStuck(e, [EOF]);
      StuckUp(TokensOf(e) + [EOF]);
    }
  }
}
