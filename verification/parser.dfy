/** The predicate grammar: tokens to expressions (queryx/sql/parser.py). */
module Parser {
  import opened Wrappers
  import opened Sql

  /** A token: what the parser looks at. Reserved words without a part in predicates are all
      `Keyword`. */
  datatype Token =
    | Ident(name: string)
    | Number(n: nat)
    | Str(text: string)
    | Cmp(op: CmpOp)
    | LParen | RParen | Comma | Semicolon | STAR | Minus | Dot
    | AND | OR | NOT
    | Agg(func: Func)
    | Keyword(word: string)
    | EOF

  type Tokens = seq<Token>

  /** An expression and the tokens after it; None for a syntax error. */
  type Parsed = Option<(Expr, Tokens)>

  function Negated(n: int): int { -n }

  predicate At(ts: Tokens, t: Token) { ts != [] && ts[0] == t }

  predicate AtCmp(ts: Tokens) { ts != [] && ts[0].Cmp? }

  // -- the grammar, loosest layer first ----------------------------------------

  function POr(ts: Tokens): (r: Parsed)
    ensures r.Some? ==> |r.value.1| < |ts|
    decreases |ts|, 6
  {
    match PAnd(ts)
    case None => None
    case Some((left, rest)) => OrRest(left, rest)
  }

  function OrRest(left: Expr, ts: Tokens): (r: Parsed)
    ensures r.Some? ==> |r.value.1| <= |ts|
    decreases |ts|, 7
  {
    if At(ts, OR) then
      match PAnd(ts[1..])
      case None => None
      case Some((right, rest)) => OrRest(Or(left, right), rest)
    else Some((left, ts))
  }

  function PAnd(ts: Tokens): (r: Parsed)
    ensures r.Some? ==> |r.value.1| < |ts|
    decreases |ts|, 4
  {
    match PNot(ts)
    case None => None
    case Some((left, rest)) => AndRest(left, rest)
  }

  function AndRest(left: Expr, ts: Tokens): (r: Parsed)
    ensures r.Some? ==> |r.value.1| <= |ts|
    decreases |ts|, 5
  {
    if At(ts, AND) then
      match PNot(ts[1..])
      case None => None
      case Some((right, rest)) => AndRest(And(left, right), rest)
    else Some((left, ts))
  }

  function PNot(ts: Tokens): (r: Parsed)
    ensures r.Some? ==> |r.value.1| < |ts|
    decreases |ts|, 3
  {
    if At(ts, NOT) then
      match PNot(ts[1..])
      case None => None
      case Some((x, rest)) => Some((Not(x), rest))
    else PCmp(ts)
  }

  function PCmp(ts: Tokens): (r: Parsed)
    ensures r.Some? ==> |r.value.1| < |ts|
    decreases |ts|, 2
  {
    match PPrimary(ts)
    case None => None
    case Some((left, rest)) =>
      if !AtCmp(rest) then Some((left, rest))
      else
        match PPrimary(rest[1..])
        case None => None
        case Some((right, rest')) => Some((Comparison(rest[0].op, left, right), rest'))
  }

  function PPrimary(ts: Tokens): (r: Parsed)
    ensures r.Some? ==> |r.value.1| < |ts|
    decreases |ts|, 1
  {
    if At(ts, LParen) then
      match POr(ts[1..])
      case None => None
      case Some((inner, rest)) => if At(rest, RParen) then Some((inner, rest[1..])) else None
    else if ts != [] && ts[0].Agg? then PAggregate(ts)
    else PAtom(ts)
  }

  function PAggregate(ts: Tokens): (r: Parsed)
    requires ts != [] && ts[0].Agg?
    ensures r.Some? ==> |r.value.1| < |ts|
  {
    if !At(ts[1..], LParen) then None
    else if ts[0].func == COUNT && At(ts[2..], STAR) then
      if At(ts[3..], RParen) then Some((Aggregate(COUNT, Star), ts[4..])) else None
    else
      match PColumn(ts[2..])
      case None => None
      case Some((column, rest)) => if At(rest, RParen) then Some((Aggregate(ts[0].func, column), rest[1..])) else None
  }

  /** `name` or `table.name`. */
  function PColumn(ts: Tokens): (r: Parsed)
    ensures r.Some? ==> |r.value.1| < |ts|
  {
    if ts == [] || !ts[0].Ident? then None
    else if !At(ts[1..], Dot) then Some((Column(ts[0].name, None), ts[1..]))
    else if |ts| < 3 || !ts[2].Ident? then None
    else Some((Column(ts[2].name, Some(ts[0].name)), ts[3..]))
  }

  function PAtom(ts: Tokens): (r: Parsed)
    ensures r.Some? ==> |r.value.1| < |ts|
  {
    if ts == [] then None
    else
      match ts[0]
      case Minus =>
        if |ts| >= 2 && ts[1].Number? then Some((Literal(IntV(Negated(ts[1].n))), ts[2..])) else None
      case Number(n) => Some((Literal(IntV(n)), ts[1..]))
      case Str(t) => Some((Literal(TextV(t)), ts[1..]))
      case Ident(_) => PColumn(ts)
      case _ => None
  }

  /** A whole token list that is one expression. */
  function ParseAll(ts: Tokens): Option<Expr> {
    match POr(ts)
    case None => None
    case Some((e, rest)) => if rest == [EOF] then Some(e) else None
  }

  // -- the parser --------------------------------------------------------------

  /** A token list as the lexer makes it: it ends with EOF and holds EOF nowhere else. */
  predicate Ended(tokens: Tokens) {
    tokens != [] && forall i :: 0 <= i < |tokens| ==> (tokens[i] == EOF <==> i == |tokens| - 1)
  }

  class Parser {
    const tokens: Tokens
    var pos: nat

    ghost predicate Valid()
      reads this
    {
      Ended(tokens) && pos < |tokens|
    }

    /** The tokens not yet consumed. */
    ghost function Ahead(): Tokens
      reads this
      requires Valid()
    {
      tokens[pos..]
    }

    /** The method did what the grammar function says: it returned the expression and moved past
        its tokens, or it failed. */
    ghost predicate Did(from: nat, spec: Parsed, r: Option<Expr>)
      reads this
    {
      && Valid() && from <= pos && (r.None? <==> spec.None?)
      && (r.Some? ==> r.value == spec.value.0 && Ahead() == spec.value.1)
    }

    constructor (tokens: Tokens)
      requires Ended(tokens)
      ensures Valid() && this.tokens == tokens && Ahead() == tokens
    {
      this.tokens, this.pos := tokens, 0;
    }

    /** The next token, consumed unless it is EOF. */
    method Advance() returns (t: Token)
      requires Valid()
      modifies this
      ensures Valid() && t == old(Ahead())[0]
      ensures Ahead() == if t == EOF then old(Ahead()) else old(Ahead())[1..]
      ensures pos == if t == EOF then old(pos) else old(pos) + 1
    {
      t := tokens[pos];
      if t != EOF { pos := pos + 1; }
    }

    /** Consume the next token if it is the given one. */
    method Match(t: Token) returns (matched: bool)
      requires Valid() && t != EOF
      modifies this
      ensures Valid() && matched == At(old(Ahead()), t)
      ensures Ahead() == if matched then old(Ahead())[1..] else old(Ahead())
      ensures pos == if matched then old(pos) + 1 else old(pos)
    {
      matched := tokens[pos] == t;
      if matched { var _ := Advance(); }
    }

    method OrExpr() returns (r: Option<Expr>)
      requires Valid()
      modifies this
      ensures Did(old(pos), POr(old(Ahead())), r)
      decreases |tokens| - pos, 6
    {
      r := AndExpr();
      if r.None? { return; }
      while true
        invariant Valid() && old(pos) < pos && r.Some?
        invariant POr(old(Ahead())) == OrRest(r.value, Ahead())
        decreases |tokens| - pos
      {
        var more := Match(OR);
        if !more { break; }
        var left := r.value;
        r := AndExpr();
        if r.None? { return; }
        r := Some(Or(left, r.value));
      }
    }

    method AndExpr() returns (r: Option<Expr>)
      requires Valid()
      modifies this
      ensures Did(old(pos), PAnd(old(Ahead())), r)
      decreases |tokens| - pos, 4
    {
      r := NotExpr();
      if r.None? { return; }
      while true
        invariant Valid() && old(pos) < pos && r.Some?
        invariant PAnd(old(Ahead())) == AndRest(r.value, Ahead())
        decreases |tokens| - pos
      {
        var more := Match(AND);
        if !more { break; }
        var left := r.value;
        r := NotExpr();
        if r.None? { return; }
        r := Some(And(left, r.value));
      }
    }

    method NotExpr() returns (r: Option<Expr>)
      requires Valid()
      modifies this
      ensures Did(old(pos), PNot(old(Ahead())), r)
      decreases |tokens| - pos, 3
    {
      var negated := Match(NOT);
      if negated {
        r := NotExpr();
        if r.Some? { r := Some(Not(r.value)); }
      } else {
        r := ComparisonExpr();
      }
    }

    method ComparisonExpr() returns (r: Option<Expr>)
      requires Valid()
      modifies this
      ensures Did(old(pos), PCmp(old(Ahead())), r)
      decreases |tokens| - pos, 2
    {
      r := Primary();
      if r.None? || !tokens[pos].Cmp? { return; }
      var left := r.value;
      var op := Advance();
      r := Primary();
      if r.Some? { r := Some(Comparison(op.op, left, r.value)); }
    }

    method Primary() returns (r: Option<Expr>)
      requires Valid()
      modifies this
      ensures Did(old(pos), PPrimary(old(Ahead())), r)
      decreases |tokens| - pos, 1
    {
      var open := Match(LParen);
      if open {
        r := OrExpr();
        if r.None? { return; }
        var closed := Match(RParen);
        if !closed { r := None; }
      } else if tokens[pos].Agg? {
        r := AggregateCall();
      } else {
        r := LiteralOrColumn();
      }
    }

    method AggregateCall() returns (r: Option<Expr>)
      requires Valid() && tokens[pos].Agg?
      modifies this
      ensures Did(old(pos), PAggregate(old(Ahead())), r)
    {
      var f := Advance();
      var open := Match(LParen);
      if !open { return None; }
      var star := false;
      if f.func == COUNT { star := Match(STAR); }
      if star {
        r := Some(Star);
      } else {
        r := ColumnRef();
        if r.None? { return; }
      }
      var closed := Match(RParen);
      r := if closed then Some(Aggregate(f.func, r.value)) else None;
    }

    method ColumnRef() returns (r: Option<Expr>)
      requires Valid()
      modifies this
      ensures Did(old(pos), PColumn(old(Ahead())), r)
    {
      if !tokens[pos].Ident? { return None; }
      var first := Advance();
      var dotted := Match(Dot);
      if !dotted { return Some(Column(first.name, None)); }
      if !tokens[pos].Ident? { return None; }
      var second := Advance();
      r := Some(Column(second.name, Some(first.name)));
    }

    method LiteralOrColumn() returns (r: Option<Expr>)
      requires Valid()
      modifies this
      ensures Did(old(pos), PAtom(old(Ahead())), r)
    {
      var negate := Match(Minus);
      if tokens[pos].Number? {
        var t := Advance();
        return Some(Literal(IntV(if negate then Negated(t.n) else t.n)));
      }
      if negate { return None; }
      if tokens[pos].Str? {
        var t := Advance();
        return Some(Literal(TextV(t.text)));
      }
      if tokens[pos].Ident? {
        r := ColumnRef();
        return;
      }
      r := None;
    }
  }
}
