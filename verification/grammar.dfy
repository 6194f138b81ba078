/** The grammar of predicates, and that the parser reads exactly what it derives
    (queryx/sql/parser.py). */
module Grammar {
  import opened Wrappers
  import opened Sql
  import opened Parser

  /** The layers, loosest first. */
  datatype Layer = Disjunction | Conjunction | Negation | Relation | Primary

  function Rank(n: Layer): nat {
    match n
    case Disjunction => 0
    case Conjunction => 1
    case Negation => 2
    case Relation => 3
    case Primary => 4
  }

  /** A column reference: `name` or `table.name`. */
  predicate Names(c: Expr, ts: Tokens) {
    c.Column? &&
    match c.table
    case None => ts == [Ident(c.name)]
    case Some(table) => ts == [Ident(table), Dot, Ident(c.name)]
  }

  /** COUNT(*), or a function of a column. */
  predicate Calls(e: Expr, ts: Tokens) {
    && e.Aggregate? && |ts| >= 4 && ts[0] == Agg(e.func) && ts[1] == LParen && ts[|ts| - 1] == RParen
    && ((e.func == COUNT && e.arg == Star && ts[2..|ts| - 1] == [STAR]) || Names(e.arg, ts[2..|ts| - 1]))
  }

  predicate Numeral(i: int, ts: Tokens) {
    (i >= 0 && ts == [Number(i)]) || (i <= 0 && ts == [Minus, Number(-i)])
  }

  predicate Atom(e: Expr, ts: Tokens) {
    match e
    case Column(_, _) => Names(e, ts)
    case Aggregate(_, _) => Calls(e, ts)
    case Literal(IntV(i)) => Numeral(i, ts)
    case Literal(TextV(t)) => ts == [Str(t)]
    case _ => false
  }

  /** The tokens are a phrase of this layer that means e. OR binds loosest, then AND, then NOT, then the
      comparisons, which do not chain; AND and OR lean left. */
  ghost predicate Derives(n: Layer, e: Expr, ts: Tokens)
    decreases |ts|, 4 - Rank(n)
  {
    match n
    case Disjunction =>
      || Derives(Conjunction, e, ts)
      || (e.Or? && exists k | 0 <= k < |ts| && ts[k] == OR ::
            Derives(Disjunction, e.left, ts[..k]) && Derives(Conjunction, e.right, ts[k + 1..]))
    case Conjunction =>
      || Derives(Negation, e, ts)
      || (e.And? && exists k | 0 <= k < |ts| && ts[k] == AND ::
            Derives(Conjunction, e.left, ts[..k]) && Derives(Negation, e.right, ts[k + 1..]))
    case Negation =>
      || Derives(Relation, e, ts)
      || (e.Not? && At(ts, NOT) && Derives(Negation, e.operand, ts[1..]))
    case Relation =>
      || Derives(Primary, e, ts)
      || (e.Comparison? && exists k | 0 <= k < |ts| && ts[k] == Cmp(e.op) ::
            Derives(Primary, e.left, ts[..k]) && Derives(Primary, e.right, ts[k + 1..]))
    case Primary =>
      || Atom(e, ts)
      || (|ts| >= 2 && ts[0] == LParen && ts[|ts| - 1] == RParen && Derives(Disjunction, e, ts[1..|ts| - 1]))
  }

  // -- what a phrase starts with -----------------------------------------------

  lemma {:induction false} PrimaryStarts(e: Expr, ts: Tokens)
    requires Derives(Primary, e, ts)
    ensures ts != [] && ts[0] != NOT
  {
  }

  lemma {:induction false} RelationStarts(e: Expr, ts: Tokens)
    requires Derives(Relation, e, ts)
    ensures ts != [] && ts[0] != NOT
  {
    if Derives(Primary, e, ts) {
      PrimaryStarts(e, ts);
    } else {
      var k :| 0 <= k < |ts| && ts[k] == Cmp(e.op) && Derives(Primary, e.left, ts[..k]);
      PrimaryStarts(e.left, ts[..k]);
    }
  }

  // -- what the grammar derives is read ------------------------------------------

  /** Nothing that would carry a comparison's operand on. */
  predicate Stops(rest: Tokens) { !AtCmp(rest) && !At(rest, Dot) }

  lemma {:induction false} Split(ts: Tokens, k: nat, rest: Tokens)
    requires k < |ts|
    ensures ts + rest == ts[..k] + ([ts[k]] + (ts[k + 1..] + rest))
    ensures ([ts[k]] + (ts[k + 1..] + rest))[1..] == ts[k + 1..] + rest
  {
  }

  lemma {:induction false} ReadDisjunction(e: Expr, ts: Tokens, rest: Tokens)
    requires Derives(Disjunction, e, ts) && Stops(rest) && !At(rest, AND)
    ensures POr(ts + rest) == OrRest(e, rest)
    decreases |ts|, 4
  {
    if Derives(Conjunction, e, ts) {
      ReadConjunction(e, ts, rest);
    } else {
      var k :| 0 <= k < |ts| && ts[k] == OR
        && Derives(Disjunction, e.left, ts[..k]) && Derives(Conjunction, e.right, ts[k + 1..]);
      Split(ts, k, rest);
      ReadDisjunction(e.left, ts[..k], [OR] + (ts[k + 1..] + rest));
      ReadConjunction(e.right, ts[k + 1..], rest);
    }
  }

  lemma {:induction false} ReadConjunction(e: Expr, ts: Tokens, rest: Tokens)
    requires Derives(Conjunction, e, ts) && Stops(rest)
    ensures PAnd(ts + rest) == AndRest(e, rest)
    decreases |ts|, 3
  {
    if Derives(Negation, e, ts) {
      ReadNegation(e, ts, rest);
    } else {
      var k :| 0 <= k < |ts| && ts[k] == AND
        && Derives(Conjunction, e.left, ts[..k]) && Derives(Negation, e.right, ts[k + 1..]);
      Split(ts, k, rest);
      ReadConjunction(e.left, ts[..k], [AND] + (ts[k + 1..] + rest));
      ReadNegation(e.right, ts[k + 1..], rest);
    }
  }

  lemma {:induction false} ReadNegation(e: Expr, ts: Tokens, rest: Tokens)
    requires Derives(Negation, e, ts) && Stops(rest)
    ensures PNot(ts + rest) == Some((e, rest))
    decreases |ts|, 2
  {
    if Derives(Relation, e, ts) {
      RelationStarts(e, ts);
      ReadRelation(e, ts, rest);
    } else {
      assert (ts + rest)[1..] == ts[1..] + rest;
      ReadNegation(e.operand, ts[1..], rest);
    }
  }

  lemma {:induction false} ReadRelation(e: Expr, ts: Tokens, rest: Tokens)
    requires Derives(Relation, e, ts) && Stops(rest)
    ensures PCmp(ts + rest) == Some((e, rest))
    decreases |ts|, 1
  {
    if Derives(Primary, e, ts) {
      ReadPrimary(e, ts, rest);
    } else {
      var k :| 0 <= k < |ts| && ts[k] == Cmp(e.op)
        && Derives(Primary, e.left, ts[..k]) && Derives(Primary, e.right, ts[k + 1..]);
      Split(ts, k, rest);
      ReadPrimary(e.left, ts[..k], [Cmp(e.op)] + (ts[k + 1..] + rest));
      ReadPrimary(e.right, ts[k + 1..], rest);
    }
  }

  lemma {:induction false} ReadPrimary(e: Expr, ts: Tokens, rest: Tokens)
    requires Derives(Primary, e, ts) && !At(rest, Dot)
    ensures PPrimary(ts + rest) == Some((e, rest))
    decreases |ts|, 0
  {
    if Atom(e, ts) {
      ReadAtom(e, ts, rest);
    } else {
      var inner := ts[1..|ts| - 1];
      assert (ts + rest)[1..] == inner + ([RParen] + rest) && ([RParen] + rest)[1..] == rest;
      ReadDisjunction(e, inner, [RParen] + rest);
    }
  }

  lemma {:induction false} ReadColumn(c: Expr, ts: Tokens, rest: Tokens)
    requires Names(c, ts) && !At(rest, Dot)
    ensures PColumn(ts + rest) == Some((c, rest))
  {
    assert (ts + rest)[|ts|..] == rest && (ts + rest)[0] == ts[0];
    if c.table.Some? { assert (ts + rest)[1..][0] == Dot && (ts + rest)[2] == ts[2]; }
  }

  lemma {:induction false} ReadAtom(e: Expr, ts: Tokens, rest: Tokens)
    requires Atom(e, ts) && !At(rest, Dot)
    ensures PPrimary(ts + rest) == Some((e, rest))
  {
    var all := ts + rest;
    assert all[0] == ts[0] && all[|ts|..] == rest;
    match e
    case Column(_, _) => ReadColumn(e, ts, rest);
    case Aggregate(_, _) => ReadCall(e, ts, rest);
    case Literal(IntV(i)) => if |ts| == 2 { assert all[1] == ts[1]; }
    case Literal(TextV(_)) =>
  }

  lemma {:induction false} ReadCall(e: Expr, ts: Tokens, rest: Tokens)
    requires Calls(e, ts)
    ensures PPrimary(ts + rest) == Some((e, rest))
  {
    var (all, inner) := (ts + rest, ts[2..|ts| - 1]);
    assert all[0] == ts[0] && all[1..][0] == ts[1] && all[2..] == inner + ([RParen] + rest);
    assert all[3..] == all[2..][1..] && all[4..] == all[2..][2..];
    if e.arg == Star {
      assert all[2..][0] == STAR && all[3..] == [RParen] + rest;
    } else {
      assert all[2..][0] == inner[0];
      ReadColumn(e.arg, inner, [RParen] + rest);
      assert ([RParen] + rest)[1..] == rest;
    }
  }

  // -- what is read, the grammar derives -------------------------------------------

  /** What was read is a phrase of the layer at the front of the tokens, and the rest is left. */
  ghost predicate ReadAs(n: Layer, ts: Tokens, r: Parsed) {
    r.Some? ==>
      var (e, rest) := r.value;
      && |rest| <= |ts| && rest == ts[|ts| - |rest|..]
      && Derives(n, e, ts[..|ts| - |rest|])
  }

  lemma {:induction false} OrDerived(ts: Tokens)
    ensures ReadAs(Disjunction, ts, POr(ts))
    decreases |ts|, 6
  {
    AndDerived(ts);
    if PAnd(ts).Some? {
      var (left, rest) := PAnd(ts).value;
      OrRestDerived(ts, |ts| - |rest|, left);
    }
  }

  lemma {:induction false} OrRestDerived(ts: Tokens, m: nat, left: Expr)
    requires 0 < m <= |ts| && Derives(Disjunction, left, ts[..m])
    ensures ReadAs(Disjunction, ts, OrRest(left, ts[m..]))
    decreases |ts| - m, 7
  {
    if At(ts[m..], OR) && PAnd(ts[m..][1..]).Some? {
      var next := ts[m + 1..];
      assert ts[m..][1..] == next;
      AndDerived(next);
      var (right, rest) := PAnd(next).value;
      var m' := |ts| - |rest|;
      Joined(ts, m, m');
      OrRestDerived(ts, m', Or(left, right));
    }
  }

  /** Both operands and what is between them, up to m'. */
  lemma {:induction false} Joined(ts: Tokens, m: nat, m': nat)
    requires m < m' <= |ts|
    ensures ts[..m'][m] == ts[m] && ts[..m'][..m] == ts[..m] && ts[..m'][m + 1..] == ts[m + 1..][..m' - m - 1]
    ensures ts[m + 1..][m' - m - 1..] == ts[m'..]
  {
  }

  lemma {:induction false} AndDerived(ts: Tokens)
    ensures ReadAs(Conjunction, ts, PAnd(ts))
    decreases |ts|, 4
  {
    NotDerived(ts);
    if PNot(ts).Some? {
      var (left, rest) := PNot(ts).value;
      AndRestDerived(ts, |ts| - |rest|, left);
    }
  }

  lemma {:induction false} AndRestDerived(ts: Tokens, m: nat, left: Expr)
    requires 0 < m <= |ts| && Derives(Conjunction, left, ts[..m])
    ensures ReadAs(Conjunction, ts, AndRest(left, ts[m..]))
    decreases |ts| - m, 5
  {
    if At(ts[m..], AND) && PNot(ts[m..][1..]).Some? {
      var next := ts[m + 1..];
      assert ts[m..][1..] == next;
      NotDerived(next);
      var (right, rest) := PNot(next).value;
      var m' := |ts| - |rest|;
      Joined(ts, m, m');
      AndRestDerived(ts, m', And(left, right));
    }
  }

  lemma {:induction false} NotDerived(ts: Tokens)
    ensures ReadAs(Negation, ts, PNot(ts))
    decreases |ts|, 3
  {
    if !At(ts, NOT) {
      RelationDerived(ts);
    } else if PNot(ts[1..]).Some? {
      NotDerived(ts[1..]);
      var (x, rest) := PNot(ts[1..]).value;
      Tail(ts, 1, |ts| - |rest|);
    }
  }

  lemma {:induction false} Tail(ts: Tokens, i: nat, m: nat)
    requires i <= m <= |ts|
    ensures ts[..m][i..] == ts[i..][..m - i] && ts[i..][m - i..] == ts[m..]
  {
  }

  lemma {:induction false} RelationDerived(ts: Tokens)
    ensures ReadAs(Relation, ts, PCmp(ts))
    decreases |ts|, 2
  {
    PrimaryDerived(ts);
    if PPrimary(ts).Some? {
      var (left, rest) := PPrimary(ts).value;
      var m := |ts| - |rest|;
      if AtCmp(rest) {
        assert rest[1..] == ts[m + 1..] && ts[m] == rest[0];
        PrimaryDerived(ts[m + 1..]);
        RelationRead(ts, m, left);
      }
    }
  }

  lemma {:induction false} RelationRead(ts: Tokens, m: nat, left: Expr)
    requires m < |ts| && ts[m].Cmp? && Derives(Primary, left, ts[..m])
    requires ReadAs(Primary, ts[m + 1..], PPrimary(ts[m + 1..])) && PPrimary(ts) == Some((left, ts[m..]))
    ensures ReadAs(Relation, ts, PCmp(ts))
  {
    assert ts[m..][1..] == ts[m + 1..];
    var r := PPrimary(ts[m + 1..]);
    if r.Some? {
      var m' := |ts| - |r.value.1|;
      Compared(ts, m, m', ts[m].op, left, r.value.0);
      Joined(ts, m, m');
      assert PCmp(ts) == Some((Comparison(ts[m].op, left, r.value.0), r.value.1));
    }
  }

  lemma {:induction false} Compared(ts: Tokens, m: nat, m': nat, op: CmpOp, left: Expr, right: Expr)
    requires m < m' <= |ts| && ts[m] == Cmp(op)
    requires Derives(Primary, left, ts[..m]) && Derives(Primary, right, ts[m + 1..][..m' - m - 1])
    ensures Derives(Relation, Comparison(op, left, right), ts[..m'])
  {
    Joined(ts, m, m');
  }

  lemma {:induction false} PrimaryDerived(ts: Tokens)
    ensures ReadAs(Primary, ts, PPrimary(ts))
    decreases |ts|, 1
  {
    if At(ts, LParen) {
      OrDerived(ts[1..]);
      if PPrimary(ts).Some? {
        var (inner, rest) := POr(ts[1..]).value;
        var m := |ts| - |rest|;
        Tail(ts, 1, m);
        assert ts[m] == RParen && rest[1..] == ts[m + 1..];
        assert ts[..m + 1][1..m] == ts[1..][..m - 1];
      }
    } else if ts != [] && ts[0].Agg? {
      CallDerived(ts);
    } else {
      AtomDerived(ts);
    }
  }

  lemma {:induction false} ColumnDerived(ts: Tokens)
    requires PColumn(ts).Some?
    ensures var (c, rest) := PColumn(ts).value;
      |rest| <= |ts| && rest == ts[|ts| - |rest|..] && Names(c, ts[..|ts| - |rest|])
  {
  }

  lemma {:induction false} AtomDerived(ts: Tokens)
    ensures ReadAs(Primary, ts, PAtom(ts))
  {
    if PAtom(ts).Some? {
      if ts[0].Ident? { ColumnDerived(ts); }
    }
  }

  lemma {:induction false} CallDerived(ts: Tokens)
    requires ts != [] && ts[0].Agg?
    ensures ReadAs(Primary, ts, PAggregate(ts))
  {
    if PAggregate(ts).Some? {
      var (e, rest) := PAggregate(ts).value;
      var m := |ts| - |rest|;
      if e.arg == Star {
        assert ts[..m][2..m - 1] == [STAR];
      } else {
        ColumnDerived(ts[2..]);
        assert ts[..m][2..m - 1] == ts[2..][..m - 3];
      }
    }
  }

  // -- both ways -------------------------------------------------------------------

  /** The parser accepts exactly the phrases of the grammar, and gives back what they mean. */
  lemma {:induction false} ParseIff(ts: Tokens, e: Expr)
    ensures ParseAll(ts + [EOF]) == Some(e) <==> Derives(Disjunction, e, ts)
  {
    var all := ts + [EOF];
    if Derives(Disjunction, e, ts) { ReadDisjunction(e, ts, [EOF]); }
    if ParseAll(all) == Some(e) {
      OrDerived(all);
      assert all[..|ts|] == ts;
    }
  }

  // -- the spelling with the fewest parentheses ---------------------------------------

  /** What a phrase can mean. */
  predicate Sayable(e: Expr) {
    match e
    case Column(_, _) => true
    case Literal(v) => !v.BoolV?
    case Comparison(_, l, r) => Sayable(l) && Sayable(r)
    case And(l, r) => Sayable(l) && Sayable(r)
    case Or(l, r) => Sayable(l) && Sayable(r)
    case Not(x) => Sayable(x)
    case Star => false
    case Aggregate(f, arg) => arg.Column? || (f == COUNT && arg == Star)
  }

  function LayerOf(e: Expr): Layer {
    match e
    case Or(_, _) => Disjunction
    case And(_, _) => Conjunction
    case Not(_) => Negation
    case Comparison(_, _, _) => Relation
    case _ => Primary
  }

  function ColumnTokens(c: Expr): Tokens
    requires c.Column?
  {
    match c.table
    case None => [Ident(c.name)]
    case Some(table) => [Ident(table), Dot, Ident(c.name)]
  }

  /** e as a phrase of the layer, in parentheses only where its own layer is a looser one. */
  function Spelled(n: Layer, e: Expr): (ts: Tokens)
    requires Sayable(e)
    decreases e, 1
  {
    if Rank(LayerOf(e)) < Rank(n) then [LParen] + Bared(e) + [RParen] else Bared(e)
  }

  function Bared(e: Expr): (ts: Tokens)
    requires Sayable(e)
    decreases e, 0
  {
    match e
    case Or(l, r) => Spelled(Disjunction, l) + [OR] + Spelled(Conjunction, r)
    case And(l, r) => Spelled(Conjunction, l) + [AND] + Spelled(Negation, r)
    case Not(x) => [NOT] + Spelled(Negation, x)
    case Comparison(op, l, r) => Spelled(Primary, l) + [Cmp(op)] + Spelled(Primary, r)
    case Column(_, _) => ColumnTokens(e)
    case Literal(IntV(i)) => if i < 0 then [Minus, Number(-i)] else [Number(i)]
    case Literal(TextV(t)) => [Str(t)]
    case Aggregate(f, arg) =>
      [Agg(f), LParen] + (if arg == Star then [STAR] else ColumnTokens(arg)) + [RParen]
  }

  /** A phrase of one layer is a phrase of every looser one. */
  lemma {:induction false} Looser(n: Layer, m: Layer, e: Expr, ts: Tokens)
    requires Derives(m, e, ts) && Rank(n) <= Rank(m)
    ensures Derives(n, e, ts)
    decreases Rank(m) - Rank(n)
  {
    if n != m {
      match m
      case Primary => Looser(n, Relation, e, ts);
      case Relation => Looser(n, Negation, e, ts);
      case Negation => Looser(n, Conjunction, e, ts);
      case Conjunction =>
    }
  }

  lemma {:induction false} Parts(a: Tokens, t: Token, b: Tokens)
    ensures var ts := a + [t] + b;
      |a| < |ts| && ts[|a|] == t && ts[..|a|] == a && ts[|a| + 1..] == b
  {
  }

  lemma {:induction false} BaredDerives(e: Expr)
    requires Sayable(e)
    ensures Derives(LayerOf(e), e, Bared(e))
    decreases e, 0
  {
    match e
    case Or(l, r) =>
      SpelledDerives(Disjunction, l);
      SpelledDerives(Conjunction, r);
      Parts(Spelled(Disjunction, l), OR, Spelled(Conjunction, r));
    case And(l, r) =>
      SpelledDerives(Conjunction, l);
      SpelledDerives(Negation, r);
      Parts(Spelled(Conjunction, l), AND, Spelled(Negation, r));
    case Not(x) =>
      SpelledDerives(Negation, x);
      assert Bared(e)[1..] == Spelled(Negation, x);
    case Comparison(op, l, r) =>
      SpelledDerives(Primary, l);
      SpelledDerives(Primary, r);
      Parts(Spelled(Primary, l), Cmp(op), Spelled(Primary, r));
    case _ => BaredAtom(e);
  }

  lemma {:induction false} BaredAtom(e: Expr)
    requires Sayable(e) && LayerOf(e) == Primary
    ensures Derives(Primary, e, Bared(e))
  {
    if e.Aggregate? {
      var ts := Bared(e);
      assert ts[2..|ts| - 1] == if e.arg == Star then [STAR] else ColumnTokens(e.arg);
    }
  }

  lemma {:induction false} SpelledDerives(n: Layer, e: Expr)
    requires Sayable(e)
    ensures Derives(n, e, Spelled(n, e))
    decreases e, 1
  {
    BaredDerives(e);
    if Rank(LayerOf(e)) < Rank(n) {
      Looser(Disjunction, LayerOf(e), e, Bared(e));
      var ts := Spelled(n, e);
      assert ts[1..|ts| - 1] == Bared(e);
      Looser(n, Primary, e, ts);
    } else {
      Looser(n, LayerOf(e), e, Bared(e));
    }
  }

  /** Every expression reads back from its spelling with parentheses only where the layers need them. */
  lemma {:induction false} SpelledParses(e: Expr)
    requires Sayable(e)
    ensures ParseAll(Spelled(Disjunction, e) + [EOF]) == Some(e)
  {
    SpelledDerives(Disjunction, e);
    ParseIff(Spelled(Disjunction, e), e);
  }

  /** No phrase means anything else, and none is shorter. */
  lemma {:induction false} SpelledShortest(n: Layer, e: Expr, ts: Tokens)
    requires Derives(n, e, ts)
    ensures Sayable(e) && |Spelled(n, e)| <= |ts|
    decreases |ts|, 4 - Rank(n)
  {
    match n
    case Disjunction =>
      if Derives(Conjunction, e, ts) {
        SpelledShortest(Conjunction, e, ts);
      } else {
        var k :| 0 <= k < |ts| && ts[k] == OR
          && Derives(Disjunction, e.left, ts[..k]) && Derives(Conjunction, e.right, ts[k + 1..]);
        SpelledShortest(Disjunction, e.left, ts[..k]);
        SpelledShortest(Conjunction, e.right, ts[k + 1..]);
      }
    case Conjunction =>
      if Derives(Negation, e, ts) {
        SpelledShortest(Negation, e, ts);
      } else {
        var k :| 0 <= k < |ts| && ts[k] == AND
          && Derives(Conjunction, e.left, ts[..k]) && Derives(Negation, e.right, ts[k + 1..]);
        SpelledShortest(Conjunction, e.left, ts[..k]);
        SpelledShortest(Negation, e.right, ts[k + 1..]);
      }
    case Negation =>
      if Derives(Relation, e, ts) {
        SpelledShortest(Relation, e, ts);
      } else {
        SpelledShortest(Negation, e.operand, ts[1..]);
      }
    case Relation =>
      if Derives(Primary, e, ts) {
        SpelledShortest(Primary, e, ts);
      } else {
        var k :| 0 <= k < |ts| && ts[k] == Cmp(e.op)
          && Derives(Primary, e.left, ts[..k]) && Derives(Primary, e.right, ts[k + 1..]);
        SpelledShortest(Primary, e.left, ts[..k]);
        SpelledShortest(Primary, e.right, ts[k + 1..]);
      }
    case Primary =>
      if !Atom(e, ts) { SpelledShortest(Disjunction, e, ts[1..|ts| - 1]); }
  }
}
