/** Predicates and how they are evaluated (queryx/sql/ast.py, queryx/execution/operators.py). */
module Sql {
  import opened Wrappers

  /** What evaluation yields: the two column types, and truth values. */
  datatype Value = IntV(i: int) | TextV(t: string) | BoolV(b: bool)

  datatype Func = COUNT | SUM | AVG | MIN | MAX

  datatype CmpOp = EQ | NEQ | LT | GT | LTE | GTE

  datatype Expr =
    | Column(name: string, table: Option<string>)
    | Literal(value: Value)
    | Comparison(op: CmpOp, left: Expr, right: Expr)
    | And(left: Expr, right: Expr)
    | Or(left: Expr, right: Expr)
    | Not(operand: Expr)
    | Star
    | Aggregate(func: Func, arg: Expr)

  type Row = seq<Value>

  /** Column names to positions. */
  type Index = map<string, nat>

  /** The lookup key of a column reference: `table.name` if it is qualified. */
  function Key(c: Expr): string
    requires c.Column?
  {
    match c.table
    case None => c.name
    case Some(t) => if t == "" then c.name else t + "." + c.name
  }

  function FuncName(f: Func): string {
    match f
    case COUNT => "COUNT"
    case SUM => "SUM"
    case AVG => "AVG"
    case MIN => "MIN"
    case MAX => "MAX"
  }

  /** The column that carries an aggregate's value in a grouped row. */
  function Label(f: Func, arg: Expr): string {
    FuncName(f) + "(" + (if arg.Column? then arg.name else "*") + ")"
  }

  /** Python's `bool`. */
  predicate Truthy(v: Value) {
    match v
    case IntV(i) => i != 0
    case TextV(t) => t != ""
    case BoolV(b) => b
  }

  /** Numbers as Python compares them: True is 1 and False is 0. */
  function Number(v: Value): Option<int> {
    match v
    case IntV(i) => Some(i)
    case TextV(_) => None
    case BoolV(b) => Some(if b then 1 else 0)
  }

  predicate Same(a: Value, b: Value) {
    if Number(a).Some? && Number(b).Some? then Number(a) == Number(b) else a == b
  }

  predicate TextLess(a: string, b: string) {
    b != "" && (a == "" || a[0] < b[0] || (a[0] == b[0] && TextLess(a[1..], b[1..])))
  }

  /** a < b; None where Python raises a TypeError. */
  function Less(a: Value, b: Value): Option<bool> {
    if Number(a).Some? && Number(b).Some? then Some(Number(a).value < Number(b).value)
    else if a.TextV? && b.TextV? then Some(TextLess(a.t, b.t))
    else None
  }

  function Negate(b: Option<bool>): Option<bool> {
    match b
    case None => None
    case Some(x) => Some(!x)
  }

  function Compare(op: CmpOp, a: Value, b: Value): Option<bool> {
    match op
    case EQ => Some(Same(a, b))
    case NEQ => Some(!Same(a, b))
    case LT => Less(a, b)
    case GT => Less(b, a)
    case LTE => Negate(Less(b, a))
    case GTE => Negate(Less(a, b))
  }

  /** The value of an expression on a row; None where Python raises. */
  function Evaluate(e: Expr, row: Row, idx: Index): Option<Value> {
    match e
    case Literal(v) => Some(v)
    case Column(_, _) => if Key(e) in idx && idx[Key(e)] < |row| then Some(row[idx[Key(e)]]) else None
    case Comparison(op, l, r) =>
      var (a, b) := (Evaluate(l, row, idx), Evaluate(r, row, idx));
      if a.None? || b.None? then None
      else
        var c := Compare(op, a.value, b.value);
        (match c case None => None case Some(x) => Some(BoolV(x)))
    case And(l, r) =>
      var a := Evaluate(l, row, idx);
      if a.None? then None
      else if !Truthy(a.value) then Some(BoolV(false))
      else
        var b := Evaluate(r, row, idx);
        (match b case None => None case Some(v) => Some(BoolV(Truthy(v))))
    case Or(l, r) =>
      var a := Evaluate(l, row, idx);
      if a.None? then None
      else if Truthy(a.value) then Some(BoolV(true))
      else
        var b := Evaluate(r, row, idx);
        (match b case None => None case Some(v) => Some(BoolV(Truthy(v))))
    case Not(x) =>
      var a := Evaluate(x, row, idx);
      (match a case None => None case Some(v) => Some(BoolV(!Truthy(v))))
    case Star => None
    case Aggregate(f, arg) =>
      var column := Label(f, arg);
      if (arg.Star? || arg.Column?) && column in idx && idx[column] < |row| then Some(row[idx[column]]) else None
  }

  predicate Passes(e: Expr, row: Row, idx: Index) {
    var v := Evaluate(e, row, idx);
    v.Some? && Truthy(v.value)
  }

  // -- what predicates mean --------------------------------------------------

  /** Texts in order: at the first character that differs, or where the shorter one ends. */
  ghost predicate Before(a: string, b: string) {
    exists n: nat :: n <= |a| && n < |b| && a[..n] == b[..n] && (n == |a| || a[n] < b[n])
  }

  lemma {:induction false} TextLessIff(a: string, b: string)
    ensures TextLess(a, b) <==> Before(a, b)
    decreases |a|
  {
    if a == "" || b == "" {
      if b != "" { assert a[..0] == b[..0]; }
    } else if a[0] != b[0] {
      DiffersAtOnce(a, b);
    } else {
      TextLessIff(a[1..], b[1..]);
      BeforeTails(a, b);
    }
  }

  lemma {:induction false} DiffersAtOnce(a: string, b: string)
    requires a != "" && b != "" && a[0] != b[0]
    ensures Before(a, b) <==> a[0] < b[0]
  {
    if a[0] < b[0] { assert a[..0] == b[..0]; }
    if Before(a, b) {
      var n: nat :| n <= |a| && n < |b| && a[..n] == b[..n] && (n == |a| || a[n] < b[n]);
      if n > 0 { assert a[..n][0] == b[..n][0]; }
    }
  }

  lemma {:induction false} BeforeTails(a: string, b: string)
    requires a != "" && b != "" && a[0] == b[0]
    ensures Before(a, b) <==> Before(a[1..], b[1..])
  {
    if Before(a, b) {
      var n: nat :| n <= |a| && n < |b| && a[..n] == b[..n] && (n == |a| || a[n] < b[n]);
      assert n > 0 && a[1..][..n - 1] == a[..n][1..] && b[1..][..n - 1] == b[..n][1..];
    }
    if Before(a[1..], b[1..]) {
      var (a', b') := (a[1..], b[1..]);
      var n: nat :| n <= |a'| && n < |b'| && a'[..n] == b'[..n] && (n == |a'| || a'[n] < b'[n]);
      assert a[..n + 1] == [a[0]] + a'[..n] && b[..n + 1] == [b[0]] + b'[..n];
    }
  }

  /** Of two texts exactly one comes first, unless they are the same; and the order is transitive. */
  lemma {:induction false} TextOrder(a: string, b: string, c: string)
    ensures TextLess(a, b) ==> !TextLess(b, a) && a != b
    ensures TextLess(a, b) || a == b || TextLess(b, a)
    ensures TextLess(a, b) && TextLess(b, c) ==> TextLess(a, c)
    decreases |a|
  {
    if a != "" && b != "" {
      if c == "" { TextOrder(a[1..], b[1..], c); } else { TextOrder(a[1..], b[1..], c[1..]); }
      assert a == [a[0]] + a[1..] && b == [b[0]] + b[1..];
    }
  }

  /** Both integers, or both texts. */
  predicate Alike(a: Value, b: Value) {
    (a.IntV? && b.IntV?) || (a.TextV? && b.TextV?)
  }

  /** a comes before b, in the one order of their type. */
  ghost predicate Precedes(a: Value, b: Value)
    requires Alike(a, b)
  {
    match a
    case IntV(i) => i < b.i
    case TextV(t) => Before(t, b.t)
  }

  /** The six comparisons are one total order on INT and one on TEXT. */
  lemma {:induction false} CompareOrder(a: Value, b: Value)
    requires Alike(a, b)
    ensures Compare(EQ, a, b) == Some(a == b) && Compare(NEQ, a, b) == Some(a != b)
    ensures Compare(LT, a, b) == Some(Precedes(a, b)) && Compare(GT, a, b) == Some(Precedes(b, a))
    ensures Compare(LTE, a, b) == Some(Precedes(a, b) || a == b)
    ensures Compare(GTE, a, b) == Some(Precedes(b, a) || a == b)
    ensures (if Precedes(a, b) then 1 else 0) + (if a == b then 1 else 0) + (if Precedes(b, a) then 1 else 0) == 1
  {
    if a.TextV? {
      TextLessIff(a.t, b.t);
      TextLessIff(b.t, a.t);
      TextOrder(a.t, b.t, a.t);
      TextOrder(b.t, a.t, b.t);
    }
  }

  lemma {:induction false} PrecedesTransitive(a: Value, b: Value, c: Value)
    requires Alike(a, b) && Alike(b, c) && Precedes(a, b) && Precedes(b, c)
    ensures Precedes(a, c)
  {
    if a.TextV? {
      TextLessIff(a.t, b.t);
      TextLessIff(b.t, c.t);
      TextLessIff(a.t, c.t);
      TextOrder(a.t, b.t, c.t);
    }
  }

  /** Whether `a op b` is true, with both of one type. */
  ghost predicate Stands(op: CmpOp, a: Value, b: Value)
    requires Alike(a, b)
  {
    match op
    case EQ => a == b
    case NEQ => a != b
    case LT => Precedes(a, b)
    case GT => Precedes(b, a)
    case LTE => !Precedes(b, a)
    case GTE => !Precedes(a, b)
  }

  /** A column of the row, or a literal: what a WHERE clause compares. */
  predicate Operand(e: Expr, row: Row, idx: Index) {
    e.Literal? || (e.Column? && Key(e) in idx && idx[Key(e)] < |row|)
  }

  function OperandValue(e: Expr, row: Row, idx: Index): Value
    requires Operand(e, row, idx)
  {
    if e.Literal? then e.value else row[idx[Key(e)]]
  }

  /** AND, OR and NOT of comparisons between operands of one type, and of operands themselves. */
  predicate WellTyped(e: Expr, row: Row, idx: Index) {
    match e
    case Column(_, _) => Operand(e, row, idx)
    case Literal(_) => true
    case Comparison(_, l, r) =>
      Operand(l, row, idx) && Operand(r, row, idx) && Alike(OperandValue(l, row, idx), OperandValue(r, row, idx))
    case And(l, r) => WellTyped(l, row, idx) && WellTyped(r, row, idx)
    case Or(l, r) => WellTyped(l, row, idx) && WellTyped(r, row, idx)
    case Not(x) => WellTyped(x, row, idx)
    case _ => false
  }

  /** The predicate is true of the row, as logic has it. */
  ghost predicate Holds(e: Expr, row: Row, idx: Index)
    requires WellTyped(e, row, idx)
  {
    match e
    case Column(_, _) => OperandValue(e, row, idx) !in {IntV(0), TextV(""), BoolV(false)}
    case Literal(v) => v !in {IntV(0), TextV(""), BoolV(false)}
    case Comparison(op, l, r) => Stands(op, OperandValue(l, row, idx), OperandValue(r, row, idx))
    case And(l, r) => Holds(l, row, idx) && Holds(r, row, idx)
    case Or(l, r) => Holds(l, row, idx) || Holds(r, row, idx)
    case Not(x) => !Holds(x, row, idx)
  }

  lemma {:induction false} ComparisonPasses(op: CmpOp, l: Expr, r: Expr, row: Row, idx: Index)
    requires WellTyped(Comparison(op, l, r), row, idx)
    ensures Evaluate(Comparison(op, l, r), row, idx) == Some(BoolV(Holds(Comparison(op, l, r), row, idx)))
  {
    var (a, b) := (OperandValue(l, row, idx), OperandValue(r, row, idx));
    assert Evaluate(l, row, idx) == Some(a) && Evaluate(r, row, idx) == Some(b);
    CompareOrder(a, b);
  }

  /** A WHERE clause selects exactly the rows of which it is true. */
  lemma {:induction false} PassesIff(e: Expr, row: Row, idx: Index)
    requires WellTyped(e, row, idx)
    ensures Evaluate(e, row, idx).Some?
    ensures !Operand(e, row, idx) ==> Evaluate(e, row, idx) == Some(BoolV(Holds(e, row, idx)))
    ensures Passes(e, row, idx) <==> Holds(e, row, idx)
  {
    match e
    case Comparison(op, l, r) => ComparisonPasses(op, l, r, row, idx);
    case And(l, r) => PassesIff(l, row, idx); PassesIff(r, row, idx);
    case Or(l, r) => PassesIff(l, row, idx); PassesIff(r, row, idx);
    case Not(x) => PassesIff(x, row, idx);
    case _ =>
  }

  /** Values of any two kinds: text is never equal to a number and has no order with one, and truth values
      compare as 1 and 0. */
  lemma {:induction false} CompareKinds(op: CmpOp, a: Value, b: Value)
    ensures Compare(op, a, b).None? <==> op != EQ && op != NEQ && (a.TextV? <==> !b.TextV?)
    ensures (a.TextV? <==> !b.TextV?) && Compare(op, a, b).Some? ==> Compare(op, a, b) == Some(op == NEQ)
    ensures a.BoolV? ==> Compare(op, a, b) == Compare(op, IntV(if a.b then 1 else 0), b)
    ensures b.BoolV? ==> Compare(op, a, b) == Compare(op, a, IntV(if b.b then 1 else 0))
  {
  }

  /** On operands of any kind: the connectives are those of logic wherever both sides evaluate, and the
      right side is only looked at where the left one does not decide. */
  lemma {:induction false} Connectives(l: Expr, r: Expr, row: Row, idx: Index)
    ensures Evaluate(Not(l), row, idx).Some? <==> Evaluate(l, row, idx).Some?
    ensures Evaluate(And(l, r), row, idx).Some? <==>
      Evaluate(l, row, idx).Some? && (Passes(l, row, idx) ==> Evaluate(r, row, idx).Some?)
    ensures Evaluate(Or(l, r), row, idx).Some? <==>
      Evaluate(l, row, idx).Some? && (Passes(l, row, idx) || Evaluate(r, row, idx).Some?)
    ensures Evaluate(l, row, idx).Some? ==> (Passes(Not(l), row, idx) <==> !Passes(l, row, idx))
    ensures Passes(And(l, r), row, idx) <==> Passes(l, row, idx) && Passes(r, row, idx)
    ensures Evaluate(l, row, idx).Some? ==>
      (Passes(Or(l, r), row, idx) <==> Passes(l, row, idx) || Passes(r, row, idx))
  {
  }
}
