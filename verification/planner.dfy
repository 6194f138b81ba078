/** Access-path choice and why it does not change the answer (queryx/planner/optimizer.py,
    queryx/database.py). */
module Planner {
  import opened Wrappers
  import opened Sequences
  import opened Sql
  import B = BTreeShape
  import W = BTreeWalk

  /** Names an index: its kind and the column it covers. */
  datatype IndexInfo = IndexInfo(name: string, column: string, hash: bool)

  /** `column op value`, as an index could serve it. */
  datatype Sarg = Sarg(column: string, op: CmpOp, value: Value)

  function Flip(op: CmpOp): CmpOp {
    match op
    case LT => GT
    case GT => LT
    case LTE => GTE
    case GTE => LTE
    case EQ => EQ
    case NEQ => NEQ
  }

  function Normalize(cmp: Expr): Option<Sarg>
    requires cmp.Comparison?
  {
    if cmp.left.Column? && cmp.right.Literal? then Some(Sarg(cmp.left.name, cmp.op, cmp.right.value))
    else if cmp.right.Column? && cmp.left.Literal? then Some(Sarg(cmp.right.name, Flip(cmp.op), cmp.left.value))
    else None
  }

  /** The comparisons that top-level ANDs lead to. */
  function Sargable(where: Expr): seq<Sarg> {
    match where
    case Comparison(_, _, _) => (match Normalize(where) case Some(s) => [s] case None => [])
    case And(l, r) => Sargable(l) + Sargable(r)
    case _ => []
  }

  /** The comparison is the predicate itself or reached from it through ANDs alone. */
  predicate Conjunct(where: Expr, cmp: Expr) {
    cmp.Comparison? && (where == cmp || (where.And? && (Conjunct(where.left, cmp) || Conjunct(where.right, cmp))))
  }

  /** The comparison is `column op literal`, or `literal op column` with the operator turned round. */
  predicate SaysOf(cmp: Expr, s: Sarg) {
    cmp.Comparison? &&
    if cmp.left.Column? && cmp.right.Literal? then s == Sarg(cmp.left.name, cmp.op, cmp.right.value)
    else cmp.right.Column? && cmp.left.Literal? && s == Sarg(cmp.right.name, Flip(cmp.op), cmp.left.value)
  }

  /** Just the comparisons of a column with a literal under top-level ANDs are found, and all of them. */
  lemma {:induction false} SargableIff(where: Expr, s: Sarg)
    ensures s in Sargable(where) <==> exists cmp :: Conjunct(where, cmp) && SaysOf(cmp, s)
  {
    match where
    case Comparison(_, _, _) =>
      assert Conjunct(where, where) && forall cmp :: Conjunct(where, cmp) ==> cmp == where;
      assert s in Sargable(where) <==> Normalize(where) == Some(s);
      assert Normalize(where) == Some(s) <==> SaysOf(where, s);
    case And(l, r) =>
      SargableIff(l, s);
      SargableIff(r, s);
      assert forall cmp :: Conjunct(where, cmp) <==> Conjunct(l, cmp) || Conjunct(r, cmp);
    case _ =>
      assert forall cmp :: !Conjunct(where, cmp);
  }

  predicate IsWhole(where: Expr, s: Sarg) {
    where.Comparison? && Normalize(where) == Some(s)
  }

  /** The chosen plan: read every row, or fetch the rows an index lists; and the filter on top. */
  datatype Path = SeqPath(residual: Option<Expr>) | IndexPath(index: IndexInfo, sarg: Sarg, residual: Option<Expr>)

  /** The plan's operator is one the index can serve: a hash index serves equality alone. */
  predicate Serves(index: IndexInfo, s: Sarg) {
    index.column == s.column && (index.hash ==> s.op.EQ?)
  }

  /** The last index on a column, as a dictionary built from the list keeps it. */
  function IndexOn(indexes: seq<IndexInfo>, column: string): (r: Option<IndexInfo>)
    ensures r.Some? ==> r.value in indexes && r.value.column == column
  {
    if indexes == [] then None
    else
      var last := indexes[|indexes| - 1];
      if last.column == column then Some(last) else IndexOn(indexes[..|indexes| - 1], column)
  }

  /** Of the indexes on a column the last one is taken. */
  lemma {:induction false} IndexOnIff(indexes: seq<IndexInfo>, column: string, info: IndexInfo)
    ensures IndexOn(indexes, column) == Some(info) <==>
      exists k :: 0 <= k < |indexes| && indexes[k] == info && OnlyFrom(indexes, column, k)
    decreases |indexes|
  {
    if indexes != [] {
      var (last, front) := (|indexes| - 1, indexes[..|indexes| - 1]);
      if indexes[last].column == column {
        assert OnlyFrom(indexes, column, last);
      } else {
        IndexOnIff(front, column, info);
        forall k | 0 <= k < last ensures OnlyFrom(indexes, column, k) <==> OnlyFrom(front, column, k) {
          if OnlyFrom(front, column, k) {
            forall m | k < m < |indexes| ensures indexes[m].column != column {
              if m < last { assert front[m] == indexes[m]; }
            }
          }
        }
        assert forall k :: 0 <= k < last ==> front[k] == indexes[k];
      }
    }
  }

  /** Index k is on the column, and none behind it is. */
  predicate OnlyFrom(indexes: seq<IndexInfo>, column: string, k: nat) {
    k < |indexes| && indexes[k].column == column && forall m :: k < m < |indexes| ==> indexes[m].column != column
  }

  /** What `choose_access_path` may return, whatever it believes about costs. */
  predicate Choosable(where: Option<Expr>, indexes: seq<IndexInfo>, path: Path) {
    match path
    case SeqPath(residual) => residual == where
    case IndexPath(index, s, residual) =>
      && where.Some? && s in Sargable(where.value)
      && IndexOn(indexes, s.column) == Some(index) && Serves(index, s)
      && residual == if IsWhole(where.value, s) then None else where
  }

  /** No path that could be chosen costs less, and an index is used only if it beats the scan. */
  ghost predicate Cheapest(
      where: Option<Expr>, indexes: seq<IndexInfo>, seqCost: real, cost: (IndexInfo, Sarg) -> real, best: Path)
  {
    && (best.IndexPath? ==> cost(best.index, best.sarg) < seqCost)
    && (where.Some? ==> forall s :: s in Sargable(where.value) ==>
          var i := IndexOn(indexes, s.column);
          i.Some? && Serves(i.value, s) ==>
            (if best.IndexPath? then cost(best.index, best.sarg) else seqCost) <= cost(i.value, s))
  }

  /** Pick the cheapest path, for any cost estimates. */
  method ChooseAccessPath(where: Option<Expr>, indexes: seq<IndexInfo>, seqCost: real, cost: (IndexInfo, Sarg) -> real)
    returns (best: Path)
    ensures Choosable(where, indexes, best) && Cheapest(where, indexes, seqCost, cost, best)
  {
    best := SeqPath(where);
    var bestCost := seqCost;
    var sargs := match where case None => [] case Some(e) => Sargable(e);
    for n := 0 to |sargs|
      invariant Choosable(where, indexes, best)
      invariant bestCost == if best.IndexPath? then cost(best.index, best.sarg) else seqCost
      invariant bestCost <= seqCost && (best.IndexPath? ==> bestCost < seqCost)
      invariant forall m :: 0 <= m < n ==>
        var i := IndexOn(indexes, sargs[m].column);
        i.Some? && Serves(i.value, sargs[m]) ==> bestCost <= cost(i.value, sargs[m])
    {
      var s := sargs[n];
      var info := IndexOn(indexes, s.column);
      if info.None? {
        continue;
      }
      if info.value.hash && s.op != EQ {
        continue;
      }
      var indexCost := cost(info.value, s);
      if indexCost < bestCost {
        bestCost := indexCost;
        best := IndexPath(info.value, s, if IsWhole(where.value, s) then None else where);
      }
    }
  }

  // -- rows ------------------------------------------------------------------

  /** A live row and its address. */
  datatype Stored = Stored(rid: B.RowId, row: Row)

  predicate DistinctRids(heap: seq<Stored>) {
    forall i, j :: 0 <= i < j < |heap| ==> heap[i].rid != heap[j].rid
  }

  // -- stored indexes --------------------------------------------------------

  /** An index as it is stored: a B+ tree, or a hash index with what it holds and what its search
      returns. */
  datatype Held =
    | TreeHeld(tree: B.Tree)
    | HashHeld(bag: multiset<B.Entry>, search: int -> seq<B.RowId>)

  predicate Searchable(h: Held) {
    h.TreeHeld? ==> B.Ordered(h.tree)
  }

  /** What every reachable index keeps: a tree is ordered, and a hash index's search returns each
      row id as often as it is stored under the key. */
  ghost predicate Sane(h: Held) {
    && Searchable(h)
    && (h.HashHeld? ==> forall k, rid :: multiset(h.search(k))[rid] == h.bag[B.Entry(k, rid)])
  }

  function Bag(h: Held): multiset<B.Entry> {
    match h
    case TreeHeld(t) => multiset(B.Flat(t))
    case HashHeld(bag, _) => bag
  }

  /** `index.search`: a B+ tree's walk stops at the first empty leaf. */
  function Found(h: Held, k: int): seq<B.RowId>
    requires Searchable(h)
  {
    match h
    case TreeHeld(t) => B.Matches(W.Visible(t, k), k)
    case HashHeld(_, search) => search(k)
  }

  /** The bounds a range operator scans between. */
  function Bounds(op: CmpOp, value: int): (Option<int>, Option<int>) {
    match op
    case GT => (Some(value + 1), None)
    case GTE => (Some(value), None)
    case LT => (None, Some(value - 1))
    case _ => (None, Some(value))
  }

  /** The RowIds the index lists for `key op value`; None for an operator the database rejects or
      the index does not have. */
  function RowIds(h: Held, op: CmpOp, value: int): Option<seq<B.RowId>>
    requires Searchable(h)
  {
    if op == EQ then Some(Found(h, value))
    else if op == NEQ || h.HashHeld? then None
    else
      var (low, high) := Bounds(op, value);
      Some(B.Rids(W.Within(B.Flat(h.tree), low, high)))
  }

  /** The entry under the value for this row lies past the point where the tree's search stops. */
  predicate Overlooks(h: Held, op: CmpOp, value: int, rid: B.RowId)
    requires Searchable(h)
  {
    h.TreeHeld? && op == EQ && B.Entry(value, rid) in W.Hidden(h.tree, value)
  }

  /** Where a search cannot overlook anything. */
  predicate Whole(h: Held, op: CmpOp) {
    h.TreeHeld? && op == EQ ==> W.NoEmptyLeaf(h.tree)
  }

  // -- executing a plan ------------------------------------------------------

  /** `heap.get`: the row at an address, if it is live. */
  function Lookup(heap: seq<Stored>, rid: B.RowId): seq<Stored> {
    if heap == [] then []
    else if heap[0].rid == rid then [heap[0]] else Lookup(heap[1..], rid)
  }

  /** IndexScan: fetch each listed row, skipping dead ones. */
  function IndexScan(heap: seq<Stored>, rids: seq<B.RowId>): seq<Stored> {
    if rids == [] then [] else Lookup(heap, rids[0]) + IndexScan(heap, rids[1..])
  }

  /** Filter: keep the rows the predicate holds of. */
  function Filter(rows: seq<Stored>, e: Option<Expr>, idx: Index): seq<Stored> {
    if e.None? then rows
    else if rows == [] then []
    else (if Passes(e.value, rows[0].row, idx) then [rows[0]] else []) + Filter(rows[1..], e, idx)
  }

  function Rows(s: seq<Stored>): (r: seq<Row>)
    ensures |r| == |s|
  {
    seq(|s|, i requires 0 <= i < |s| => s[i].row)
  }

  /** The index holds one entry for each live row, under the integer in its column, and no other. */
  ghost predicate Agrees(bag: multiset<B.Entry>, heap: seq<Stored>, pos: nat) {
    && (forall s :: s in heap ==> pos < |s.row| && s.row[pos].IntV?)
    && (forall e :: bag[e] == if OfRow(e, heap, pos) then 1 else 0)
  }

  ghost predicate OfRow(e: B.Entry, heap: seq<Stored>, pos: nat) {
    exists s :: s in heap && s.rid == e.rid && pos < |s.row| && s.row[pos] == IntV(e.key)
  }

  // -- the chosen comparison -------------------------------------------------

  predicate Unqualified(e: Expr) {
    match e
    case Column(_, t) => t == None
    case Literal(_) => true
    case Comparison(_, l, r) => Unqualified(l) && Unqualified(r)
    case And(l, r) => Unqualified(l) && Unqualified(r)
    case Or(l, r) => Unqualified(l) && Unqualified(r)
    case Not(x) => Unqualified(x)
    case Star => true
    case Aggregate(_, arg) => Unqualified(arg)
  }

  /** The comparison holds of the row. */
  predicate Meets(s: Sarg, row: Row, idx: Index) {
    s.column in idx && idx[s.column] < |row| && Compare(s.op, row[idx[s.column]], s.value) == Some(true)
  }

  /** Turning `literal op column` around changes nothing. */
  lemma {:induction false} FlipCompare(op: CmpOp, a: Value, b: Value)
    ensures Compare(Flip(op), b, a) == Compare(op, a, b)
  {
  }

  lemma {:induction false} NormalizeMeets(cmp: Expr, s: Sarg, row: Row, idx: Index)
    requires cmp.Comparison? && Unqualified(cmp) && Normalize(cmp) == Some(s)
    ensures Passes(cmp, row, idx) <==> Meets(s, row, idx)
  {
    var straight := cmp.left.Column? && cmp.right.Literal?;
    var column := if straight then cmp.left else cmp.right;
    assert Key(column) == s.column;
    var v := Evaluate(column, row, idx);
    assert v.Some? <==> s.column in idx && idx[s.column] < |row|;
    if v.Some? {
      var literal := if straight then cmp.right.value else cmp.left.value;
      FlipCompare(cmp.op, literal, v.value);
      var c := if straight then Compare(cmp.op, v.value, literal) else Compare(cmp.op, literal, v.value);
      assert c == Compare(s.op, row[idx[s.column]], s.value);
      assert Evaluate(cmp, row, idx) == match c case None => None case Some(x) => Some(BoolV(x));
    } else {
      assert Evaluate(cmp, row, idx) == None;
    }
  }

  /** A row that passes the whole predicate meets every comparison an index could serve. */
  lemma {:induction false} SargImplied(where: Expr, s: Sarg, row: Row, idx: Index)
    requires Unqualified(where) && s in Sargable(where) && Passes(where, row, idx)
    ensures Meets(s, row, idx)
  {
    match where
    case Comparison(_, _, _) => NormalizeMeets(where, s, row, idx);
    case And(l, r) =>
      if s in Sargable(l) { SargImplied(l, s, row, idx); } else { SargImplied(r, s, row, idx); }
  }

  // -- what the index lists --------------------------------------------------

  lemma {:induction false} MatchesHas(es: seq<B.Entry>, k: int, rid: B.RowId)
    ensures rid in B.Matches(es, k) <==> B.Entry(k, rid) in es
  {
    if es != [] {
      MatchesHas(es[1..], k, rid);
      assert es == [es[0]] + es[1..];
    }
  }

  lemma {:induction false} WithinHas(es: seq<B.Entry>, low: Option<int>, high: Option<int>, e: B.Entry)
    ensures e in W.Within(es, low, high) <==> e in es && W.InRange(e.key, low, high)
  {
    if es != [] {
      WithinHas(es[1..], low, high, e);
      assert es == [es[0]] + es[1..];
    }
  }

  lemma {:induction false} RidsHas(es: seq<B.Entry>, rid: B.RowId)
    ensures rid in B.Rids(es) <==> exists e :: e in es && e.rid == rid
  {
    if rid in B.Rids(es) {
      var i :| 0 <= i < |es| && B.Rids(es)[i] == rid;
      assert es[i] in es;
    }
    forall e | e in es && e.rid == rid ensures rid in B.Rids(es) {
      var i :| 0 <= i < |es| && es[i] == e;
      assert B.Rids(es)[i] == rid;
    }
  }

  /** The range scan between an operator's bounds yields the entries that meet the comparison. */
  lemma {:induction false} RangeHas(es: seq<B.Entry>, op: CmpOp, value: int, e: B.Entry)
    requires op != EQ && op != NEQ
    ensures var (low, high) := Bounds(op, value);
      e in W.Within(es, low, high) <==> e in es && Compare(op, IntV(e.key), IntV(value)) == Some(true)
  {
    var (low, high) := Bounds(op, value);
    WithinHas(es, low, high, e);
  }

  /** Some entry of this row meets the comparison. */
  ghost predicate Met(bag: multiset<B.Entry>, op: CmpOp, value: int, rid: B.RowId) {
    exists e :: e in bag && e.rid == rid && Compare(op, IntV(e.key), IntV(value)) == Some(true)
  }

  /** The index lists the addresses of the entries that meet the comparison, but for those that its
      search overlooks. */
  lemma {:induction false} RowIdsHas(h: Held, op: CmpOp, value: int, rid: B.RowId)
    requires Sane(h) && RowIds(h, op, value).Some? && forall e :: Bag(h)[e] <= 1
    ensures rid in RowIds(h, op, value).value <==> Met(Bag(h), op, value, rid) && !Overlooks(h, op, value, rid)
  {
    var e := B.Entry(value, rid);
    if op != EQ {
      var (low, high) := Bounds(op, value);
      RidsHas(W.Within(B.Flat(h.tree), low, high), rid);
      forall f ensures f in W.Within(B.Flat(h.tree), low, high)
          <==> f in Bag(h) && Compare(op, IntV(f.key), IntV(value)) == Some(true) {
        RangeHas(B.Flat(h.tree), op, value, f);
      }
    } else {
      forall f: B.Entry | f.rid == rid && Compare(op, IntV(f.key), IntV(value)) == Some(true) ensures f == e {}
      assert Met(Bag(h), op, value, rid) <==> e in Bag(h) by {
        assert e.rid == rid && Compare(op, IntV(e.key), IntV(value)) == Some(true);
      }
      if h.TreeHeld? {
        SeenOrHidden(h.tree, e);
        MatchesHas(W.Visible(h.tree, value), value, rid);
      } else {
        assert multiset(h.search(value))[rid] == h.bag[e];
      }
    }
  }

  /** An entry that occurs once is either visible or hidden. */
  lemma {:induction false} SeenOrHidden(t: B.Tree, e: B.Entry)
    requires B.Ordered(t) && multiset(B.Flat(t))[e] <= 1
    ensures e in W.Visible(t, e.key) <==> e in multiset(B.Flat(t)) && e !in W.Hidden(t, e.key)
  {
    W.VisibleHidden(t, e.key);
    assert multiset(B.Flat(t)) == multiset(W.Visible(t, e.key)) + multiset(W.Hidden(t, e.key));
    assert e in multiset(W.Visible(t, e.key)) <==> e in W.Visible(t, e.key);
    assert e in multiset(W.Hidden(t, e.key)) <==> e in W.Hidden(t, e.key);
  }

  lemma {:induction false} LookupIs(heap: seq<Stored>, rid: B.RowId)
    requires DistinctRids(heap)
    ensures |Lookup(heap, rid)| <= 1
    ensures forall s :: s in Lookup(heap, rid) <==> s in heap && s.rid == rid
  {
    if heap != [] {
      assert heap == [heap[0]] + heap[1..];
      LookupIs(heap[1..], rid);
      if heap[0].rid == rid {
        forall s | s in heap[1..] ensures s.rid != rid {
          var i :| 0 < i < |heap| && heap[i] == s;
        }
      }
    }
  }

  lemma {:induction false} ScanHas(heap: seq<Stored>, rids: seq<B.RowId>)
    requires DistinctRids(heap)
    ensures forall s :: s in IndexScan(heap, rids) <==> s in heap && s.rid in rids
  {
    if rids != [] {
      LookupIs(heap, rids[0]);
      ScanHas(heap, rids[1..]);
      assert rids == [rids[0]] + rids[1..];
    }
  }

  lemma {:induction false} AppendNoRepeats<T>(a: seq<T>, b: seq<T>)
    requires NoRepeats(a) && NoRepeats(b) && forall x :: x in a ==> x !in b
    ensures NoRepeats(a + b)
  {
    var s := a + b;
    forall i, j | 0 <= i < j < |s| ensures s[i] != s[j] {
      assert i < |a| ==> s[i] in a;
      assert j >= |a| ==> s[j] in b;
    }
  }

  lemma {:induction false} TailNoRepeats<T>(s: seq<T>)
    requires NoRepeats(s) && s != []
    ensures NoRepeats(s[1..]) && s[0] !in s[1..]
  {
  }

  lemma {:induction false} ScanNoRepeats(heap: seq<Stored>, rids: seq<B.RowId>)
    requires DistinctRids(heap) && NoRepeats(rids)
    ensures NoRepeats(IndexScan(heap, rids))
  {
    if rids != [] {
      TailNoRepeats(rids);
      LookupIs(heap, rids[0]);
      ScanHas(heap, rids[1..]);
      ScanNoRepeats(heap, rids[1..]);
      AppendNoRepeats(Lookup(heap, rids[0]), IndexScan(heap, rids[1..]));
    }
  }

  lemma {:induction false} FilterHas(rows: seq<Stored>, e: Option<Expr>, idx: Index)
    ensures forall s :: s in Filter(rows, e, idx) <==> s in rows && (e.Some? ==> Passes(e.value, s.row, idx))
    ensures NoRepeats(rows) ==> NoRepeats(Filter(rows, e, idx))
  {
    if e.Some? && rows != [] {
      FilterHas(rows[1..], e, idx);
      assert rows == [rows[0]] + rows[1..];
      if NoRepeats(rows) { TailNoRepeats(rows); }
    }
  }

  // -- each listed address once ----------------------------------------------

  /** No two of these entries share an address. */
  predicate OneKeyEach(es: seq<B.Entry>) {
    forall i, j :: 0 <= i < j < |es| ==> es[i].rid != es[j].rid
  }

  lemma {:induction false} AgreesOnce(bag: multiset<B.Entry>, heap: seq<Stored>, pos: nat, e: B.Entry, f: B.Entry)
    requires DistinctRids(heap) && Agrees(bag, heap, pos) && e in bag && f in bag && e.rid == f.rid
    ensures e == f
  {
    assert OfRow(e, heap, pos) && OfRow(f, heap, pos);
    var s :| s in heap && s.rid == e.rid && pos < |s.row| && s.row[pos] == IntV(e.key);
    var s' :| s' in heap && s'.rid == f.rid && pos < |s'.row| && s'.row[pos] == IntV(f.key);
    LookupIs(heap, e.rid);
    assert s in Lookup(heap, e.rid) && s' in Lookup(heap, e.rid);
  }

  lemma {:induction false} AgreesOneKey(es: seq<B.Entry>, heap: seq<Stored>, pos: nat)
    requires DistinctRids(heap) && Agrees(multiset(es), heap, pos)
    ensures OneKeyEach(es)
  {
    forall x ensures multiset(es)[x] <= 1 {
      assert OfRow(x, heap, pos) || !OfRow(x, heap, pos);
    }
    OnceNoRepeats(es);
    forall i, j | 0 <= i < j < |es| ensures es[i].rid != es[j].rid {
      assert es[i] in multiset(es) && es[j] in multiset(es);
      if es[i].rid == es[j].rid { AgreesOnce(multiset(es), heap, pos, es[i], es[j]); }
    }
  }

  lemma {:induction false} OnceNoRepeats<T>(s: seq<T>)
    requires forall x :: multiset(s)[x] <= 1
    ensures NoRepeats(s)
  {
    forall i, j | 0 <= i < j < |s| ensures s[i] != s[j] {
      assert s == s[..i] + [s[i]] + s[i + 1..j] + [s[j]] + s[j + 1..];
      assert multiset(s)[s[i]] <= 1;
    }
  }

  lemma {:induction false} MatchesOnce(es: seq<B.Entry>, k: int)
    requires OneKeyEach(es)
    ensures NoRepeats(B.Matches(es, k))
  {
    if es != [] {
      MatchesOnce(es[1..], k);
      MatchesHas(es[1..], k, es[0].rid);
      forall e | e in es[1..] ensures e.rid != es[0].rid {
        var i :| 0 < i < |es| && es[i] == e;
      }
      AppendNoRepeats(if es[0].key == k then [es[0].rid] else [], B.Matches(es[1..], k));
    }
  }

  lemma {:induction false} WithinOnce(es: seq<B.Entry>, low: Option<int>, high: Option<int>)
    requires OneKeyEach(es)
    ensures OneKeyEach(W.Within(es, low, high))
  {
    if es != [] {
      WithinOnce(es[1..], low, high);
      var rest := W.Within(es[1..], low, high);
      forall j | 0 <= j < |rest| ensures rest[j].rid != es[0].rid {
        WithinHas(es[1..], low, high, rest[j]);
        var i :| 0 < i < |es| && es[i] == rest[j];
      }
    }
  }

  lemma {:induction false} PrefixOneKey(a: seq<B.Entry>, b: seq<B.Entry>)
    requires OneKeyEach(a + b)
    ensures OneKeyEach(a)
  {
    assert forall i :: 0 <= i < |a| ==> (a + b)[i] == a[i];
  }

  lemma {:induction false} RowIdsOnce(h: Held, op: CmpOp, value: int, heap: seq<Stored>, pos: nat)
    requires Sane(h) && RowIds(h, op, value).Some? && DistinctRids(heap) && Agrees(Bag(h), heap, pos)
    ensures NoRepeats(RowIds(h, op, value).value)
  {
    if h.HashHeld? {
      forall rid ensures multiset(h.search(value))[rid] <= 1 {
        assert multiset(h.search(value))[rid] == h.bag[B.Entry(value, rid)];
      }
      OnceNoRepeats(h.search(value));
    } else {
      AgreesOneKey(B.Flat(h.tree), heap, pos);
      if op == EQ {
        W.VisibleHidden(h.tree, value);
        PrefixOneKey(W.Visible(h.tree, value), W.Hidden(h.tree, value));
        MatchesOnce(W.Visible(h.tree, value), value);
      } else {
        var (low, high) := Bounds(op, value);
        WithinOnce(B.Flat(h.tree), low, high);
      }
    }
  }

  // -- same elements, same bag -----------------------------------------------

  lemma {:induction false} CountOne<T>(s: seq<T>, x: T)
    requires NoRepeats(s)
    ensures multiset(s)[x] == if x in s then 1 else 0
  {
    if s != [] {
      TailNoRepeats(s);
      CountOne(s[1..], x);
      assert s == [s[0]] + s[1..];
    }
  }

  lemma {:induction false} SameBag<T>(a: seq<T>, b: seq<T>)
    requires NoRepeats(a) && NoRepeats(b) && forall x :: x in a <==> x in b
    ensures multiset(a) == multiset(b)
  {
    forall x ensures multiset(a)[x] == multiset(b)[x] {
      CountOne(a, x);
      CountOne(b, x);
    }
  }

  function Except<T>(s: seq<T>, i: nat): seq<T>
    requires i < |s|
  {
    s[..i] + s[i + 1..]
  }

  lemma {:induction false} ExceptBag<T>(s: seq<T>, i: nat)
    requires i < |s|
    ensures multiset(s) == multiset(Except(s, i)) + multiset{s[i]}
  {
    assert s == s[..i] + [s[i]] + s[i + 1..];
  }

  lemma {:induction false} ExceptRows(s: seq<Stored>, i: nat)
    requires i < |s|
    ensures multiset(Rows(s)) == multiset(Rows(Except(s, i))) + multiset{s[i].row}
  {
    ExceptBag(Rows(s), i);
    assert Rows(Except(s, i)) == Except(Rows(s), i);
  }

  lemma {:induction false} RowsBag(a: seq<Stored>, b: seq<Stored>)
    requires multiset(a) == multiset(b)
    ensures multiset(Rows(a)) == multiset(Rows(b))
  {
    if a == [] {
      assert |multiset(b)| == |b|;
    } else {
      assert a[0] in multiset(b);
      var i :| 0 <= i < |b| && b[i] == a[0];
      ExceptBag(a, 0);
      ExceptBag(b, i);
      assert multiset(Except(a, 0)) == multiset(a) - multiset{a[0]};
      assert multiset(Except(b, i)) == multiset(b) - multiset{b[i]};
      RowsBag(Except(a, 0), Except(b, i));
      ExceptRows(a, 0);
      ExceptRows(b, i);
    }
  }

  lemma {:induction false} SetSize<T>(s: seq<T>)
    requires NoRepeats(s)
    ensures |set x | x in s| == |s|
  {
    if s != [] {
      TailNoRepeats(s);
      SetSize(s[1..]);
      assert s == [s[0]] + s[1..];
      assert (set x | x in s) == (set x | x in s[1..]) + {s[0]};
    }
  }

  /** Of two lists without repeats, one inside the other, the lengths tell whether they differ. */
  lemma {:induction false} SameSize<T>(a: seq<T>, b: seq<T>)
    requires NoRepeats(a) && NoRepeats(b) && |a| == |b| && forall x :: x in a ==> x in b
    ensures forall x :: x in b ==> x in a
  {
    SetSize(a);
    SetSize(b);
    var A, B := set x | x in a, set x | x in b;
    forall x | x in b ensures x in a {
      if x !in A { Smaller(A, B - {x}); }
    }
  }

  lemma {:induction false} Smaller<T>(a: set<T>, b: set<T>)
    requires a <= b
    ensures |a| <= |b|
  {
    assert b == a + (b - a);
  }

  /** A list of stored rows inside another gives the same bag of rows exactly when nothing is missing. */
  lemma {:induction false} SameRowsIff(a: seq<Stored>, b: seq<Stored>)
    requires NoRepeats(a) && NoRepeats(b) && forall x :: x in a ==> x in b
    ensures multiset(Rows(a)) == multiset(Rows(b)) <==> forall x :: x in b ==> x in a
  {
    if multiset(Rows(a)) == multiset(Rows(b)) {
      assert |multiset(Rows(a))| == |a| && |multiset(Rows(b))| == |b|;
      SameSize(a, b);
    }
    if forall x :: x in b ==> x in a {
      SameBag(a, b);
      RowsBag(a, b);
    }
  }

  // -- the theorem -----------------------------------------------------------

  /** The path's index, with the kind that it has, and in step with the table. */
  ghost predicate Serving(path: Path, value: int, h: Held, heap: seq<Stored>, idx: Index) {
    && path.IndexPath? && path.sarg.value == IntV(value) && path.sarg.op != NEQ
    && Sane(h) && (path.index.hash <==> h.HashHeld?)
    && path.sarg.column in idx && Agrees(Bag(h), heap, idx[path.sarg.column]) && DistinctRids(heap)
  }

  /** Whatever the optimizer believed about costs, an index scan with the filter it keeps returns
      the same bag of rows as reading the whole table through the whole predicate, exactly when the
      index's search overlooks no row that passes. */
  lemma {:induction false} IndexPathIff(
      where: Expr, indexes: seq<IndexInfo>, path: Path, value: int, h: Held, heap: seq<Stored>, idx: Index)
    requires Choosable(Some(where), indexes, path) && Unqualified(where) && Serving(path, value, h, heap, idx)
    ensures var rids := RowIds(h, path.sarg.op, value);
      && rids.Some?
      && (multiset(Rows(Filter(IndexScan(heap, rids.value), path.residual, idx)))
          == multiset(Rows(Filter(heap, Some(where), idx)))
         <==> forall st :: st in heap && Passes(where, st.row, idx) ==> !Overlooks(h, path.sarg.op, value, st.rid))
  {
    var s := path.sarg;
    var rids := RowIds(h, s.op, value).value;
    var viaIndex, viaScan := Filter(IndexScan(heap, rids), path.residual, idx), Filter(heap, Some(where), idx);
    RowIdsOnce(h, s.op, value, heap, idx[s.column]);
    ScanNoRepeats(heap, rids);
    FilterHas(IndexScan(heap, rids), path.residual, idx);
    FilterHas(heap, Some(where), idx);
    forall st | st in heap
      ensures st in viaIndex <==> Passes(where, st.row, idx) && !Overlooks(h, s.op, value, st.rid)
    {
      ScanHas(heap, rids);
      ListedIff(h, heap, s, value, st, idx);
      if Passes(where, st.row, idx) { SargImplied(where, s, st.row, idx); }
      if IsWhole(where, s) { NormalizeMeets(where, s, st.row, idx); }
    }
    ScanHas(heap, rids);
    assert NoRepeats(heap);
    SameRowsIff(viaIndex, viaScan);
  }

  /** A live row is listed exactly when it meets the comparison and is not overlooked. */
  lemma {:induction false} ListedIff(h: Held, heap: seq<Stored>, s: Sarg, value: int, st: Stored, idx: Index)
    requires Sane(h) && s.value == IntV(value) && RowIds(h, s.op, value).Some? && s.column in idx
    requires DistinctRids(heap) && Agrees(Bag(h), heap, idx[s.column]) && st in heap
    ensures st.rid in RowIds(h, s.op, value).value <==> Meets(s, st.row, idx) && !Overlooks(h, s.op, value, st.rid)
  {
    var pos := idx[s.column];
    assert forall e :: Bag(h)[e] <= 1;
    RowIdsHas(h, s.op, value, st.rid);
    var e := B.Entry(st.row[pos].i, st.rid);
    assert OfRow(e, heap, pos);
    forall f | f in Bag(h) && f.rid == st.rid ensures f == e {
      AgreesOnce(Bag(h), heap, pos, e, f);
    }
    assert Met(Bag(h), s.op, value, st.rid) <==> Compare(s.op, IntV(e.key), IntV(value)) == Some(true);
  }

  /** In particular always on a hash index, for every range operator, and for equality on a tree
      without empty leaves. */
  lemma {:induction false} IndexPathEquivalent(
      where: Expr, indexes: seq<IndexInfo>, path: Path, value: int, h: Held, heap: seq<Stored>, idx: Index)
    requires Choosable(Some(where), indexes, path) && Unqualified(where) && Serving(path, value, h, heap, idx)
    requires Whole(h, path.sarg.op)
    ensures var rids := RowIds(h, path.sarg.op, value);
      && rids.Some?
      && multiset(Rows(Filter(IndexScan(heap, rids.value), path.residual, idx)))
         == multiset(Rows(Filter(heap, Some(where), idx)))
  {
    IndexPathIff(where, indexes, path, value, h, heap, idx);
    WholeSees(h, path.sarg.op, value);
  }

  lemma {:induction false} WholeSees(h: Held, op: CmpOp, value: int)
    requires Searchable(h) && Whole(h, op)
    ensures forall rid :: !Overlooks(h, op, value, rid)
  {
    if h.TreeHeld? && op == EQ {
      W.NoEmptyLeafVisible(h.tree, value);
      W.VisibleHidden(h.tree, value);
      assert |W.Hidden(h.tree, value)| == 0;
    }
  }

  // -- plans the database rejects --------------------------------------------

  /** Some comparison an index could drive is a != on a B+ tree column. */
  predicate NeqOnTree(where: Expr, indexes: seq<IndexInfo>) {
    exists s :: s in Sargable(where) && s.op == NEQ
      && IndexOn(indexes, s.column).Some? && !IndexOn(indexes, s.column).value.hash
  }

  /** No index of the path's kind can serve its operator. */
  ghost predicate Rejected(path: Path, value: int) {
    path.IndexPath? &&
    forall h: Held :: Searchable(h) && (path.index.hash <==> h.HashHeld?) ==> RowIds(h, path.sarg.op, value) == None
  }

  /** Costs under which an index on a != comparison looks cheap and any other path does not. */
  function NeqCheap(index: IndexInfo, s: Sarg): real {
    if s.op == NEQ then 0.0 else 2.0
  }

  /** The optimizer can hand the database an operator it rejects exactly when the predicate has a
      top-level != on a B+ tree column; and then there are costs under which it always does. */
  lemma {:induction false} RejectedIff(where: Expr, indexes: seq<IndexInfo>, value: int)
    ensures (exists path: Path :: Choosable(Some(where), indexes, path) && Rejected(path, value))
      <==> NeqOnTree(where, indexes)
    ensures NeqOnTree(where, indexes) ==> forall best: Path ::
      Choosable(Some(where), indexes, best) && Cheapest(Some(where), indexes, 1.0, NeqCheap, best) ==>
      Rejected(best, value)
  {
    forall path: Path | path.IndexPath? && Choosable(Some(where), indexes, path)
      ensures Rejected(path, value) <==> path.sarg.op == NEQ
    {
      var h := if path.index.hash then HashHeld(multiset{}, _ => []) else TreeHeld(B.TLeaf(2, []));
      if path.sarg.op != NEQ { assert RowIds(h, path.sarg.op, value).Some?; }
    }
    if NeqOnTree(where, indexes) {
      var s :| s in Sargable(where) && s.op == NEQ
        && IndexOn(indexes, s.column).Some? && !IndexOn(indexes, s.column).value.hash;
      var path := IndexPath(IndexOn(indexes, s.column).value, s, if IsWhole(where, s) then None else Some(where));
      assert Choosable(Some(where), indexes, path);
    }
  }

  /** And it does hand it over whenever that index looks cheaper than the scan: `c != v` with a
      B+ tree on c is then a query that fails. */
  lemma {:induction false} NeqChosen(
      name: string, c: string, v: Value, seqCost: real, cost: (IndexInfo, Sarg) -> real, best: Path)
    requires var where := Comparison(NEQ, Column(c, None), Literal(v));
      var tree := IndexInfo(name, c, false);
      && cost(tree, Sarg(c, NEQ, v)) < seqCost
      && Choosable(Some(where), [tree], best) && Cheapest(Some(where), [tree], seqCost, cost, best)
    ensures best == IndexPath(IndexInfo(name, c, false), Sarg(c, NEQ, v), None)
    ensures forall value :: Rejected(best, value)
  {
    var where := Comparison(NEQ, Column(c, None), Literal(v));
    assert Sargable(where) == [Sarg(c, NEQ, v)];
    assert Sarg(c, NEQ, v) in Sargable(where);
    assert IndexOn([IndexInfo(name, c, false)], c) == Some(IndexInfo(name, c, false));
  }
}
