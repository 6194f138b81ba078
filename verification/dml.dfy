/** INSERT, UPDATE, DELETE and CREATE INDEX, and what they do to a table and its indexes
    (queryx/database.py). */
module Dml {
  import opened ColumnIndexes
  import opened Sql
  import opened Wrappers
  import B = BTreeShape
  import P = Planner

  /** `column := value`, the column by position. */
  datatype Assignment = Assignment(pos: nat, value: Value)

  // -- bags of rows ----------------------------------------------------------

  ghost function Pick(h: Heap): (rid: B.RowId)
    requires h != map[]
    ensures rid in h
  {
    assert h.Keys != {};
    var rid :| rid in h.Keys;
    rid
  }

  /** The rows of the table, each as often as it occurs. */
  ghost function RowBag(h: Heap): multiset<Row>
    decreases |h|
  {
    if h == map[] then multiset{}
    else
      var rid := Pick(h);
      RowBag(h - {rid}) + multiset{h[rid]}
  }

  lemma {:induction false} RowBagTake(h: Heap, rid: B.RowId)
    requires rid in h
    ensures RowBag(h) == RowBag(h - {rid}) + multiset{h[rid]}
    decreases |h|
  {
    var p := Pick(h);
    if p != rid {
      var rest := h - {p} - {rid};
      assert rest == h - {rid} - {p};
      RowBagTake(h - {p}, rid);
      assert RowBag(h) == (RowBag(rest) + multiset{h[rid]}) + multiset{h[p]};
      RowBagTake(h - {rid}, p);
      assert RowBag(h - {rid}) == RowBag(rest) + multiset{h[p]};
    }
  }

  lemma {:induction false} RowBagPut(h: Heap, rid: B.RowId, row: Row)
    requires rid !in h
    ensures RowBag(h[rid := row]) == RowBag(h) + multiset{row}
  {
    RowBagTake(h[rid := row], rid);
    assert h[rid := row] - {rid} == h;
  }

  // -- building an index -----------------------------------------------------

  /** The distinct keys in the column. */
  function KeysOf(h: Heap, pos: nat): set<int>
    requires Indexable(h, pos)
  {
    set rid | rid in h :: h[rid][pos].i
  }

  lemma {:induction false} KeysOfPut(h: Heap, pos: nat, st: P.Stored)
    requires Indexable(h, pos) && st.rid !in h && Keyed(st, pos)
    ensures KeysOf(h[st.rid := st.row], pos) == KeysOf(h, pos) + {st.row[pos].i}
  {
    var h' := h[st.rid := st.row];
    forall k | k in KeysOf(h, pos) ensures k in KeysOf(h', pos) {
      var r :| r in h && h[r][pos].i == k;
      assert h'[r] == h[r];
    }
    assert h'[st.rid] == st.row;
    assert st.row[pos].i in KeysOf(h', pos);
  }

  /** The index and the distinct keys of the rows not in `todo`. */
  ghost predicate Built(h: Heap, todo: set<B.RowId>, x: ColumnIndex, distinct: set<int>) {
    && Indexable(h, x.pos) && Sane(x) && Full(x)
    && InStep(Bag(x), h - todo, x.pos) && distinct == KeysOf(h - todo, x.pos)
  }

  lemma {:induction false} BuiltStep(h: Heap, todo: set<B.RowId>, x: ColumnIndex, distinct: set<int>, rid: B.RowId)
    requires Built(h, todo, x, distinct) && rid in todo && rid in h
    ensures Keyed(P.Stored(rid, h[rid]), x.pos)
    ensures Built(
      h, todo - {rid}, Put(x, EntryOf(P.Stored(rid, h[rid]), x.pos)), distinct + {h[rid][x.pos].i})
  {
    var st := P.Stored(rid, h[rid]);
    Undone(h, todo, rid);
    PutInStep(x, h - todo, st);
    PutFull(x, EntryOf(st, x.pos));
    KeysOfPut(h - todo, x.pos, st);
  }

  lemma {:induction false} Undone(h: Heap, todo: set<B.RowId>, rid: B.RowId)
    requires rid in todo && rid in h
    ensures h - (todo - {rid}) == (h - todo)[rid := h[rid]]
  {
  }

  lemma {:induction false} FreshBuilt(h: Heap, pos: nat, hash: bool)
    requires Indexable(h, pos)
    ensures Built(h, h.Keys, Fresh(pos, hash), {}) && OfKind(Fresh(pos, hash), pos, hash)
  {
    assert h - h.Keys == map[];
  }

  predicate OfKind(x: ColumnIndex, pos: nat, hash: bool) {
    x.pos == pos && (x.HashColumn? <==> hash)
  }

  /** A new index of the kind asked for, in step with the table, without an empty leaf, and the
      distinct keys of its column. */
  ghost predicate IsBuilt(h: Heap, pos: nat, hash: bool, x: ColumnIndex, distinct: set<int>) {
    && Indexable(h, pos) && Sane(x) && Full(x) && OfKind(x, pos, hash)
    && InStep(Bag(x), h, pos) && distinct == KeysOf(h, pos)
  }

  lemma {:induction false} BuiltAll(h: Heap, pos: nat, hash: bool, x: ColumnIndex, distinct: set<int>)
    requires Built(h, {}, x, distinct) && OfKind(x, pos, hash)
    ensures IsBuilt(h, pos, hash, x, distinct)
  {
    assert h - {} == h;
  }

  // -- all the indexes of a table ----------------------------------------------

  /** The columns that are indexed. */
  function Columns(xs: seq<ColumnIndex>): (cs: seq<nat>)
    ensures |cs| == |xs|
  {
    seq(|xs|, i requires 0 <= i < |xs| => xs[i].pos)
  }

  predicate AllSane(xs: seq<ColumnIndex>) {
    forall i :: 0 <= i < |xs| ==> Sane(xs[i])
  }

  /** Every index that was in step with the table is in step with what the table became, and no leaf
      was emptied. */
  ghost predicate Kept(xs: seq<ColumnIndex>, h: Heap, ys: seq<ColumnIndex>, g: Heap) {
    |ys| == |xs| &&
    forall i :: 0 <= i < |xs| ==>
      && (InStep(Bag(xs[i]), h, xs[i].pos) ==> InStep(Bag(ys[i]), g, ys[i].pos))
      && (Full(xs[i]) ==> Full(ys[i]))
  }

  lemma {:induction false} MoreIndexes(xs: seq<ColumnIndex>, x: ColumnIndex)
    requires AllSane(xs) && Sane(x)
    ensures AllSane(xs + [x]) && Columns(xs + [x]) == Columns(xs) + [x.pos]
  {
  }

  /** The first n indexes with the stored row's entry put in, the others untouched. */
  ghost predicate Putting(xs: seq<ColumnIndex>, ys: seq<ColumnIndex>, st: P.Stored, n: nat): (b: bool)
    ensures b ==> |ys| == |xs| && AllSane(ys) && Columns(ys) == Columns(xs)
  {
    && |ys| == |xs| && AllSane(xs)
    && (forall i :: 0 <= i < |xs| ==> Keyed(st, xs[i].pos))
    && forall i :: 0 <= i < |xs| ==> ys[i] == if i < n then Put(xs[i], EntryOf(st, xs[i].pos)) else xs[i]
  }

  ghost predicate EachPut(xs: seq<ColumnIndex>, ys: seq<ColumnIndex>, st: P.Stored) {
    Putting(xs, ys, st, |xs|)
  }

  lemma {:induction false} PuttingNext(xs: seq<ColumnIndex>, ys: seq<ColumnIndex>, st: P.Stored, n: nat)
    requires Putting(xs, ys, st, n) && n < |xs|
    ensures Sane(ys[n]) && Keyed(st, ys[n].pos)
    ensures Putting(xs, ys[n := Put(ys[n], EntryOf(st, ys[n].pos))], st, n + 1)
  {
  }

  /** The first n indexes with one change made, the others untouched. */
  ghost predicate Stepping(xs: seq<ColumnIndex>, ys: seq<ColumnIndex>, c: Change, n: nat): (b: bool)
    ensures b ==> |ys| == |xs| && AllSane(ys) && Columns(ys) == Columns(xs)
  {
    && |ys| == |xs| && AllSane(xs)
    && (forall i :: 0 <= i < |xs| ==> ChangeKeyed(c, xs[i].pos))
    && forall i :: 0 <= i < |xs| ==> ys[i] == if i < n then Step(xs[i], c) else xs[i]
  }

  ghost predicate EachStep(xs: seq<ColumnIndex>, ys: seq<ColumnIndex>, c: Change) {
    Stepping(xs, ys, c, |xs|)
  }

  lemma {:induction false} SteppingNext(xs: seq<ColumnIndex>, ys: seq<ColumnIndex>, c: Change, n: nat)
    requires Stepping(xs, ys, c, n) && n < |xs|
    ensures Sane(ys[n]) && ChangeKeyed(c, ys[n].pos)
    ensures Stepping(xs, ys[n := Step(ys[n], c)], c, n + 1)
  {
  }

  lemma {:induction false} AllFit(xs: seq<ColumnIndex>, row: Row, width: nat, ints: set<nat>)
    requires Fits(row, width, ints) && forall c :: c in Columns(xs) ==> c in ints
    ensures forall rid, i :: 0 <= i < |xs| ==> Keyed(P.Stored(rid, row), xs[i].pos)
  {
    forall i | 0 <= i < |xs| ensures xs[i].pos in ints {
      assert Columns(xs)[i] == xs[i].pos;
    }
  }

  /** Every index with the statement's changes made. */
  ghost predicate EachApplied(xs: seq<ColumnIndex>, ys: seq<ColumnIndex>, h: Heap, cs: seq<Change>) {
    |ys| == |xs| &&
    forall i :: 0 <= i < |xs| ==> Sane(xs[i]) && Doable(h, cs, xs[i].pos) && ys[i] == Applied(xs[i], cs)
  }

  lemma {:induction false} EachPutInStep(xs: seq<ColumnIndex>, ys: seq<ColumnIndex>, h: Heap, st: P.Stored)
    requires EachPut(xs, ys, st) && st.rid !in h
    ensures AllSane(ys) && Columns(ys) == Columns(xs) && Kept(xs, h, ys, h[st.rid := st.row])
  {
    forall i | 0 <= i < |xs|
      ensures InStep(Bag(xs[i]), h, xs[i].pos) ==> InStep(Bag(ys[i]), h[st.rid := st.row], ys[i].pos)
      ensures Full(xs[i]) ==> Full(ys[i])
    {
      if InStep(Bag(xs[i]), h, xs[i].pos) { PutInStep(xs[i], h, st); }
      if Full(xs[i]) { PutFull(xs[i], EntryOf(st, xs[i].pos)); }
    }
  }

  lemma {:induction false} EachAppliedStep(
      xs: seq<ColumnIndex>, ys: seq<ColumnIndex>, zs: seq<ColumnIndex>, h: Heap, cs: seq<Change>, c: Change)
    requires EachApplied(xs, ys, h, cs) && EachStep(ys, zs, c)
    requires c.was.rid in h && h[c.was.rid] == c.was.row && Others(cs, c.was.rid)
    requires c.next.Some? ==> c.next.value.rid !in After(h, cs) - {c.was.rid}
    ensures EachApplied(xs, zs, h, cs + [c]) && After(h, cs + [c]) == Next(After(h, cs), c)
  {
    AfterMore(h, cs, c);
    forall i | 0 <= i < |xs| ensures Doable(h, cs + [c], xs[i].pos) && zs[i] == Applied(xs[i], cs + [c]) {
      assert ys[i].pos == xs[i].pos;
      AppliedMore(xs[i], h, cs, c);
    }
  }

  /** What a statement does to the indexes that were in step: each ends in step exactly when no
      deletion on it missed its entry. */
  lemma {:induction false} EachAppliedIff(xs: seq<ColumnIndex>, ys: seq<ColumnIndex>, h: Heap, cs: seq<Change>)
    requires EachApplied(xs, ys, h, cs)
    ensures AllSane(ys) && Columns(ys) == Columns(xs) && InStepIff(xs, ys, h, cs)
  {
    forall i | 0 <= i < |xs| && InStep(Bag(xs[i]), h, xs[i].pos)
      ensures InStep(Bag(ys[i]), After(h, cs), ys[i].pos) <==> Missed(xs[i], cs) == []
    {
      StatementIff(xs[i], h, cs);
    }
  }

  ghost predicate InStepIff(xs: seq<ColumnIndex>, ys: seq<ColumnIndex>, h: Heap, cs: seq<Change>)
    requires EachApplied(xs, ys, h, cs)
  {
    forall i :: 0 <= i < |xs| && InStep(Bag(xs[i]), h, xs[i].pos) ==>
      (InStep(Bag(ys[i]), After(h, cs), ys[i].pos) <==> Missed(xs[i], cs) == [])
  }

  // -- the statements --------------------------------------------------------

  /** The row with the assignments applied, in order. */
  function Assign(row: Row, sets: seq<Assignment>): (r: Row)
    requires forall i :: 0 <= i < |sets| ==> sets[i].pos < |row|
    ensures |r| == |row|
    decreases |sets|
  {
    if sets == [] then row else Assign(row[sets[0].pos := sets[0].value], sets[1..])
  }

  /** The ith assignment is the last one to its column. */
  predicate Final(sets: seq<Assignment>, i: nat) {
    i < |sets| && forall k :: i < k < |sets| ==> sets[k].pos != sets[i].pos
  }

  /** A row before and after: each assigned column holds the last value assigned to it, and every
      other column holds what it held. */
  predicate NewVersion(was: Row, now: Row, sets: seq<Assignment>) {
    && |now| == |was|
    && (forall i :: 0 <= i < |sets| && Final(sets, i) && sets[i].pos < |was| ==> now[sets[i].pos] == sets[i].value)
    && forall c :: 0 <= c < |was| && Unassigned(sets, c) ==> now[c] == was[c]
  }

  predicate Unassigned(sets: seq<Assignment>, c: nat) {
    forall i :: 0 <= i < |sets| ==> sets[i].pos != c
  }

  lemma {:induction false} AssignVersion(row: Row, sets: seq<Assignment>)
    requires forall i :: 0 <= i < |sets| ==> sets[i].pos < |row|
    ensures NewVersion(row, Assign(row, sets), sets)
    decreases |sets|
  {
    if sets != [] {
      var (a, rest) := (sets[0], sets[1..]);
      var next := row[a.pos := a.value];
      AssignVersion(next, rest);
      var now := Assign(next, rest);
      forall i | 0 <= i < |sets| && Final(sets, i) ensures now[sets[i].pos] == sets[i].value {
        if i == 0 { FinalFirst(sets); } else { assert sets[i] == rest[i - 1] && Final(rest, i - 1); }
      }
      forall c | 0 <= c < |row| && Unassigned(sets, c) ensures now[c] == row[c] {
        assert a.pos != c && Unassigned(rest, c);
      }
    }
  }

  lemma {:induction false} FinalFirst(sets: seq<Assignment>)
    requires sets != [] && Final(sets, 0)
    ensures Unassigned(sets[1..], sets[0].pos)
  {
  }

  /** The rule leaves no choice: a row has one new version. */
  lemma {:induction false} OneVersion(was: Row, a: Row, b: Row, sets: seq<Assignment>)
    requires NewVersion(was, a, sets) && NewVersion(was, b, sets)
    ensures a == b
  {
    forall c | 0 <= c < |was| ensures a[c] == b[c] {
      if !Unassigned(sets, c) { var _ := FinalTo(sets, c); }
    }
  }

  lemma {:induction false} FinalTo(sets: seq<Assignment>, c: nat) returns (i: nat)
    requires !Unassigned(sets, c)
    ensures Final(sets, i) && sets[i].pos == c
  {
    i := |sets| - 1;
    if sets[i].pos != c { i := FinalTo(sets[..i], c); }
  }

  /** The WHERE clause selects the row. */
  predicate Selects(where: Option<Expr>, row: Row, idx: Index) {
    where.Some? ==> Passes(where.value, row, idx)
  }

  /** A row of the table: as many columns as the table, and an integer in each INT one. */
  predicate Fits(row: Row, width: nat, ints: set<nat>) {
    |row| == width && forall c :: c in ints ==> c < width && row[c].IntV?
  }

  lemma {:induction false} AssignFits(row: Row, sets: seq<Assignment>, width: nat, ints: set<nat>)
    requires Fits(row, width, ints)
    requires forall i :: 0 <= i < |sets| ==> sets[i].pos < width && (sets[i].pos in ints ==> sets[i].value.IntV?)
    ensures Fits(Assign(row, sets), width, ints)
    decreases |sets|
  {
    if sets != [] {
      var next := row[sets[0].pos := sets[0].value];
      AssignFits(next, sets[1..], width, ints);
    }
  }

  /** Collecting each selected row once collects the selected part of the bag. */
  lemma {:induction false} CollectedBag(h: Heap, ms: seq<P.Stored>, where: Option<Expr>, idx: Index)
    requires forall m :: m in ms <==> m.rid in h && h[m.rid] == m.row && Selects(where, m.row, idx)
    requires forall i, j :: 0 <= i < j < |ms| ==> ms[i].rid != ms[j].rid
    ensures forall row :: multiset(P.Rows(ms))[row] == if Selects(where, row, idx) then RowBag(h)[row] else 0
    decreases |h|
  {
    assert forall i :: 0 <= i < |ms| ==> ms[i] in ms;
    if h != map[] {
      var rid := Pick(h);
      var m := P.Stored(rid, h[rid]);
      if Selects(where, m.row, idx) {
        assert m in ms;
        var i :| 0 <= i < |ms| && ms[i] == m;
        ExceptStored(ms, i);
        CollectedBag(h - {rid}, ms[..i] + ms[i + 1..], where, idx);
      } else {
        CollectedBag(h - {rid}, ms, where, idx);
      }
    }
  }

  lemma {:induction false} ExceptStored(ms: seq<P.Stored>, i: nat)
    requires i < |ms| && forall a, b :: 0 <= a < b < |ms| ==> ms[a].rid != ms[b].rid
    ensures var ms' := ms[..i] + ms[i + 1..];
      && (forall n :: n in ms' <==> n in ms && n.rid != ms[i].rid)
      && (forall a, b :: 0 <= a < b < |ms'| ==> ms'[a].rid != ms'[b].rid)
      && multiset(P.Rows(ms)) == multiset(P.Rows(ms')) + multiset{ms[i].row}
  {
    var ms' := ms[..i] + ms[i + 1..];
    assert ms == ms[..i] + [ms[i]] + ms[i + 1..];
    forall n | n in ms' ensures n.rid != ms[i].rid {
      var a :| 0 <= a < |ms| && a != i && ms[a] == n;
    }
    RowsSplit(ms, i);
  }

  lemma {:induction false} RowsSplit(ms: seq<P.Stored>, i: nat)
    requires i < |ms|
    ensures multiset(P.Rows(ms)) == multiset(P.Rows(ms[..i] + ms[i + 1..])) + multiset{ms[i].row}
  {
    assert P.Rows(ms) == P.Rows(ms[..i]) + [ms[i].row] + P.Rows(ms[i + 1..]);
    assert P.Rows(ms[..i] + ms[i + 1..]) == P.Rows(ms[..i]) + P.Rows(ms[i + 1..]);
  }

  lemma {:induction false} ReplacedBag(h: Heap, rid: B.RowId, newRid: B.RowId, newRow: Row)
    requires rid in h && newRid !in h - {rid}
    ensures RowBag((h - {rid})[newRid := newRow]) + multiset{h[rid]} == RowBag(h) + multiset{newRow}
  {
    RowBagTake(h, rid);
    RowBagPut(h - {rid}, newRid, newRow);
  }

  /** One row fewer of one kind and one more of another, summed up over the rows so far. */
  lemma {:induction false} MovedBag(
      before: multiset<Row>, after: multiset<Row>, start: multiset<Row>, olds: seq<Row>, news: seq<Row>, o: Row, n: Row)
    requires after + multiset{o} == before + multiset{n}
    requires before + multiset(olds) == start + multiset(news)
    ensures after + multiset(olds + [o]) == start + multiset(news + [n])
  {
    assert multiset(olds + [o]) == multiset(olds) + multiset{o};
    assert multiset(news + [n]) == multiset(news) + multiset{n};
    forall r ensures (after + multiset(olds + [o]))[r] == (start + multiset(news + [n]))[r] {
      assert (after + multiset{o})[r] == (before + multiset{n})[r];
      assert (before + multiset(olds))[r] == (start + multiset(news))[r];
    }
  }

  /** h' is h with more rows. */
  predicate Extends(h': Heap, h: Heap) {
    forall rid :: rid in h ==> rid in h' && h'[rid] == h[rid]
  }

  lemma {:induction false} AddedStep(
      start: multiset<Row>, before: multiset<Row>, after: multiset<Row>, rows: seq<Row>, j: nat)
    requires j < |rows| && before == start + multiset(rows[..j]) && after == before + multiset{rows[j]}
    ensures after == start + multiset(rows[..j + 1])
  {
    assert rows[..j + 1] == rows[..j] + [rows[j]];
  }

  /** Every change puts in the new version of the row it takes out. */
  predicate Renewed(cs: seq<Change>, sets: seq<Assignment>) {
    forall i :: 0 <= i < |cs| ==> cs[i].next.Some? && NewVersion(cs[i].was.row, cs[i].next.value.row, sets)
  }

  function OldRows(cs: seq<Change>): (r: seq<Row>)
    ensures |r| == |cs|
  {
    seq(|cs|, i requires 0 <= i < |cs| => cs[i].was.row)
  }

  function NewRows(cs: seq<Change>): (r: seq<Row>)
    requires forall i :: 0 <= i < |cs| ==> cs[i].next.Some?
    ensures |r| == |cs|
  {
    seq(|cs|, i requires 0 <= i < |cs| => cs[i].next.value.row)
  }

  /** Each row taken out of the table has its new version put in, and that is all that is put in and
      taken out. */
  ghost predicate Balanced(start: multiset<Row>, now: multiset<Row>, cs: seq<Change>, sets: seq<Assignment>) {
    Renewed(cs, sets) && now + multiset(OldRows(cs)) == start + multiset(NewRows(cs))
  }

  lemma {:induction false} BalancedStep(
      start: multiset<Row>, before: multiset<Row>, after: multiset<Row>, cs: seq<Change>, c: Change,
      sets: seq<Assignment>)
    requires Balanced(start, before, cs, sets) && c.next.Some? && NewVersion(c.was.row, c.next.value.row, sets)
    requires after + multiset{c.was.row} == before + multiset{c.next.value.row}
    ensures Balanced(start, after, cs + [c], sets)
  {
    var (o, n) := (c.was.row, c.next.value.row);
    assert OldRows(cs + [c]) == OldRows(cs) + [o];
    assert NewRows(cs + [c]) == NewRows(cs) + [n];
    MovedBag(before, after, start, OldRows(cs), NewRows(cs), o, n);
  }

  /** The table and its indexes after these changes, one to each of the rows so far. */
  ghost predicate Following(
      h: Heap, xs: seq<ColumnIndex>, now: Heap, ys: seq<ColumnIndex>, ms: seq<P.Stored>, cs: seq<Change>)
  {
    && |cs| == |ms| && (forall i :: 0 <= i < |cs| ==> cs[i].was == ms[i])
    && now == After(h, cs) && EachApplied(xs, ys, h, cs)
  }

  lemma {:induction false} FollowingStart(h: Heap, xs: seq<ColumnIndex>)
    requires AllSane(xs)
    ensures Following(h, xs, h, xs, [], [])
  {
  }

  lemma {:induction false} FollowingStep(
      h: Heap, xs: seq<ColumnIndex>, now: Heap, ys: seq<ColumnIndex>, ms: seq<P.Stored>, j: nat, cs: seq<Change>,
      zs: seq<ColumnIndex>, c: Change)
    requires j < |ms| && Following(h, xs, now, ys, ms[..j], cs) && EachStep(ys, zs, c) && c.was == ms[j]
    requires forall a, b :: 0 <= a < b < |ms| ==> ms[a].rid != ms[b].rid
    requires c.was.rid in h && h[c.was.rid] == c.was.row
    requires c.next.Some? ==> c.next.value.rid !in now - {c.was.rid}
    ensures Following(h, xs, Next(now, c), zs, ms[..j + 1], cs + [c])
  {
    forall i | 0 <= i < |cs| ensures cs[i].was.rid != c.was.rid {
      assert ms[..j][i] == ms[i];
    }
    EachAppliedStep(xs, ys, zs, h, cs, c);
    assert ms[..j + 1] == ms[..j] + [ms[j]];
  }

  /** The table with the first j of these rows gone. */
  ghost predicate Dropping(h: Heap, now: Heap, ms: seq<P.Stored>, j: nat) {
    && j <= |ms| && |now| + j == |h|
    && (forall rid :: rid in now <==> rid in h && forall i :: 0 <= i < j ==> ms[i].rid != rid)
    && forall rid :: rid in now ==> now[rid] == h[rid]
  }

  lemma {:induction false} DroppingNext(h: Heap, now: Heap, ms: seq<P.Stored>, j: nat)
    requires Dropping(h, now, ms, j) && j < |ms| && ms[j].rid in h && h[ms[j].rid] == ms[j].row
    requires forall a, b :: 0 <= a < b < |ms| ==> ms[a].rid != ms[b].rid
    ensures ms[j].rid in now && now[ms[j].rid] == ms[j].row
    ensures Dropping(h, now - {ms[j].rid}, ms, j + 1)
  {
    assert now.Keys == (now - {ms[j].rid}).Keys + {ms[j].rid};
  }

  /** The table and its indexes after the first j of these rows have been deleted. */
  ghost predicate Deleting(
      h: Heap, xs: seq<ColumnIndex>, now: Heap, ys: seq<ColumnIndex>, ms: seq<P.Stored>, j: nat, cs: seq<Change>)
  {
    && j <= |ms| && (forall i :: 0 <= i < |ms| ==> ms[i].rid in h && h[ms[i].rid] == ms[i].row)
    && (forall a, b :: 0 <= a < b < |ms| ==> ms[a].rid != ms[b].rid)
    && Dropping(h, now, ms, j) && Following(h, xs, now, ys, ms[..j], cs)
  }

  lemma {:induction false} DeletingStart(h: Heap, xs: seq<ColumnIndex>, ms: seq<P.Stored>)
    requires AllSane(xs) && forall m :: m in ms ==> m.rid in h && h[m.rid] == m.row
    requires forall a, b :: 0 <= a < b < |ms| ==> ms[a].rid != ms[b].rid
    ensures Deleting(h, xs, h, xs, ms, 0, [])
  {
    assert forall i :: 0 <= i < |ms| ==> ms[i] in ms;
    assert ms[..0] == [];
    FollowingStart(h, xs);
  }

  /** The table where only rows of this list have been replaced, and from the jth on none has. */
  ghost predicate Replacing(h: Heap, now: Heap, ms: seq<P.Stored>, j: nat) {
    && j <= |ms| && |now| == |h|
    && (forall i :: j <= i < |ms| ==> ms[i].rid in now && now[ms[i].rid] == ms[i].row)
    && forall rid :: rid in h && P.Stored(rid, h[rid]) !in ms ==> rid in now && now[rid] == h[rid]
  }

  lemma {:induction false} ReplacingNext(h: Heap, now: Heap, ms: seq<P.Stored>, j: nat, c: Change)
    requires Replacing(h, now, ms, j) && j < |ms| && c.was == ms[j] && ms[j].rid in h && h[ms[j].rid] == ms[j].row
    requires forall a, b :: 0 <= a < b < |ms| ==> ms[a].rid != ms[b].rid
    requires c.next.Some? && c.next.value.rid !in now - {c.was.rid} && |Next(now, c)| == |now|
    ensures Replacing(h, Next(now, c), ms, j + 1)
  {
    assert ms[j] in ms;
  }

  /** The table and its indexes after the first j of these rows have been updated. */
  ghost predicate Updating(
      h: Heap, xs: seq<ColumnIndex>, now: Heap, ys: seq<ColumnIndex>, ms: seq<P.Stored>, j: nat, cs: seq<Change>,
      sets: seq<Assignment>)
  {
    && j <= |ms| && (forall i :: 0 <= i < |ms| ==> ms[i].rid in h && h[ms[i].rid] == ms[i].row)
    && (forall a, b :: 0 <= a < b < |ms| ==> ms[a].rid != ms[b].rid)
    && Replacing(h, now, ms, j) && Balanced(RowBag(h), RowBag(now), cs, sets)
    && Following(h, xs, now, ys, ms[..j], cs)
  }

  lemma {:induction false} UpdatingStart(
      h: Heap, xs: seq<ColumnIndex>, ms: seq<P.Stored>, sets: seq<Assignment>)
    requires AllSane(xs) && forall m :: m in ms ==> m.rid in h && h[m.rid] == m.row
    requires forall a, b :: 0 <= a < b < |ms| ==> ms[a].rid != ms[b].rid
    ensures Updating(h, xs, h, xs, ms, 0, [], sets)
  {
    assert forall i :: 0 <= i < |ms| ==> ms[i] in ms;
    assert ms[..0] == [];
    assert OldRows([]) == [] && NewRows([]) == [];
    FollowingStart(h, xs);
  }

  class Table {
    var heap: Heap
    var indexes: seq<ColumnIndex>
    var rowCount: int
    const width: nat
    /** The columns declared INT. */
    const ints: set<nat>
    /** Where the heap file puts the nth record it stores, given the live addresses: any policy
        that picks a free address, reused slots included. */
    const place: (nat, set<B.RowId>) -> B.RowId
    var stored: nat

    /** Rows fit the table, and its indexes are sound ones on INT columns. */
    ghost predicate InOrder()
      reads this
    {
      && (forall n, live :: place(n, live) !in live)
      && (forall c :: c in ints ==> c < width)
      && (forall rid :: rid in heap ==> Fits(heap[rid], width, ints))
      && (forall c :: c in Columns(indexes) ==> c in ints)
      && AllSane(indexes)
    }

    ghost predicate Valid()
      reads this
    {
      InOrder() && rowCount == |heap|
    }

    /** The same indexes, on the same columns. */
    twostate predicate SameColumns()
      reads this
    {
      Columns(indexes) == Columns(old(indexes))
    }

    constructor (width: nat, ints: set<nat>, place: (nat, set<B.RowId>) -> B.RowId)
      requires forall n, live :: place(n, live) !in live
      requires forall c :: c in ints ==> c < width
      ensures Valid() && heap == map[] && indexes == [] && this.width == width && this.ints == ints
    {
      this.width, this.ints, this.place := width, ints, place;
      heap, indexes, rowCount, stored := map[], [], 0, 0;
    }

    method HeapInsert(row: Row) returns (rid: B.RowId)
      requires forall n, live :: place(n, live) !in live
      modifies `heap, `stored
      ensures rid !in old(heap) && heap == old(heap)[rid := row] && |heap| == |old(heap)| + 1
    {
      rid := place(stored, heap.Keys);
      stored := stored + 1;
      heap := heap[rid := row];
    }

    method HeapDelete(rid: B.RowId)
      requires rid in heap
      modifies `heap
      ensures heap == old(heap) - {rid} && |heap| == |old(heap)| - 1
    {
      heap := heap - {rid};
      assert old(heap).Keys == heap.Keys + {rid};
    }

    /** Put a row's entry into every index. */
    method IndexAll(st: P.Stored)
      requires Putting(indexes, indexes, st, 0)
      modifies `indexes
      ensures EachPut(old(indexes), indexes, st)
    {
      var i := 0;
      while i < |indexes|
        invariant i <= |old(indexes)| && Putting(old(indexes), indexes, st, i)
      {
        PuttingNext(old(indexes), indexes, st, i);
        indexes := indexes[i := Put(indexes[i], EntryOf(st, indexes[i].pos))];
        i := i + 1;
      }
    }

    /** Take a row's entry out of every index. */
    method UnindexAll(st: P.Stored)
      requires Stepping(indexes, indexes, Change(st, None), 0)
      modifies `indexes
      ensures EachStep(old(indexes), indexes, Change(st, None))
    {
      var i := 0;
      while i < |indexes|
        invariant i <= |old(indexes)| && Stepping(old(indexes), indexes, Change(st, None), i)
      {
        SteppingNext(old(indexes), indexes, Change(st, None), i);
        indexes := indexes[i := Take(indexes[i], EntryOf(st, indexes[i].pos))];
        i := i + 1;
      }
    }

    /** Re-point every index from a row at its old address to its new version at its new one. */
    method RepointAll(st: P.Stored, now: P.Stored)
      requires Stepping(indexes, indexes, Change(st, Some(now)), 0)
      modifies `indexes
      ensures EachStep(old(indexes), indexes, Change(st, Some(now)))
    {
      var i := 0;
      while i < |indexes|
        invariant i <= |old(indexes)| && Stepping(old(indexes), indexes, Change(st, Some(now)), i)
      {
        SteppingNext(old(indexes), indexes, Change(st, Some(now)), i);
        var y := Take(indexes[i], EntryOf(st, indexes[i].pos));
        indexes := indexes[i := Put(y, EntryOf(now, y.pos))];
        i := i + 1;
      }
    }

    /** Store one row and index it. */
    method StoreRow(row: Row)
      requires InOrder() && Fits(row, width, ints)
      modifies `heap, `stored, `indexes
      ensures InOrder() && SameColumns() && |heap| == |old(heap)| + 1
      ensures Kept(old(indexes), old(heap), indexes, heap)
      ensures RowBag(heap) == RowBag(old(heap)) + multiset{row} && Extends(heap, old(heap))
    {
      var rid := HeapInsert(row);
      RowBagPut(old(heap), rid, row);
      AllFit(indexes, row, width, ints);
      IndexAll(P.Stored(rid, row));
      EachPutInStep(old(indexes), indexes, old(heap), P.Stored(rid, row));
    }

    /** INSERT. */
    method InsertRows(rows: seq<Row>) returns (count: nat)
      requires Valid() && forall j :: 0 <= j < |rows| ==> Fits(rows[j], width, ints)
      modifies this
      ensures Valid() && SameColumns() && count == |rows|
      ensures Kept(old(indexes), old(heap), indexes, heap)
      ensures RowBag(heap) == RowBag(old(heap)) + multiset(rows) && Extends(heap, old(heap))
    {
      var j := 0;
      while j < |rows|
        invariant j <= |rows| && InOrder() && SameColumns() && |heap| == |old(heap)| + j
        invariant RowBag(heap) == RowBag(old(heap)) + multiset(rows[..j])
        invariant Extends(heap, old(heap)) && Kept(old(indexes), old(heap), indexes, heap)
        invariant rowCount == old(rowCount)
      {
        ghost var before := heap;
        StoreRow(rows[j]);
        AddedStep(RowBag(old(heap)), RowBag(before), RowBag(heap), rows, j);
        j := j + 1;
      }
      assert rows[..j] == rows;
      rowCount := rowCount + |rows|;
      count := |rows|;
    }

    /** A new index with an entry for every row, and its distinct keys, read off the table. */
    method Build(pos: nat, hash: bool) returns (built: ColumnIndex, distinct: set<int>)
      requires Indexable(heap, pos)
      ensures IsBuilt(heap, pos, hash, built, distinct)
    {
      built, distinct := Fresh(pos, hash), {};
      FreshBuilt(heap, pos, hash);
      var todo := heap.Keys;
      while todo != {}
        invariant todo <= heap.Keys && Built(heap, todo, built, distinct) && OfKind(built, pos, hash)
        decreases |todo|
      {
        var rid :| rid in todo;
        BuiltStep(heap, todo, built, distinct, rid);
        built := Put(built, EntryOf(P.Stored(rid, heap[rid]), pos));
        distinct := distinct + {heap[rid][pos].i};
        todo := todo - {rid};
      }
      BuiltAll(heap, pos, hash, built, distinct);
    }

    /** CREATE INDEX: an INT column gets one more index, of the kind asked for and in step with the
        table, and any other column is refused; the rows and the other indexes are left alone. */
    method CreateIndex(pos: nat, hash: bool) returns (ok: bool, distinct: set<int>)
      requires Valid()
      modifies `indexes
      ensures Valid() && ok == (pos in ints)
      ensures !ok ==> indexes == old(indexes)
      ensures ok ==> |indexes| == |old(indexes)| + 1 && indexes[..|old(indexes)|] == old(indexes)
      ensures ok ==> IsBuilt(heap, pos, hash, indexes[|old(indexes)|], distinct)
    {
      ok, distinct := pos in ints, {};
      if ok {
        var x;
        x, distinct := Build(pos, hash);
        MoreIndexes(indexes, x);
        indexes := indexes + [x];
      }
    }

    /** The rows a WHERE clause selects, each once; the table is only read. */
    method Collect(where: Option<Expr>, idx: Index) returns (matches: seq<P.Stored>)
      ensures forall m :: m in matches <==> m.rid in heap && heap[m.rid] == m.row && Selects(where, m.row, idx)
      ensures forall i, j :: 0 <= i < j < |matches| ==> matches[i].rid != matches[j].rid
    {
      matches := [];
      var todo := heap.Keys;
      while todo != {}
        invariant todo <= heap.Keys
        invariant forall m :: m in matches <==>
          m.rid in heap && m.rid !in todo && heap[m.rid] == m.row && Selects(where, m.row, idx)
        invariant forall i, j :: 0 <= i < j < |matches| ==> matches[i].rid != matches[j].rid
        decreases |todo|
      {
        var rid :| rid in todo;
        ghost var before := matches;
        if Selects(where, heap[rid], idx) {
          assert forall i :: 0 <= i < |matches| ==> matches[i] in matches;
          matches := matches + [P.Stored(rid, heap[rid])];
        }
        todo := todo - {rid};
      }
    }

    /** Delete one row and its index entries. */
    method DropRow(m: P.Stored)
      requires InOrder() && m.rid in heap && heap[m.rid] == m.row
      modifies `heap, `indexes
      ensures InOrder() && heap == old(heap) - {m.rid} && |heap| == |old(heap)| - 1
      ensures EachStep(old(indexes), indexes, Change(m, None)) && SameColumns()
    {
      HeapDelete(m.rid);
      AllFit(indexes, m.row, width, ints);
      UnindexAll(m);
    }

    /** Delete the next of the rows that were collected before. */
    method DeleteNext(
        matches: seq<P.Stored>, j: nat, ghost h: Heap, ghost xs: seq<ColumnIndex>, ghost changes: seq<Change>)
      requires InOrder() && j < |matches| && Deleting(h, xs, heap, indexes, matches, j, changes)
      modifies `heap, `indexes
      ensures InOrder() && SameColumns()
      ensures Deleting(h, xs, heap, indexes, matches, j + 1, changes + [Change(matches[j], None)])
    {
      DroppingNext(h, heap, matches, j);
      DropRow(matches[j]);
      FollowingStep(
        h, xs, old(heap), old(indexes), matches, j, changes, indexes, Change(matches[j], None));
    }

    /** DELETE: exactly the selected rows go, and an index that was in step stays so exactly when no
        deletion on it missed its entry. */
    method DeleteRows(where: Option<Expr>, idx: Index) returns (count: nat, ghost changes: seq<Change>)
      requires Valid()
      modifies this
      ensures Valid() && SameColumns()
      ensures forall rid :: rid in heap <==> rid in old(heap) && !Selects(where, old(heap)[rid], idx)
      ensures forall rid :: rid in heap ==> heap[rid] == old(heap)[rid]
      ensures count == |old(heap)| - |heap|
      ensures heap == After(old(heap), changes) && EachApplied(old(indexes), indexes, old(heap), changes)
      ensures InStepIff(old(indexes), indexes, old(heap), changes)
    {
      var matches := Collect(where, idx);
      var j := 0;
      changes := [];
      DeletingStart(heap, indexes, matches);
      while j < |matches|
        invariant InOrder() && SameColumns() && rowCount == old(rowCount) && j <= |matches|
        invariant Deleting(old(heap), old(indexes), heap, indexes, matches, j, changes)
      {
        DeleteNext(matches, j, old(heap), old(indexes), changes);
        changes := changes + [Change(matches[j], None)];
        j := j + 1;
      }
      rowCount := rowCount - |matches|;
      count := |matches|;
      EachAppliedIff(old(indexes), indexes, old(heap), changes);
      forall rid | rid in old(heap) && Selects(where, old(heap)[rid], idx) ensures rid !in heap {
        assert P.Stored(rid, old(heap)[rid]) in matches;
      }
    }

    /** Drop a row from the heap and store its new version, which may get the old address. */
    method MoveRow(rid: B.RowId, newRow: Row) returns (newRid: B.RowId)
      requires rid in heap && forall n, live :: place(n, live) !in live
      modifies `heap, `stored
      ensures newRid !in old(heap) - {rid}
      ensures heap == (old(heap) - {rid})[newRid := newRow] && |heap| == |old(heap)|
    {
      HeapDelete(rid);
      newRid := HeapInsert(newRow);
    }

    /** Replace one row by its new version, wherever the heap puts that. */
    method ReplaceRow(m: P.Stored, newRow: Row) returns (c: Change)
      requires InOrder() && m.rid in heap && heap[m.rid] == m.row && Fits(newRow, width, ints)
      modifies `heap, `stored, `indexes
      ensures InOrder() && SameColumns() && |heap| == |old(heap)|
      ensures c.was == m && c.next.Some? && c.next.value.rid !in old(heap) - {m.rid}
      ensures heap == Next(old(heap), c) && EachStep(old(indexes), indexes, c) && c.next.value.row == newRow
      ensures RowBag(heap) + multiset{m.row} == RowBag(old(heap)) + multiset{newRow}
    {
      var newRid := MoveRow(m.rid, newRow);
      ReplacedBag(old(heap), m.rid, newRid, newRow);
      AllFit(indexes, m.row, width, ints);
      AllFit(indexes, newRow, width, ints);
      RepointAll(m, P.Stored(newRid, newRow));
      c := Change(m, Some(P.Stored(newRid, newRow)));
    }

    /** Update one row. */
    method UpdateRow(m: P.Stored, sets: seq<Assignment>) returns (c: Change)
      requires InOrder() && m.rid in heap && heap[m.rid] == m.row
      requires forall i :: 0 <= i < |sets| ==>
        sets[i].pos < width && (sets[i].pos in ints ==> sets[i].value.IntV?)
      modifies `heap, `stored, `indexes
      ensures InOrder() && SameColumns() && |heap| == |old(heap)| && |m.row| == width
      ensures c.was == m && c.next.Some? && c.next.value.rid !in old(heap) - {m.rid}
      ensures heap == Next(old(heap), c) && EachStep(old(indexes), indexes, c)
      ensures NewVersion(m.row, c.next.value.row, sets)
      ensures RowBag(heap) + multiset{m.row} == RowBag(old(heap)) + multiset{c.next.value.row}
    {
      AssignFits(m.row, sets, width, ints);
      AssignVersion(m.row, sets);
      c := ReplaceRow(m, Assign(m.row, sets));
    }

    /** Update the next of the rows that were collected before. */
    method UpdateNext(
        matches: seq<P.Stored>, j: nat, sets: seq<Assignment>, ghost h: Heap, ghost xs: seq<ColumnIndex>,
        ghost changes: seq<Change>)
      returns (c: Change)
      requires InOrder() && j < |matches| && Updating(h, xs, heap, indexes, matches, j, changes, sets)
      requires forall i :: 0 <= i < |sets| ==> sets[i].pos < width && (sets[i].pos in ints ==> sets[i].value.IntV?)
      modifies `heap, `stored, `indexes
      ensures InOrder() && SameColumns()
      ensures Updating(h, xs, heap, indexes, matches, j + 1, changes + [c], sets)
    {
      c := UpdateRow(matches[j], sets);
      BalancedStep(RowBag(h), RowBag(old(heap)), RowBag(heap), changes, c, sets);
      ReplacingNext(h, old(heap), matches, j, c);
      FollowingStep(h, xs, old(heap), old(indexes), matches, j, changes, indexes, c);
    }

    /** Update rows that were collected before. */
    method UpdateMatches(matches: seq<P.Stored>, sets: seq<Assignment>) returns (ghost changes: seq<Change>)
      requires InOrder()
      requires forall m :: m in matches ==> m.rid in heap && heap[m.rid] == m.row
      requires forall i, j :: 0 <= i < j < |matches| ==> matches[i].rid != matches[j].rid
      requires forall i :: 0 <= i < |sets| ==> sets[i].pos < width && (sets[i].pos in ints ==> sets[i].value.IntV?)
      modifies `heap, `stored, `indexes
      ensures InOrder() && SameColumns() && |heap| == |old(heap)|
      ensures |changes| == |matches| && forall i :: 0 <= i < |changes| ==> changes[i].was == matches[i]
      ensures Balanced(RowBag(old(heap)), RowBag(heap), changes, sets)
      ensures forall rid :: rid in old(heap) && P.Stored(rid, old(heap)[rid]) !in matches ==>
        rid in heap && heap[rid] == old(heap)[rid]
      ensures heap == After(old(heap), changes) && EachApplied(old(indexes), indexes, old(heap), changes)
    {
      var j := 0;
      changes := [];
      UpdatingStart(heap, indexes, matches, sets);
      while j < |matches|
        invariant InOrder() && SameColumns() && j <= |matches|
        invariant Updating(old(heap), old(indexes), heap, indexes, matches, j, changes, sets)
      {
        var c := UpdateNext(matches, j, sets, old(heap), old(indexes), changes);
        changes := changes + [c];
        j := j + 1;
      }
      assert matches[..j] == matches;
    }

    /** UPDATE: the selected rows, and no others, are replaced, each by its new version, and an index that
        was in step stays so exactly when no deletion on it missed its entry. */
    method UpdateRows(where: Option<Expr>, sets: seq<Assignment>, idx: Index)
      returns (count: nat, ghost changes: seq<Change>)
      requires Valid()
      requires forall i :: 0 <= i < |sets| ==> sets[i].pos < width && (sets[i].pos in ints ==> sets[i].value.IntV?)
      modifies this
      ensures Valid() && SameColumns() && count == |changes| && |heap| == |old(heap)|
      ensures forall row ::
        multiset(OldRows(changes))[row] == if Selects(where, row, idx) then RowBag(old(heap))[row] else 0
      ensures Balanced(RowBag(old(heap)), RowBag(heap), changes, sets)
      ensures forall rid :: rid in old(heap) && !Selects(where, old(heap)[rid], idx) ==>
        rid in heap && heap[rid] == old(heap)[rid]
      ensures heap == After(old(heap), changes) && EachApplied(old(indexes), indexes, old(heap), changes)
      ensures InStepIff(old(indexes), indexes, old(heap), changes)
    {
      var matches := Collect(where, idx);
      CollectedBag(heap, matches, where, idx);
      changes := UpdateMatches(matches, sets);
      EachAppliedIff(old(indexes), indexes, old(heap), changes);
      count := |matches|;
      assert OldRows(changes) == P.Rows(matches);
    }
  }
}
