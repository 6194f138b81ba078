/** An index on a column, as statements keep it up to date row by row (queryx/database.py). */
module ColumnIndexes {
  import opened Wrappers
  import opened Sql
  import B = BTreeShape
  import P = Planner
  import Runs = BTreeRuns
  import T = BTreeRoot
  import W = BTreeWalk

  type Heap = map<B.RowId, Row>

  /** An index on the column at `pos`: a hash index, as the bag of entries it holds, or a B+ tree. */
  datatype ColumnIndex =
    | HashColumn(pos: nat, bag: multiset<B.Entry>)
    | TreeColumn(pos: nat, tree: B.Tree, free: nat, maxKeys: nat)

  function Bag(x: ColumnIndex): multiset<B.Entry> {
    match x
    case HashColumn(_, bag) => bag
    case TreeColumn(_, t, _, _) => multiset(B.Flat(t))
  }

  /** What every reachable index keeps. */
  predicate Sane(x: ColumnIndex) {
    x.TreeColumn? ==> x.maxKeys >= 2 && T.Sound(x.tree, x.free, x.maxKeys)
  }

  /** Indexes of one kind on one column. */
  predicate Alike(y: ColumnIndex, x: ColumnIndex) {
    y.pos == x.pos && (y.TreeColumn? <==> x.TreeColumn?)
  }

  /** A tree without an empty leaf; a hash index always is. */
  predicate Full(x: ColumnIndex) {
    x.TreeColumn? ==> W.NoEmptyLeaf(x.tree)
  }

  const MAX_KEYS: nat := 254

  /** A new index, with the node size the database uses. */
  function Fresh(pos: nat, hash: bool): (x: ColumnIndex)
    ensures Sane(x) && Full(x) && Bag(x) == multiset{}
  {
    if hash then HashColumn(pos, multiset{})
    else
      Runs.FreshSound(MAX_KEYS);
      TreeColumn(pos, Runs.EMPTY, 3, MAX_KEYS)
  }

  /** Deletion gets to the entry: a B+ tree's walk stops at the first empty leaf. */
  predicate Reaches(x: ColumnIndex, e: B.Entry)
    requires Sane(x)
  {
    x.TreeColumn? ==> e in W.Visible(x.tree, e.key)
  }

  /** `index.insert`. */
  function Put(x: ColumnIndex, e: B.Entry): (y: ColumnIndex)
    requires Sane(x)
    ensures Sane(y) && Alike(y, x) && Bag(y) == Bag(x) + multiset{e}
  {
    match x
    case HashColumn(pos, bag) => HashColumn(pos, bag + multiset{e})
    case TreeColumn(pos, t, free, m) =>
      Runs.PagesOfRoot(t, free);
      T.InsertRootSound(t, e, free, m);
      Runs.InsortBag(B.Flat(t), e);
      var (t', free') := T.InsertRoot(t, e, free, m);
      TreeColumn(pos, t', free', m)
  }

  /** `index.delete`. */
  function Take(x: ColumnIndex, e: B.Entry): (y: ColumnIndex)
    requires Sane(x)
    ensures Sane(y) && Alike(y, x)
    ensures Bag(y) == if Reaches(x, e) then Bag(x) - multiset{e} else Bag(x)
  {
    match x
    case HashColumn(pos, bag) => HashColumn(pos, bag - multiset{e})
    case TreeColumn(pos, t, free, m) =>
      T.DeleteRootSound(t, e, free, m);
      TakenBag(t, e);
      TreeColumn(pos, T.DeleteRoot(t, e), free, m)
  }

  lemma {:induction false} TakenBag(t: B.Tree, e: B.Entry)
    requires B.Ordered(t) && B.Distinct(B.Pages(t))
    ensures multiset(B.Flat(T.DeleteRoot(t, e)))
      == if e in W.Visible(t, e.key) then multiset(B.Flat(t)) - multiset{e} else multiset(B.Flat(t))
  {
    T.DeleteRootFlat(t, e);
    if e in W.Visible(t, e.key) {
      W.VisibleHidden(t, e.key);
      Runs.RemoveFirstBag(B.Flat(t), e);
    }
  }

  lemma {:induction false} PutFull(x: ColumnIndex, e: B.Entry)
    requires Sane(x) && Full(x)
    ensures Full(Put(x, e))
  {
    if x.TreeColumn? {
      Runs.PagesOfRoot(x.tree, x.free);
      Runs.InsertKeepsLeaves(x.tree, e, x.free, x.maxKeys);
    }
  }

  // -- agreement -------------------------------------------------------------

  /** Every row has an integer in the column. */
  predicate Indexable(h: Heap, pos: nat) {
    forall rid :: rid in h ==> pos < |h[rid]| && h[rid][pos].IntV?
  }

  /** The index holds one entry for each live row, under the row's key, and nothing else. */
  ghost predicate InStep(bag: multiset<B.Entry>, h: Heap, pos: nat) {
    Indexable(h, pos) &&
    forall e :: bag[e] == if e.rid in h && h[e.rid][pos] == IntV(e.key) then 1 else 0
  }

  /** The row has an integer in the column. */
  predicate Keyed(st: P.Stored, pos: nat) {
    pos < |st.row| && st.row[pos].IntV?
  }

  function EntryOf(st: P.Stored, pos: nat): B.Entry
    requires Keyed(st, pos)
  {
    B.Entry(st.row[pos].i, st.rid)
  }

  lemma {:induction false} StepIn(bag: multiset<B.Entry>, h: Heap, pos: nat, st: P.Stored)
    requires InStep(bag, h, pos) && st.rid !in h && Keyed(st, pos)
    ensures InStep(bag + multiset{EntryOf(st, pos)}, h[st.rid := st.row], pos)
  {
  }

  lemma {:induction false} StepOut(bag: multiset<B.Entry>, h: Heap, pos: nat, st: P.Stored)
    requires InStep(bag, h, pos) && st.rid in h && h[st.rid] == st.row && Keyed(st, pos)
    ensures bag[EntryOf(st, pos)] == 1
    ensures InStep(bag - multiset{EntryOf(st, pos)}, h - {st.rid}, pos)
  {
  }

  /** A table is in step with one bag of entries. */
  lemma {:induction false} InStepOnce(a: multiset<B.Entry>, b: multiset<B.Entry>, h: Heap, pos: nat)
    requires InStep(a, h, pos) && InStep(b, h, pos)
    ensures a == b
  {
  }

  /** Entries beyond that put an index out of step. */
  lemma {:induction false} SurplusIff(bag: multiset<B.Entry>, more: seq<B.Entry>, h: Heap, pos: nat)
    requires InStep(bag, h, pos)
    ensures InStep(bag + multiset(more), h, pos) <==> more == []
  {
    assert |bag + multiset(more)| == |bag| + |more|;
    if more == [] {
      assert bag + multiset(more) == bag;
    }
    if InStep(bag + multiset(more), h, pos) {
      InStepOnce(bag + multiset(more), bag, h, pos);
    }
  }

  /** Storing a row's entry keeps an index of either kind in step. */
  lemma {:induction false} PutInStep(x: ColumnIndex, h: Heap, st: P.Stored)
    requires Sane(x) && InStep(Bag(x), h, x.pos) && st.rid !in h && Keyed(st, x.pos)
    ensures InStep(Bag(Put(x, EntryOf(st, x.pos))), h[st.rid := st.row], x.pos)
  {
    StepIn(Bag(x), h, x.pos, st);
  }

  // -- statements --------------------------------------------------------------

  /** What a statement does to one row: delete it, or replace it by a new version, which may have
      taken the old one's address. */
  datatype Change = Change(was: P.Stored, next: Option<P.Stored>)

  /** The table after changes, made in order. */
  function After(h: Heap, cs: seq<Change>): Heap {
    if cs == [] then h else Next(After(h, cs[..|cs| - 1]), cs[|cs| - 1])
  }

  function Next(h: Heap, c: Change): Heap {
    var g := h - {c.was.rid};
    if c.next.None? then g else g[c.next.value.rid := c.next.value.row]
  }

  predicate ChangeKeyed(c: Change, pos: nat) {
    Keyed(c.was, pos) && (c.next.Some? ==> Keyed(c.next.value, pos))
  }

  predicate AllKeyed(cs: seq<Change>, pos: nat) {
    forall i :: 0 <= i < |cs| ==> ChangeKeyed(cs[i], pos)
  }

  /** The changes are to other rows. */
  predicate Others(cs: seq<Change>, rid: B.RowId) {
    forall i :: 0 <= i < |cs| ==> cs[i].was.rid != rid
  }

  /** The changes of a statement: each to another row of the table, and a new version gets an
      address that is free by then. */
  predicate Doable(h: Heap, cs: seq<Change>, pos: nat): (b: bool)
    ensures b ==> AllKeyed(cs, pos)
  {
    cs == [] ||
    var before, c := cs[..|cs| - 1], cs[|cs| - 1];
    && Doable(h, before, pos) && ChangeKeyed(c, pos)
    && c.was.rid in h && h[c.was.rid] == c.was.row && Others(before, c.was.rid)
    && (c.next.Some? ==> c.next.value.rid !in After(h, before) - {c.was.rid})
  }

  /** An index with a row's entry taken out, and that of its new version put in. */
  function Step(x: ColumnIndex, c: Change): (y: ColumnIndex)
    requires Sane(x) && ChangeKeyed(c, x.pos)
    ensures Sane(y) && Alike(y, x)
  {
    var y := Take(x, EntryOf(c.was, x.pos));
    if c.next.None? then y else Put(y, EntryOf(c.next.value, x.pos))
  }

  /** The index after changes, made in order. */
  function Applied(x: ColumnIndex, cs: seq<Change>): (y: ColumnIndex)
    requires Sane(x) && AllKeyed(cs, x.pos)
    ensures Sane(y) && Alike(y, x)
  {
    if cs == [] then x else Step(Applied(x, cs[..|cs| - 1]), cs[|cs| - 1])
  }

  /** The entries that deletion did not get to when their turn came. */
  function Missed(x: ColumnIndex, cs: seq<Change>): seq<B.Entry>
    requires Sane(x) && AllKeyed(cs, x.pos)
  {
    if cs == [] then []
    else
      var before, c := cs[..|cs| - 1], cs[|cs| - 1];
      var e := EntryOf(c.was, x.pos);
      Missed(x, before) + (if Reaches(Applied(x, before), e) then [] else [e])
  }

  lemma {:induction false} AfterMore(h: Heap, cs: seq<Change>, c: Change)
    ensures After(h, cs + [c]) == Next(After(h, cs), c)
  {
    assert (cs + [c])[..|cs|] == cs;
  }

  /** One more change. */
  lemma {:induction false} AppliedMore(x: ColumnIndex, h: Heap, cs: seq<Change>, c: Change)
    requires Sane(x) && Doable(h, cs, x.pos) && ChangeKeyed(c, x.pos)
    requires c.was.rid in h && h[c.was.rid] == c.was.row && Others(cs, c.was.rid)
    requires c.next.Some? ==> c.next.value.rid !in After(h, cs) - {c.was.rid}
    ensures Doable(h, cs + [c], x.pos) && Applied(x, cs + [c]) == Step(Applied(x, cs), c)
  {
    assert (cs + [c])[..|cs|] == cs;
  }

  /** A row whose turn has not come is where it was. */
  lemma {:induction false} StillThere(h: Heap, cs: seq<Change>, pos: nat, rid: B.RowId)
    requires Doable(h, cs, pos) && rid in h && Others(cs, rid)
    ensures rid in After(h, cs) && After(h, cs)[rid] == h[rid]
  {
    if cs != [] {
      StillThere(h, cs[..|cs| - 1], pos, rid);
    }
  }

  /** One change to a table keeps a bag in step that loses one entry and gains the other. */
  lemma {:induction false} StepOver(bag: multiset<B.Entry>, h: Heap, pos: nat, c: Change)
    requires InStep(bag, h, pos) && ChangeKeyed(c, pos) && c.was.rid in h && h[c.was.rid] == c.was.row
    requires c.next.Some? ==> c.next.value.rid !in h - {c.was.rid}
    ensures InStep(
      bag - multiset{EntryOf(c.was, pos)}
        + (if c.next.None? then multiset{} else multiset{EntryOf(c.next.value, pos)}),
      Next(h, c), pos)
  {
    var e := EntryOf(c.was, pos);
    StepOut(bag, h, pos, c.was);
    if c.next.None? {
      assert bag - multiset{e} + multiset{} == bag - multiset{e};
    } else {
      StepIn(bag - multiset{e}, h - {c.was.rid}, pos, c.next.value);
    }
  }

  /** The same index as if it were a hash index, which gets to every entry. */
  function Ideal(x: ColumnIndex): ColumnIndex {
    HashColumn(x.pos, Bag(x))
  }

  lemma {:induction false} IdealInStep(x: ColumnIndex, h: Heap, cs: seq<Change>)
    requires InStep(Bag(x), h, x.pos) && Doable(h, cs, x.pos)
    ensures Applied(Ideal(x), cs).HashColumn? && InStep(Bag(Applied(Ideal(x), cs)), After(h, cs), x.pos)
  {
    if cs != [] {
      var before, c := cs[..|cs| - 1], cs[|cs| - 1];
      IdealInStep(x, h, before);
      StillThere(h, before, x.pos, c.was.rid);
      StepOver(Bag(Applied(Ideal(x), before)), After(h, before), x.pos, c);
    }
  }

  /** What an index holds beyond what it should is what deletion did not get to. */
  lemma {:induction false} MissedStays(x: ColumnIndex, h: Heap, cs: seq<Change>)
    requires Sane(x) && InStep(Bag(x), h, x.pos) && Doable(h, cs, x.pos)
    ensures Bag(Applied(x, cs)) == Bag(Applied(Ideal(x), cs)) + multiset(Missed(x, cs))
  {
    if cs != [] {
      var before, c := cs[..|cs| - 1], cs[|cs| - 1];
      MissedStays(x, h, before);
      IdealInStep(x, h, before);
      StillThere(h, before, x.pos, c.was.rid);
      var y := Applied(Ideal(x), before);
      StepOut(Bag(y), After(h, before), x.pos, c.was);
      MissedStep(Applied(x, before), y, c, Missed(x, before));
    }
  }

  lemma {:induction false} MissedStep(x: ColumnIndex, y: ColumnIndex, c: Change, missed: seq<B.Entry>)
    requires Sane(x) && y.HashColumn? && y.pos == x.pos && ChangeKeyed(c, x.pos)
    requires Bag(x) == Bag(y) + multiset(missed) && EntryOf(c.was, x.pos) in Bag(y)
    ensures var e := EntryOf(c.was, x.pos);
      Bag(Step(x, c)) == Bag(Step(y, c)) + multiset(missed + (if Reaches(x, e) then [] else [e]))
  {
    var e := EntryOf(c.was, x.pos);
    var added := if c.next.None? then multiset{} else multiset{EntryOf(c.next.value, x.pos)};
    assert missed + [] == missed && multiset(missed + [e]) == multiset(missed) + multiset{e};
    StepBag(x, c);
    StepBag(y, c);
    ShiftedBags(Bag(x), Bag(y), multiset(missed), e, added);
  }

  lemma {:induction false} StepBag(x: ColumnIndex, c: Change)
    requires Sane(x) && ChangeKeyed(c, x.pos)
    ensures var e := EntryOf(c.was, x.pos);
      Bag(Step(x, c)) == (if Reaches(x, e) then Bag(x) - multiset{e} else Bag(x))
        + (if c.next.None? then multiset{} else multiset{EntryOf(c.next.value, x.pos)})
  {
  }

  lemma {:induction false} ShiftedBags<T>(a: multiset<T>, b: multiset<T>, m: multiset<T>, e: T, added: multiset<T>)
    requires a == b + m && e in b
    ensures a - multiset{e} + added == b - multiset{e} + added + m
    ensures a + added == b - multiset{e} + added + (m + multiset{e})
  {
  }

  /** A DELETE or UPDATE that changes any rows, in any order, leaves an index in step with the table
      if and only if deletion got to each old entry when its turn came; each one it did not get to
      stays behind. */
  lemma {:induction false} StatementIff(x: ColumnIndex, h: Heap, cs: seq<Change>)
    requires Sane(x) && InStep(Bag(x), h, x.pos) && Doable(h, cs, x.pos)
    ensures InStep(Bag(Applied(x, cs)), After(h, cs), x.pos) <==> Missed(x, cs) == []
  {
    MissedStays(x, h, cs);
    IdealInStep(x, h, cs);
    SurplusIff(Bag(Applied(Ideal(x), cs)), Missed(x, cs), After(h, cs), x.pos);
  }

  /** For one row: exactly when its entry is in reach. */
  lemma {:induction false} ChangeIff(x: ColumnIndex, h: Heap, c: Change)
    requires Sane(x) && InStep(Bag(x), h, x.pos) && Doable(h, [c], x.pos)
    ensures ChangeKeyed(c, x.pos)
    ensures InStep(Bag(Step(x, c)), Next(h, c), x.pos) <==> Reaches(x, EntryOf(c.was, x.pos))
  {
    StatementIff(x, h, [c]);
    assert [c][..0] == [];
  }

  /** No deletion of the statement starts from a tree with an empty leaf. */
  predicate NeverEmptied(x: ColumnIndex, cs: seq<Change>)
    requires Sane(x) && AllKeyed(cs, x.pos)
  {
    cs == [] ||
    var before := cs[..|cs| - 1];
    NeverEmptied(x, before) && Full(Applied(x, before))
  }

  /** A hash index is always left in step, and a B+ tree while no leaf empties before the last row. */
  lemma {:induction false} NothingMissed(x: ColumnIndex, h: Heap, cs: seq<Change>)
    requires Sane(x) && InStep(Bag(x), h, x.pos) && Doable(h, cs, x.pos)
    requires NeverEmptied(x, cs)
    ensures InStep(Bag(Applied(x, cs)), After(h, cs), x.pos)
  {
    NoneMissed(x, h, cs);
    StatementIff(x, h, cs);
  }

  lemma {:induction false} NoneMissed(x: ColumnIndex, h: Heap, cs: seq<Change>)
    requires Sane(x) && InStep(Bag(x), h, x.pos) && Doable(h, cs, x.pos) && NeverEmptied(x, cs)
    ensures Missed(x, cs) == []
  {
    if cs != [] {
      var before, c := cs[..|cs| - 1], cs[|cs| - 1];
      NoneMissed(x, h, before);
      StatementIff(x, h, before);
      StillThere(h, before, x.pos, c.was.rid);
      StepOut(Bag(Applied(x, before)), After(h, before), x.pos, c.was);
      AllReached(Applied(x, before), EntryOf(c.was, x.pos));
    }
  }

  lemma {:induction false} AllReached(x: ColumnIndex, e: B.Entry)
    requires Sane(x) && e in Bag(x) && Full(x)
    ensures Reaches(x, e)
  {
    if x.TreeColumn? { Runs.DeleteComplete(x.tree, e); }
  }
}
