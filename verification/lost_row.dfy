/** What a hidden key costs the database, whatever the size of its nodes: a plan and a join that miss
    a row, and a DELETE that leaves an index out of step (queryx/database.py). */
module LostRow {
  import opened Wrappers
  import opened Sequences
  import opened Sql
  import opened Planner
  import B = BTreeShape
  import C = ColumnIndexes
  import H = BTreeHiding
  import J = Joins
  import Runs = BTreeRuns
  import T = BTreeRoot
  import W = BTreeWalk

  // -- the table ---------------------------------------------------------------

  /** Row i: the integer i, in the column c. */
  function RowAt(i: nat): Stored {
    Stored(H.EntryAt(i).rid, [IntV(i)])
  }

  /** Rows lo, ..., hi - 1. */
  function RowsFrom(lo: nat, hi: nat): (heap: seq<Stored>)
    requires lo <= hi
    ensures |heap| == hi - lo && forall i :: 0 <= i < hi - lo ==> heap[i] == RowAt(lo + i)
  {
    seq(hi - lo, i requires 0 <= i < hi - lo => RowAt(lo + i))
  }

  lemma {:induction false} RowsDistinct(lo: nat, hi: nat)
    requires lo <= hi
    ensures DistinctRids(RowsFrom(lo, hi)) && NoRepeats(RowsFrom(lo, hi))
    ensures forall s :: s in RowsFrom(lo, hi) ==> exists i :: lo <= i < hi && s == RowAt(i)
    ensures forall i :: lo <= i < hi ==> RowAt(i) in RowsFrom(lo, hi)
  {
    forall i | lo <= i < hi ensures RowAt(i) in RowsFrom(lo, hi) {
      assert RowsFrom(lo, hi)[i - lo] == RowAt(i);
    }
  }

  /** Their entries, each once. */
  lemma {:induction false} EntriesOnce(lo: nat, hi: nat, e: B.Entry)
    requires lo <= hi
    ensures multiset(H.Ascending(lo, hi))[e] == if lo <= e.key < hi && e == H.EntryAt(e.key) then 1 else 0
  {
    var es := H.Ascending(lo, hi);
    CountOne(es, e);
    if lo <= e.key < hi && e == H.EntryAt(e.key) {
      assert es[e.key - lo] == e;
    }
  }

  lemma {:induction false} RowsAgree(lo: nat, hi: nat)
    requires lo <= hi
    ensures Agrees(multiset(H.Ascending(lo, hi)), RowsFrom(lo, hi), 0)
  {
    var heap := RowsFrom(lo, hi);
    RowsDistinct(lo, hi);
    forall e ensures multiset(H.Ascending(lo, hi))[e] == if OfRow(e, heap, 0) then 1 else 0 {
      EntriesOnce(lo, hi, e);
      if lo <= e.key < hi && e == H.EntryAt(e.key) {
        assert RowAt(e.key) in heap;
      }
    }
  }

  /** The tree that hides the entry of its first row, as the index on the column. */
  function Hiding(maxKeys: nat): (h: Held)
    requires maxKeys >= 2
    ensures Sane(h)
  {
    TreeHeld(Runs.Run(H.HidingRun(maxKeys), maxKeys).0)
  }

  /** The rows in it. */
  function Left(maxKeys: nat): seq<Stored> {
    RowsFrom(H.LostKey(maxKeys), maxKeys + 2)
  }

  lemma {:induction false} HidingHolds(maxKeys: nat)
    requires maxKeys >= 2
    ensures Bag(Hiding(maxKeys)) == multiset(H.Ascending(H.LostKey(maxKeys), maxKeys + 2))
    ensures Found(Hiding(maxKeys), H.LostKey(maxKeys)) == []
  {
    H.EmptyLeafHidesKey(maxKeys);
  }

  lemma {:induction false} HidingFinds(maxKeys: nat)
    requires maxKeys >= 2
    ensures Agrees(Bag(Hiding(maxKeys)), Left(maxKeys), 0) && DistinctRids(Left(maxKeys))
    ensures Found(Hiding(maxKeys), H.LostKey(maxKeys)) == []
  {
    HidingHolds(maxKeys);
    RowsAgree(H.LostKey(maxKeys), maxKeys + 2);
    RowsDistinct(H.LostKey(maxKeys), maxKeys + 2);
  }

  lemma {:induction false} OnlyOne<T>(s: seq<T>, x: T)
    requires NoRepeats(s) && forall y :: y in s <==> y == x
    ensures s == [x]
  {
    SameBag(s, [x]);
    assert |multiset(s)| == |multiset([x])|;
    assert s[0] in s;
  }

  // -- plans -------------------------------------------------------------------

  const C_FIRST: Index := map["c" := 0]

  /** c = k */
  function Wanted(k: int): Expr {
    Comparison(EQ, Column("c", None), Literal(IntV(k)))
  }

  function WantedPath(name: string, k: int): Path {
    IndexPath(IndexInfo(name, "c", false), Sarg("c", EQ, IntV(k)), None)
  }

  lemma {:induction false} WantedChoosable(name: string, k: int)
    ensures Choosable(Some(Wanted(k)), [IndexInfo(name, "c", false)], WantedPath(name, k)) && Unqualified(Wanted(k))
  {
    assert IndexOn([IndexInfo(name, "c", false)], "c") == Some(IndexInfo(name, "c", false));
    assert Sarg("c", EQ, IntV(k)) in Sargable(Wanted(k));
  }

  lemma {:induction false} WantedPasses(k: int, i: int)
    ensures Passes(Wanted(k), [IntV(i)], C_FIRST) <==> i == k
  {
    assert Key(Column("c", None)) == "c";
    assert Evaluate(Column("c", None), [IntV(i)], C_FIRST) == Some(IntV(i));
    assert Evaluate(Literal(IntV(k)), [IntV(i)], C_FIRST) == Some(IntV(k));
  }

  lemma {:induction false} WantedScanned(k: nat, hi: nat)
    requires k < hi
    ensures Filter(RowsFrom(k, hi), Some(Wanted(k)), C_FIRST) == [RowAt(k)]
  {
    var heap := RowsFrom(k, hi);
    var kept := Filter(heap, Some(Wanted(k)), C_FIRST);
    RowsDistinct(k, hi);
    FilterHas(heap, Some(Wanted(k)), C_FIRST);
    forall s ensures s in kept <==> s == RowAt(k) {
      if s in heap {
        var i :| k <= i < hi && s == RowAt(i);
        WantedPasses(k, i);
      }
    }
    OnlyOne(kept, RowAt(k));
  }

  /** For every max_keys there is a run after which the tree agrees with the table, the optimizer can
      choose it for `c = k`, and the index plan returns nothing where the sequential plan returns the
      row that holds k. */
  lemma {:induction false} PlanMissesRow(name: string, maxKeys: nat)
    requires maxKeys >= 2
    ensures var (k, h, heap) := (H.LostKey(maxKeys), Hiding(maxKeys), Left(maxKeys));
      && Choosable(Some(Wanted(k)), [IndexInfo(name, "c", false)], WantedPath(name, k)) && Unqualified(Wanted(k))
      && Serving(WantedPath(name, k), k, h, heap, C_FIRST)
      && Rows(Filter(IndexScan(heap, RowIds(h, EQ, k).value), WantedPath(name, k).residual, C_FIRST)) == []
      && Rows(Filter(heap, Some(Wanted(k)), C_FIRST)) == [[IntV(k)]]
  {
    var k := H.LostKey(maxKeys);
    HidingFinds(maxKeys);
    WantedChoosable(name, k);
    WantedScanned(k, maxKeys + 2);
  }

  // -- joins -------------------------------------------------------------------

  /** l.c = r.c */
  const ON: Expr := Comparison(EQ, Column("c", Some("l")), Column("c", Some("r")))

  const L_NAMES: seq<string> := ["l.c"]

  const R_NAMES: seq<string> := ["r.c"]

  lemma {:induction false} OnEquijoin()
    ensures J.Equijoin(ON, "l", "r") == Some((ON.left, ON.right))
    ensures Key(ON.left) == "l.c" && Key(ON.right) == "r.c" && NoRepeats(L_NAMES + R_NAMES)
  {
    assert "l" + "." == "l." && "r" + "." == "r.";
    assert "l." + "c" == "l.c" && "r." + "c" == "r.c";
    assert L_NAMES + R_NAMES == ["l.c", "r.c"] && "l.c"[0] != "r.c"[0];
  }

  lemma {:induction false} OnPasses(k: int, i: int)
    ensures Passes(ON, [IntV(k)] + [IntV(i)], J.ColumnIndex(L_NAMES + R_NAMES)) <==> i == k
  {
    OnEquijoin();
    J.EquijoinPasses(ON, "l", "r", L_NAMES, R_NAMES, 0, 0, [IntV(k)], [IntV(i)]);
  }

  lemma {:induction false} PartnerScanned(k: nat, hi: nat)
    requires k < hi
    ensures J.Partners([IntV(k)], RowsFrom(k, hi), ON, J.ColumnIndex(L_NAMES + R_NAMES)) == [RowAt(k)]
  {
    var (heap, idx) := (RowsFrom(k, hi), J.ColumnIndex(L_NAMES + R_NAMES));
    var partners := J.Partners([IntV(k)], heap, ON, idx);
    RowsDistinct(k, hi);
    J.PartnersHas([IntV(k)], heap, ON, idx);
    forall s ensures s in partners <==> s == RowAt(k) {
      if s in heap {
        var i :| k <= i < hi && s == RowAt(i);
        OnPasses(k, i);
      }
    }
    OnlyOne(partners, RowAt(k));
  }

  /** For a left row that holds k, the index join yields nothing and the nested loop one row. */
  ghost predicate JoinsDisagree(k: int, heap: seq<Stored>, h: Held) {
    && J.SameJoin(ON, "l", "r", L_NAMES, R_NAMES, 0, 0, heap, h) && J.Keyed([[IntV(k)]], 0)
    && J.IndexLoop([[IntV(k)]], 0, heap, h) == []
    && J.NestedLoop([[IntV(k)]], Rows(heap), ON, J.ColumnIndex(L_NAMES + R_NAMES)) == [[IntV(k), IntV(k)]]
  }

  /** On the same tree, for every max_keys, the two joins disagree. */
  lemma {:induction false} JoinMissesRow(maxKeys: nat)
    requires maxKeys >= 2
    ensures JoinsDisagree(H.LostKey(maxKeys), Left(maxKeys), Hiding(maxKeys))
  {
    HidingFinds(maxKeys);
    OnesJoin(H.LostKey(maxKeys), maxKeys + 2, Hiding(maxKeys));
  }

  lemma {:induction false} OnesJoin(k: nat, hi: nat, h: Held)
    requires k < hi && Sane(h) && Agrees(Bag(h), RowsFrom(k, hi), 0) && Found(h, k) == []
    ensures JoinsDisagree(k, RowsFrom(k, hi), h)
  {
    RowsDistinct(k, hi);
    OnSameJoin(RowsFrom(k, hi), h);
    OnePartner(k, hi);
    NothingProbed(IntV(k), RowsFrom(k, hi), h);
  }

  lemma {:induction false} OnSameJoin(heap: seq<Stored>, h: Held)
    requires DistinctRids(heap) && Sane(h) && Agrees(Bag(h), heap, 0) && forall s :: s in heap ==> |s.row| == 1
    ensures J.SameJoin(ON, "l", "r", L_NAMES, R_NAMES, 0, 0, heap, h)
  {
    OnEquijoin();
  }

  lemma {:induction false} OnePartner(k: nat, hi: nat)
    requires k < hi
    ensures J.NestedLoop([[IntV(k)]], Rows(RowsFrom(k, hi)), ON, J.ColumnIndex(L_NAMES + R_NAMES))
         == [[IntV(k), IntV(k)]]
  {
    var (l, heap, idx) := ([IntV(k)], RowsFrom(k, hi), J.ColumnIndex(L_NAMES + R_NAMES));
    PartnerScanned(k, hi);
    J.PairsPartners(l, heap, ON, idx);
    assert [IntV(k)] + RowAt(k).row == [IntV(k), IntV(k)];
    assert J.Joined(l, [RowAt(k)]) == [[IntV(k), IntV(k)]];
    OneLeft(l, Rows(heap), ON, idx);
  }

  lemma {:induction false} OneLeft(l: Row, rights: seq<Row>, on: Expr, idx: Index)
    ensures J.NestedLoop([l], rights, on, idx) == J.Pairs(l, rights, on, idx)
  {
    assert [l][1..] == [];
    assert J.NestedLoop([l], rights, on, idx) == J.Pairs(l, rights, on, idx) + J.NestedLoop([l][1..], rights, on, idx);
  }

  lemma {:induction false} NothingProbed(key: Value, heap: seq<Stored>, h: Held)
    requires key.IntV? && Searchable(h) && Found(h, key.i) == []
    ensures J.Keyed([[key]], 0) && J.IndexLoop([[key]], 0, heap, h) == []
  {
    assert [[key]][1..] == [];
    assert J.IndexLoop([[key]], 0, heap, h) == J.Probe([key], 0, heap, h) + J.IndexLoop([[key]][1..], 0, heap, h);
  }

  // -- statements --------------------------------------------------------------

  /** The same rows as the table that statements work on. */
  function TableFrom(lo: nat, hi: nat): (h: C.Heap)
    ensures forall rid :: rid in h <==> rid.page == 1 && lo <= rid.slot < hi
    ensures forall rid :: rid in h ==> h[rid] == [IntV(rid.slot)]
  {
    if hi <= lo then map[] else TableFrom(lo, hi - 1)[H.EntryAt(hi - 1).rid := [IntV(hi - 1)]]
  }

  lemma {:induction false} TableInStep(lo: nat, hi: nat)
    requires lo <= hi
    ensures C.InStep(multiset(H.Ascending(lo, hi)), TableFrom(lo, hi), 0)
  {
    forall e | true
      ensures multiset(H.Ascending(lo, hi))[e] ==
        if e.rid in TableFrom(lo, hi) && TableFrom(lo, hi)[e.rid][0] == IntV(e.key) then 1 else 0
    {
      EntriesOnce(lo, hi, e);
    }
  }

  /** DELETE of rows 1, ..., k, one after the other. */
  function Drops(k: nat): (cs: seq<C.Change>)
    ensures |cs| == k && C.AllKeyed(cs, 0) && forall i :: 0 <= i < k ==> cs[i] == C.Change(RowAt(i + 1), None)
  {
    if k == 0 then [] else Drops(k - 1) + [C.Change(RowAt(k), None)]
  }

  lemma {:induction false} DropsDoable(k: nat, hi: nat)
    requires k < hi
    ensures C.Doable(TableFrom(1, hi), Drops(k), 0)
  {
    if k > 0 {
      DropsDoable(k - 1, hi);
      DropNext(k);
      C.AppliedMore(C.HashColumn(0, multiset{}), TableFrom(1, hi), Drops(k - 1), C.Change(RowAt(k), None));
    }
  }

  lemma {:induction false} DropNext(k: nat)
    requires k > 0
    ensures Drops(k) == Drops(k - 1) + [C.Change(RowAt(k), None)]
    ensures C.Others(Drops(k - 1), RowAt(k).rid)
  {
  }

  lemma {:induction false} OneMore(x: C.ColumnIndex, cs: seq<C.Change>, c: C.Change)
    requires C.Sane(x) && C.AllKeyed(cs, x.pos) && C.ChangeKeyed(c, x.pos)
    ensures C.AllKeyed(cs + [c], x.pos) && C.Applied(x, cs + [c]) == C.Step(C.Applied(x, cs), c)
    ensures var e := C.EntryOf(c.was, x.pos);
      C.Missed(x, cs + [c]) == C.Missed(x, cs) + (if C.Reaches(C.Applied(x, cs), e) then [] else [e])
  {
    assert (cs + [c])[..|cs|] == cs;
  }

  /** Deletion gets to row k. */
  ghost predicate Drop(x: C.ColumnIndex, y: C.ColumnIndex, k: nat) {
    C.Sane(x) && x.pos == 0 && C.Reaches(x, H.EntryAt(k)) && C.Step(x, C.Change(RowAt(k), None)) == y
  }

  /** The tree as an index on the column. */
  function On(t: B.Tree, maxKeys: nat): C.ColumnIndex {
    C.TreeColumn(0, t, 5, maxKeys)
  }

  lemma {:induction false} TreeDrop(t: B.Tree, u: B.Tree, maxKeys: nat, k: nat)
    requires C.Sane(On(t, maxKeys)) && H.EntryAt(k) in W.Visible(t, k) && T.DeleteRoot(t, H.EntryAt(k)) == u
    ensures Drop(On(t, maxKeys), On(u, maxKeys), k)
  {
  }

  /** As long as a row is left in the left leaf, deletion gets to the first one. */
  lemma {:induction false} DropsReach(g: nat --> B.Tree, n: nat, maxKeys: nat, k: nat)
    requires maxKeys >= 2 && H.Drains(g, n, maxKeys) && k <= n
    ensures g.requires(0) && g.requires(k) && C.Sane(On(g(0), maxKeys)) && C.Sane(On(g(k), maxKeys))
    ensures C.Applied(On(g(0), maxKeys), Drops(k)) == On(g(k), maxKeys)
    ensures C.Missed(On(g(0), maxKeys), Drops(k)) == []
  {
    assert 0 < n ==> H.DrainsNext(g, 0, maxKeys);
    if k > 0 {
      DropsReach(g, n, maxKeys, k - 1);
      assert H.DrainsNext(g, k - 1, maxKeys);
      TreeDrop(g(k - 1), g(k), maxKeys, k);
      DropsOn(On(g(0), maxKeys), On(g(k - 1), maxKeys), On(g(k), maxKeys), k);
    }
  }

  lemma {:induction false} DropsOn(x: C.ColumnIndex, y: C.ColumnIndex, z: C.ColumnIndex, k: nat)
    requires k > 0 && C.Sane(x) && x.pos == 0 && C.Applied(x, Drops(k - 1)) == y && C.Missed(x, Drops(k - 1)) == []
    requires Drop(y, z, k)
    ensures C.Sane(z) && C.Applied(x, Drops(k)) == z && C.Missed(x, Drops(k)) == []
  {
    DropNext(k);
    OneMore(x, Drops(k - 1), C.Change(RowAt(k), None));
  }

  /** DELETE of rows 1, ..., k gets to every entry but the last. */
  ghost predicate MissesLast(x: C.ColumnIndex, k: nat) {
    C.Sane(x) && x.pos == 0 && C.Missed(x, Drops(k)) == [H.EntryAt(k)]
  }

  /** A statement that goes on until an entry is out of reach. */
  lemma {:induction false} DropsMiss(x: C.ColumnIndex, y: C.ColumnIndex, k: nat)
    requires k > 0 && C.Sane(x) && x.pos == 0
    requires C.Applied(x, Drops(k - 1)) == y && C.Missed(x, Drops(k - 1)) == [] && !C.Reaches(y, H.EntryAt(k))
    ensures MissesLast(x, k)
  {
    DropNext(k);
    OneMore(x, Drops(k - 1), C.Change(RowAt(k), None));
  }

  lemma {:induction false} OnEmpty(t: B.Tree, maxKeys: nat, k: nat)
    requires C.Sane(On(t, maxKeys)) && W.Visible(t, k) == []
    ensures !C.Reaches(On(t, maxKeys), H.EntryAt(k))
  {
  }

  lemma {:induction false} DrainedMiss(g: nat --> B.Tree, n: nat, maxKeys: nat)
    requires maxKeys >= 2 && H.Drains(g, n, maxKeys) && g.requires(0)
    ensures MissesLast(On(g(0), maxKeys), n + 1)
  {
    DropsReach(g, n, maxKeys, n);
    OnEmpty(g(n), maxKeys, n + 1);
    DropsMiss(On(g(0), maxKeys), On(g(n), maxKeys), n + 1);
  }

  /** The index on the tree that holds rows 1, ..., max_keys + 1, inserted in order. */
  function Inserted(maxKeys: nat): C.ColumnIndex {
    On(H.SplitTree(maxKeys, 1), maxKeys)
  }

  /** One DELETE, of rows 1, ..., k for the lost key k, on a tree of any max_keys: it empties the left
      of two leaves and then does not get to the first entry of the right one. */
  lemma {:induction false} DeleteMissesRow(maxKeys: nat)
    requires maxKeys >= 2
    ensures MissesLast(Inserted(maxKeys), H.LostKey(maxKeys))
  {
    H.SplitsDrain(maxKeys);
    DrainedMiss(H.Splits(maxKeys), H.Half(maxKeys), maxKeys);
  }

  lemma {:induction false} BagInStep(x: C.ColumnIndex, hi: nat)
    requires hi >= 1 && C.Bag(x) == multiset(H.Ascending(1, hi))
    ensures C.InStep(C.Bag(x), TableFrom(1, hi), 0)
  {
    TableInStep(1, hi);
  }

  lemma {:induction false} InsertedHolds(maxKeys: nat)
    requires maxKeys >= 2
    ensures C.Full(Inserted(maxKeys)) && C.Bag(Inserted(maxKeys)) == multiset(H.Ascending(1, maxKeys + 2))
  {
    H.SplitHolds(maxKeys);
  }

  /** The tree had no empty leaf and was in step with the table of rows 1, ..., max_keys + 1. */
  lemma {:induction false} InsertedInStep(maxKeys: nat)
    requires maxKeys >= 2
    ensures C.Full(Inserted(maxKeys))
    ensures C.InStep(C.Bag(Inserted(maxKeys)), TableFrom(1, maxKeys + 2), 0)
  {
    InsertedHolds(maxKeys);
    BagInStep(Inserted(maxKeys), maxKeys + 2);
  }

  lemma {:induction false} MissingEndsOut(x: C.ColumnIndex, k: nat, h: C.Heap)
    requires MissesLast(x, k) && C.InStep(C.Bag(x), h, 0) && C.Doable(h, Drops(k), 0)
    ensures !C.InStep(C.Bag(C.Applied(x, Drops(k))), C.After(h, Drops(k)), 0)
  {
    C.StatementIff(x, h, Drops(k));
  }

  /** So that statement leaves the index out of step with any table it was in step with. */
  lemma {:induction false} DeleteEndsOutOfStep(maxKeys: nat, h: C.Heap)
    requires maxKeys >= 2 && C.InStep(C.Bag(Inserted(maxKeys)), h, 0) && C.Doable(h, Drops(H.LostKey(maxKeys)), 0)
    ensures C.Sane(Inserted(maxKeys))
    ensures var cs := Drops(H.LostKey(maxKeys));
      !C.InStep(C.Bag(C.Applied(Inserted(maxKeys), cs)), C.After(h, cs), 0)
  {
    DeleteMissesRow(maxKeys);
    MissingEndsOut(Inserted(maxKeys), H.LostKey(maxKeys), h);
  }
}
