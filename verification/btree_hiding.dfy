/** How an emptied leaf comes to hide a key, in a tree of any fan-out (queryx/index/btree.py). */
module BTreeHiding {
  import opened Wrappers
  import opened SortedKeys
  import opened BTreeShape
  import opened BTreeInsert
  import opened BTreeGrowth
  import opened BTreeWalk
  import opened BTreeDelete
  import opened BTreeRoot
  import Runs = BTreeRuns

  type Op = Runs.Op

  // -- the run -----------------------------------------------------------------

  /** Row i has key i, and an address of its own. */
  function EntryAt(i: nat): Entry {
    Entry(i, RowId(1, i))
  }

  /** The entries of rows lo, ..., hi - 1. */
  function Ascending(lo: nat, hi: nat): (es: seq<Entry>)
    requires lo <= hi
    ensures |es| == hi - lo && forall i :: 0 <= i < hi - lo ==> es[i] == EntryAt(lo + i)
  {
    seq(hi - lo, i requires 0 <= i < hi - lo => EntryAt(lo + i))
  }

  /** Insert rows 1, ..., n in order. */
  function Inserting(n: nat): seq<Op> {
    if n == 0 then [] else Inserting(n - 1) + [Runs.Ins(EntryAt(n))]
  }

  /** Insert rows 1, ..., n in order, then delete rows 1, ..., k. */
  function Deleting(n: nat, k: nat): seq<Op> {
    if k == 0 then Inserting(n) else Deleting(n, k - 1) + [Runs.Del(EntryAt(k))]
  }

  /** How many entries a full leaf keeps when one more splits it. */
  function Half(maxKeys: nat): nat {
    (maxKeys + 1) / 2
  }

  /** The key that gets lost. */
  function LostKey(maxKeys: nat): nat {
    Half(maxKeys) + 1
  }

  /** Overfill one leaf and delete everything that stays in its left half. */
  function HidingRun(maxKeys: nat): seq<Op> {
    Deleting(maxKeys + 1, Half(maxKeys))
  }

  // -- filling a leaf ------------------------------------------------------------

  lemma {:induction false} LeafInsert(es: seq<Entry>, e: Entry, maxKeys: nat)
    requires Sorted(Keys(es)) && forall i :: 0 <= i < |es| ==> es[i].key <= e.key
    ensures InsertRoot(TLeaf(2, es), e, 3, maxKeys) ==
      var es' := es + [e];
      var mid := |es'| / 2;
      if |es'| <= maxKeys then (TLeaf(2, es'), 3)
      else (TNode(4, [es'[mid].key], [TLeaf(2, es'[..mid]), TLeaf(3, es'[mid..])]), 5)
  {
    UpperBoundIs(Keys(es), e.key, |es|);
    assert InsertAt(es, |es|, e) == es + [e];
  }

  lemma {:induction false} RunInsert(ops: seq<Op>, e: Entry, t: Tree, free: nat, maxKeys: nat)
    requires maxKeys >= 2 && Runs.Run(ops, maxKeys) == (t, free)
    ensures Ordered(t) && Runs.Run(ops + [Runs.Ins(e)], maxKeys) == InsertRoot(t, e, free, maxKeys)
  {
    Runs.RunStep(ops, Runs.Ins(e), maxKeys);
  }

  lemma {:induction false} AscendingNext(lo: nat, hi: nat)
    requires lo <= hi
    ensures Ascending(lo, hi) + [EntryAt(hi)] == Ascending(lo, hi + 1)
  {
  }

  lemma {:induction false} AscendingSorted(lo: nat, hi: nat)
    requires lo <= hi
    ensures Sorted(Keys(Ascending(lo, hi))) && forall i :: 0 <= i < hi - lo ==> Ascending(lo, hi)[i].key <= hi
  {
  }

  /** The root leaf with the rows before hi. */
  function FullLeaf(hi: nat): Tree
    requires hi >= 1
  {
    TLeaf(2, Ascending(1, hi))
  }

  lemma {:induction false} FillStep(n: nat, maxKeys: nat)
    requires 1 <= n <= maxKeys
    ensures Ordered(FullLeaf(n))
    ensures InsertRoot(FullLeaf(n), EntryAt(n), 3, maxKeys) == (FullLeaf(n + 1), 3)
  {
    AscendingNext(1, n);
    AscendingSorted(1, n);
    LeafInsert(Ascending(1, n), EntryAt(n), maxKeys);
  }

  /** Where a run ends on the kth tree, inserting row k + 1 leads to the next. */
  ghost predicate FillsNext(r: seq<Op> -> (Tree, nat), f: nat -> (Tree, nat), ops: seq<Op>, k: nat) {
    r(ops) == f(k) ==> r(ops + [Runs.Ins(EntryAt(k + 1))]) == f(k + 1)
  }

  lemma {:induction false} FillsTo(r: seq<Op> -> (Tree, nat), f: nat -> (Tree, nat), n: nat)
    requires r([]) == f(0) && forall ops, k: nat :: k < n ==> FillsNext(r, f, ops, k)
    ensures r(Inserting(n)) == f(n)
  {
    if n > 0 {
      FillsTo(r, f, n - 1);
      assert FillsNext(r, f, Inserting(n - 1), n - 1);
    }
  }

  function Runner(maxKeys: nat): seq<Op> -> (Tree, nat)
    requires maxKeys >= 2
  {
    (ops: seq<Op>) => Runs.Run(ops, maxKeys)
  }

  function Filling(): nat -> (Tree, nat) {
    (k: nat) => (FullLeaf(k + 1), 3)
  }

  lemma {:induction false} FillNext(ops: seq<Op>, k: nat, maxKeys: nat)
    requires k < maxKeys && maxKeys >= 2
    ensures FillsNext(Runner(maxKeys), Filling(), ops, k)
  {
    if Runs.Run(ops, maxKeys) == (FullLeaf(k + 1), 3) {
      RunInsert(ops, EntryAt(k + 1), FullLeaf(k + 1), 3, maxKeys);
      FillStep(k + 1, maxKeys);
    }
  }

  lemma {:induction false} NothingYet(maxKeys: nat)
    requires maxKeys >= 2
    ensures Runner(maxKeys)([]) == Filling()(0)
  {
    assert Ascending(1, 1) == [];
  }

  lemma {:induction false} LeafFills(n: nat, maxKeys: nat)
    requires n <= maxKeys && maxKeys >= 2
    ensures Runner(maxKeys)(Inserting(n)) == Filling()(n)
  {
    NothingYet(maxKeys);
    forall ops, k: nat | k < n ensures FillsNext(Runner(maxKeys), Filling(), ops, k) {
      FillNext(ops, k, maxKeys);
    }
    FillsTo(Runner(maxKeys), Filling(), n);
  }

  /** As long as they fit, the rows are in the root leaf. */
  lemma {:induction false} RootLeafFills(n: nat, maxKeys: nat)
    requires n <= maxKeys && maxKeys >= 2
    ensures Runs.Run(Inserting(n), maxKeys) == (FullLeaf(n + 1), 3)
  {
    LeafFills(n, maxKeys);
  }

  /** The two leaves after the split, when the rows before lo have been deleted. */
  function SplitTree(maxKeys: nat, lo: nat): Tree
    requires 1 <= lo <= LostKey(maxKeys)
  {
    TNode(4, [LostKey(maxKeys)], [LeftLeaf(maxKeys, lo), RightLeaf(maxKeys)])
  }

  function LeftLeaf(maxKeys: nat, lo: nat): Tree
    requires 1 <= lo <= LostKey(maxKeys)
  {
    TLeaf(2, Ascending(lo, LostKey(maxKeys)))
  }

  function RightLeaf(maxKeys: nat): Tree {
    TLeaf(3, Ascending(LostKey(maxKeys), maxKeys + 2))
  }

  lemma {:induction false} AscendingSplit(lo: nat, mid: nat, hi: nat)
    requires lo <= mid <= hi
    ensures Ascending(lo, hi)[..mid - lo] == Ascending(lo, mid)
    ensures Ascending(lo, hi)[mid - lo..] == Ascending(mid, hi)
    ensures Ascending(lo, mid) + Ascending(mid, hi) == Ascending(lo, hi)
  {
  }

  lemma {:induction false} SplitStep(maxKeys: nat)
    ensures Ordered(FullLeaf(maxKeys + 1))
    ensures InsertRoot(FullLeaf(maxKeys + 1), EntryAt(maxKeys + 1), 3, maxKeys) == (SplitTree(maxKeys, 1), 5)
  {
    var n := maxKeys + 1;
    AscendingNext(1, n);
    AscendingSorted(1, n);
    LeafInsert(Ascending(1, n), EntryAt(n), maxKeys);
    AscendingSplit(1, LostKey(maxKeys), n + 1);
  }

  /** One row more splits it. */
  lemma {:induction false} LeafSplits(maxKeys: nat)
    requires maxKeys >= 2
    ensures Runs.Run(Inserting(maxKeys + 1), maxKeys) == (SplitTree(maxKeys, 1), 5)
  {
    RootLeafFills(maxKeys, maxKeys);
    SplitStep(maxKeys);
    RunInsert(Inserting(maxKeys), EntryAt(maxKeys + 1), FullLeaf(maxKeys + 1), 3, maxKeys);
  }

  /** Both leaves hold rows. */
  lemma {:induction false} SplitFlat(maxKeys: nat)
    requires maxKeys >= 2 && Ordered(SplitTree(maxKeys, 1))
    ensures Flat(SplitTree(maxKeys, 1)) == Ascending(1, maxKeys + 2) && NoEmptyLeaf(SplitTree(maxKeys, 1))
  {
    TwoFullLeaves(4, LostKey(maxKeys), LeftLeaf(maxKeys, 1), RightLeaf(maxKeys));
    AscendingSplit(1, LostKey(maxKeys), maxKeys + 2);
  }

  lemma {:induction false} TwoFullLeaves(p: nat, sep: int, a: Tree, b: Tree)
    requires a.TLeaf? && b.TLeaf? && Ordered(TNode(p, [sep], [a, b])) && a.entries != [] && b.entries != []
    ensures Flat(TNode(p, [sep], [a, b])) == a.entries + b.entries && NoEmptyLeaf(TNode(p, [sep], [a, b]))
  {
    TwoLeaves(p, sep, a, b, sep);
  }

  // -- emptying its left half ------------------------------------------------------

  lemma {:induction false} TwoLeaves(p: nat, sep: int, a: Tree, b: Tree, k: int)
    requires a.TLeaf? && b.TLeaf? && Ordered(TNode(p, [sep], [a, b]))
    ensures Leaves(TNode(p, [sep], [a, b])) == [a, b]
    ensures k <= sep ==> Landing(TNode(p, [sep], [a, b]), k) == 0
    ensures Flat(TNode(p, [sep], [a, b])) == a.entries + b.entries
  {
    assert [a, b][1..] == [b];
    LeavesOfOne(b);
    assert LeavesOf([a, b]) == Leaves(a) + Leaves(b);
    assert Leaves(a) == [a] && Leaves(b) == [b];
    if k <= sep { LowerBoundIs([sep], k, 0); }
    assert [a, b][..0] == [];
    assert Concat([b]) == b.entries + Concat([]);
  }

  /** Deleting the first row of the left leaf takes it out. */
  lemma {:induction false} DeleteNext(maxKeys: nat, k: nat)
    requires 1 <= k <= Half(maxKeys) && Ordered(SplitTree(maxKeys, k))
    ensures EntryAt(k) in Visible(SplitTree(maxKeys, k), k)
    ensures DeleteRoot(SplitTree(maxKeys, k), EntryAt(k)) == SplitTree(maxKeys, k + 1)
  {
    var t, e := SplitTree(maxKeys, k), EntryAt(k);
    var a, b := LeftLeaf(maxKeys, k), RightLeaf(maxKeys);
    TwoLeaves(4, LostKey(maxKeys), a, b, k);
    assert a.entries[0] == e;
    LeafWithIs([a, b], 0, e, 0);
    VisibleLeaf(t, e);
    assert RemoveFirst(a.entries, e) == Ascending(k + 1, LostKey(maxKeys));
    assert PutOf([a, b], 2, Ascending(k + 1, LostKey(maxKeys))) == [LeftLeaf(maxKeys, k + 1), b];
  }

  lemma {:induction false} RunDelete(ops: seq<Op>, e: Entry, t: Tree, free: nat, maxKeys: nat)
    requires maxKeys >= 2 && Runs.Run(ops, maxKeys) == (t, free)
    ensures Ordered(t) && Runs.Run(ops + [Runs.Del(e)], maxKeys) == (DeleteRoot(t, e), free)
  {
    Runs.RunStep(ops, Runs.Del(e), maxKeys);
  }

  /** The run ends with the split tree, less its first k rows. */
  predicate Drained(ops: seq<Op>, maxKeys: nat, k: nat) {
    maxKeys >= 2 && k <= Half(maxKeys) && Runs.Run(ops, maxKeys) == (SplitTree(maxKeys, k + 1), 5)
  }

  lemma {:induction false} DrainNext(ops: seq<Op>, maxKeys: nat, k: nat)
    requires 1 <= k <= Half(maxKeys) && Drained(ops, maxKeys, k - 1)
    ensures Drained(ops + [Runs.Del(EntryAt(k))], maxKeys, k)
  {
    RunDelete(ops, EntryAt(k), SplitTree(maxKeys, k), 5, maxKeys);
    DeleteNext(maxKeys, k);
  }

  lemma {:induction false} LeafEmpties(maxKeys: nat, k: nat)
    requires maxKeys >= 2 && k <= Half(maxKeys)
    ensures Drained(Deleting(maxKeys + 1, k), maxKeys, k)
  {
    if k == 0 {
      LeafSplits(maxKeys);
    } else {
      LeafEmpties(maxKeys, k - 1);
      DrainNext(Deleting(maxKeys + 1, k - 1), maxKeys, k);
    }
  }

  // -- the lost key ------------------------------------------------------------------

  lemma {:induction false} AscendingMatches(lo: nat, hi: nat, k: nat)
    requires lo <= hi && k < lo
    ensures Matches(Ascending(lo, hi), k) == []
  {
    NoMatches(Ascending(lo, hi), k);
  }

  /** The list from the lost key on. */
  lemma {:induction false} LostFirst(maxKeys: nat)
    ensures var k, es := LostKey(maxKeys), Ascending(LostKey(maxKeys), maxKeys + 2);
      es != [] && es[0] == EntryAt(k) && EntryAt(k) in es && Matches(es, k) == [EntryAt(k).rid]
  {
    var k, es := LostKey(maxKeys), Ascending(LostKey(maxKeys), maxKeys + 2);
    assert es[0] == EntryAt(k) && es[1..] == Ascending(k + 1, maxKeys + 2);
    AscendingMatches(k + 1, maxKeys + 2, k);
    assert Matches(es, k) == [EntryAt(k).rid] + Matches(es[1..], k);
  }

  /** With the left leaf empty, nothing is visible from there. */
  lemma {:induction false} LostHidden(maxKeys: nat)
    requires Ordered(SplitTree(maxKeys, LostKey(maxKeys)))
    ensures var t, k := SplitTree(maxKeys, LostKey(maxKeys)), LostKey(maxKeys);
      Flat(t) == Ascending(k, maxKeys + 2) && Visible(t, k) == [] && Hidden(t, k) == Flat(t)
  {
    var t, k := SplitTree(maxKeys, LostKey(maxKeys)), LostKey(maxKeys);
    var a, b := LeftLeaf(maxKeys, k), RightLeaf(maxKeys);
    TwoLeaves(4, k, a, b, k);
    assert a.entries == [] && [] + b.entries == b.entries;
    assert Stop([a, b], 0) == 0 && [a, b][..0] == [];
    VisibleHidden(t, k);
    assert [] + Hidden(t, k) == Hidden(t, k);
  }

  /** For every max_keys: insert keys 1, ..., max_keys + 1 and delete those of the left half of the leaf
      that split. The next key is still in the tree, but the search for it lands on the leaf that
      deletion emptied and stops there, and so does delete. */
  lemma {:induction false} EmptyLeafHidesKey(maxKeys: nat)
    requires maxKeys >= 2
    ensures var t, k := Runs.Run(HidingRun(maxKeys), maxKeys).0, LostKey(maxKeys);
      && Flat(t) == Ascending(k, maxKeys + 2) && Matches(Flat(t), k) == [EntryAt(k).rid]
      && Matches(Visible(t, k), k) == []
      && EntryAt(k) in Flat(t) && EntryAt(k) in Hidden(t, k) && DeleteRoot(t, EntryAt(k)) == t
  {
    LeafEmpties(maxKeys, Half(maxKeys));
    assert Ordered(Runs.Run(HidingRun(maxKeys), maxKeys).0);
    LostHidden(maxKeys);
    LostFirst(maxKeys);
  }

  // -- row by row ------------------------------------------------------------------

  /** A sound tree, with row k + 1 in sight, and deleting that leads to the next tree. */
  ghost predicate DrainsNext(g: nat --> Tree, k: nat, maxKeys: nat) {
    && g.requires(k) && g.requires(k + 1) && Sound(g(k), 5, maxKeys)
    && EntryAt(k + 1) in Visible(g(k), k + 1) && DeleteRoot(g(k), EntryAt(k + 1)) == g(k + 1)
  }

  /** Row by row; from the last tree the next row is out of sight. */
  ghost predicate Drains(g: nat --> Tree, n: nat, maxKeys: nat) {
    && (forall k: nat :: k < n ==> DrainsNext(g, k, maxKeys))
    && g.requires(n) && Sound(g(n), 5, maxKeys) && Visible(g(n), n + 1) == []
  }

  /** The tree that row max_keys + 1 split, and what it becomes. */
  function Splits(maxKeys: nat): nat --> Tree {
    (k: nat) requires k <= Half(maxKeys) => SplitTree(maxKeys, k + 1)
  }

  lemma {:induction false} SplitSound(maxKeys: nat, k: nat)
    requires maxKeys >= 2 && k <= Half(maxKeys)
    ensures Sound(SplitTree(maxKeys, k + 1), 5, maxKeys)
  {
    LeafEmpties(maxKeys, k);
  }

  lemma {:induction false} SplitNext(maxKeys: nat, k: nat)
    requires maxKeys >= 2 && k < Half(maxKeys)
    ensures DrainsNext(Splits(maxKeys), k, maxKeys)
  {
    SplitSound(maxKeys, k);
    DeleteNext(maxKeys, k + 1);
  }

  /** The first tree holds all rows and has no empty leaf. */
  lemma {:induction false} SplitHolds(maxKeys: nat)
    requires maxKeys >= 2
    ensures Flat(SplitTree(maxKeys, 1)) == Ascending(1, maxKeys + 2) && NoEmptyLeaf(SplitTree(maxKeys, 1))
  {
    SplitSound(maxKeys, 0);
    SplitFlat(maxKeys);
  }

  lemma {:induction false} SplitEnds(maxKeys: nat)
    requires maxKeys >= 2
    ensures var t := SplitTree(maxKeys, LostKey(maxKeys));
      Sound(t, 5, maxKeys) && Visible(t, LostKey(maxKeys)) == []
  {
    SplitSound(maxKeys, Half(maxKeys));
    LostHidden(maxKeys);
  }

  lemma {:induction false} SplitsDrain(maxKeys: nat)
    requires maxKeys >= 2
    ensures Drains(Splits(maxKeys), Half(maxKeys), maxKeys)
  {
    forall k: nat | k < Half(maxKeys) ensures DrainsNext(Splits(maxKeys), k, maxKeys) {
      SplitNext(maxKeys, k);
    }
    SplitEnds(maxKeys);
  }
}
