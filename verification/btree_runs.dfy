/** What holds of a B+ tree after any run of operations. */
module BTreeRuns {
  import opened SortedKeys
  import opened BTreeShape
  import opened BTreeInsert
  import opened BTreeGrowth
  import opened BTreeWalk
  import opened BTreeDelete
  import opened BTreeRoot

  datatype Op = Ins(e: Entry) | Del(e: Entry)

  /** An index file just created: an empty root leaf on page 2. */
  const EMPTY := TLeaf(2, [])

  /** A run of operations on a fresh tree; the last operation comes last. */
  function Run(ops: seq<Op>, maxKeys: nat): (r: (Tree, nat))
    requires maxKeys >= 2
    ensures Sound(r.0, r.1, maxKeys)
  {
    if ops == [] then
      FreshSound(maxKeys);
      (EMPTY, 3)
    else
      var (t, free) := Run(ops[..|ops| - 1], maxKeys);
      PagesOfRoot(t, free);
      match ops[|ops| - 1]
      case Ins(e) => InsertRootSound(t, e, free, maxKeys); InsertRoot(t, e, free, maxKeys)
      case Del(e) => DeleteRootSound(t, e, free, maxKeys); (DeleteRoot(t, e), free)
  }

  lemma {:induction false} FreshSound(maxKeys: nat)
    ensures Sound(EMPTY, 3, maxKeys) && Flat(EMPTY) == []
  {
  }

  lemma {:induction false} PagesOfRoot(t: Tree, free: nat)
    requires Between(Pages(t), free)
    ensures free >= 2
  {
    assert t.page in Pages(t);
  }

  // -- the sorted list a tree stands for -------------------------------------

  /** A new entry goes after the rows its key already has. */
  lemma {:induction false} InsortMatches(es: seq<Entry>, e: Entry, k: int)
    requires Sorted(Keys(es))
    ensures Matches(Insort(es, e), k) == Matches(es, k) + (if e.key == k then [e.rid] else [])
  {
    var n := UpperBound(Keys(es), e.key);
    var a, b := es[..n], es[n..];
    assert es == a + b;
    MatchesAppend(a, b, k);
    MatchesAppend(a + [e], b, k);
    MatchesAppend(a, [e], k);
    assert Matches([e], k) == (if e.key == k then [e.rid] else []) + Matches([], k);
    if e.key == k {
      forall f | f in b ensures f.key != k {
        var j :| n <= j < |es| && es[j] == f;
        assert Keys(es)[n] <= Keys(es)[j];
      }
      NoMatches(b, k);
    }
  }

  /** The sorted list a run stands for, if every deletion finds what it looks for. */
  function Listed(ops: seq<Op>): seq<Entry> {
    if ops == [] then []
    else
      var es := Listed(ops[..|ops| - 1]);
      match ops[|ops| - 1]
      case Ins(e) => Insort(es, e)
      case Del(e) => RemoveFirst(es, e)
  }

  /** No deletion of the run started from a tree with an empty leaf. */
  predicate NeverEmptied(ops: seq<Op>, maxKeys: nat)
    requires maxKeys >= 2
  {
    ops == [] ||
    (NeverEmptied(ops[..|ops| - 1], maxKeys)
     && (ops[|ops| - 1].Del? ==> NoEmptyLeaf(Run(ops[..|ops| - 1], maxKeys).0)))
  }

  lemma {:induction false} RemoveAbsent(es: seq<Entry>, e: Entry)
    requires e !in es
    ensures RemoveFirst(es, e) == es
  {
    if es != [] {
      RemoveAbsent(es[1..], e);
    }
  }

  /** As long as deletions start from trees without empty leaves, the tree is exactly the sorted
      list, whatever the order of insertions and deletions. */
  lemma {:induction false} RunIsListed(ops: seq<Op>, maxKeys: nat)
    requires maxKeys >= 2 && NeverEmptied(ops, maxKeys)
    ensures Flat(Run(ops, maxKeys).0) == Listed(ops)
  {
    if ops == [] {
      FreshSound(maxKeys);
    } else {
      var before := ops[..|ops| - 1];
      var (t, free) := Run(before, maxKeys);
      RunIsListed(before, maxKeys);
      PagesOfRoot(t, free);
      match ops[|ops| - 1]
      case Ins(e) => InsertRootSound(t, e, free, maxKeys);
      case Del(e) =>
        DeleteRootFlat(t, e);
        NoEmptyLeafVisible(t, e.key);
        if e !in Flat(t) { RemoveAbsent(Flat(t), e); }
    }
  }

  // -- full leaves -----------------------------------------------------------

  /** A subtree is filled when its internal nodes are and each of its leaves is. */
  lemma {:induction false} FilledIff(t: Tree, maxKeys: nat, leafMin: nat)
    ensures Filled(t, maxKeys, leafMin) <==>
      Filled(t, maxKeys, 0) && forall l :: l in Leaves(t) ==> leafMin <= |l.entries|
    decreases t, 0
  {
    match t
    case TLeaf(_, _) => assert Leaves(t) == [t];
    case TNode(_, _, kids) => AllFilledIff(kids, maxKeys, leafMin);
  }

  predicate AllFilled(ts: seq<Tree>, maxKeys: nat, leafMin: nat) {
    forall s :: s in ts ==> Filled(s, maxKeys, leafMin)
  }

  lemma {:induction false} AllFilledIff(ts: seq<Tree>, maxKeys: nat, leafMin: nat)
    ensures AllFilled(ts, maxKeys, leafMin) <==>
      AllFilled(ts, maxKeys, 0) && forall l :: l in LeavesOf(ts) ==> leafMin <= |l.entries|
    decreases ts
  {
    if ts != [] {
      FilledIff(ts[0], maxKeys, leafMin);
      AllFilledIff(ts[1..], maxKeys, leafMin);
      assert ts == [ts[0]] + ts[1..];
    }
  }

  lemma {:induction false} NoEmptyLeafIff(t: Tree, maxKeys: nat)
    requires RootFilled(t, maxKeys, 0)
    ensures NoEmptyLeaf(t) <==> RootFilled(t, maxKeys, 1)
  {
    if t.TNode? {
      AllFilledIff(t.kids, maxKeys, 1);
    }
  }

  /** Insertion never empties a leaf. */
  lemma {:induction false} InsertKeepsLeaves(t: Tree, e: Entry, free: nat, maxKeys: nat)
    requires Sound(t, free, maxKeys) && maxKeys >= 2 && NoEmptyLeaf(t)
    ensures NoEmptyLeaf(InsertRoot(t, e, free, maxKeys).0)
  {
    NoEmptyLeafIff(t, maxKeys);
    InsertRootFilled(t, e, free, maxKeys, 1);
    InsertRootFilled(t, e, free, maxKeys, 0);
    NoEmptyLeafIff(InsertRoot(t, e, free, maxKeys).0, maxKeys);
  }

  /** Deletion empties a leaf exactly when it takes the last entry of one that is not the root. */
  lemma {:induction false} DeleteKeepsLeaves(t: Tree, e: Entry)
    requires Ordered(t) && Distinct(Pages(t)) && NoEmptyLeaf(t)
    ensures var ls, n := Leaves(t), LeafWith(Leaves(t), Landing(t, e.key), e);
      NoEmptyLeaf(DeleteRoot(t, e)) <==> t.TLeaf? || n == |ls| || |ls[n].entries| > 1
  {
    var ls, n := Leaves(t), LeafWith(Leaves(t), Landing(t, e.key), e);
    VisibleLeaf(t, e);
    NoEmptyLeafVisible(t, e.key);
    if t.TNode? && n < |ls| {
      LeafInFlat(t, n, e);
      var es := RemoveFirst(ls[n].entries, e);
      var i := RemoveFirstSplit(ls[n].entries, e);
      PutAt(t, n, es);
      var ls' := ls[n := TLeaf(ls[n].page, es)];
      assert ls'[n] in ls';
      forall l | l in ls' ensures l in ls || l == ls'[n] {}
    }
  }

  lemma {:induction false} LeafInFlat(t: Tree, n: nat, e: Entry)
    requires n < |Leaves(t)| && e in Leaves(t)[n].entries
    ensures e in Flat(t)
  {
    ConcatHas(Leaves(t), e);
  }

  // -- lookups ---------------------------------------------------------------

  /** `search` misses a row exactly when some entry under its key lies past the first empty leaf
      at or after the landing leaf. */
  lemma {:induction false} SearchComplete(t: Tree, k: int)
    requires Ordered(t)
    ensures Matches(Visible(t, k), k) <= Matches(Flat(t), k)
    ensures Matches(Visible(t, k), k) == Matches(Flat(t), k) <==> forall e :: e in Hidden(t, k) ==> e.key != k
  {
    VisibleHidden(t, k);
    MatchesAppend(Visible(t, k), Hidden(t, k), k);
    NoMatches(Hidden(t, k), k);
  }

  /** `delete` meets the multiset contract (report whether the entry is there, and take one
      occurrence out) exactly when the entry is absent or visible; it overlooks an entry that is
      there exactly when all its occurrences are hidden, and without empty leaves it never does. */
  lemma {:induction false} DeleteComplete(t: Tree, e: Entry)
    requires Ordered(t) && Distinct(Pages(t))
    ensures (e in Visible(t, e.key) <==> e in Flat(t))
        && multiset(Flat(DeleteRoot(t, e))) == multiset(Flat(t)) - multiset{e}
      <==> e !in Flat(t) || e in Visible(t, e.key)
    ensures e in Flat(t) && e !in Visible(t, e.key) ==> e in Hidden(t, e.key)
    ensures NoEmptyLeaf(t) ==> (e in Visible(t, e.key) <==> e in Flat(t))
  {
    VisibleHidden(t, e.key);
    if NoEmptyLeaf(t) { NoEmptyLeafVisible(t, e.key); }
    DeleteRootFlat(t, e);
    if e in Visible(t, e.key) { RemoveFirstBag(Flat(t), e); }
  }

  lemma {:induction false} RemoveFirstBag(es: seq<Entry>, e: Entry)
    requires e in es
    ensures multiset(RemoveFirst(es, e)) == multiset(es) - multiset{e}
  {
    var i := RemoveFirstSplit(es, e);
    assert es == es[..i] + [e] + es[i + 1..];
  }

  function Inserts(es: seq<Entry>): (ops: seq<Op>)
    ensures |ops| == |es|
  {
    seq(|es|, i requires 0 <= i < |es| => Ins(es[i]))
  }

  /** After insertions alone, every leaf is at least half full, the list is sorted and holds what
      was inserted, and `search` returns the rows of a key in the order they were inserted. */
  lemma {:induction false} InsertOnlyRun(es: seq<Entry>, maxKeys: nat)
    requires maxKeys >= 2
    ensures var t := Run(Inserts(es), maxKeys).0;
      && RootFilled(t, maxKeys, (maxKeys + 1) / 2)
      && NoEmptyLeaf(t)
      && Sorted(Keys(Flat(t)))
      && multiset(Flat(t)) == multiset(es)
      && forall k :: Matches(Visible(t, k), k) == Matches(es, k)
  {
    InsertOnly(es, maxKeys);
    var (t, free) := Run(Inserts(es), maxKeys);
    NoEmptyLeafIff(t, maxKeys);
    if t.TNode? {
      AllFilledIff(t.kids, maxKeys, (maxKeys + 1) / 2);
      AllFilledIff(t.kids, maxKeys, 1);
    }
    TreeSorted(t);
    forall k ensures Matches(Visible(t, k), k) == Matches(es, k) {
      NoEmptyLeafVisible(t, k);
    }
  }

  lemma {:induction false} InsertOnly(es: seq<Entry>, maxKeys: nat)
    requires maxKeys >= 2
    ensures var t := Run(Inserts(es), maxKeys).0;
      && RootFilled(t, maxKeys, (maxKeys + 1) / 2)
      && multiset(Flat(t)) == multiset(es)
      && forall k :: Matches(Flat(t), k) == Matches(es, k)
  {
    if es == [] {
      FreshSound(maxKeys);
    } else {
      var m := |es| - 1;
      var (t, free) := Run(Inserts(es[..m]), maxKeys);
      InsertOnly(es[..m], maxKeys);
      assert Inserts(es)[..m] == Inserts(es[..m]);
      assert es == es[..m] + [es[m]];
      PagesOfRoot(t, free);
      InsertRootSound(t, es[m], free, maxKeys);
      InsertRootFilled(t, es[m], free, maxKeys, (maxKeys + 1) / 2);
      TreeSorted(t);
      InsortBag(Flat(t), es[m]);
      forall k ensures Matches(Insort(Flat(t), es[m]), k) == Matches(es, k) {
        InsortMatches(Flat(t), es[m], k);
        MatchesOneMore(es[..m], es[m], k);
      }
    }
  }

  lemma {:induction false} InsortBag(es: seq<Entry>, e: Entry)
    ensures multiset(Insort(es, e)) == multiset(es) + multiset{e}
  {
    var n := UpperBound(Keys(es), e.key);
    assert es == es[..n] + es[n..];
  }

  // -- height ----------------------------------------------------------------

  function Pow(b: nat, n: nat): nat {
    if n == 0 then 1 else b * Pow(b, n - 1)
  }

  /** A filled subtree of height h holds at least fan-out^(h - 1) leaves' worth of entries. */
  lemma {:induction false} FilledCount(t: Tree, maxKeys: nat, leafMin: nat, h: nat)
    requires Ordered(t) && Balanced(t, h) && Filled(t, maxKeys, leafMin) && h >= 1
    ensures Pow(maxKeys / 2 + 1, h - 1) * leafMin <= |Flat(t)|
    decreases t, 0
  {
    if t.TLeaf? {
      LeafFlat(t);
    } else {
      var unit := Pow(maxKeys / 2 + 1, h - 2) * leafMin;
      assert forall s :: s in t.kids ==> Ordered(s) && Balanced(s, h - 1) && Filled(s, maxKeys, leafMin);
      ForestCount(t.kids, maxKeys, leafMin, h - 1);
      MulAssoc(maxKeys / 2 + 1, Pow(maxKeys / 2 + 1, h - 2), leafMin);
      MulMono(maxKeys / 2 + 1, |t.kids|, unit);
    }
  }

  lemma {:induction false} ForestCount(ts: seq<Tree>, maxKeys: nat, leafMin: nat, h: nat)
    requires h >= 1
    requires forall s :: s in ts ==> Ordered(s) && Balanced(s, h) && Filled(s, maxKeys, leafMin)
    ensures |ts| * (Pow(maxKeys / 2 + 1, h - 1) * leafMin) <= |FlatOf(ts)|
    decreases ts
  {
    var unit := Pow(maxKeys / 2 + 1, h - 1) * leafMin;
    if ts != [] {
      FilledCount(ts[0], maxKeys, leafMin, h);
      ForestCount(ts[1..], maxKeys, leafMin, h);
      FlatOfSplit(ts, 0);
      assert FlatOf(ts[..0]) == [];
      OneMore(|ts| - 1, unit);
    }
  }

  lemma {:induction false} OneMore(n: nat, unit: nat)
    ensures (n + 1) * unit == unit + n * unit
  {
  }

  lemma {:induction false} MulAssoc(a: nat, b: nat, c: nat)
    ensures a * (b * c) == (a * b) * c
  {
  }

  lemma {:induction false} MulMono(a: nat, b: nat, c: nat)
    requires a <= b
    ensures a * c <= b * c
  {
  }

  /** The fewest entries of a tree of height h whose root has a single key. */
  function LeastEntries(maxKeys: nat, h: nat): nat
    requires h >= 2
  {
    2 * (Pow(maxKeys / 2 + 1, h - 2) * ((maxKeys + 1) / 2))
  }

  /** A tree of height h >= 2 built by insertions holds at least
      2 * (max_keys / 2 + 1)^(h - 2) * ((max_keys + 1) / 2) entries. */
  lemma {:induction false} HeightBound(es: seq<Entry>, maxKeys: nat)
    requires maxKeys >= 2
    ensures var h := Height(Run(Inserts(es), maxKeys).0);
      h >= 2 ==> LeastEntries(maxKeys, h) <= |es|
  {
    var t := Run(Inserts(es), maxKeys).0;
    InsertOnly(es, maxKeys);
    SameSize(Flat(t), es);
    RootCount(t, maxKeys, Height(t));
  }

  lemma {:induction false} SameSize<T>(a: seq<T>, b: seq<T>)
    requires multiset(a) == multiset(b)
    ensures |a| == |b|
  {
    assert |multiset(a)| == |a| && |multiset(b)| == |b|;
  }

  lemma {:induction false} RootCount(t: Tree, maxKeys: nat, h: nat)
    requires Ordered(t) && Balanced(t, h) && RootFilled(t, maxKeys, (maxKeys + 1) / 2)
    ensures h >= 2 ==> LeastEntries(maxKeys, h) <= |Flat(t)|
  {
    if h >= 2 {
      var leafMin := (maxKeys + 1) / 2;
      assert forall s :: s in t.kids ==> Ordered(s) && Balanced(s, h - 1) && Filled(s, maxKeys, leafMin);
      ForestCount(t.kids, maxKeys, leafMin, h - 1);
      MulMono(2, |t.kids|, Pow(maxKeys / 2 + 1, h - 2) * leafMin);
    }
  }

  /** One more operation. */
  lemma {:induction false} RunStep(ops: seq<Op>, op: Op, maxKeys: nat)
    requires maxKeys >= 2
    ensures var (t, free) := Run(ops, maxKeys);
      Run(ops + [op], maxKeys) ==
        match op
        case Ins(e) => InsertRoot(t, e, free, maxKeys)
        case Del(e) => (DeleteRoot(t, e), free)
  {
  }
}
