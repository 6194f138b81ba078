/** Every node of every reachable tree fits in one page and survives being stored. */
module BTreeFit {
  import opened Wrappers
  import opened Bytes
  import opened PageBytes
  import opened BTreeShape
  import opened BTreeInsert
  import opened BTreeGrowth
  import opened BTreeDelete
  import opened BTreeStore
  import opened BTreeWalk
  import opened BTreeRoot
  import opened Runs = BTreeRuns
  import opened BTreeCodec

  /** All keys and row ids in the tree fit their fields. */
  predicate TreeFits(t: Tree) {
    (forall k :: k in KeySet(t) ==> IsInt64(k)) && EntriesFit(Flat(t))
  }

  lemma {:induction false} KidFits(t: Tree, s: Tree)
    requires t.TNode? && s in t.kids && TreeFits(t)
    ensures TreeFits(s)
  {
    var i :| 0 <= i < |t.kids| && t.kids[i] == s;
    FlatOfSplit(t.kids, i);
    forall k | k in KeySet(s) ensures IsInt64(k) {
      assert k in KeySetOf(t.kids);
    }
  }

  lemma {:induction false} FirstLeafPage(t: Tree)
    requires Ordered(t)
    ensures t.page in Pages(t) && FirstLeaf(t) in Pages(t)
    decreases t
  {
    if t.TNode? {
      assert t.kids[0] in t.kids;
      FirstLeafPage(t.kids[0]);
      LeafPage(t.kids, 0);
    }
  }

  lemma {:induction false} NextBelow(kids: seq<Tree>, i: nat, next: nat, limit: nat)
    requires i < |kids| && (forall s :: s in kids ==> Ordered(s)) && Between(PagesOf(kids), limit) && next < limit
    ensures NextOf(kids, i, next) < limit
  {
    if i + 1 < |kids| {
      FirstLeafPage(kids[i + 1]);
      LeafPage(kids, i + 1);
    }
  }

  lemma {:induction false} PageOfSome(ts: seq<Tree>, p: nat) returns (i: nat)
    requires p in PagesOf(ts)
    ensures i < |ts| && p in Pages(ts[i])
  {
    if p in Pages(ts[0]) {
      i := 0;
    } else {
      i := PageOfSome(ts[1..], p);
      i := i + 1;
    }
  }

  lemma {:induction false} RootFits(pages: PageMap, t: Tree, next: nat, maxKeys: nat)
    requires Holds(pages, t, next) && Ordered(t) && Capped(t, maxKeys) && maxKeys <= 254
    requires TreeFits(t) && Between(Pages(t), 0x1_0000_0000) && next < 0x1_0000_0000
    ensures NodeFits(pages[t.page])
  {
    match t
    case TLeaf(p, es) =>
      LeafFlat(t);
      assert Entries(Keys(es), Rids(es)) == es;
    case TNode(p, keys, kids) =>
      forall i | 0 <= i < |kids| ensures RootPages(kids)[i] < 0x1_0000_0000 {
        assert kids[i] in kids;
        FirstLeafPage(kids[i]);
        LeafPage(kids, i);
        assert kids[i].page in PagesOf(kids) && kids[i].page in Pages(t);
      }
  }

  /** With at most 254 keys to a node, every node of a well-formed tree fits in its page. */
  lemma {:induction false} SubtreeFits(pages: PageMap, t: Tree, next: nat, maxKeys: nat, p: nat)
    requires Holds(pages, t, next) && Ordered(t) && Capped(t, maxKeys) && maxKeys <= 254
    requires TreeFits(t) && Between(Pages(t), 0x1_0000_0000) && next < 0x1_0000_0000
    requires p in Pages(t)
    ensures p in pages && NodeFits(pages[p])
    decreases t
  {
    RootFits(pages, t, next, maxKeys);
    if p != t.page && t.TNode? {
      var i := PageOfSome(t.kids, p);
      assert t.kids[i] in t.kids;
      KidFits(t, t.kids[i]);
      LeafPage(t.kids, i);
      assert forall q :: q in PagesOf(t.kids) ==> q in Pages(t);
      NextBelow(t.kids, i, next, 0x1_0000_0000);
      SubtreeFits(pages, t.kids[i], NextOf(t.kids, i, next), maxKeys, p);
    }
  }

  lemma {:induction false} InsertFits(t: Tree, e: Entry, free: nat, maxKeys: nat)
    requires Ordered(t) && TreeFits(t) && EntryFits(e)
    ensures TreeFits(InsertRoot(t, e, free, maxKeys).0)
  {
    InsertRootKeys(t, e, free, maxKeys);
    InsertRootFlat(t, e, free, maxKeys);
    InsortHas(Flat(t), e);
  }

  lemma {:induction false} InsertRootKeys(t: Tree, e: Entry, free: nat, maxKeys: nat)
    requires Ordered(t)
    ensures KeySet(InsertRoot(t, e, free, maxKeys).0) == KeySet(t) + {e.key}
  {
    InsertOrdered(t, e, free, maxKeys);
    var r := Grow(t, e, free, maxKeys);
    if r.split.Some? {
      var kids := [r.left, r.split.value.1];
      forall k ensures k in KeySetOf(kids) <==> k in KeySet(kids[0]) || k in KeySet(kids[1]) {
        assert kids[0] in kids && kids[1] in kids;
      }
    }
  }

  lemma {:induction false} InsortHas(es: seq<Entry>, e: Entry)
    ensures forall x :: x in Insort(es, e) ==> x in es || x == e
  {
  }

  lemma {:induction false} DeleteFits(t: Tree, e: Entry)
    requires Ordered(t) && Distinct(Pages(t)) && TreeFits(t)
    ensures TreeFits(DeleteRoot(t, e))
  {
    DeleteRootFlat(t, e);
    DeleteRootKeys(t, e);
    RemoveFirstHas(Flat(t), e);
  }

  lemma {:induction false} DeleteRootKeys(t: Tree, e: Entry)
    requires Ordered(t) && Distinct(Pages(t))
    ensures KeySet(DeleteRoot(t, e)) <= KeySet(t)
  {
    var ls, n := Leaves(t), LeafWith(Leaves(t), Landing(t, e.key), e);
    if e in Visible(t, e.key) && n < |ls| {
      RemoveShrinks(t, n, e);
      PutKeys(t, ls[n].page, RemoveFirst(ls[n].entries, e));
    }
  }

  lemma {:induction false} RemoveFirstHas(es: seq<Entry>, e: Entry)
    ensures forall x :: x in RemoveFirst(es, e) ==> x in es
  {
    if e in es {
      var i := RemoveFirstSplit(es, e);
    } else {
      RemoveAbsent(es, e);
    }
  }

  lemma {:induction false} RunFits(ops: seq<Op>, maxKeys: nat)
    requires maxKeys >= 2 && forall op :: op in ops && op.Ins? ==> EntryFits(op.e)
    ensures TreeFits(Runs.Run(ops, maxKeys).0)
  {
    if ops == [] {
      FreshSound(maxKeys);
    } else {
      var before, last := ops[..|ops| - 1], ops[|ops| - 1];
      assert ops == before + [last];
      RunFits(before, maxKeys);
      var (t, free) := Runs.Run(before, maxKeys);
      match last
      case Ins(e) => InsertFits(t, e, free, maxKeys);
      case Del(e) => DeleteFits(t, e);
    }
  }

  /** After any run, every node on disk fits in 4096 bytes and reads back as it was written. */
  lemma {:induction false} StoredRun(ops: seq<Op>, maxKeys: nat, pages: PageMap, p: nat)
    requires 2 <= maxKeys <= 254 && forall op :: op in ops && op.Ins? ==> EntryFits(op.e)
    requires var (t, free) := Runs.Run(ops, maxKeys);
      free <= 0x1_0000_0000 && Holds(pages, t, 0) && p in Pages(t)
    ensures p in pages && NodeFits(pages[p]) && DecodeNode(EncodeNode(pages[p])) == Some(pages[p])
  {
    RunFits(ops, maxKeys);
    SubtreeFits(pages, Runs.Run(ops, maxKeys).0, 0, maxKeys, p);
    NodeRoundTrip(pages[p]);
  }
}
