/** How a tree shape is laid out over node pages. */
module BTreeStore {
  import opened Wrappers
  import opened SortedKeys
  import opened BTreeShape
  import opened BTreeInsert
  import opened BTreeGrowth
  import opened BTreeWalk
  import opened BTreeDelete

  /** A node as `_load` parses it from its page; `next` is 0 at the end of the leaf chain. */
  datatype Node =
    | Leaf(keys: seq<int>, values: seq<RowId>, next: nat)
    | Internal(keys: seq<int>, children: seq<nat>)

  type PageMap = map<nat, Node>

  /** The pages spell out the subtree t, and its last leaf is chained to page `next`. */
  predicate Holds(pages: PageMap, t: Tree, next: nat)
    decreases t
  {
    && t.page in pages
    && match t
       case TLeaf(p, es) => pages[p] == Leaf(Keys(es), Rids(es), next)
       case TNode(p, keys, kids) =>
         && pages[p] == Internal(keys, RootPages(kids))
         && forall i :: 0 <= i < |kids| ==> Holds(pages, kids[i], NextOf(kids, i, next))
  }

  predicate HoldsAll(pages: PageMap, ts: seq<Tree>, next: nat) {
    forall i :: 0 <= i < |ts| ==> Holds(pages, ts[i], NextOf(ts, i, next))
  }

  /** Of the pages below `limit`, only those in `except` may differ. */
  predicate Untouched(pages: PageMap, pages': PageMap, limit: nat, except: multiset<nat>) {
    forall p :: p in pages && p < limit && p !in except ==> p in pages' && pages'[p] == pages[p]
  }

  /** The two page maps agree on the given pages. */
  predicate Agree(pages: PageMap, pages': PageMap, on: multiset<nat>) {
    forall p :: p in on && p in pages ==> p in pages' && pages'[p] == pages[p]
  }

  lemma {:induction false} HoldsFrame(pages: PageMap, pages': PageMap, t: Tree, next: nat)
    requires Holds(pages, t, next) && Agree(pages, pages', Pages(t))
    ensures Holds(pages', t, next)
    decreases t
  {
    if t.TNode? {
      forall i | 0 <= i < |t.kids| ensures Holds(pages', t.kids[i], NextOf(t.kids, i, next)) {
        LeafPage(t.kids, i);
        HoldsFrame(pages, pages', t.kids[i], NextOf(t.kids, i, next));
      }
    }
  }

  lemma {:induction false} HoldsAllFrame(pages: PageMap, pages': PageMap, ts: seq<Tree>, next: nat)
    requires HoldsAll(pages, ts, next) && Agree(pages, pages', PagesOf(ts))
    ensures HoldsAll(pages', ts, next)
  {
    forall i | 0 <= i < |ts| ensures Holds(pages', ts[i], NextOf(ts, i, next)) {
      LeafPage(ts, i);
      HoldsFrame(pages, pages', ts[i], NextOf(ts, i, next));
    }
  }

  lemma {:induction false} HoldsAppend(pages: PageMap, a: seq<Tree>, b: seq<Tree>, next: nat)
    requires b != []
    ensures HoldsAll(pages, a + b, next) <==> HoldsAll(pages, a, FirstLeaf(b[0])) && HoldsAll(pages, b, next)
  {
    var s := a + b;
    if HoldsAll(pages, s, next) {
      forall i | 0 <= i < |a| ensures Holds(pages, a[i], NextOf(a, i, FirstLeaf(b[0]))) {
        assert s[i] == a[i];
        assert NextOf(s, i, next) == NextOf(a, i, FirstLeaf(b[0]));
      }
      forall i | 0 <= i < |b| ensures Holds(pages, b[i], NextOf(b, i, next)) {
        assert s[|a| + i] == b[i];
        assert NextOf(s, |a| + i, next) == NextOf(b, i, next);
      }
    }
    if HoldsAll(pages, a, FirstLeaf(b[0])) && HoldsAll(pages, b, next) {
      forall i | 0 <= i < |s| ensures Holds(pages, s[i], NextOf(s, i, next)) {
        if i < |a| {
          assert NextOf(s, i, next) == NextOf(a, i, FirstLeaf(b[0]));
        } else {
          assert NextOf(s, i, next) == NextOf(b, i - |a|, next);
        }
      }
    }
  }

  /** The leaf chain links the leaves in order. */
  lemma {:induction false} HoldsLeaves(pages: PageMap, t: Tree, next: nat)
    requires Ordered(t) && Holds(pages, t, next)
    ensures HoldsAll(pages, Leaves(t), next)
    decreases t, 0
  {
    if t.TNode? {
      HoldsLeavesOf(pages, t.kids, next);
    }
  }

  lemma {:induction false} HoldsLeavesOf(pages: PageMap, ts: seq<Tree>, next: nat)
    requires (forall s :: s in ts ==> Ordered(s)) && HoldsAll(pages, ts, next)
    ensures HoldsAll(pages, LeavesOf(ts), next)
    ensures ts != [] ==> LeavesOf(ts) != [] && LeavesOf(ts)[0].page == FirstLeaf(ts[0])
    decreases ts
  {
    if ts != [] {
      LeavesNonEmpty(ts[0]);
      HoldsLeaves(pages, ts[0], NextOf(ts, 0, next));
      if |ts| == 1 {
        assert LeavesOf(ts) == Leaves(ts[0]);
      } else {
        assert ts == ts[..1] + ts[1..];
        HoldsAppend(pages, ts[..1], ts[1..], next);
        HoldsLeavesOf(pages, ts[1..], next);
        HoldsAppend(pages, Leaves(ts[0]), LeavesOf(ts[1..]), next);
      }
    }
  }

  /** The children of a node, seen from child i. */
  lemma {:induction false} HoldsKids(pages: PageMap, kids: seq<Tree>, i: nat, next: nat)
    requires HoldsAll(pages, kids, next) && i < |kids|
    ensures HoldsAll(pages, kids[..i], FirstLeaf(kids[i]))
    ensures HoldsAll(pages, kids[i + 1..], next)
  {
  }

  /** Putting the parts of an insertion in the place of child i keeps the chain whole. */
  lemma {:induction false} HoldsAround(pages: PageMap, t: Tree, i: nat, c: Grown, next: nat)
    requires t.TNode? && i < |t.kids| && FirstLeaf(c.left) == FirstLeaf(t.kids[i])
    requires HoldsAll(pages, t.kids[..i], FirstLeaf(t.kids[i]))
    requires HoldsAll(pages, Parts(c), NextOf(t.kids, i, next))
    requires HoldsAll(pages, t.kids[i + 1..], next)
    ensures HoldsAll(pages, Around(t, i, c), next)
  {
  }

  /** On distinct pages, child i shares no page with its parent or its siblings. */
  lemma {:induction false} KidsApart(t: Tree, i: nat)
    requires t.TNode? && i < |t.kids| && Distinct(Pages(t))
    ensures Distinct(Pages(t.kids[i])) && Pages(t.kids[i]) <= Pages(t)
    ensures t.page !in PagesOf(t.kids)
    ensures Pages(t.kids[i]) !! PagesOf(t.kids[..i]) && Pages(t.kids[i]) !! PagesOf(t.kids[i + 1..])
  {
    PagesOfSplit(t.kids, i);
    var a, k, b := PagesOf(t.kids[..i]), Pages(t.kids[i]), PagesOf(t.kids[i + 1..]);
    var all := Pages(t);
    assert all == multiset{t.page} + (a + k + b);
    forall p ensures all[p] == (if p == t.page then 1 else 0) + a[p] + k[p] + b[p] {}
    forall p | p in k ensures k[p] == 1 && p !in a && p !in b { assert p in all; }
    assert t.page in all;
  }

  /** Storing a node on a page of its own changes nothing that other trees hold. */
  lemma {:induction false} StoreElsewhere(pages: PageMap, p: nat, n: Node, ts: seq<Tree>, next: nat)
    requires HoldsAll(pages, ts, next) && p !in PagesOf(ts)
    ensures HoldsAll(pages[p := n], ts, next)
  {
    HoldsAllFrame(pages, pages[p := n], ts, next);
  }

  function NodeOf(t: Tree): Node {
    match t
    case TLeaf(_, es) => Leaf(Keys(es), Rids(es), 0)
    case TNode(_, keys, kids) => Internal(keys, RootPages(kids))
  }

  /** Storing an internal node above children that are already in place. */
  lemma {:induction false} StoreNode(pages: PageMap, t: Tree, next: nat)
    requires t.TNode? && HoldsAll(pages, t.kids, next) && t.page !in PagesOf(t.kids)
    ensures Holds(pages[t.page := NodeOf(t)], t, next)
  {
    StoreElsewhere(pages, t.page, NodeOf(t), t.kids, next);
  }

  lemma {:induction false} StoreBoth(pages: PageMap, left: Tree, right: Tree, next: nat)
    requires left.TNode? && right.TNode? && left.page != right.page
    requires HoldsAll(pages, left.kids, FirstLeaf(right)) && HoldsAll(pages, right.kids, next)
    requires left.page !in PagesOf(left.kids) && left.page !in PagesOf(right.kids)
    requires right.page !in PagesOf(left.kids) && right.page !in PagesOf(right.kids)
    ensures HoldsAll(pages[left.page := NodeOf(left)][right.page := NodeOf(right)], [left, right], next)
  {
    var pages1 := pages[left.page := NodeOf(left)];
    StoreNode(pages, left, FirstLeaf(right));
    StoreElsewhere(pages, left.page, NodeOf(left), right.kids, next);
    StoreNode(pages1, right, next);
    HoldsFrame(pages1, pages1[right.page := NodeOf(right)], left, FirstLeaf(right));
    HoldsPair(pages1[right.page := NodeOf(right)], left, right, next);
  }

  lemma {:induction false} HoldsOne(pages: PageMap, t: Tree, next: nat)
    requires Holds(pages, t, next)
    ensures HoldsAll(pages, [t], next)
  {
  }

  lemma {:induction false} HoldsPair(pages: PageMap, a: Tree, b: Tree, next: nat)
    requires Holds(pages, a, FirstLeaf(b)) && Holds(pages, b, next)
    ensures HoldsAll(pages, [a, b], next)
  {
  }

  /** The page map after an internal node was split over pages p and free. */
  function SplitStored(pages: PageMap, p: nat, keys: seq<int>, children: seq<nat>, free: nat): PageMap
    requires keys != [] && |children| == |keys| + 1
  {
    var mid := |keys| / 2;
    pages[p := Internal(keys[..mid], children[..mid + 1])][free := Internal(keys[mid + 1..], children[mid + 1..])]
  }

  lemma {:induction false} HoldsSplit(pages: PageMap, p: nat, keys: seq<int>, kids: seq<Tree>, free: nat, next: nat)
    requires keys != [] && |kids| == |keys| + 1 && p != free
    requires HoldsAll(pages, kids, next) && p !in PagesOf(kids) && free !in PagesOf(kids)
    ensures HoldsAll(SplitStored(pages, p, keys, RootPages(kids), free), Parts(SplitNode(p, keys, kids, free)), next)
  {
    var mid := |keys| / 2;
    var left, right := TNode(p, keys[..mid], kids[..mid + 1]), TNode(free, keys[mid + 1..], kids[mid + 1..]);
    assert kids == left.kids + right.kids;
    HoldsAppend(pages, left.kids, right.kids, next);
    PagesOfAppend(left.kids, right.kids);
    StoreBoth(pages, left, right, next);
    RootPagesSlices(kids, mid + 1);
  }

  lemma {:induction false} RootPagesSlices(kids: seq<Tree>, n: nat)
    requires n <= |kids|
    ensures RootPages(kids)[..n] == RootPages(kids[..n]) && RootPages(kids)[n..] == RootPages(kids[n..])
  {
  }

  /** What a node stores once its child i has been inserted into. */
  function AbsorbStored(pages: PageMap, t: Tree, i: nat, c: Grown, maxKeys: nat): PageMap
    requires t.TNode? && i <= |t.keys| && |t.kids| == |t.keys| + 1
  {
    match c.split
    case None => pages
    case Some((sep, right)) =>
      var keys := InsertAt(t.keys, i, sep);
      var children := InsertAt(RootPages(t.kids), i + 1, right.page);
      if |keys| <= maxKeys then pages[t.page := Internal(keys, children)]
      else SplitStored(pages, t.page, keys, children, c.free)
  }

  lemma {:induction false} HoldsReplaced(pages: PageMap, t: Tree, i: nat, left: Tree, next: nat)
    requires t.TNode? && i < |t.kids|
    requires t.page in pages && pages[t.page] == NodeOf(t) && left.page == t.kids[i].page
    requires HoldsAll(pages, t.kids[i := left], next)
    ensures HoldsAll(pages, [TNode(t.page, t.keys, t.kids[i := left])], next)
  {
  }

  lemma {:induction false} HoldsWidened(pages: PageMap, t: Tree, next: nat)
    requires t.TNode? && HoldsAll(pages, t.kids, next) && t.page !in PagesOf(t.kids)
    ensures HoldsAll(pages[t.page := NodeOf(t)], [t], next)
  {
    StoreNode(pages, t, next);
    HoldsOne(pages[t.page := NodeOf(t)], t, next);
  }

  lemma {:induction false} HoldsTaken(
      pages: PageMap, p: nat, keys: seq<int>, kids: seq<Tree>, free: nat, maxKeys: nat, next: nat)
    requires |kids| == |keys| + 1 && keys != [] && p != free
    requires HoldsAll(pages, kids, next) && p !in PagesOf(kids) && free !in PagesOf(kids)
    ensures |keys| <= maxKeys ==>
      HoldsAll(pages[p := Internal(keys, RootPages(kids))], [TNode(p, keys, kids)], next)
    ensures |keys| > maxKeys ==>
      HoldsAll(SplitStored(pages, p, keys, RootPages(kids), free), Parts(SplitNode(p, keys, kids, free)), next)
  {
    if |keys| <= maxKeys {
      HoldsWidened(pages, TNode(p, keys, kids), next);
    } else {
      HoldsSplit(pages, p, keys, kids, free, next);
    }
  }

  lemma {:induction false} HoldsAbsorb(pages: PageMap, t: Tree, i: nat, c: Grown, maxKeys: nat, next: nat)
    requires t.TNode? && i <= |t.keys| && |t.kids| == |t.keys| + 1
    requires t.page in pages && pages[t.page] == NodeOf(t)
    requires c.left.page == t.kids[i].page
    requires HoldsAll(pages, Around(t, i, c), next)
    requires t.page !in PagesOf(Around(t, i, c)) && c.free !in PagesOf(Around(t, i, c)) && t.page != c.free
    ensures HoldsAll(AbsorbStored(pages, t, i, c, maxKeys), Parts(Absorb(t, i, c, maxKeys)), next)
  {
    AroundIs(t, i, c);
    if c.split.None? {
      HoldsReplaced(pages, t, i, c.left, next);
    } else {
      var (sep, right) := c.split.value;
      HoldsTaken(pages, t.page, InsertAt(t.keys, i, sep), Around(t, i, c), c.free, maxKeys, next);
    }
  }

  lemma {:induction false} AroundIs(t: Tree, i: nat, c: Grown)
    requires t.TNode? && i < |t.kids|
    ensures c.split.None? ==> t.kids[i := c.left] == Around(t, i, c)
    ensures c.split.Some? ==> InsertAt(t.kids[i := c.left], i + 1, c.split.value.1) == Around(t, i, c)
    ensures c.split.Some? && c.left.page == t.kids[i].page ==>
      RootPages(Around(t, i, c)) == InsertAt(RootPages(t.kids), i + 1, c.split.value.1.page)
  {
  }

  lemma {:induction false} BagsApart(
      page: nat, a: multiset<nat>, k: multiset<nat>, b: multiset<nat>, run: multiset<nat>, free: nat, free': nat)
    requires var all := multiset{page} + (a + k + b); Distinct(all) && Between(all, free)
    requires free <= free' && forall q :: q in run ==> free <= q < free'
    ensures forall q :: q in a || q in b || q == page ==> q < free && q !in k
    ensures page !in a + (k + run) + b && free' !in a + (k + run) + b && page != free'
  {
    var all := multiset{page} + (a + k + b);
    forall q ensures all[q] == (if q == page then 1 else 0) + a[q] + k[q] + b[q] {}
    forall q | q in a || q in b || q == page ensures q < free && q !in k {
      assert q in all;
    }
    assert page in all;
    assert forall q :: q in a || q in k || q in b ==> q in all;
  }

  /** The pages around an insertion into child i. */
  lemma {:induction false} InsertedPages(t: Tree, i: nat, c: Grown, free: nat)
    requires t.TNode? && i < |t.kids| && Distinct(Pages(t)) && Between(Pages(t), free) && free <= c.free
    requires PagesOf(Parts(c)) == Pages(t.kids[i]) + Run(free, c.free)
    ensures forall q :: q in PagesOf(t.kids[..i]) || q in PagesOf(t.kids[i + 1..]) || q == t.page ==>
      q < free && q !in Pages(t.kids[i])
    ensures t.page !in PagesOf(Around(t, i, c)) && c.free !in PagesOf(Around(t, i, c)) && t.page != c.free
  {
    PagesOfSplit(t.kids, i);
    AroundPages(t, i, c);
    RunHolds(free, c.free);
    BagsApart(
      t.page, PagesOf(t.kids[..i]), Pages(t.kids[i]), PagesOf(t.kids[i + 1..]), Run(free, c.free), free, c.free);
  }

  /** A recursive insertion into child i leaves its siblings and its parent's page alone. */
  lemma {:induction false} HoldsInserted(
      pages: PageMap, pages': PageMap, t: Tree, i: nat, c: Grown, free: nat, next: nat)
    requires t.TNode? && i < |t.kids| && Distinct(Pages(t)) && Between(Pages(t), free) && free <= c.free
    requires Holds(pages, t, next)
    requires HoldsAll(pages', Parts(c), NextOf(t.kids, i, next)) && FirstLeaf(c.left) == FirstLeaf(t.kids[i])
    requires PagesOf(Parts(c)) == Pages(t.kids[i]) + Run(free, c.free)
    requires Untouched(pages, pages', free, Pages(t.kids[i]))
    ensures HoldsAll(pages', Around(t, i, c), next)
    ensures t.page in pages' && pages'[t.page] == pages[t.page]
  {
    InsertedPages(t, i, c, free);
    HoldsKids(pages, t.kids, i, next);
    HoldsAllFrame(pages, pages', t.kids[..i], FirstLeaf(t.kids[i]));
    HoldsAllFrame(pages, pages', t.kids[i + 1..], next);
    HoldsAround(pages', t, i, c, next);
  }

  /** One step of the recursion: what the node stores after its child was inserted into makes
      the pages spell out the whole subtree's insertion. */
  lemma {:induction false} HoldsInsert(
      pages: PageMap, pages': PageMap, t: Tree, e: Entry, free: nat, maxKeys: nat, next: nat)
    requires t.TNode? && Ordered(t) && Distinct(Pages(t)) && Between(Pages(t), free) && maxKeys >= 2
    requires Holds(pages, t, next)
    requires var i := UpperBound(t.keys, e.key);
      && HoldsAll(pages', Parts(Grow(t.kids[i], e, free, maxKeys)), NextOf(t.kids, i, next))
      && Untouched(pages, pages', free, Pages(t.kids[i]))
    ensures var i := UpperBound(t.keys, e.key);
      var c := Grow(t.kids[i], e, free, maxKeys);
      && HoldsAll(AbsorbStored(pages', t, i, c, maxKeys), Parts(Grow(t, e, free, maxKeys)), next)
      && Untouched(pages, AbsorbStored(pages', t, i, c, maxKeys), free, Pages(t))
  {
    var i := UpperBound(t.keys, e.key);
    var c := Grow(t.kids[i], e, free, maxKeys);
    InsertKeepsFirst(t.kids[i], e, free, maxKeys);
    InsertPages(t.kids[i], e, free, maxKeys);
    HoldsStep(pages, pages', t, i, c, free, maxKeys, next);
  }

  lemma {:induction false} HoldsStep(
      pages: PageMap, pages': PageMap, t: Tree, i: nat, c: Grown, free: nat, maxKeys: nat, next: nat)
    requires t.TNode? && i <= |t.keys| && |t.kids| == |t.keys| + 1
    requires Distinct(Pages(t)) && Between(Pages(t), free) && free <= c.free
    requires Holds(pages, t, next)
    requires HoldsAll(pages', Parts(c), NextOf(t.kids, i, next)) && Untouched(pages, pages', free, Pages(t.kids[i]))
    requires FirstLeaf(c.left) == FirstLeaf(t.kids[i]) && c.left.page == t.kids[i].page
    requires PagesOf(Parts(c)) == Pages(t.kids[i]) + Run(free, c.free)
    ensures HoldsAll(AbsorbStored(pages', t, i, c, maxKeys), Parts(Absorb(t, i, c, maxKeys)), next)
    ensures Untouched(pages, AbsorbStored(pages', t, i, c, maxKeys), free, Pages(t))
  {
    HoldsInserted(pages, pages', t, i, c, free, next);
    InsertedPages(t, i, c, free);
    HoldsAbsorb(pages', t, i, c, maxKeys, next);
    UntouchedAbsorb(pages, pages', t, i, c, free, maxKeys);
  }

  lemma {:induction false} UntouchedAbsorb(
      pages: PageMap, pages': PageMap, t: Tree, i: nat, c: Grown, free: nat, maxKeys: nat)
    requires t.TNode? && i <= |t.keys| && |t.kids| == |t.keys| + 1
    requires Distinct(Pages(t)) && Between(Pages(t), free) && free <= c.free
    requires Untouched(pages, pages', free, Pages(t.kids[i]))
    ensures Untouched(pages, AbsorbStored(pages', t, i, c, maxKeys), free, Pages(t))
  {
    KidPages(t, i, free);
  }

  lemma {:induction false} KidPages(t: Tree, i: nat, limit: nat)
    requires t.TNode? && i < |t.kids| && Distinct(Pages(t)) && Between(Pages(t), limit)
    ensures Distinct(Pages(t.kids[i])) && Between(Pages(t.kids[i]), limit)
    ensures t.page in Pages(t) && forall q :: q in Pages(t.kids[i]) ==> q in Pages(t)
  {
    KidsApart(t, i);
  }

  /** The page map after a leaf took in an entry. */
  function LeafStored(pages: PageMap, p: nat, es: seq<Entry>, maxKeys: nat, free: nat, next: nat): PageMap {
    if |es| <= maxKeys then pages[p := Leaf(Keys(es), Rids(es), next)]
    else
      var mid := |es| / 2;
      pages[p := Leaf(Keys(es)[..mid], Rids(es)[..mid], free)][free := Leaf(Keys(es)[mid..], Rids(es)[mid..], next)]
  }

  lemma {:induction false} HoldsLeaf(pages: PageMap, t: Tree, e: Entry, maxKeys: nat, free: nat, next: nat)
    requires t.TLeaf? && Ordered(t) && t.page != free
    ensures var es := InsertAt(t.entries, UpperBound(Keys(t.entries), e.key), e);
      HoldsAll(LeafStored(pages, t.page, es, maxKeys, free, next), Parts(Grow(t, e, free, maxKeys)), next)
  {
    var es := InsertAt(t.entries, UpperBound(Keys(t.entries), e.key), e);
    var r := Grow(t, e, free, maxKeys);
    var pages' := LeafStored(pages, t.page, es, maxKeys, free, next);
    if r.split.None? {
      HoldsOne(pages', r.left, next);
    } else {
      var mid := |es| / 2;
      assert Keys(es)[..mid] == Keys(es[..mid]) && Rids(es)[..mid] == Rids(es[..mid]);
      assert Keys(es)[mid..] == Keys(es[mid..]) && Rids(es)[mid..] == Rids(es[mid..]);
      HoldsPair(pages', r.left, r.split.value.1, next);
    }
  }

  /** Replacing a leaf's entries on its page replaces them in the tree. */
  lemma {:induction false} HoldsPut(pages: PageMap, t: Tree, next: nat, p: nat, es: seq<Entry>, n: Node)
    requires Ordered(t) && Holds(pages, t, next) && Distinct(Pages(t))
    requires p in pages && pages[p].Leaf? && n == Leaf(Keys(es), Rids(es), pages[p].next)
    ensures Holds(pages[p := n], Put(t, p, es), next)
    decreases t
  {
    if t.TNode? {
      var kids' := PutOf(t.kids, p, es);
      forall i | 0 <= i < |kids'| ensures Holds(pages[p := n], kids'[i], NextOf(kids', i, next)) {
        KidsApart(t, i);
        assert t.kids[i] in t.kids;
        HoldsPut(pages, t.kids[i], NextOf(t.kids, i, next), p, es, n);
        if i + 1 < |kids'| { PutPages(t.kids[i + 1], p, es); }
      }
      forall i | 0 <= i < |kids'| ensures RootPages(kids')[i] == RootPages(t.kids)[i] {
        PutPages(t.kids[i], p, es);
      }
      assert RootPages(kids') == RootPages(t.kids);
    }
  }

  lemma {:induction false} PagesLive(t: Tree, limit: nat)
    requires Between(Pages(t), limit)
    ensures 2 <= t.page < limit
  {
    assert t.page in Pages(t);
  }
}
