/** What insertion does to the contents, depth, node sizes and pages of a tree. */
module BTreeGrowth {
  import opened Wrappers
  import opened SortedKeys
  import opened BTreeShape
  import opened BTreeInsert

  // -- contents --------------------------------------------------------------

  /** `bisect.insort_right` on a list of entries: e goes after every entry whose key is at most
      its own, as long as the list is sorted. */
  function Insort(es: seq<Entry>, e: Entry): (r: seq<Entry>)
    ensures |r| == |es| + 1
  {
    InsertAt(es, UpperBound(Keys(es), e.key), e)
  }

  lemma {:induction false} InsortInside(a: seq<Entry>, m: seq<Entry>, b: seq<Entry>, e: Entry)
    requires forall i :: 0 <= i < |a| ==> a[i].key <= e.key
    requires forall i :: 0 <= i < |b| ==> e.key < b[i].key
    ensures Insort(a + m + b, e) == a + Insort(m, e) + b
  {
    var s := a + m + b;
    var n := UpperBound(Keys(m), e.key);
    assert forall j :: 0 <= j < n ==> m[j].key == Keys(m)[j];
    UpperBoundIs(Keys(s), e.key, |a| + n);
    InsideSplit(a, m, b, n, e);
  }

  lemma {:induction false} InsideSplit<T>(a: seq<T>, m: seq<T>, b: seq<T>, n: nat, x: T)
    requires n <= |m|
    ensures (a + m + b)[..|a| + n] + [x] + (a + m + b)[|a| + n..] == a + (m[..n] + [x] + m[n..]) + b
  {
    var s := a + m + b;
    assert s[..|a| + n] == a + m[..n] && s[|a| + n..] == m[n..] + b;
  }

  lemma {:induction false} LeafFlat(t: Tree)
    requires t.TLeaf?
    ensures Flat(t) == t.entries
  {
    assert Concat([t]) == t.entries + Concat([]);
  }

  lemma {:induction false} EntriesKeyed(ts: seq<Tree>, e: Entry)
    requires e in FlatOf(ts)
    ensures e.key in KeySetOf(ts)
    decreases ts, 1
  {
    if ts != [] {
      FlatOfSplit(ts, 0);
      assert FlatOf(ts[..0]) == [];
      if e in Flat(ts[0]) {
        EntryKeyed(ts[0], e);
      } else {
        EntriesKeyed(ts[1..], e);
      }
    }
  }

  lemma {:induction false} EntryKeyed(t: Tree, e: Entry)
    requires e in Flat(t)
    ensures e.key in KeySet(t)
    decreases t
  {
    match t
    case TLeaf(_, _) => LeafFlat(t);
    case TNode(_, _, kids) => EntriesKeyed(kids, e);
  }

  /** Left of the child an insertion descends into, no entry exceeds the new key. */
  lemma {:induction false} LeftOfChild(t: Tree, i: nat, k: int)
    requires t.TNode? && Ordered(t) && i <= |t.keys| && (i > 0 ==> t.keys[i - 1] <= k)
    ensures forall e :: e in FlatOf(t.kids[..i]) ==> e.key <= k
  {
    var left := t.kids[..i];
    forall e | e in FlatOf(left) ensures e.key <= k {
      EntriesKeyed(left, e);
      var s :| s in left && e.key in KeySet(s);
      LeftKid(t, i, s, k);
    }
  }

  lemma {:induction false} LeftKid(t: Tree, i: nat, s: Tree, k: int)
    requires t.TNode? && Ordered(t) && i <= |t.keys| && (i > 0 ==> t.keys[i - 1] <= k)
    requires s in t.kids[..i]
    ensures AllLE(s, k)
  {
    var j :| 0 <= j < i && t.kids[j] == s;
    assert AllLE(t.kids[j], t.keys[j]);
  }

  /** Right of it, every entry does. */
  lemma {:induction false} RightOfChild(t: Tree, i: nat, k: int)
    requires t.TNode? && Ordered(t) && i <= |t.keys| && (i < |t.keys| ==> k < t.keys[i])
    ensures forall e :: e in FlatOf(t.kids[i + 1..]) ==> k < e.key
  {
    var right := t.kids[i + 1..];
    forall e | e in FlatOf(right) ensures k < e.key {
      EntriesKeyed(right, e);
      var s :| s in right && e.key in KeySet(s);
      var j :| i < j < |t.kids| && t.kids[j] == s;
      assert AllGE(t.kids[j], t.keys[j - 1]);
    }
  }

  lemma {:induction false} FlatOfPair(a: Tree, b: Tree)
    ensures FlatOf([a, b]) == Flat(a) + Flat(b)
  {
    assert [a, b] == [a] + [b];
    FlatOfAppend([a], [b]);
    FlatOfOne(a);
    FlatOfOne(b);
  }

  /** The children among which a node that took in c distributes its entries. */
  function Around(t: Tree, i: nat, c: Grown): seq<Tree>
    requires t.TNode? && i < |t.kids|
  {
    t.kids[..i] + Parts(c) + t.kids[i + 1..]
  }

  function Children(ts: seq<Tree>): seq<Tree> {
    if ts == [] then [] else (if ts[0].TNode? then ts[0].kids else []) + Children(ts[1..])
  }

  lemma {:induction false} ChildrenPair(a: Tree, b: Tree)
    requires a.TNode? && b.TNode?
    ensures Children([a, b]) == a.kids + b.kids
  {
    assert [a, b][1..] == [b];
    assert Children([b]) == b.kids + Children([]);
  }

  /** Splitting or not, a node's children stay in order. */
  lemma {:induction false} AbsorbChildren(t: Tree, i: nat, c: Grown, maxKeys: nat)
    requires t.TNode? && i <= |t.keys| && |t.kids| == |t.keys| + 1
    ensures Children(Parts(Absorb(t, i, c, maxKeys))) == Around(t, i, c)
    ensures forall s :: s in Parts(Absorb(t, i, c, maxKeys)) ==> s.TNode?
  {
    var r := Absorb(t, i, c, maxKeys);
    if c.split.None? {
      assert t.kids[i := c.left] == Around(t, i, c);
      assert Children(Parts(r)) == r.left.kids;
    } else {
      assert InsertAt(t.kids[i := c.left], i + 1, c.split.value.1) == Around(t, i, c);
      if r.split.None? {
        assert Children(Parts(r)) == r.left.kids;
      } else {
        ChildrenPair(r.left, r.split.value.1);
      }
    }
  }

  lemma {:induction false} ChildrenFlat(ts: seq<Tree>)
    requires forall s :: s in ts ==> s.TNode?
    ensures FlatOf(ts) == FlatOf(Children(ts))
  {
    if ts != [] {
      ChildrenFlat(ts[1..]);
      FlatOfSplit(ts, 0);
      assert FlatOf(ts[..0]) == [];
      FlatOfAppend(ts[0].kids, Children(ts[1..]));
    }
  }

  lemma {:induction false} AbsorbFlat(t: Tree, i: nat, c: Grown, maxKeys: nat)
    requires t.TNode? && i <= |t.keys| && |t.kids| == |t.keys| + 1
    ensures FlatOf(Parts(Absorb(t, i, c, maxKeys))) ==
            FlatOf(t.kids[..i]) + FlatOf(Parts(c)) + FlatOf(t.kids[i + 1..])
  {
    AbsorbChildren(t, i, c, maxKeys);
    ChildrenFlat(Parts(Absorb(t, i, c, maxKeys)));
    FlatOfAppend(t.kids[..i] + Parts(c), t.kids[i + 1..]);
    FlatOfAppend(t.kids[..i], Parts(c));
  }

  lemma {:induction false} InsertLeafFlat(t: Tree, e: Entry, free: nat, maxKeys: nat)
    requires Ordered(t) && t.TLeaf?
    ensures FlatOf(Parts(Grow(t, e, free, maxKeys))) == Insort(t.entries, e)
  {
    var r := Grow(t, e, free, maxKeys);
    LeafFlat(r.left);
    if r.split.None? {
      FlatOfOne(r.left);
    } else {
      FlatOfPair(r.left, r.split.value.1);
      LeafFlat(r.split.value.1);
    }
  }

  /** The whole tree behaves like one sorted list under `insort_right`. */
  lemma {:induction false} InsertFlat(t: Tree, e: Entry, free: nat, maxKeys: nat)
    requires Ordered(t)
    ensures FlatOf(Parts(Grow(t, e, free, maxKeys))) == Insort(Flat(t), e)
    decreases t
  {
    match t
    case TLeaf(_, _) =>
      LeafFlat(t);
      InsertLeafFlat(t, e, free, maxKeys);
    case TNode(_, keys, kids) =>
      var i := UpperBound(keys, e.key);
      InsertFlat(kids[i], e, free, maxKeys);
      AbsorbFlat(t, i, Grow(kids[i], e, free, maxKeys), maxKeys);
      LeftOfChild(t, i, e.key);
      RightOfChild(t, i, e.key);
      FlatOfSplit(kids, i);
      InsortInside(FlatOf(kids[..i]), Flat(kids[i]), FlatOf(kids[i + 1..]), e);
  }

  // -- depth and node sizes --------------------------------------------------

  lemma {:induction false} AbsorbKids(t: Tree, i: nat, c: Grown, maxKeys: nat)
    requires t.TNode? && i <= |t.keys| && |t.kids| == |t.keys| + 1
    ensures forall p, s :: p in Parts(Absorb(t, i, c, maxKeys)) && s in p.kids ==> s in t.kids || s in Parts(c)
  {
  }

  lemma {:induction false} InsertBalanced(t: Tree, e: Entry, free: nat, maxKeys: nat, h: nat)
    requires Ordered(t) && Balanced(t, h)
    ensures forall s :: s in Parts(Grow(t, e, free, maxKeys)) ==> Balanced(s, h)
    decreases t
  {
    if t.TNode? {
      var i := UpperBound(t.keys, e.key);
      assert t.kids[i] in t.kids;
      InsertBalanced(t.kids[i], e, free, maxKeys, h - 1);
      AbsorbKids(t, i, Grow(t.kids[i], e, free, maxKeys), maxKeys);
    }
  }

  lemma {:induction false} InsertCapped(t: Tree, e: Entry, free: nat, maxKeys: nat)
    requires Ordered(t) && Capped(t, maxKeys) && maxKeys >= 2
    ensures forall s :: s in Parts(Grow(t, e, free, maxKeys)) ==> Capped(s, maxKeys)
    decreases t
  {
    if t.TNode? {
      var i := UpperBound(t.keys, e.key);
      assert t.kids[i] in t.kids;
      InsertCapped(t.kids[i], e, free, maxKeys);
      AbsorbKids(t, i, Grow(t.kids[i], e, free, maxKeys), maxKeys);
    }
  }

  /** The number of entries of a leaf, or of keys of an internal node. */
  function Size(t: Tree): nat {
    match t
    case TLeaf(_, es) => |es|
    case TNode(_, keys, _) => |keys|
  }

  predicate KidsFilled(t: Tree, maxKeys: nat, leafMin: nat) {
    t.TNode? ==> forall s :: s in t.kids ==> Filled(s, maxKeys, leafMin)
  }

  /** A node that splits leaves two nodes that are full enough, however small it was allowed to
      be; one that does not split loses nothing. */
  lemma {:induction false} InsertFilled(t: Tree, e: Entry, free: nat, maxKeys: nat, leafMin: nat)
    requires Ordered(t) && Capped(t, maxKeys) && maxKeys >= 2 && leafMin <= (maxKeys + 1) / 2
    requires KidsFilled(t, maxKeys, leafMin)
    ensures var r := Grow(t, e, free, maxKeys);
      && KidsFilled(r.left, maxKeys, leafMin)
      && (r.left.TNode? <==> t.TNode?)
      && (r.split.None? ==> Size(t) <= Size(r.left))
      && (r.split.Some? ==> Filled(r.left, maxKeys, leafMin) && Filled(r.split.value.1, maxKeys, leafMin))
    decreases t
  {
    if t.TNode? {
      var i := UpperBound(t.keys, e.key);
      var c := Grow(t.kids[i], e, free, maxKeys);
      assert Filled(t.kids[i], maxKeys, leafMin);
      InsertFilled(t.kids[i], e, free, maxKeys, leafMin);
      AbsorbFilled(t, i, c, maxKeys, leafMin);
    }
  }

  lemma {:induction false} AbsorbFilled(t: Tree, i: nat, c: Grown, maxKeys: nat, leafMin: nat)
    requires t.TNode? && i <= |t.keys| && |t.kids| == |t.keys| + 1 && maxKeys >= 2 && |t.keys| <= maxKeys
    requires KidsFilled(t, maxKeys, leafMin)
    requires forall s :: s in Parts(c) ==> Filled(s, maxKeys, leafMin)
    ensures var r := Absorb(t, i, c, maxKeys);
      && KidsFilled(r.left, maxKeys, leafMin)
      && r.left.TNode?
      && (r.split.None? ==> Size(t) <= Size(r.left))
      && (r.split.Some? ==> Filled(r.left, maxKeys, leafMin) && Filled(r.split.value.1, maxKeys, leafMin))
  {
  }

  // -- pages -----------------------------------------------------------------

  /** The pages lo, ..., hi - 1. */
  function Run(lo: nat, hi: nat): multiset<nat>
    decreases hi
  {
    if hi <= lo then multiset{} else Run(lo, hi - 1) + multiset{hi - 1}
  }

  lemma {:induction false} RunHolds(lo: nat, hi: nat)
    ensures Distinct(Run(lo, hi))
    ensures forall p :: p in Run(lo, hi) <==> lo <= p < hi
    decreases hi
  {
    if lo < hi {
      RunHolds(lo, hi - 1);
    }
  }

  lemma {:induction false} ChildrenPages(ts: seq<Tree>)
    requires forall s :: s in ts ==> s.TNode?
    ensures PagesOf(ts) == multiset(RootPages(ts)) + PagesOf(Children(ts))
  {
    if ts != [] {
      ChildrenPages(ts[1..]);
      assert RootPages(ts) == [ts[0].page] + RootPages(ts[1..]);
      PagesOfAppend(ts[0].kids, Children(ts[1..]));
    }
  }

  lemma {:induction false} LeafPages(ts: seq<Tree>)
    requires forall s :: s in ts ==> s.TLeaf?
    ensures PagesOf(ts) == multiset(RootPages(ts))
  {
    if ts != [] {
      LeafPages(ts[1..]);
      assert RootPages(ts) == [ts[0].page] + RootPages(ts[1..]);
    }
  }

  lemma {:induction false} AroundPages(t: Tree, i: nat, c: Grown)
    requires t.TNode? && i < |t.kids|
    ensures PagesOf(Around(t, i, c)) == PagesOf(t.kids[..i]) + PagesOf(Parts(c)) + PagesOf(t.kids[i + 1..])
  {
    PagesOfAppend(t.kids[..i] + Parts(c), t.kids[i + 1..]);
    PagesOfAppend(t.kids[..i], Parts(c));
  }

  lemma {:induction false} AbsorbRoots(t: Tree, i: nat, c: Grown, maxKeys: nat)
    requires t.TNode? && i <= |t.keys| && |t.kids| == |t.keys| + 1
    ensures var r := Absorb(t, i, c, maxKeys);
      && c.free <= r.free
      && multiset(RootPages(Parts(r))) == multiset{t.page} + Run(c.free, r.free)
  {
    var r := Absorb(t, i, c, maxKeys);
    assert RootPages(Parts(r)) == if r.split.None? then [t.page] else [t.page, c.free];
    assert Run(c.free, c.free + 1) == Run(c.free, c.free) + multiset{c.free};
  }

  lemma {:induction false} BagAssoc<T>(a: multiset<T>, b: multiset<T>, c: multiset<T>)
    ensures (a + b) + c == a + (b + c)
  {
  }

  lemma {:induction false} RunAppend(lo: nat, mid: nat, hi: nat)
    requires lo <= mid <= hi
    ensures Run(lo, hi) == Run(lo, mid) + Run(mid, hi)
    decreases hi
  {
    if mid < hi {
      assert Run(lo, hi) == Run(lo, hi - 1) + multiset{hi - 1};
      RunAppend(lo, mid, hi - 1);
      BagAssoc(Run(lo, mid), Run(mid, hi - 1), multiset{hi - 1});
    }
  }

  lemma {:induction false} AbsorbPages(t: Tree, i: nat, c: Grown, maxKeys: nat, free: nat)
    requires t.TNode? && i <= |t.keys| && |t.kids| == |t.keys| + 1 && free <= c.free
    requires PagesOf(Parts(c)) == Pages(t.kids[i]) + Run(free, c.free)
    ensures var r := Absorb(t, i, c, maxKeys);
      free <= r.free && PagesOf(Parts(r)) == Pages(t) + Run(free, r.free)
  {
    var r := Absorb(t, i, c, maxKeys);
    AbsorbChildren(t, i, c, maxKeys);
    ChildrenPages(Parts(r));
    AbsorbRoots(t, i, c, maxKeys);
    AroundPages(t, i, c);
    PagesOfSplit(t.kids, i);
    RunAppend(free, c.free, r.free);
  }

  /** An insertion keeps every page in use and takes the fresh pages it needs in order. */
  lemma {:induction false} InsertPages(t: Tree, e: Entry, free: nat, maxKeys: nat)
    requires Ordered(t)
    ensures var r := Grow(t, e, free, maxKeys);
      free <= r.free && PagesOf(Parts(r)) == Pages(t) + Run(free, r.free)
    decreases t
  {
    if t.TLeaf? {
      var r := Grow(t, e, free, maxKeys);
      LeafPages(Parts(r));
      assert RootPages(Parts(r)) == if r.split.None? then [t.page] else [t.page, free];
      assert Run(free, free + 1) == Run(free, free) + multiset{free};
    } else {
      var i := UpperBound(t.keys, e.key);
      InsertPages(t.kids[i], e, free, maxKeys);
      AbsorbPages(t, i, Grow(t.kids[i], e, free, maxKeys), maxKeys, free);
    }
  }

  /** An insertion keeps the root page and the first leaf of the subtree. */
  lemma {:induction false} InsertKeepsFirst(t: Tree, e: Entry, free: nat, maxKeys: nat)
    requires Ordered(t) && maxKeys >= 2
    ensures var r := Grow(t, e, free, maxKeys);
      r.left.page == t.page && FirstLeaf(r.left) == FirstLeaf(t)
    decreases t
  {
    if t.TNode? {
      InsertKeepsFirst(t.kids[UpperBound(t.keys, e.key)], e, free, maxKeys);
    }
  }
}
