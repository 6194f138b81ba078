/** Insertion on tree shapes, and what it does to the tree. */
module BTreeInsert {
  import opened Wrappers
  import opened SortedKeys
  import opened BTreeShape

  /** `list.insert`. */
  function InsertAt<T>(s: seq<T>, i: nat, x: T): (r: seq<T>)
    requires i <= |s|
    ensures |r| == |s| + 1
  {
    s[..i] + [x] + s[i..]
  }

  /** What an insertion leaves behind: the subtree, a separator and right sibling if it split,
      and the number of the next page the pager would hand out. */
  datatype Grown = Grown(left: Tree, split: Option<(int, Tree)>, free: nat)

  function Grow(t: Tree, e: Entry, free: nat, maxKeys: nat): (r: Grown)
    requires Ordered(t)
    decreases t
  {
    match t
    case TLeaf(p, es) =>
      var es' := InsertAt(es, UpperBound(Keys(es), e.key), e);
      if |es'| <= maxKeys then Grown(TLeaf(p, es'), None, free) else SplitLeaf(p, es', free)
    case TNode(p, keys, kids) =>
      var i := UpperBound(keys, e.key);
      Absorb(t, i, Grow(kids[i], e, free, maxKeys), maxKeys)
  }

  /** A node takes in what an insertion left of its child i, splitting in turn if it must. */
  function Absorb(t: Tree, i: nat, c: Grown, maxKeys: nat): (r: Grown)
    requires t.TNode? && i <= |t.keys| && |t.kids| == |t.keys| + 1
  {
    match c.split
    case None => Grown(TNode(t.page, t.keys, t.kids[i := c.left]), None, c.free)
    case Some((sep, right)) =>
      var keys' := InsertAt(t.keys, i, sep);
      var kids' := InsertAt(t.kids[i := c.left], i + 1, right);
      if |keys'| <= maxKeys then Grown(TNode(t.page, keys', kids'), None, c.free)
      else SplitNode(t.page, keys', kids', c.free)
  }

  function SplitLeaf(p: nat, es: seq<Entry>, free: nat): Grown
    requires es != []
  {
    var mid := |es| / 2;
    Grown(TLeaf(p, es[..mid]), Some((es[mid].key, TLeaf(free, es[mid..]))), free + 1)
  }

  function SplitNode(p: nat, keys: seq<int>, kids: seq<Tree>, free: nat): Grown
    requires keys != [] && |kids| == |keys| + 1
  {
    var mid := |keys| / 2;
    Grown(TNode(p, keys[..mid], kids[..mid + 1]),
          Some((keys[mid], TNode(free, keys[mid + 1..], kids[mid + 1..]))), free + 1)
  }

  /** The trees an insertion leaves behind. */
  function Parts(r: Grown): seq<Tree> {
    if r.split.None? then [r.left] else [r.left, r.split.value.1]
  }

  // -- order -----------------------------------------------------------------

  lemma {:induction false} InsertAtSorted(s: seq<int>, i: nat, x: int)
    requires Sorted(s) && i <= |s|
    requires i > 0 ==> s[i - 1] <= x
    requires i < |s| ==> x <= s[i]
    ensures Sorted(InsertAt(s, i, x))
  {
  }

  lemma {:induction false} KeysInsertAt(es: seq<Entry>, i: nat, e: Entry)
    requires i <= |es|
    ensures Keys(InsertAt(es, i, e)) == InsertAt(Keys(es), i, e.key)
    ensures Rids(InsertAt(es, i, e)) == InsertAt(Rids(es), i, e.rid)
  {
  }

  /** The keys of an insertion's parts, the separator among them. */
  function PartKeys(r: Grown): set<int> {
    KeySet(r.left) + if r.split.None? then {} else {r.split.value.0} + KeySet(r.split.value.1)
  }

  /** The two parts are ordered, and the separator lies between them. */
  ghost predicate PartsOrdered(r: Grown) {
    && Ordered(r.left)
    && (r.split.Some? ==>
          && Ordered(r.split.value.1)
          && AllLE(r.left, r.split.value.0)
          && AllGE(r.split.value.1, r.split.value.0))
  }

  lemma {:induction false} FencedParts(keys: seq<int>, kids: seq<Tree>, mid: nat)
    requires Fenced(keys, kids) && mid < |keys|
    ensures Fenced(keys[..mid], kids[..mid + 1])
    ensures Fenced(keys[mid + 1..], kids[mid + 1..])
  {
  }

  lemma {:induction false} FencedBelow(keys: seq<int>, kids: seq<Tree>, mid: nat, l: Tree)
    requires Fenced(keys, kids) && mid < |keys|
    requires l.TNode? && l.keys == keys[..mid] && l.kids == kids[..mid + 1]
    ensures AllLE(l, keys[mid])
  {
    forall x | x in KeySet(l) ensures x <= keys[mid] {
      if x in l.keys {
        var i :| 0 <= i < mid && keys[i] == x;
      } else {
        assert x in KeySetOf(l.kids);
        var s :| s in l.kids && x in KeySet(s);
        var i :| 0 <= i <= mid && kids[i] == s;
        assert AllLE(kids[i], keys[i]);
      }
    }
  }

  lemma {:induction false} FencedAbove(keys: seq<int>, kids: seq<Tree>, mid: nat, r: Tree)
    requires Fenced(keys, kids) && mid < |keys|
    requires r.TNode? && r.keys == keys[mid + 1..] && r.kids == kids[mid + 1..]
    ensures AllGE(r, keys[mid])
  {
    forall x | x in KeySet(r) ensures keys[mid] <= x {
      if x in r.keys {
        var i :| mid < i < |keys| && keys[i] == x;
      } else {
        assert x in KeySetOf(r.kids);
        var s :| s in r.kids && x in KeySet(s);
        var i :| mid < i < |kids| && kids[i] == s;
        assert AllGE(kids[i], keys[i - 1]);
      }
    }
  }

  lemma {:induction false} SplitNodeOrdered(p: nat, keys: seq<int>, kids: seq<Tree>, free: nat)
    requires Ordered(TNode(p, keys, kids)) && keys != []
    ensures PartsOrdered(SplitNode(p, keys, kids, free))
  {
    var mid := |keys| / 2;
    FencedParts(keys, kids, mid);
    var r := SplitNode(p, keys, kids, free);
    FencedBelow(keys, kids, mid, r.left);
    FencedAbove(keys, kids, mid, r.split.value.1);
  }

  lemma {:induction false} KeySetOfAppend(a: seq<Tree>, b: seq<Tree>)
    ensures KeySetOf(a + b) == KeySetOf(a) + KeySetOf(b)
  {
  }

  lemma {:induction false} SplitNodeKeys(p: nat, keys: seq<int>, kids: seq<Tree>, free: nat)
    requires |kids| == |keys| + 1 && keys != []
    ensures PartKeys(SplitNode(p, keys, kids, free)) == KeySet(TNode(p, keys, kids))
  {
    var mid := |keys| / 2;
    assert kids == kids[..mid + 1] + kids[mid + 1..];
    KeySetOfAppend(kids[..mid + 1], kids[mid + 1..]);
    assert keys == keys[..mid] + [keys[mid]] + keys[mid + 1..];
  }

  lemma {:induction false} LeafHalves(es: seq<Entry>, mid: nat, l: Tree, r: Tree)
    requires Sorted(Keys(es)) && mid < |es|
    requires l.TLeaf? && l.entries == es[..mid]
    requires r.TLeaf? && r.entries == es[mid..]
    ensures Ordered(l) && Ordered(r) && AllLE(l, es[mid].key) && AllGE(r, es[mid].key)
    ensures KeySet(l) + KeySet(r) == (set e | e in es :: e.key)
  {
    assert Keys(l.entries) == Keys(es)[..mid];
    assert Keys(r.entries) == Keys(es)[mid..];
    assert forall i :: 0 <= i < |es| ==> es[i].key == Keys(es)[i];
    assert es == l.entries + r.entries;
  }

  /** A leaf's entries with one put in its place. */
  lemma {:induction false} InsertEntry(es: seq<Entry>, e: Entry)
    requires Sorted(Keys(es))
    ensures var es' := InsertAt(es, UpperBound(Keys(es), e.key), e);
      && Sorted(Keys(es'))
      && (set f | f in es' :: f.key) == (set f | f in es :: f.key) + {e.key}
  {
    var i := UpperBound(Keys(es), e.key);
    KeysInsertAt(es, i, e);
    InsertAtSorted(Keys(es), i, e.key);
    var es' := InsertAt(es, i, e);
    assert es == es[..i] + es[i..];
    assert forall f :: f in es' <==> f in es || f == e;
  }

  lemma {:induction false} InsertLeafOrdered(p: nat, es: seq<Entry>, e: Entry, free: nat, maxKeys: nat)
    requires Ordered(TLeaf(p, es))
    ensures PartsOrdered(Grow(TLeaf(p, es), e, free, maxKeys))
    ensures PartKeys(Grow(TLeaf(p, es), e, free, maxKeys)) == KeySet(TLeaf(p, es)) + {e.key}
  {
    var es' := InsertAt(es, UpperBound(Keys(es), e.key), e);
    InsertEntry(es, e);
    if |es'| > maxKeys {
      LeafHalves(es', |es'| / 2, SplitLeaf(p, es', free).left, SplitLeaf(p, es', free).split.value.1);
    }
  }

  /** A node that took in the two halves of its split child i. */
  function Widened(t: Tree, i: nat, left: Tree, sep: int, right: Tree): Tree
    requires t.TNode? && i <= |t.keys| && |t.kids| == |t.keys| + 1
  {
    TNode(t.page, InsertAt(t.keys, i, sep), InsertAt(t.kids[i := left], i + 1, right))
  }

  lemma {:induction false} AbsorbOrdered(t: Tree, k: int, i: nat, c: Grown, maxKeys: nat)
    requires t.TNode? && Ordered(t) && i == UpperBound(t.keys, k)
    requires PartsOrdered(c) && PartKeys(c) == KeySet(t.kids[i]) + {k}
    ensures PartsOrdered(Absorb(t, i, c, maxKeys))
    ensures PartKeys(Absorb(t, i, c, maxKeys)) == KeySet(t) + {k}
  {
    WidenedKeys(t, i, c, k);
    match c.split
    case None => ReplacedOrdered(t, i, k, c.left);
    case Some(s) =>
      WidenedOrdered(t, i, k, c.left, s.0, s.1);
      var t' := Widened(t, i, c.left, s.0, s.1);
      if |t'.keys| > maxKeys {
        SplitNodeOrdered(t.page, t'.keys, t'.kids, c.free);
        SplitNodeKeys(t.page, t'.keys, t'.kids, c.free);
      }
  }

  /** Insertion keeps the tree ordered, and its key set grows by the new key alone. */
  lemma {:induction false} InsertOrdered(t: Tree, e: Entry, free: nat, maxKeys: nat)
    requires Ordered(t)
    ensures PartsOrdered(Grow(t, e, free, maxKeys))
    ensures PartKeys(Grow(t, e, free, maxKeys)) == KeySet(t) + {e.key}
    decreases t
  {
    match t
    case TLeaf(p, es) => InsertLeafOrdered(p, es, e, free, maxKeys);
    case TNode(p, keys, kids) =>
      var i := UpperBound(keys, e.key);
      InsertOrdered(kids[i], e, free, maxKeys);
      AbsorbOrdered(t, e.key, i, Grow(kids[i], e, free, maxKeys), maxKeys);
  }

  lemma {:induction false} WidenedKeys(t: Tree, i: nat, r: Grown, k: int)
    requires t.TNode? && i < |t.kids| && |t.kids| == |t.keys| + 1
    requires PartKeys(r) == KeySet(t.kids[i]) + {k}
    ensures r.split.None? ==> KeySet(TNode(t.page, t.keys, t.kids[i := r.left])) == KeySet(t) + {k}
    ensures r.split.Some? ==>
      KeySet(Widened(t, i, r.left, r.split.value.0, r.split.value.1)) == KeySet(t) + {k}
  {
    if r.split.None? {
      assert t.kids == t.kids[..i] + [t.kids[i]] + t.kids[i + 1..];
      assert t.kids[i := r.left] == t.kids[..i] + [r.left] + t.kids[i + 1..];
    } else {
      SplitKeys(t, i, r.left, r.split.value.0, r.split.value.1, k);
    }
  }

  lemma {:induction false} SplitKeys(t: Tree, i: nat, left: Tree, sep: int, right: Tree, k: int)
    requires t.TNode? && i < |t.kids| && |t.kids| == |t.keys| + 1
    requires KeySet(left) + {sep} + KeySet(right) == KeySet(t.kids[i]) + {k}
    ensures KeySet(Widened(t, i, left, sep, right)) == KeySet(t) + {k}
  {
    assert t.kids == t.kids[..i] + [t.kids[i]] + t.kids[i + 1..];
    assert t.keys == t.keys[..i] + t.keys[i..];
    assert InsertAt(t.kids[i := left], i + 1, right) == t.kids[..i] + [left] + [right] + t.kids[i + 1..];
  }

  lemma {:induction false} ReplacedOrdered(t: Tree, i: nat, k: int, left: Tree)
    requires t.TNode? && Ordered(t) && Ordered(left)
    requires i == UpperBound(t.keys, k)
    requires KeySet(left) == KeySet(t.kids[i]) + {k}
    ensures Ordered(TNode(t.page, t.keys, t.kids[i := left]))
  {
    var kids' := t.kids[i := left];
    forall s | s in kids' ensures Ordered(s) {
      assert s in t.kids || s == left;
    }
    assert Fenced(t.keys, kids') by {
      forall j | 0 <= j < |t.keys| ensures AllLE(kids'[j], t.keys[j]) {
        assert AllLE(t.kids[j], t.keys[j]);
      }
      forall j | 0 < j < |kids'| ensures AllGE(kids'[j], t.keys[j - 1]) {
        assert AllGE(t.kids[j], t.keys[j - 1]);
      }
    }
  }

  lemma {:induction false} InsertAtIndex<T>(s: seq<T>, i: nat, x: T, j: nat)
    requires i <= |s| && j <= |s|
    ensures InsertAt(s, i, x)[j] == if j < i then s[j] else if j == i then x else s[j - 1]
  {
  }

  lemma {:induction false} WidenedFenced(
      keys: seq<int>, kids: seq<Tree>, i: nat, left: Tree, sep: int, right: Tree, keys': seq<int>, kids': seq<Tree>)
    requires Fenced(keys, kids) && i < |kids| && AllLE(left, sep) && AllGE(right, sep)
    requires i > 0 ==> AllGE(left, keys[i - 1]) && keys[i - 1] <= sep
    requires i < |keys| ==> AllLE(right, keys[i]) && sep <= keys[i]
    requires keys' == InsertAt(keys, i, sep) && kids' == InsertAt(kids[i := left], i + 1, right)
    ensures Fenced(keys', kids')
  {
    InsertAtSorted(keys, i, sep);
    forall j | 0 <= j < |keys'| ensures AllLE(kids'[j], keys'[j]) {
      InsertAtIndex(keys, i, sep, j);
      InsertAtIndex(kids[i := left], i + 1, right, j);
    }
    forall j | 0 < j < |kids'| ensures AllGE(kids'[j], keys'[j - 1]) {
      InsertAtIndex(keys, i, sep, j - 1);
      InsertAtIndex(kids[i := left], i + 1, right, j);
    }
  }

  lemma {:induction false} WidenedMembers(t: Tree, i: nat, left: Tree, sep: int, right: Tree)
    requires t.TNode? && i <= |t.keys| && |t.kids| == |t.keys| + 1
    ensures forall s :: s in Widened(t, i, left, sep, right).kids ==> s in t.kids || s == left || s == right
  {
  }

  /** A node that took in the two halves of a split child is still ordered. */
  lemma {:induction false} WidenedOrdered(t: Tree, i: nat, k: int, left: Tree, sep: int, right: Tree)
    requires t.TNode? && Ordered(t) && Ordered(left) && Ordered(right)
    requires i == UpperBound(t.keys, k)
    requires KeySet(left) + {sep} + KeySet(right) == KeySet(t.kids[i]) + {k}
    requires AllLE(left, sep) && AllGE(right, sep)
    ensures Ordered(Widened(t, i, left, sep, right))
  {
    var t' := Widened(t, i, left, sep, right);
    assert sep in KeySet(t.kids[i]) + {k};
    assert KeySet(left) <= KeySet(t.kids[i]) + {k} && KeySet(right) <= KeySet(t.kids[i]) + {k};
    if i > 0 {
      assert AllGE(t.kids[i], t.keys[i - 1]) && t.keys[i - 1] <= k;
      assert AllGE(left, t.keys[i - 1]);
    }
    if i < |t.keys| {
      assert AllLE(t.kids[i], t.keys[i]) && k <= t.keys[i];
      assert AllLE(right, t.keys[i]);
    }
    WidenedFenced(t.keys, t.kids, i, left, sep, right, t'.keys, t'.kids);
    WidenedMembers(t, i, left, sep, right);
  }
}
