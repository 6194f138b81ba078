/** Leaf-only deletion on tree shapes: one leaf's entries change and nothing else. */
module BTreeDelete {
  import opened SortedKeys
  import opened BTreeShape
  import opened BTreeGrowth
  import opened BTreeWalk

  /** The tree with the entries of the leaf on page p replaced. */
  function Put(t: Tree, p: nat, es: seq<Entry>): Tree
    decreases t, 0
  {
    match t
    case TLeaf(q, _) => if q == p then TLeaf(q, es) else t
    case TNode(q, keys, kids) => TNode(q, keys, PutOf(kids, p, es))
  }

  function PutOf(ts: seq<Tree>, p: nat, es: seq<Entry>): (r: seq<Tree>)
    ensures |r| == |ts|
    ensures forall i :: 0 <= i < |ts| ==> r[i] == Put(ts[i], p, es)
    decreases ts
  {
    if ts == [] then [] else [Put(ts[0], p, es)] + PutOf(ts[1..], p, es)
  }

  lemma {:induction false} PutOfAppend(a: seq<Tree>, b: seq<Tree>, p: nat, es: seq<Entry>)
    ensures PutOf(a + b, p, es) == PutOf(a, p, es) + PutOf(b, p, es)
  {
  }

  /** Replacing a leaf's entries does so in the leaf chain, too. */
  lemma {:induction false} PutLeaves(t: Tree, p: nat, es: seq<Entry>)
    ensures Leaves(Put(t, p, es)) == PutOf(Leaves(t), p, es)
    decreases t, 0
  {
    if t.TNode? {
      PutLeavesOf(t.kids, p, es);
    }
  }

  lemma {:induction false} PutLeavesOf(ts: seq<Tree>, p: nat, es: seq<Entry>)
    ensures LeavesOf(PutOf(ts, p, es)) == PutOf(LeavesOf(ts), p, es)
    decreases ts
  {
    if ts != [] {
      PutLeaves(ts[0], p, es);
      PutLeavesOf(ts[1..], p, es);
      PutOfAppend(Leaves(ts[0]), LeavesOf(ts[1..]), p, es);
    }
  }

  lemma {:induction false} PutPages(t: Tree, p: nat, es: seq<Entry>)
    ensures Pages(Put(t, p, es)) == Pages(t)
    ensures Put(t, p, es).page == t.page && FirstLeaf(Put(t, p, es)) == FirstLeaf(t)
    decreases t, 0
  {
    if t.TNode? {
      PutPagesOf(t.kids, p, es);
      if t.kids != [] { PutPages(t.kids[0], p, es); }
    }
  }

  lemma {:induction false} PutPagesOf(ts: seq<Tree>, p: nat, es: seq<Entry>)
    ensures PagesOf(PutOf(ts, p, es)) == PagesOf(ts)
    decreases ts
  {
    if ts != [] {
      PutPages(ts[0], p, es);
      PutPagesOf(ts[1..], p, es);
    }
  }

  /** The new entries are sorted and come from the old ones, in every leaf on page p. */
  predicate Shrinks(t: Tree, p: nat, es: seq<Entry>) {
    && Sorted(Keys(es))
    && forall l :: l in Leaves(t) && l.page == p ==> |es| <= |l.entries| && forall e :: e in es ==> e in l.entries
  }

  lemma {:induction false} KidShrinks(t: Tree, i: nat, p: nat, es: seq<Entry>)
    requires t.TNode? && i < |t.kids| && Shrinks(t, p, es)
    ensures Shrinks(t.kids[i], p, es)
  {
    LeavesOfSplit(t.kids, i);
  }

  lemma {:induction false} PutKeys(t: Tree, p: nat, es: seq<Entry>)
    requires Shrinks(t, p, es)
    ensures KeySet(Put(t, p, es)) <= KeySet(t)
    decreases t
  {
    match t
    case TLeaf(_, _) => assert t in Leaves(t);
    case TNode(_, keys, kids) =>
      var kids' := PutOf(kids, p, es);
      forall k | k in KeySetOf(kids') ensures k in KeySetOf(kids) {
        var s :| s in kids' && k in KeySet(s);
        var i :| 0 <= i < |kids'| && kids'[i] == s;
        KidShrinks(t, i, p, es);
        PutKeys(kids[i], p, es);
        assert kids[i] in kids;
      }
  }

  lemma {:induction false} PutOrdered(t: Tree, p: nat, es: seq<Entry>)
    requires Ordered(t) && Shrinks(t, p, es)
    ensures Ordered(Put(t, p, es))
    decreases t
  {
    if t.TNode? {
      var kids' := PutOf(t.kids, p, es);
      forall i | 0 <= i < |kids'|
        ensures Ordered(kids'[i]) && KeySet(kids'[i]) <= KeySet(t.kids[i])
      {
        assert t.kids[i] in t.kids;
        KidShrinks(t, i, p, es);
        PutOrdered(t.kids[i], p, es);
        PutKeys(t.kids[i], p, es);
      }
    }
  }

  lemma {:induction false} PutSizes(t: Tree, p: nat, es: seq<Entry>, h: nat, maxKeys: nat)
    requires Balanced(t, h) && Capped(t, maxKeys) && Shrinks(t, p, es)
    ensures Balanced(Put(t, p, es), h) && Capped(Put(t, p, es), maxKeys)
  {
    PutBalanced(t, p, es, h);
    PutCapped(t, p, es, maxKeys);
  }

  lemma {:induction false} PutBalanced(t: Tree, p: nat, es: seq<Entry>, h: nat)
    requires Balanced(t, h)
    ensures Balanced(Put(t, p, es), h)
    decreases t
  {
    if t.TNode? {
      var kids' := PutOf(t.kids, p, es);
      forall s | s in kids' ensures Balanced(s, h - 1) {
        var i :| 0 <= i < |kids'| && kids'[i] == s;
        assert t.kids[i] in t.kids;
        PutBalanced(t.kids[i], p, es, h - 1);
      }
    }
  }

  lemma {:induction false} PutCapped(t: Tree, p: nat, es: seq<Entry>, maxKeys: nat)
    requires Capped(t, maxKeys) && Shrinks(t, p, es)
    ensures Capped(Put(t, p, es), maxKeys)
    decreases t
  {
    match t
    case TLeaf(_, _) => assert t in Leaves(t);
    case TNode(_, _, kids) =>
      var kids' := PutOf(kids, p, es);
      forall s | s in kids' ensures Capped(s, maxKeys) {
        var i :| 0 <= i < |kids'| && kids'[i] == s;
        assert kids[i] in kids;
        KidShrinks(t, i, p, es);
        PutCapped(kids[i], p, es, maxKeys);
      }
  }

  /** Leaf-only deletion keeps every node full enough, except perhaps the leaf it empties. */
  lemma {:induction false} PutFilled(t: Tree, p: nat, es: seq<Entry>, maxKeys: nat, leafMin: nat)
    requires Filled(t, maxKeys, leafMin) && leafMin <= |es|
    ensures Filled(Put(t, p, es), maxKeys, leafMin)
    decreases t
  {
    if t.TNode? {
      var kids' := PutOf(t.kids, p, es);
      forall s | s in kids' ensures Filled(s, maxKeys, leafMin) {
        var i :| 0 <= i < |kids'| && kids'[i] == s;
        assert t.kids[i] in t.kids;
        PutFilled(t.kids[i], p, es, maxKeys, leafMin);
      }
    }
  }

  /** On distinct pages exactly one leaf changes. */
  lemma {:induction false} PutOneLeaf(ls: seq<Tree>, n: nat, es: seq<Entry>)
    requires n < |ls| && forall i :: 0 <= i < |ls| ==> ls[i].TLeaf?
    requires forall i :: 0 <= i < |ls| && i != n ==> ls[i].page != ls[n].page
    ensures PutOf(ls, ls[n].page, es) == ls[n := TLeaf(ls[n].page, es)]
  {
  }

  lemma {:induction false} LeavesPages(t: Tree)
    ensures PagesOf(Leaves(t)) <= Pages(t)
    decreases t, 0
  {
    match t
    case TLeaf(_, _) => PagesOfOne(t);
    case TNode(_, _, kids) => LeavesOfPages(kids);
  }

  lemma {:induction false} LeavesOfPages(ts: seq<Tree>)
    ensures PagesOf(LeavesOf(ts)) <= PagesOf(ts)
    decreases ts
  {
    if ts != [] {
      LeavesPages(ts[0]);
      LeavesOfPages(ts[1..]);
      PagesOfAppend(Leaves(ts[0]), LeavesOf(ts[1..]));
    }
  }

  lemma {:induction false} LeafPage(ls: seq<Tree>, i: nat)
    requires i < |ls|
    ensures Pages(ls[i]) <= PagesOf(ls)
  {
    PagesOfSplit(ls, i);
  }

  /** No two leaves of a chain share a page. */
  lemma {:induction false} LeavesDistinct(t: Tree, i: nat, j: nat)
    requires Distinct(Pages(t)) && i < j < |Leaves(t)|
    ensures Leaves(t)[i].page != Leaves(t)[j].page
  {
    var ls := Leaves(t);
    LeavesPages(t);
    PagesOfSplit(ls, j);
    LeafPage(ls[..j], i);
    var p := ls[i].page;
    assert Pages(ls[i]) == multiset{p} && Pages(ls[j]) == multiset{ls[j].page};
    assert PagesOf(ls)[p] >= if p == ls[j].page then 2 else 1;
  }

  lemma {:induction false} PutAt(t: Tree, n: nat, es: seq<Entry>)
    requires Distinct(Pages(t)) && n < |Leaves(t)|
    ensures Leaves(Put(t, Leaves(t)[n].page, es)) == Leaves(t)[n := TLeaf(Leaves(t)[n].page, es)]
  {
    var ls := Leaves(t);
    forall j | 0 <= j < |ls| && j != n ensures ls[j].page != ls[n].page {
      if j < n { LeavesDistinct(t, j, n); } else { LeavesDistinct(t, n, j); }
    }
    PutLeaves(t, ls[n].page, es);
    PutOneLeaf(ls, n, es);
  }

  /** Replacing the entries of leaf n replaces that stretch of the whole list. */
  lemma {:induction false} PutFlat(t: Tree, n: nat, es: seq<Entry>)
    requires Distinct(Pages(t)) && n < |Leaves(t)|
    ensures Flat(Put(t, Leaves(t)[n].page, es)) == Concat(Leaves(t)[..n]) + es + Concat(Leaves(t)[n + 1..])
  {
    var ls := Leaves(t);
    PutAt(t, n, es);
    ConcatAround(ls[n := TLeaf(ls[n].page, es)], n);
  }

  lemma {:induction false} ConcatAround(ls: seq<Tree>, n: nat)
    requires n < |ls| && forall i :: 0 <= i < |ls| ==> ls[i].TLeaf?
    ensures Concat(ls) == Concat(ls[..n]) + ls[n].entries + Concat(ls[n + 1..])
  {
    assert ls == ls[..n] + ls[n..];
    ConcatAppend(ls[..n], ls[n..]);
  }
}
