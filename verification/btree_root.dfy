/** Whole trees: what insertion and deletion keep, over every run. */
module BTreeRoot {
  import opened Wrappers
  import opened SortedKeys
  import opened BTreeShape
  import opened BTreeInsert
  import opened BTreeGrowth
  import opened BTreeWalk
  import opened BTreeDelete
  import opened BTreeStore

  /** What insertion makes of a whole tree, and the next page it leaves free: a root that splits
      gets a new root above it. */
  function InsertRoot(t: Tree, e: Entry, free: nat, maxKeys: nat): (Tree, nat)
    requires Ordered(t)
  {
    Rooted(Grow(t, e, free, maxKeys))
  }

  function Rooted(r: Grown): (Tree, nat) {
    match r.split
    case None => (r.left, r.free)
    case Some((sep, right)) => (TNode(r.free, [sep], [r.left, right]), r.free + 1)
  }

  function Height(t: Tree): nat
    decreases t
  {
    match t
    case TLeaf(_, _) => 1
    case TNode(_, _, kids) => if kids == [] then 1 else 1 + Height(kids[0])
  }

  /** The structural invariant of every reachable tree. */
  predicate Sound(t: Tree, numPages: nat, maxKeys: nat) {
    && Ordered(t)
    && Balanced(t, Height(t))
    && Capped(t, maxKeys)
    && Distinct(Pages(t))
    && Between(Pages(t), numPages)
    && RootFilled(t, maxKeys, 0)
  }

  lemma {:induction false} BalancedHeight(t: Tree, h: nat)
    requires Ordered(t) && Balanced(t, h)
    ensures Height(t) == h
    decreases t
  {
    if t.TNode? {
      assert t.kids[0] in t.kids;
      BalancedHeight(t.kids[0], h - 1);
    }
  }

  lemma {:induction false} GrownRoot(r: Grown, h: nat, maxKeys: nat)
    requires r.split.Some? && PartsOrdered(r) && maxKeys >= 2
    requires forall s :: s in Parts(r) ==> Balanced(s, h) && Capped(s, maxKeys)
    ensures var t := TNode(r.free, [r.split.value.0], [r.left, r.split.value.1]);
      Ordered(t) && Balanced(t, Height(t)) && Capped(t, maxKeys)
  {
    var (sep, right) := r.split.value;
    assert r.left in Parts(r) && right in Parts(r);
    var t := TNode(r.free, [sep], [r.left, right]);
    assert Ordered(t);
    assert Balanced(r.left, h) ==> h >= 1;
    assert Balanced(t, h + 1);
    BalancedHeight(t, h + 1);
  }

  lemma {:induction false} InsertRootOrdered(t: Tree, e: Entry, free: nat, maxKeys: nat)
    requires Ordered(t) && Balanced(t, Height(t)) && Capped(t, maxKeys) && maxKeys >= 2
    ensures var t' := InsertRoot(t, e, free, maxKeys).0;
      Ordered(t') && Balanced(t', Height(t')) && Capped(t', maxKeys)
  {
    var r := Grow(t, e, free, maxKeys);
    InsertOrdered(t, e, free, maxKeys);
    InsertBalanced(t, e, free, maxKeys, Height(t));
    InsertCapped(t, e, free, maxKeys);
    assert r.left in Parts(r);
    if r.split.Some? {
      GrownRoot(r, Height(t), maxKeys);
    } else {
      BalancedHeight(r.left, Height(t));
    }
  }

  /** Insertion keeps nodes full: every split leaves two halves that are full enough. */
  lemma {:induction false} InsertRootFilled(t: Tree, e: Entry, free: nat, maxKeys: nat, leafMin: nat)
    requires Ordered(t) && Capped(t, maxKeys) && maxKeys >= 2 && leafMin <= (maxKeys + 1) / 2
    requires RootFilled(t, maxKeys, leafMin)
    ensures RootFilled(InsertRoot(t, e, free, maxKeys).0, maxKeys, leafMin)
  {
    InsertFilled(t, e, free, maxKeys, leafMin);
  }

  lemma {:induction false} BagsJoin(a: multiset<nat>, b: multiset<nat>, free: nat, free': nat)
    requires Distinct(a) && Between(a, free)
    requires Distinct(b) && 2 <= free <= free' && forall p :: p in b ==> free <= p < free'
    ensures Distinct(a + b) && Between(a + b, free')
  {
  }

  lemma {:induction false} RootedPageCount(r: Grown, free: nat, used: multiset<nat>)
    requires free <= r.free && PagesOf(Parts(r)) == used + Run(free, r.free)
    ensures free <= Rooted(r).1
    ensures Pages(Rooted(r).0) == used + Run(free, Rooted(r).1)
  {
    assert Run(free, r.free + 1) == Run(free, r.free) + multiset{r.free};
    if r.split.None? { PagesOfOne(r.left); }
  }

  lemma {:induction false} InsertRootPages(t: Tree, e: Entry, free: nat, maxKeys: nat)
    requires Ordered(t)
    ensures free <= InsertRoot(t, e, free, maxKeys).1
    ensures Pages(InsertRoot(t, e, free, maxKeys).0) == Pages(t) + Run(free, InsertRoot(t, e, free, maxKeys).1)
  {
    InsertPages(t, e, free, maxKeys);
    RootedPageCount(Grow(t, e, free, maxKeys), free, Pages(t));
  }

  /** Insertion keeps the structural invariant, and is stable sorted insertion on the entries. */
  lemma {:induction false} InsertRootSound(t: Tree, e: Entry, free: nat, maxKeys: nat)
    requires Sound(t, free, maxKeys) && maxKeys >= 2 && free >= 2
    ensures var (t', free') := InsertRoot(t, e, free, maxKeys);
      Sound(t', free', maxKeys) && Flat(t') == Insort(Flat(t), e)
  {
    InsertRootOrdered(t, e, free, maxKeys);
    InsertRootFilled(t, e, free, maxKeys, 0);
    InsertRootPages(t, e, free, maxKeys);
    RunHolds(free, InsertRoot(t, e, free, maxKeys).1);
    BagsJoin(Pages(t), Run(free, InsertRoot(t, e, free, maxKeys).1), free, InsertRoot(t, e, free, maxKeys).1);
    InsertRootFlat(t, e, free, maxKeys);
  }

  lemma {:induction false} InsertRootFlat(t: Tree, e: Entry, free: nat, maxKeys: nat)
    requires Ordered(t)
    ensures Flat(InsertRoot(t, e, free, maxKeys).0) == Insort(Flat(t), e)
  {
    InsertFlat(t, e, free, maxKeys);
    var r := Grow(t, e, free, maxKeys);
    if r.split.None? { FlatOfOne(r.left); }
  }

  // -- deletion --------------------------------------------------------------

  /** The first leaf at or after position n that holds e (the end if none does). */
  function LeafWith(ls: seq<Tree>, n: nat, e: Entry): (m: nat)
    requires n <= |ls| && forall i :: 0 <= i < |ls| ==> ls[i].TLeaf?
    ensures n <= m <= |ls|
    ensures forall i :: n <= i < m ==> e !in ls[i].entries
    ensures m < |ls| ==> e in ls[m].entries
    decreases |ls| - n
  {
    if n == |ls| || e in ls[n].entries then n else LeafWith(ls, n + 1, e)
  }

  lemma {:induction false} LeafWithIs(ls: seq<Tree>, n: nat, e: Entry, m: nat)
    requires n <= m < |ls| && forall i :: 0 <= i < |ls| ==> ls[i].TLeaf?
    requires forall i :: n <= i < m ==> e !in ls[i].entries
    requires e in ls[m].entries
    ensures LeafWith(ls, n, e) == m
    decreases m - n
  {
  }

  /** Take the first visible occurrence of e out of its leaf. */
  function DeleteRoot(t: Tree, e: Entry): Tree
    requires Ordered(t)
  {
    var ls := Leaves(t);
    var n := LeafWith(ls, Landing(t, e.key), e);
    if e in Visible(t, e.key) && n < |ls| then Put(t, ls[n].page, RemoveFirst(ls[n].entries, e)) else t
  }

  lemma {:induction false} ConcatHas(ls: seq<Tree>, e: Entry)
    requires forall i :: 0 <= i < |ls| ==> ls[i].TLeaf?
    ensures e in Concat(ls) <==> exists i :: 0 <= i < |ls| && e in ls[i].entries
  {
    if ls != [] {
      ConcatHas(ls[1..], e);
      forall i | 0 <= i < |ls| && e in ls[i].entries ensures e in Concat(ls) {
        if i > 0 { assert ls[1..][i - 1] == ls[i]; }
      }
      if e in Concat(ls[1..]) {
        var i :| 0 <= i < |ls| - 1 && e in ls[1..][i].entries;
        assert e in ls[i + 1].entries;
      }
    }
  }

  /** A visible entry sits in a leaf at or after the landing leaf, before the first empty one. */
  lemma {:induction false} VisibleLeaf(t: Tree, e: Entry)
    requires Ordered(t)
    ensures var ls, n := Leaves(t), LeafWith(Leaves(t), Landing(t, e.key), e);
      e in Visible(t, e.key) <==> n < Stop(ls, Landing(t, e.key))
  {
    var ls, k := Leaves(t), e.key;
    var j, s := Landing(t, k), Stop(ls, Landing(t, k));
    LandingSkips(t, k);
    ConcatHas(ls[..j], e);
    ConcatHas(ls[..s], e);
    var n := LeafWith(ls, j, e);
    if n < s { assert ls[..s][n] == ls[n]; }
    assert forall i :: 0 <= i < j ==> ls[..j][i] == ls[i];
    if e in Visible(t, k) {
      var i :| 0 <= i < s && e in ls[..s][i].entries;
    }
  }

  /** No leaf before the one LeafWith finds holds e. */
  lemma {:induction false} NotBefore(t: Tree, e: Entry)
    requires Ordered(t)
    ensures e !in Concat(Leaves(t)[..LeafWith(Leaves(t), Landing(t, e.key), e)])
  {
    var ls, j, n := Leaves(t), Landing(t, e.key), LeafWith(Leaves(t), Landing(t, e.key), e);
    LandingSkips(t, e.key);
    ConcatHas(ls[..j], e);
    ConcatHas(ls[..n], e);
    assert forall i :: 0 <= i < j ==> ls[..j][i] == ls[i];
  }

  lemma {:induction false} RemoveFirstSplit(es: seq<Entry>, e: Entry) returns (i: nat)
    requires e in es
    ensures i < |es| && es[i] == e && e !in es[..i]
    ensures RemoveFirst(es, e) == es[..i] + es[i + 1..]
  {
    if es[0] == e {
      i := 0;
    } else {
      var j := RemoveFirstSplit(es[1..], e);
      i := j + 1;
      assert es[..i] == [es[0]] + es[1..][..j];
    }
  }

  /** Deletion removes the first occurrence in the whole list exactly when the entry is visible,
      and otherwise changes nothing. */
  lemma {:induction false} DeleteRootFlat(t: Tree, e: Entry)
    requires Ordered(t) && Distinct(Pages(t))
    ensures Flat(DeleteRoot(t, e)) == if e in Visible(t, e.key) then RemoveFirst(Flat(t), e) else Flat(t)
  {
    if e in Visible(t, e.key) {
      VisibleLeaf(t, e);
      NotBefore(t, e);
      var ls, n := Leaves(t), LeafWith(Leaves(t), Landing(t, e.key), e);
      var es := ls[n].entries;
      PutFlat(t, n, RemoveFirst(es, e));
      ConcatAround(ls, n);
      RemoveFirstInside(Concat(ls[..n]), es, Concat(ls[n + 1..]), e);
    }
  }

  lemma {:induction false} RemoveFirstInside(a: seq<Entry>, es: seq<Entry>, b: seq<Entry>, e: Entry)
    requires e !in a && e in es
    ensures RemoveFirst(a + es + b, e) == a + RemoveFirst(es, e) + b
  {
    var i := RemoveFirstSplit(es, e);
    assert a + es + b == (a + es[..i]) + [e] + (es[i + 1..] + b);
    RemoveFirstAt(a + es[..i], e, es[i + 1..] + b);
  }

  lemma {:induction false} LeafOrdered(t: Tree, n: nat)
    requires Ordered(t) && n < |Leaves(t)|
    ensures Sorted(Keys(Leaves(t)[n].entries))
  {
    var ls := Leaves(t);
    TreeSorted(t);
    ConcatAround(ls, n);
    var a, es, b := Concat(ls[..n]), ls[n].entries, Concat(ls[n + 1..]);
    forall i, j | 0 <= i < j < |es| ensures Keys(es)[i] <= Keys(es)[j] {
      assert Flat(t)[|a| + i] == es[i] && Flat(t)[|a| + j] == es[j];
      assert Keys(Flat(t))[|a| + i] <= Keys(Flat(t))[|a| + j];
    }
  }

  lemma {:induction false} RemoveShrinks(t: Tree, n: nat, e: Entry)
    requires Ordered(t) && Distinct(Pages(t)) && n < |Leaves(t)| && e in Leaves(t)[n].entries
    ensures Shrinks(t, Leaves(t)[n].page, RemoveFirst(Leaves(t)[n].entries, e))
  {
    var ls := Leaves(t);
    var es := ls[n].entries;
    var i := RemoveFirstSplit(es, e);
    LeafOrdered(t, n);
    var es' := RemoveFirst(es, e);
    forall a, b | 0 <= a < b < |es'| ensures Keys(es')[a] <= Keys(es')[b] {
      var a', b' := if a < i then a else a + 1, if b < i then b else b + 1;
      assert es'[a] == es[a'] && es'[b] == es[b'];
      assert Keys(es)[a'] <= Keys(es)[b'];
    }
    forall l | l in ls && l.page == ls[n].page ensures l == ls[n] {
      var j :| 0 <= j < |ls| && ls[j] == l;
      if j < n { LeavesDistinct(t, j, n); }
      if n < j { LeavesDistinct(t, n, j); }
    }
    assert forall f :: f in es' ==> f in es[..i] || f in es[i + 1..];
  }

  /** Deletion keeps the structural invariant. */
  lemma {:induction false} DeleteRootSound(t: Tree, e: Entry, free: nat, maxKeys: nat)
    requires Sound(t, free, maxKeys)
    ensures Sound(DeleteRoot(t, e), free, maxKeys)
    ensures Height(DeleteRoot(t, e)) == Height(t)
  {
    var ls, n := Leaves(t), LeafWith(Leaves(t), Landing(t, e.key), e);
    if e in Visible(t, e.key) && n < |ls| {
      var p, es := ls[n].page, RemoveFirst(ls[n].entries, e);
      RemoveShrinks(t, n, e);
      PutOrdered(t, p, es);
      PutSizes(t, p, es, Height(t), maxKeys);
      PutPages(t, p, es);
      BalancedHeight(Put(t, p, es), Height(t));
      PutRootFilled(t, p, es, maxKeys, 0);
    }
  }

  lemma {:induction false} PutRootFilled(t: Tree, p: nat, es: seq<Entry>, maxKeys: nat, leafMin: nat)
    requires RootFilled(t, maxKeys, leafMin) && leafMin <= |es|
    ensures RootFilled(Put(t, p, es), maxKeys, leafMin)
  {
    if t.TNode? {
      var kids' := PutOf(t.kids, p, es);
      forall s | s in kids' ensures Filled(s, maxKeys, leafMin) {
        var i :| 0 <= i < |kids'| && kids'[i] == s;
        assert t.kids[i] in t.kids;
        PutFilled(t.kids[i], p, es, maxKeys, leafMin);
      }
    }
  }

  /** Once the parts are in place, storing the new root completes the tree. */
  lemma {:induction false} InsertRootStored(pages: PageMap, t: Tree, e: Entry, free: nat, maxKeys: nat)
    requires Ordered(t) && Between(Pages(t), free)
    requires HoldsAll(pages, Parts(Grow(t, e, free, maxKeys)), 0)
    ensures var r := Grow(t, e, free, maxKeys);
      && (r.split.None? ==> Holds(pages, r.left, 0))
      && (r.split.Some? ==>
            Holds(pages[r.free := Internal([r.split.value.0], [r.left.page, r.split.value.1.page])], Rooted(r).0, 0))
  {
    var r := Grow(t, e, free, maxKeys);
    InsertPages(t, e, free, maxKeys);
    RunHolds(free, r.free);
    assert Parts(r)[0] == r.left;
    if r.split.Some? {
      RootStored(pages, r);
    }
  }

  lemma {:induction false} RootStored(pages: PageMap, r: Grown)
    requires r.split.Some? && HoldsAll(pages, Parts(r), 0) && r.free !in PagesOf(Parts(r))
    ensures Holds(pages[r.free := Internal([r.split.value.0], [r.left.page, r.split.value.1.page])], Rooted(r).0, 0)
  {
    assert RootPages(Parts(r)) == [r.left.page, r.split.value.1.page];
    StoreNode(pages, TNode(r.free, [r.split.value.0], Parts(r)), 0);
  }

  /** The page map once a root that split has its new root stored above it. */
  function RootedPages(pages: PageMap, r: Grown): PageMap {
    match r.split
    case None => pages
    case Some((sep, right)) => pages[r.free := Internal([sep], [r.left.page, right.page])]
  }

  lemma {:induction false} InsertCompletes(pages: PageMap, t: Tree, e: Entry, free: nat, maxKeys: nat)
    requires Sound(t, free, maxKeys) && maxKeys >= 2
    requires HoldsAll(pages, Parts(Grow(t, e, free, maxKeys)), 0)
    ensures Sound(InsertRoot(t, e, free, maxKeys).0, InsertRoot(t, e, free, maxKeys).1, maxKeys)
    ensures Holds(RootedPages(pages, Grow(t, e, free, maxKeys)), InsertRoot(t, e, free, maxKeys).0, 0)
    ensures Flat(InsertRoot(t, e, free, maxKeys).0) == Insort(Flat(t), e)
    ensures Grow(t, e, free, maxKeys).left.page == t.page
  {
    PagesLive(t, free);
    InsertRootSound(t, e, free, maxKeys);
    InsertKeepsFirst(t, e, free, maxKeys);
    InsertRootStored(pages, t, e, free, maxKeys);
  }

  // -- steps of a search -----------------------------------------------------

  /** Node n is leaf c of the chain, as it is stored. */
  predicate AtLeaf(t: Tree, c: nat, n: Node) {
    && c < |Leaves(t)|
    && n == Leaf(Keys(Leaves(t)[c].entries), Rids(Leaves(t)[c].entries), NextOf(Leaves(t), c, 0))
  }

  /** Following the chain from leaf c reaches leaf c + 1, and 0 marks its end. */
  lemma {:induction false} NextLeaf(pages: PageMap, t: Tree, limit: nat, c: nat, n: Node)
    requires Ordered(t) && Holds(pages, t, 0) && Between(Pages(t), limit) && AtLeaf(t, c, n)
    ensures n.next == 0 <==> c + 1 == |Leaves(t)|
    ensures n.next != 0 ==> n.next in pages && AtLeaf(t, c + 1, pages[n.next])
  {
    HoldsLeaves(pages, t, 0);
    if c + 1 < |Leaves(t)| {
      assert Holds(pages, Leaves(t)[c + 1], NextOf(Leaves(t), c + 1, 0));
      LeavesPages(t);
      LeafPage(Leaves(t), c + 1);
      assert Leaves(t)[c + 1].page in Pages(Leaves(t)[c + 1]);
    }
  }

  lemma {:induction false} LandsAt(pages: PageMap, t: Tree, k: int)
    requires Ordered(t) && Holds(pages, t, 0)
    ensures Leaves(t)[Landing(t, k)].page in pages
    ensures AtLeaf(t, Landing(t, k), pages[Leaves(t)[Landing(t, k)].page])
  {
    HoldsLeaves(pages, t, 0);
    var c := Landing(t, k);
    assert Holds(pages, Leaves(t)[c], NextOf(Leaves(t), c, 0));
  }

  lemma {:induction false} SearchStart(pages: PageMap, t: Tree, limit: nat, k: int)
    requires Ordered(t) && Holds(pages, t, 0)
    ensures Walked(t, k, Landing(t, k)) && Matches(UpTo(t, Landing(t, k), 0), k) == []
    ensures Leaves(t)[Landing(t, k)].page in pages
    ensures AtLeaf(t, Landing(t, k), pages[Leaves(t)[Landing(t, k)].page])
  {
    LandsAt(pages, t, k);
    LandingSkips(t, k);
    NoMatches(UpTo(t, Landing(t, k), 0), k);
  }

  /** One round of the search loop: it either moves on to the next leaf or is done. */
  lemma {:induction false} SearchStep(pages: PageMap, t: Tree, limit: nat, k: int, c: nat, i: nat)
    requires Ordered(t) && Holds(pages, t, 0) && Between(Pages(t), limit) && Walked(t, k, c)
    requires i == UpperBound(Keys(Leaves(t)[c].entries), k)
    ensures var es, next := Leaves(t)[c].entries, NextOf(Leaves(t), c, 0);
      var found := Matches(UpTo(t, c, 0), k) + Matches(es[..i], k);
      if i == |es| && next != 0 && es != [] then
        && Walked(t, k, c + 1) && found == Matches(UpTo(t, c + 1, 0), k)
        && next in pages && AtLeaf(t, c + 1, pages[next])
      else found == Matches(Visible(t, k), k)
  {
    var es, next := Leaves(t)[c].entries, NextOf(Leaves(t), c, 0);
    NextLeaf(pages, t, limit, c, Leaf(Keys(es), Rids(es), next));
    MatchesUpTo(t, c, i, k);
    assert i < |es| ==> Keys(es)[i] == es[i].key;
    if i == |es| && next != 0 && es != [] {
      NextUpTo(t, c);
    } else {
      SearchEnds(t, k, c, i);
    }
  }

  lemma {:induction false} NoMatchBelow(es: seq<Entry>, i: nat, k: int)
    requires i <= |es| && forall j :: 0 <= j < i ==> Keys(es)[j] < k
    ensures Matches(es[..i], k) == []
  {
    forall e | e in es[..i] ensures e.key != k {
      var j :| 0 <= j < i && es[j] == e;
      assert Keys(es)[j] == e.key;
    }
    NoMatches(es[..i], k);
  }

  lemma {:induction false} MatchesStep(es: seq<Entry>, i: nat, k: int)
    requires i < |es| && es[i].key == k
    ensures Matches(es[..i + 1], k) == Matches(es[..i], k) + [es[i].rid]
  {
    assert es[..i + 1] == es[..i] + [es[i]];
    MatchesAppend(es[..i], [es[i]], k);
    assert Matches([es[i]], k) == [es[i].rid] + Matches([], k);
  }

  lemma {:induction false} MatchesUpTo(t: Tree, c: nat, i: nat, k: int)
    requires c < |Leaves(t)| && i <= |Leaves(t)[c].entries|
    ensures Matches(UpTo(t, c, i), k) == Matches(UpTo(t, c, 0), k) + Matches(Leaves(t)[c].entries[..i], k)
  {
    MatchesAppend(Concat(Leaves(t)[..c]), Leaves(t)[c].entries[..i], k);
    assert UpTo(t, c, 0) == Concat(Leaves(t)[..c]);
  }

  lemma {:induction false} SearchEnds(t: Tree, k: int, c: nat, i: nat)
    requires Ordered(t) && Walked(t, k, c) && i <= |Leaves(t)[c].entries|
    requires i < |Leaves(t)[c].entries| ==> k < Leaves(t)[c].entries[i].key
    requires i < |Leaves(t)[c].entries| || c + 1 == |Leaves(t)| || Leaves(t)[c].entries == []
    ensures Matches(UpTo(t, c, i), k) == Matches(Visible(t, k), k)
  {
    WalkEnds(t, k, c, i);
    var u, v := UpTo(t, c, i), Visible(t, k);
    assert v == u + v[|u|..];
    MatchesAppend(u, v[|u|..], k);
    NoMatches(v[|u|..], k);
  }

  // -- steps of a range scan -------------------------------------------------

  /** What comes after entry i of leaf c. */
  function From(t: Tree, c: nat, i: nat): seq<Entry>
    requires c < |Leaves(t)| && i <= |Leaves(t)[c].entries|
  {
    Leaves(t)[c].entries[i..] + Concat(Leaves(t)[c + 1..])
  }

  lemma {:induction false} FlatParts(t: Tree, c: nat, i: nat)
    requires c < |Leaves(t)| && i <= |Leaves(t)[c].entries|
    ensures Flat(t) == UpTo(t, c, i) + From(t, c, i)
  {
    ConcatAround(Leaves(t), c);
    assert Leaves(t)[c].entries == Leaves(t)[c].entries[..i] + Leaves(t)[c].entries[i..];
  }

  predicate AtLeast(es: seq<Entry>, low: Option<int>) {
    low.Some? ==> forall e :: e in es ==> low.value <= e.key
  }

  /** Where a range scan starts, everything before is below the lower bound and nothing after is. */
  lemma {:induction false} RangeStart(t: Tree, k: int, low: Option<int>, high: Option<int>)
    requires Ordered(t) && low == Some(k)
    ensures var c, i := Landing(t, k), LowerBound(Keys(Leaves(t)[Landing(t, k)].entries), k);
      Within(UpTo(t, c, i), low, high) == [] && AtLeast(From(t, c, i), low)
  {
    var c, i := Landing(t, k), LowerBound(Keys(Leaves(t)[Landing(t, k)].entries), k);
    var es := Leaves(t)[c].entries;
    LandingSkips(t, k);
    LandingReaches(t, k);
    LeafOrdered(t, c);
    forall e | e in UpTo(t, c, i) ensures e.key < k {
      if e in es[..i] {
        var j :| 0 <= j < i && es[j] == e;
        assert Keys(es)[j] == e.key;
      }
    }
    NoneWithin(UpTo(t, c, i), low, high);
    forall e | e in es[i..] ensures k <= e.key {
      var j :| i <= j < |es| && es[j] == e;
      assert Keys(es)[i] <= Keys(es)[j] || i == j;
    }
  }

  lemma {:induction false} AllWithin(es: seq<Entry>, low: Option<int>, high: Option<int>)
    requires forall e :: e in es ==> InRange(e.key, low, high)
    ensures Within(es, low, high) == es
  {
    if es != [] {
      assert es[0] in es;
      AllWithin(es[1..], low, high);
    }
  }

  /** A scan that stops below an entry above the upper bound has seen everything in range. */
  lemma {:induction false} RangeEnds(t: Tree, low: Option<int>, high: Option<int>, c: nat, i: nat)
    requires Ordered(t) && c < |Leaves(t)| && i <= |Leaves(t)[c].entries|
    requires if i < |Leaves(t)[c].entries| then high.Some? && high.value < Leaves(t)[c].entries[i].key
             else c + 1 == |Leaves(t)|
    ensures Within(UpTo(t, c, i), low, high) == Within(Flat(t), low, high)
  {
    var u, v := UpTo(t, c, i), From(t, c, i);
    FlatParts(t, c, i);
    TreeSorted(t);
    WithinAppend(u, v, low, high);
    forall e | e in v ensures !InRange(e.key, low, high) {
      var j :| 0 <= j < |v| && v[j] == e;
      assert Flat(t)[|u|] == v[0] && Flat(t)[|u| + j] == v[j];
      assert Keys(Flat(t))[|u|] <= Keys(Flat(t))[|u| + j];
    }
    NoneWithin(v, low, high);
  }

  lemma {:induction false} RangeTakes(t: Tree, low: Option<int>, high: Option<int>, c: nat, i: nat, j: nat)
    requires c < |Leaves(t)| && i <= j <= |Leaves(t)[c].entries|
    requires AtLeast(From(t, c, i), low)
    requires forall m :: i <= m < j ==> high.Some? ==> Leaves(t)[c].entries[m].key <= high.value
    ensures Within(UpTo(t, c, j), low, high) == Within(UpTo(t, c, i), low, high) + Leaves(t)[c].entries[i..j]
  {
    var es := Leaves(t)[c].entries;
    assert UpTo(t, c, j) == UpTo(t, c, i) + es[i..j];
    WithinAppend(UpTo(t, c, i), es[i..j], low, high);
    forall e | e in es[i..j] ensures InRange(e.key, low, high) {
      var m :| i <= m < j && es[m] == e;
      assert es[i..][m - i] == e;
      assert e in From(t, c, i);
    }
    AllWithin(es[i..j], low, high);
  }

  /** One leaf's worth of a range scan. */
  lemma {:induction false} RangeStep(
      pages: PageMap, t: Tree, limit: nat, low: Option<int>, high: Option<int>, c: nat, i: nat, j: nat)
    requires Ordered(t) && Holds(pages, t, 0) && Between(Pages(t), limit)
    requires c < |Leaves(t)| && i <= j <= |Leaves(t)[c].entries|
    requires AtLeast(From(t, c, i), low)
    requires var es := Leaves(t)[c].entries;
      && (forall m :: i <= m < j ==> high.Some? ==> es[m].key <= high.value)
      && (j < |es| ==> high.Some? && high.value < es[j].key)
    ensures var es, next := Leaves(t)[c].entries, NextOf(Leaves(t), c, 0);
      var out := Within(UpTo(t, c, i), low, high) + es[i..j];
      if j < |es| || next == 0 then out == Within(Flat(t), low, high)
      else
        && next in pages && AtLeaf(t, c + 1, pages[next])
        && out == Within(UpTo(t, c + 1, 0), low, high) && AtLeast(From(t, c + 1, 0), low)
  {
    var es, next := Leaves(t)[c].entries, NextOf(Leaves(t), c, 0);
    NextLeaf(pages, t, limit, c, Leaf(Keys(es), Rids(es), next));
    RangeTakes(t, low, high, c, i, j);
    if j < |es| || next == 0 {
      RangeEnds(t, low, high, c, j);
    } else {
      NextUpTo(t, c);
      assert From(t, c + 1, 0) == Concat(Leaves(t)[c + 1..]);
    }
  }

  // -- steps of a deletion ---------------------------------------------------

  lemma {:induction false} NotAmong(es: seq<Entry>, n: nat, e: Entry)
    requires n <= |es| && forall j :: 0 <= j < n ==> Keys(es)[j] != e.key
    ensures e !in es[..n]
  {
    assert forall j :: 0 <= j < n ==> Keys(es)[j] == es[j].key;
  }

  lemma {:induction false} NotAfter(es: seq<Entry>, n: nat, e: Entry)
    requires n <= |es| && e !in es[..n] && Sorted(Keys(es)) && (n < |es| ==> Keys(es)[n] > e.key)
    ensures e !in es
  {
    assert es == es[..n] + es[n..];
    forall j | n <= j < |es| ensures es[j] != e {
      assert Keys(es)[n] <= Keys(es)[j];
    }
  }

  /** No leaf from the landing leaf up to leaf c holds e. */
  predicate Missed(t: Tree, e: Entry, c: nat)
    requires Ordered(t) && c <= |Leaves(t)|
  {
    forall j :: Landing(t, e.key) <= j < c ==> e !in Leaves(t)[j].entries
  }

  /** A leaf without e either hands the walk on or ends it, and then e is not visible. */
  lemma {:induction false} DeleteStep(pages: PageMap, t: Tree, limit: nat, e: Entry, c: nat, i: nat)
    requires Ordered(t) && Holds(pages, t, 0) && Between(Pages(t), limit) && Walked(t, e.key, c)
    requires Missed(t, e, c) && e !in Leaves(t)[c].entries
    requires i == UpperBound(Keys(Leaves(t)[c].entries), e.key)
    ensures var es, next := Leaves(t)[c].entries, NextOf(Leaves(t), c, 0);
      if i == |es| && next != 0 && es != [] then
        && c + 1 < |Leaves(t)| && Walked(t, e.key, c + 1) && Missed(t, e, c + 1)
        && next == Leaves(t)[c + 1].page && next in pages && AtLeaf(t, c + 1, pages[next])
      else e !in Visible(t, e.key)
  {
    var ls, k := Leaves(t), e.key;
    var es, next := ls[c].entries, NextOf(ls, c, 0);
    NextLeaf(pages, t, limit, c, Leaf(Keys(es), Rids(es), next));
    assert i < |es| ==> Keys(es)[i] == es[i].key;
    if !(i == |es| && next != 0 && es != []) {
      WalkEnds(t, k, c, i);
      MissedSoFar(t, e, c, i);
      var u, v := UpTo(t, c, i), Visible(t, k);
      assert v == u + v[|u|..];
    }
  }

  lemma {:induction false} MissedSoFar(t: Tree, e: Entry, c: nat, i: nat)
    requires Ordered(t) && Landing(t, e.key) <= c < |Leaves(t)| && i <= |Leaves(t)[c].entries|
    requires Missed(t, e, c) && e !in Leaves(t)[c].entries
    ensures e !in UpTo(t, c, i)
  {
    var ls, k := Leaves(t), e.key;
    LandingSkips(t, k);
    ConcatHas(ls[..Landing(t, k)], e);
    ConcatHas(ls[..c], e);
    assert forall j :: 0 <= j < Landing(t, k) ==> ls[..Landing(t, k)][j] == ls[j];
  }

  /** An entry that the walk comes upon is visible. */
  lemma {:induction false} FoundVisible(t: Tree, e: Entry, c: nat, i: nat)
    requires Ordered(t) && Walked(t, e.key, c) && i < |Leaves(t)[c].entries| && Leaves(t)[c].entries[i] == e
    ensures e in Visible(t, e.key)
  {
    var u := UpTo(t, c, |Leaves(t)[c].entries|);
    VisibleUpTo(t, e.key, c);
    assert e in u;
    assert Visible(t, e.key) == u + Visible(t, e.key)[|u|..];
  }

  lemma {:induction false} WithoutEntry(es: seq<Entry>, i: nat)
    requires i < |es|
    ensures Keys(es[..i] + es[i + 1..]) == Keys(es)[..i] + Keys(es)[i + 1..]
    ensures Rids(es[..i] + es[i + 1..]) == Rids(es)[..i] + Rids(es)[i + 1..]
  {
  }

  /** Dropping entry i of leaf c from its page is deletion on the whole tree. */
  lemma {:induction false} DeleteFound(
      pages: PageMap, t: Tree, limit: nat, maxKeys: nat, e: Entry, c: nat, i: nat, n: Node)
    requires Sound(t, limit, maxKeys) && Holds(pages, t, 0) && Walked(t, e.key, c) && Missed(t, e, c)
    requires i < |Leaves(t)[c].entries| && Leaves(t)[c].entries[i] == e && e !in Leaves(t)[c].entries[..i]
    requires var es' := Leaves(t)[c].entries[..i] + Leaves(t)[c].entries[i + 1..];
      n == Leaf(Keys(es'), Rids(es'), NextOf(Leaves(t), c, 0))
    ensures e in Visible(t, e.key)
    ensures Holds(pages[Leaves(t)[c].page := n], DeleteRoot(t, e), 0)
    ensures Sound(DeleteRoot(t, e), limit, maxKeys) && DeleteRoot(t, e).page == t.page
  {
    var ls := Leaves(t);
    var es := ls[c].entries;
    LeafWithIs(ls, Landing(t, e.key), e, c);
    StopAfter(ls, Landing(t, e.key), c);
    VisibleLeaf(t, e);
    RemoveFirstAt(es[..i], e, es[i + 1..]);
    assert es == es[..i] + [e] + es[i + 1..];
    HoldsLeaves(pages, t, 0);
    assert Holds(pages, ls[c], NextOf(ls, c, 0));
    HoldsPut(pages, t, 0, ls[c].page, RemoveFirst(es, e), n);
    PutPages(t, ls[c].page, RemoveFirst(es, e));
    DeleteRootSound(t, e, limit, maxKeys);
  }
}
