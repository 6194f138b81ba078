/** Where lookups land in the leaf chain, and which entries they can see from there. */
module BTreeWalk {
  import opened Wrappers
  import opened SortedKeys
  import opened BTreeShape
  import opened BTreeGrowth

  // -- the whole tree is one sorted list -------------------------------------

  lemma {:induction false} SortedAppend(a: seq<int>, b: seq<int>)
    requires Sorted(a) && Sorted(b)
    requires forall x, y :: x in a && y in b ==> x <= y
    ensures Sorted(a + b)
  {
    var s := a + b;
    forall i, j | 0 <= i < j < |s| ensures s[i] <= s[j] {
      assert i < |a| ==> s[i] in a;
      assert j >= |a| ==> s[j] in b;
    }
  }

  lemma {:induction false} KeysAppend(a: seq<Entry>, b: seq<Entry>)
    ensures Keys(a + b) == Keys(a) + Keys(b)
  {
  }

  lemma {:induction false} KeysIn(es: seq<Entry>, k: int)
    requires k in Keys(es)
    ensures exists e :: e in es && e.key == k
  {
  }

  /** The entries of child n come after those of the children before it. */
  lemma {:induction false} KidAfter(t: Tree, n: nat)
    requires t.TNode? && Ordered(t) && n < |t.kids|
    ensures forall x, y :: x in Keys(FlatOf(t.kids[..n])) && y in Keys(Flat(t.kids[n])) ==> x <= y
  {
    var a, b := FlatOf(t.kids[..n]), Flat(t.kids[n]);
    forall x, y | x in Keys(a) && y in Keys(b) ensures x <= y {
      KeysIn(a, x);
      KeysIn(b, y);
      var e :| e in a && e.key == x;
      var f :| f in b && f.key == y;
      EntryKeyed(t.kids[n], f);
      if n > 0 {
        LeftOfChild(t, n, t.keys[n - 1]);
        assert AllGE(t.kids[n], t.keys[n - 1]);
      }
    }
  }

  lemma {:induction false} ForestSorted(t: Tree, n: nat)
    requires t.TNode? && Ordered(t) && n <= |t.kids|
    ensures Sorted(Keys(FlatOf(t.kids[..n])))
    decreases t, n
  {
    if n > 0 {
      var m := n - 1;
      ForestSorted(t, m);
      assert t.kids[..n] == t.kids[..m] + [t.kids[m]];
      FlatOfAppend(t.kids[..m], [t.kids[m]]);
      FlatOfOne(t.kids[m]);
      assert t.kids[m] in t.kids;
      TreeSorted(t.kids[m]);
      KeysAppend(FlatOf(t.kids[..m]), Flat(t.kids[m]));
      KidAfter(t, m);
      SortedAppend(Keys(FlatOf(t.kids[..m])), Keys(Flat(t.kids[m])));
    }
  }

  lemma {:induction false} TreeSorted(t: Tree)
    requires Ordered(t)
    ensures Sorted(Keys(Flat(t)))
    decreases t, if t.TNode? then |t.kids| + 1 else 0
  {
    match t
    case TLeaf(_, _) => LeafFlat(t);
    case TNode(_, _, kids) =>
      ForestSorted(t, |kids|);
      assert kids[..|kids|] == kids;
  }

  // -- landing ---------------------------------------------------------------

  lemma {:induction false} LeavesNonEmpty(t: Tree)
    requires Ordered(t)
    ensures Leaves(t) != []
    ensures FirstLeaf(t) == Leaves(t)[0].page
    decreases t
  {
    if t.TNode? {
      assert t.kids[0] in t.kids;
      LeavesNonEmpty(t.kids[0]);
    }
  }

  /** The position in the leaf chain of the leaf that `_find_leaf` descends to. */
  function Landing(t: Tree, k: int): (n: nat)
    requires Ordered(t)
    ensures n < |Leaves(t)|
    decreases t
  {
    match t
    case TLeaf(_, _) => 0
    case TNode(_, keys, kids) =>
      var c := LowerBound(keys, k);
      LeavesOfSplit(kids, c);
      |LeavesOf(kids[..c])| + Landing(kids[c], k)
  }

  function LandingPage(t: Tree, k: int): nat
    requires Ordered(t)
    decreases t
  {
    match t
    case TLeaf(p, _) => p
    case TNode(_, keys, kids) => LandingPage(kids[LowerBound(keys, k)], k)
  }

  lemma {:induction false} LandingPageIs(t: Tree, k: int)
    requires Ordered(t)
    ensures Leaves(t)[Landing(t, k)].page == LandingPage(t, k)
    decreases t
  {
    if t.TNode? {
      var c := LowerBound(t.keys, k);
      LeavesOfSplit(t.kids, c);
      LandingPageIs(t.kids[c], k);
    }
  }

  lemma {:induction false} Middle<T>(s: seq<T>, a: seq<T>, m: seq<T>, b: seq<T>, n: nat)
    requires s == a + m + b && n < |m|
    ensures s[..|a| + n] == a + m[..n]
    ensures s[|a| + n + 1..] == m[n + 1..] + b
  {
  }

  /** The leaves on either side of the landing leaf, seen from the root. */
  lemma {:induction false} LandingParts(t: Tree, k: int)
    requires Ordered(t) && t.TNode?
    ensures var c := LowerBound(t.keys, k);
      var n := Landing(t.kids[c], k);
      && Leaves(t)[..Landing(t, k)] == LeavesOf(t.kids[..c]) + Leaves(t.kids[c])[..n]
      && Leaves(t)[Landing(t, k) + 1..] == Leaves(t.kids[c])[n + 1..] + LeavesOf(t.kids[c + 1..])
  {
    var c := LowerBound(t.keys, k);
    LeavesOfSplit(t.kids, c);
    Middle(Leaves(t), LeavesOf(t.kids[..c]), Leaves(t.kids[c]), LeavesOf(t.kids[c + 1..]), Landing(t.kids[c], k));
  }

  /** Nothing left of the landing leaf can match. */
  lemma {:induction false} LandingSkips(t: Tree, k: int)
    requires Ordered(t)
    ensures forall e :: e in Concat(Leaves(t)[..Landing(t, k)]) ==> e.key < k
    decreases t
  {
    match t
    case TLeaf(_, _) =>
    case TNode(_, keys, kids) =>
      var c := LowerBound(keys, k);
      LandingParts(t, k);
      LandingSkips(kids[c], k);
      ConcatAppend(LeavesOf(kids[..c]), Leaves(kids[c])[..Landing(kids[c], k)]);
      if c > 0 { LeftOfChild(t, c, keys[c - 1]); }
  }

  lemma {:induction false} RightAtLeast(t: Tree, i: nat, k: int)
    requires t.TNode? && Ordered(t) && i <= |t.keys| && (i < |t.keys| ==> k <= t.keys[i])
    ensures forall e :: e in FlatOf(t.kids[i + 1..]) ==> k <= e.key
  {
    forall e | e in FlatOf(t.kids[i + 1..]) ensures k <= e.key {
      EntriesKeyed(t.kids[i + 1..], e);
      var s :| s in t.kids[i + 1..] && e.key in KeySet(s);
      var j :| i < j < |t.kids| && t.kids[j] == s;
      assert AllGE(t.kids[j], t.keys[j - 1]);
    }
  }

  /** Everything right of the landing leaf is at least k. */
  lemma {:induction false} LandingReaches(t: Tree, k: int)
    requires Ordered(t)
    ensures forall e :: e in Concat(Leaves(t)[Landing(t, k) + 1..]) ==> k <= e.key
    decreases t
  {
    match t
    case TLeaf(_, _) =>
    case TNode(_, keys, kids) =>
      var c := LowerBound(keys, k);
      LandingParts(t, k);
      LandingReaches(kids[c], k);
      ConcatAppend(Leaves(kids[c])[Landing(kids[c], k) + 1..], LeavesOf(kids[c + 1..]));
      RightAtLeast(t, c, k);
  }

  // -- what a lookup can see -------------------------------------------------

  /** The first empty leaf at or after position n (the end if there is none). */
  function Stop(ls: seq<Tree>, n: nat): (m: nat)
    requires n <= |ls| && forall i :: 0 <= i < |ls| ==> ls[i].TLeaf?
    ensures n <= m <= |ls|
    ensures forall i :: n <= i < m ==> ls[i].entries != []
    ensures m < |ls| ==> ls[m].entries == []
    decreases |ls| - n
  {
    if n == |ls| || ls[n].entries == [] then n else Stop(ls, n + 1)
  }

  lemma {:induction false} StopAfter(ls: seq<Tree>, n: nat, c: nat)
    requires n <= c <= |ls| && forall i :: 0 <= i < |ls| ==> ls[i].TLeaf?
    requires forall i :: n <= i < c ==> ls[i].entries != []
    ensures Stop(ls, n) == Stop(ls, c)
    decreases c - n
  {
  }

  /** Everything that lies before the first empty leaf at or after the landing leaf of k. */
  function Visible(t: Tree, k: int): seq<Entry>
    requires Ordered(t)
  {
    Concat(Leaves(t)[..Stop(Leaves(t), Landing(t, k))])
  }

  /** The entries past that point. */
  function Hidden(t: Tree, k: int): seq<Entry>
    requires Ordered(t)
  {
    Concat(Leaves(t)[Stop(Leaves(t), Landing(t, k))..])
  }

  lemma {:induction false} VisibleHidden(t: Tree, k: int)
    requires Ordered(t)
    ensures Flat(t) == Visible(t, k) + Hidden(t, k)
  {
    var ls, n := Leaves(t), Stop(Leaves(t), Landing(t, k));
    assert ls == ls[..n] + ls[n..];
    ConcatAppend(ls[..n], ls[n..]);
  }

  /** Every leaf holds an entry, or the tree is a lone leaf. */
  predicate NoEmptyLeaf(t: Tree) {
    t.TNode? ==> forall l :: l in Leaves(t) ==> l.entries != []
  }

  lemma {:induction false} NoEmptyLeafVisible(t: Tree, k: int)
    requires Ordered(t) && NoEmptyLeaf(t)
    ensures Visible(t, k) == Flat(t)
  {
    var ls, n := Leaves(t), Stop(Leaves(t), Landing(t, k));
    if t.TLeaf? {
      LeafFlat(t);
      assert Visible(t, k) + Hidden(t, k) == Flat(t) by { VisibleHidden(t, k); }
      if n == 0 { assert t.entries == []; } else { assert ls[..n] == ls; }
    } else {
      assert forall i :: 0 <= i < |ls| ==> ls[i] in ls;
      assert ls[..n] == ls;
    }
  }

  // -- ranges ----------------------------------------------------------------

  predicate InRange(k: int, low: Option<int>, high: Option<int>) {
    (low.Some? ==> low.value <= k) && (high.Some? ==> k <= high.value)
  }

  /** The entries whose keys lie within both bounds, in chain order. */
  function Within(es: seq<Entry>, low: Option<int>, high: Option<int>): seq<Entry> {
    if es == [] then []
    else (if InRange(es[0].key, low, high) then [es[0]] else []) + Within(es[1..], low, high)
  }

  lemma {:induction false} WithinAppend(a: seq<Entry>, b: seq<Entry>, low: Option<int>, high: Option<int>)
    ensures Within(a + b, low, high) == Within(a, low, high) + Within(b, low, high)
  {
    if a == [] {
      assert a + b == b;
    } else {
      assert (a + b)[0] == a[0] && (a + b)[1..] == a[1..] + b;
      WithinAppend(a[1..], b, low, high);
      var h := if InRange(a[0].key, low, high) then [a[0]] else [];
      assert h + (Within(a[1..], low, high) + Within(b, low, high))
        == (h + Within(a[1..], low, high)) + Within(b, low, high);
    }
  }

  lemma {:induction false} NoneWithin(es: seq<Entry>, low: Option<int>, high: Option<int>)
    requires forall e :: e in es ==> !InRange(e.key, low, high)
    ensures Within(es, low, high) == []
  {
    if es != [] {
      assert es[0] in es;
      NoneWithin(es[1..], low, high);
    }
  }

  // -- removing an entry -----------------------------------------------------

  function RemoveFirst(es: seq<Entry>, e: Entry): seq<Entry> {
    if es == [] then [] else if es[0] == e then es[1..] else [es[0]] + RemoveFirst(es[1..], e)
  }

  lemma {:induction false} RemoveFirstAt(a: seq<Entry>, e: Entry, b: seq<Entry>)
    requires e !in a
    ensures RemoveFirst(a + [e] + b, e) == a + b
  {
    if a == [] {
      assert a + [e] + b == [e] + b;
    } else {
      var s := a + [e] + b;
      assert s[0] == a[0] && s[1..] == a[1..] + [e] + b;
      RemoveFirstAt(a[1..], e, b);
    }
  }

  // -- walking the chain -----------------------------------------------------

  /** A walk from the landing leaf of k that has crossed only non-empty leaves to reach leaf c. */
  predicate Walked(t: Tree, k: int, c: nat)
    requires Ordered(t)
  {
    Landing(t, k) <= c < |Leaves(t)| && forall j :: Landing(t, k) <= j < c ==> Leaves(t)[j].entries != []
  }

  /** Everything before entry i of leaf c. */
  function UpTo(t: Tree, c: nat, i: nat): seq<Entry>
    requires c < |Leaves(t)| && i <= |Leaves(t)[c].entries|
  {
    Concat(Leaves(t)[..c]) + Leaves(t)[c].entries[..i]
  }

  lemma {:induction false} FlatUpTo(t: Tree, c: nat, i: nat)
    requires c < |Leaves(t)| && i <= |Leaves(t)[c].entries|
    ensures UpTo(t, c, i) <= Flat(t)
    ensures i < |Leaves(t)[c].entries| ==>
      |UpTo(t, c, i)| < |Flat(t)| && Flat(t)[|UpTo(t, c, i)|] == Leaves(t)[c].entries[i]
    ensures c + 1 == |Leaves(t)| && i == |Leaves(t)[c].entries| ==> UpTo(t, c, i) == Flat(t)
  {
    var ls := Leaves(t);
    assert ls == ls[..c] + ls[c..];
    ConcatAppend(ls[..c], ls[c..]);
    assert Flat(t) == Concat(ls[..c]) + (ls[c].entries + Concat(ls[c + 1..]));
  }

  lemma {:induction false} NextUpTo(t: Tree, c: nat)
    requires c + 1 < |Leaves(t)|
    ensures UpTo(t, c + 1, 0) == UpTo(t, c, |Leaves(t)[c].entries|)
  {
    var ls := Leaves(t);
    assert ls[..c + 1] == ls[..c] + [ls[c]];
    ConcatAppend(ls[..c], [ls[c]]);
    assert Concat([ls[c]]) == ls[c].entries;
  }

  /** What a walk that stands at leaf c can see: what it has passed, and the leaves up to the stop. */
  lemma {:induction false} VisibleParts(t: Tree, k: int, c: nat)
    requires Ordered(t) && Walked(t, k, c)
    ensures c <= Stop(Leaves(t), c)
    ensures Visible(t, k) == Concat(Leaves(t)[..c]) + Concat(Leaves(t)[c..Stop(Leaves(t), c)])
  {
    var ls, s := Leaves(t), Stop(Leaves(t), c);
    StopAfter(ls, Landing(t, k), c);
    TakeSplit(ls, c, s);
    ConcatAppend(ls[..c], ls[c..s]);
  }

  lemma {:induction false} VisibleUpTo(t: Tree, k: int, c: nat)
    requires Ordered(t) && Walked(t, k, c)
    ensures UpTo(t, c, 0) <= Visible(t, k)
    ensures Leaves(t)[c].entries == [] ==> Visible(t, k) == UpTo(t, c, 0)
    ensures Leaves(t)[c].entries != [] ==> UpTo(t, c, |Leaves(t)[c].entries|) <= Visible(t, k)
  {
    VisibleParts(t, k, c);
    var ls, s := Leaves(t), Stop(Leaves(t), c);
    if s > c {
      assert Concat(ls[c..s]) == ls[c].entries + Concat(ls[c..s][1..]);
      StartsWith(Concat(ls[..c]), ls[c].entries, Concat(ls[c..s][1..]));
    }
  }

  lemma {:induction false} StartsWith<T>(a: seq<T>, b: seq<T>, c: seq<T>)
    ensures a + b <= a + (b + c)
  {
  }

  lemma {:induction false} TakeSplit<T>(s: seq<T>, m: nat, n: nat)
    requires m <= n <= |s|
    ensures s[..n] == s[..m] + s[m..n]
  {
  }

  lemma {:induction false} PrefixOfFlat(t: Tree, k: int)
    requires Ordered(t)
    ensures Visible(t, k) <= Flat(t)
  {
    VisibleHidden(t, k);
  }

  /** Where a walk for key k ends, everything visible that it has not passed is greater than k. */
  lemma {:induction false} WalkEnds(t: Tree, k: int, c: nat, i: nat)
    requires Ordered(t) && Walked(t, k, c) && i <= |Leaves(t)[c].entries|
    requires i < |Leaves(t)[c].entries| ==> k < Leaves(t)[c].entries[i].key
    requires i < |Leaves(t)[c].entries| || c + 1 == |Leaves(t)| || Leaves(t)[c].entries == []
    ensures UpTo(t, c, i) <= Visible(t, k)
    ensures forall e :: e in Visible(t, k)[|UpTo(t, c, i)|..] ==> k < e.key
  {
    var v, es := Visible(t, k), Leaves(t)[c].entries;
    VisibleUpTo(t, k, c);
    PrefixOfFlat(t, k);
    FlatUpTo(t, c, i);
    TreeSorted(t);
    var n := |UpTo(t, c, i)|;
    assert UpTo(t, c, i) <= UpTo(t, c, |es|);
    if i < |es| {
      forall e | e in v[n..] ensures k < e.key {
        var j :| n <= j < |v| && v[j] == e;
        assert Flat(t)[j] == e;
        assert Keys(Flat(t))[n] <= Keys(Flat(t))[j];
      }
    }
  }
}
