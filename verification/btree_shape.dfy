/** Sorted key lists: what Python's `bisect` computes on them. */
module SortedKeys {

  predicate Sorted(s: seq<int>) {
    forall i, j :: 0 <= i < j < |s| ==> s[i] <= s[j]
  }

  /** The first position whose key is greater than k (the end if there is none). */
  function UpperBound(s: seq<int>, k: int): (n: nat)
    ensures n <= |s|
    ensures forall j :: 0 <= j < n ==> s[j] <= k
    ensures n < |s| ==> s[n] > k
  {
    if s == [] || s[0] > k then 0 else 1 + UpperBound(s[1..], k)
  }

  /** The first position whose key is at least k (the end if there is none). */
  function LowerBound(s: seq<int>, k: int): (n: nat)
    ensures n <= |s|
    ensures forall j :: 0 <= j < n ==> s[j] < k
    ensures n < |s| ==> s[n] >= k
  {
    if s == [] || s[0] >= k then 0 else 1 + LowerBound(s[1..], k)
  }

  /** UpperBound is the only such position. */
  lemma {:induction false} UpperBoundIs(s: seq<int>, k: int, n: nat)
    requires n <= |s|
    requires forall j :: 0 <= j < n ==> s[j] <= k
    requires n < |s| ==> s[n] > k
    ensures n == UpperBound(s, k)
  {
  }

  lemma {:induction false} LowerBoundIs(s: seq<int>, k: int, n: nat)
    requires n <= |s|
    requires forall j :: 0 <= j < n ==> s[j] < k
    requires n < |s| ==> s[n] >= k
    ensures n == LowerBound(s, k)
  {
  }

  /** `bisect.bisect_right`. */
  method BisectRight(s: seq<int>, k: int) returns (n: nat)
    requires Sorted(s)
    ensures n == UpperBound(s, k)
  {
    var lo, hi := 0, |s|;
    while lo < hi
      invariant 0 <= lo <= hi <= |s|
      invariant forall j :: 0 <= j < lo ==> s[j] <= k
      invariant forall j :: hi <= j < |s| ==> s[j] > k
    {
      var mid := (lo + hi) / 2;
      if k < s[mid] { hi := mid; } else { lo := mid + 1; }
    }
    UpperBoundIs(s, k, lo);
    n := lo;
  }

  /** `bisect.bisect_left`. */
  method BisectLeft(s: seq<int>, k: int) returns (n: nat)
    requires Sorted(s)
    ensures n == LowerBound(s, k)
  {
    var lo, hi := 0, |s|;
    while lo < hi
      invariant 0 <= lo <= hi <= |s|
      invariant forall j :: 0 <= j < lo ==> s[j] < k
      invariant forall j :: hi <= j < |s| ==> s[j] >= k
    {
      var mid := (lo + hi) / 2;
      if s[mid] < k { lo := mid + 1; } else { hi := mid; }
    }
    LowerBoundIs(s, k, lo);
    n := lo;
  }
}

/** The shape of a B+ tree: what the pages reachable from the root spell out. */
module BTreeShape {
  import opened SortedKeys

  /** A row's physical address (queryx/storage/heap_file.py). */
  datatype RowId = RowId(page: nat, slot: nat)

  datatype Entry = Entry(key: int, rid: RowId)

  /** A subtree, with the page number of every node. */
  datatype Tree =
    | TLeaf(page: nat, entries: seq<Entry>)
    | TNode(page: nat, keys: seq<int>, kids: seq<Tree>)

  function Keys(es: seq<Entry>): (ks: seq<int>)
    ensures |ks| == |es|
  {
    seq(|es|, i requires 0 <= i < |es| => es[i].key)
  }

  function Rids(es: seq<Entry>): (rs: seq<RowId>)
    ensures |rs| == |es|
  {
    seq(|es|, i requires 0 <= i < |es| => es[i].rid)
  }

  // -- the rows under one key ------------------------------------------------

  /** The rows stored under key k, in list order. */
  function Matches(es: seq<Entry>, k: int): seq<RowId> {
    if es == [] then []
    else (if es[0].key == k then [es[0].rid] else []) + Matches(es[1..], k)
  }

  lemma {:induction false} MatchesAppend(a: seq<Entry>, b: seq<Entry>, k: int)
    ensures Matches(a + b, k) == Matches(a, k) + Matches(b, k)
  {
    if a == [] {
      assert a + b == b;
    } else {
      assert (a + b)[0] == a[0] && (a + b)[1..] == a[1..] + b;
      MatchesAppend(a[1..], b, k);
      var h := if a[0].key == k then [a[0].rid] else [];
      assert h + (Matches(a[1..], k) + Matches(b, k)) == (h + Matches(a[1..], k)) + Matches(b, k);
    }
  }

  lemma {:induction false} NoMatches(es: seq<Entry>, k: int)
    ensures Matches(es, k) == [] <==> forall e :: e in es ==> e.key != k
  {
    if es != [] {
      NoMatches(es[1..], k);
      assert es == [es[0]] + es[1..];
    }
  }

  lemma {:induction false} MatchesOneMore(es: seq<Entry>, e: Entry, k: int)
    ensures Matches(es + [e], k) == Matches(es, k) + (if e.key == k then [e.rid] else [])
  {
    MatchesAppend(es, [e], k);
    assert Matches([e], k) == (if e.key == k then [e.rid] else []) + Matches([], k);
  }

  // -- the leaves, left to right, and the entries they hold ------------------

  function Leaves(t: Tree): (ls: seq<Tree>)
    ensures forall i :: 0 <= i < |ls| ==> ls[i].TLeaf?
    decreases t, 0
  {
    match t
    case TLeaf(_, _) => [t]
    case TNode(_, _, kids) => LeavesOf(kids)
  }

  function LeavesOf(ts: seq<Tree>): (ls: seq<Tree>)
    ensures forall i :: 0 <= i < |ls| ==> ls[i].TLeaf?
    decreases ts
  {
    if ts == [] then [] else Leaves(ts[0]) + LeavesOf(ts[1..])
  }

  /** The entries of a run of leaves. */
  function Concat(ls: seq<Tree>): seq<Entry>
    requires forall i :: 0 <= i < |ls| ==> ls[i].TLeaf?
  {
    if ls == [] then [] else ls[0].entries + Concat(ls[1..])
  }

  /** The abstract value of a tree: its entries in leaf-chain order. */
  function Flat(t: Tree): seq<Entry> {
    Concat(Leaves(t))
  }

  function FlatOf(ts: seq<Tree>): seq<Entry> {
    Concat(LeavesOf(ts))
  }

  lemma {:induction false} LeavesOfAppend(a: seq<Tree>, b: seq<Tree>)
    ensures LeavesOf(a + b) == LeavesOf(a) + LeavesOf(b)
  {
    if a == [] {
      assert a + b == b;
    } else {
      assert (a + b)[0] == a[0] && (a + b)[1..] == a[1..] + b;
      LeavesOfAppend(a[1..], b);
    }
  }

  lemma {:induction false} ConcatAppend(a: seq<Tree>, b: seq<Tree>)
    requires forall i :: 0 <= i < |a| ==> a[i].TLeaf?
    requires forall i :: 0 <= i < |b| ==> b[i].TLeaf?
    ensures Concat(a + b) == Concat(a) + Concat(b)
  {
    if a == [] {
      assert a + b == b;
    } else {
      assert (a + b)[0] == a[0] && (a + b)[1..] == a[1..] + b;
      ConcatAppend(a[1..], b);
    }
  }

  lemma {:induction false} FlatOfAppend(a: seq<Tree>, b: seq<Tree>)
    ensures FlatOf(a + b) == FlatOf(a) + FlatOf(b)
  {
    LeavesOfAppend(a, b);
    ConcatAppend(LeavesOf(a), LeavesOf(b));
  }

  lemma {:induction false} LeavesOfOne(t: Tree)
    ensures LeavesOf([t]) == Leaves(t)
  {
    assert LeavesOf([t]) == Leaves(t) + LeavesOf([]);
  }

  lemma {:induction false} FlatOfOne(t: Tree)
    ensures FlatOf([t]) == Flat(t)
  {
    LeavesOfOne(t);
  }

  /** The leaves of a forest, around one of its trees. */
  lemma {:induction false} LeavesOfSplit(ts: seq<Tree>, i: nat)
    requires i < |ts|
    ensures LeavesOf(ts) == LeavesOf(ts[..i]) + Leaves(ts[i]) + LeavesOf(ts[i + 1..])
  {
    var rest := ts[i + 1..];
    assert ts == ts[..i] + ([ts[i]] + rest);
    LeavesOfAppend(ts[..i], [ts[i]] + rest);
    LeavesOfAppend([ts[i]], rest);
    LeavesOfOne(ts[i]);
  }

  lemma {:induction false} FlatOfSplit(ts: seq<Tree>, i: nat)
    requires i < |ts|
    ensures FlatOf(ts) == FlatOf(ts[..i]) + Flat(ts[i]) + FlatOf(ts[i + 1..])
  {
    assert ts == ts[..i] + ([ts[i]] + ts[i + 1..]);
    FlatOfOne(ts[i]);
    FlatOfAppend(ts[..i], [ts[i]] + ts[i + 1..]);
    FlatOfAppend([ts[i]], ts[i + 1..]);
  }

  // -- search order ----------------------------------------------------------

  /** Every key in the subtree, separators and entries alike. */
  function KeySet(t: Tree): set<int>
    decreases t
  {
    match t
    case TLeaf(_, es) => set e | e in es :: e.key
    case TNode(_, keys, kids) =>
      (set k | k in keys) + KeySetOf(kids)
  }

  function KeySetOf(ts: seq<Tree>): set<int>
    decreases ts
  {
    set t, k | t in ts && k in KeySet(t) :: k
  }

  predicate AllLE(t: Tree, k: int) {
    forall x :: x in KeySet(t) ==> x <= k
  }

  predicate AllGE(t: Tree, k: int) {
    forall x :: x in KeySet(t) ==> k <= x
  }

  /** Separator i bounds subtree i from above and subtree i + 1 from below. */
  predicate Fenced(keys: seq<int>, kids: seq<Tree>) {
    && |kids| == |keys| + 1
    && Sorted(keys)
    && (forall i {:trigger kids[i]} :: 0 <= i < |keys| ==> AllLE(kids[i], keys[i]))
    && (forall i {:trigger kids[i]} :: 0 < i < |kids| ==> AllGE(kids[i], keys[i - 1]))
  }

  predicate Ordered(t: Tree)
    decreases t
  {
    match t
    case TLeaf(_, es) => Sorted(Keys(es))
    case TNode(_, keys, kids) =>
      Fenced(keys, kids) && forall s :: s in kids ==> Ordered(s)
  }

  /** All leaves lie h levels down (a lone leaf is one level). */
  predicate Balanced(t: Tree, h: nat)
    decreases t
  {
    match t
    case TLeaf(_, _) => h == 1
    case TNode(_, _, kids) => h > 1 && forall s :: s in kids ==> Balanced(s, h - 1)
  }

  predicate Capped(t: Tree, maxKeys: nat)
    decreases t
  {
    match t
    case TLeaf(_, es) => |es| <= maxKeys
    case TNode(_, keys, kids) =>
      |keys| <= maxKeys && forall s :: s in kids ==> Capped(s, maxKeys)
  }

  /** Every leaf holds at least leafMin entries, every internal node at least maxKeys / 2 keys. */
  predicate Filled(t: Tree, maxKeys: nat, leafMin: nat)
    decreases t
  {
    match t
    case TLeaf(_, es) => leafMin <= |es|
    case TNode(_, keys, kids) =>
      maxKeys / 2 <= |keys| && forall s :: s in kids ==> Filled(s, maxKeys, leafMin)
  }

  /** Filled, except that the root itself may be a leaf of any size or have a single key. */
  predicate RootFilled(t: Tree, maxKeys: nat, leafMin: nat) {
    match t
    case TLeaf(_, _) => true
    case TNode(_, keys, kids) =>
      1 <= |keys| && forall s :: s in kids ==> Filled(s, maxKeys, leafMin)
  }

  // -- pages -----------------------------------------------------------------

  /** The pages of a subtree, counted as often as they are used. */
  function Pages(t: Tree): multiset<nat>
    decreases t, 0
  {
    match t
    case TLeaf(p, _) => multiset{p}
    case TNode(p, _, kids) => multiset{p} + PagesOf(kids)
  }

  function PagesOf(ts: seq<Tree>): multiset<nat>
    decreases ts
  {
    if ts == [] then multiset{} else Pages(ts[0]) + PagesOf(ts[1..])
  }

  /** No page is used by two nodes. */
  predicate Distinct(pages: multiset<nat>) {
    forall p :: p in pages ==> pages[p] == 1
  }

  /** Node pages come after the pager header (0) and the meta page (1). */
  predicate Between(pages: multiset<nat>, limit: nat) {
    forall p :: p in pages ==> 2 <= p < limit
  }

  lemma {:induction false} PagesOfAppend(a: seq<Tree>, b: seq<Tree>)
    ensures PagesOf(a + b) == PagesOf(a) + PagesOf(b)
  {
    if a == [] {
      assert a + b == b;
    } else {
      assert (a + b)[0] == a[0] && (a + b)[1..] == a[1..] + b;
      PagesOfAppend(a[1..], b);
    }
  }

  lemma {:induction false} PagesOfOne(t: Tree)
    ensures PagesOf([t]) == Pages(t)
  {
    assert PagesOf([t]) == Pages(t) + PagesOf([]);
  }

  lemma {:induction false} PagesOfSplit(ts: seq<Tree>, i: nat)
    requires i < |ts|
    ensures PagesOf(ts) == PagesOf(ts[..i]) + Pages(ts[i]) + PagesOf(ts[i + 1..])
  {
    assert ts == ts[..i] + ([ts[i]] + ts[i + 1..]);
    PagesOfOne(ts[i]);
    PagesOfAppend(ts[..i], [ts[i]] + ts[i + 1..]);
    PagesOfAppend([ts[i]], ts[i + 1..]);
  }

  function FirstLeaf(t: Tree): nat
    decreases t
  {
    match t
    case TLeaf(p, _) => p
    case TNode(_, _, kids) => if kids == [] then 0 else FirstLeaf(kids[0])
  }

  /** Where the leaf chain goes after subtree i, when `next` follows the whole forest. */
  function NextOf(kids: seq<Tree>, i: nat, next: nat): nat
    requires i < |kids|
  {
    if i + 1 < |kids| then FirstLeaf(kids[i + 1]) else next
  }

  function RootPages(kids: seq<Tree>): (ps: seq<nat>)
    ensures |ps| == |kids|
  {
    seq(|kids|, i requires 0 <= i < |kids| => kids[i].page)
  }
}
