/** The B+ tree index (queryx/index/btree.py). */
module BTree {
  import opened Wrappers
  import opened SortedKeys
  import opened BTreeShape
  import opened BTreeInsert
  import opened BTreeGrowth
  import opened BTreeWalk
  import opened BTreeDelete
  import opened BTreeStore
  import opened BTreeRoot

  /** The largest max_keys whose leaves fit a page even just before they split. */
  const MAX_KEYS_LIMIT := 254

  datatype Meta = Meta(maxKeys: nat, root: nat)

  class BPlusTree {
    var pages: PageMap    // the buffer pool's pages, through the node codec
    var numPages: nat     // the page number the pager hands out next
    var meta: Meta        // page 1
    var root: nat
    var maxKeys: nat
    ghost var tree: Tree

    ghost predicate Valid()
      reads this
    {
      && 2 <= maxKeys <= MAX_KEYS_LIMIT
      && meta == Meta(maxKeys, root)
      && tree.page == root
      && Sound(tree, numPages, maxKeys)
      && Holds(pages, tree, 0)
    }

    /** A fresh index file: the meta page is page 1 and an empty root leaf is page 2. */
    constructor (maxKeys: nat)
      requires 2 <= maxKeys <= MAX_KEYS_LIMIT
      ensures Valid() && this.maxKeys == maxKeys && Flat(tree) == [] && tree.TLeaf?
    {
      this.maxKeys := maxKeys;
      this.root := 2;
      this.numPages := 3;
      this.meta := Meta(maxKeys, 2);
      this.pages := map[2 := Leaf([], [], 0)];
      this.tree := TLeaf(2, []);
      new;
      LeafFlat(tree);
      assert Keys([]) == [] && Rids([]) == [];
    }

    method NewPage() returns (p: nat)
      modifies `numPages
      ensures p == old(numPages) && numPages == p + 1
    {
      p := numPages;
      numPages := numPages + 1;
    }

    method Load(p: nat) returns (n: Node)
      requires p in pages
      ensures n == pages[p]
    {
      n := pages[p];
    }

    method Store(p: nat, n: Node)
      modifies `pages
      ensures pages == old(pages)[p := n]
    {
      pages := pages[p := n];
    }

    method WriteMeta()
      modifies `meta
      ensures meta == Meta(maxKeys, root)
    {
      meta := Meta(maxKeys, root);
    }

    /** Insert into the subtree whose root node, loaded as n, lives on page p. */
    method InsertInto(p: nat, n: Node, key: int, rid: RowId, ghost t: Tree, ghost next: nat)
      returns (split: Option<(int, nat)>)
      requires 2 <= maxKeys && Ordered(t) && Distinct(Pages(t)) && Between(Pages(t), numPages)
      requires Holds(pages, t, next) && p == t.page && n == pages[p]
      modifies `pages, `numPages
      ensures var r := Grow(t, Entry(key, rid), old(numPages), maxKeys);
        && HoldsAll(pages, Parts(r), next)
        && numPages == r.free
        && split == (if r.split.None? then None else Some((r.split.value.0, r.split.value.1.page)))
      ensures Untouched(old(pages), pages, old(numPages), Pages(t))
      decreases t
    {
      if n.Leaf? {
        split := InsertIntoLeaf(p, n, key, rid, t, next);
        return;
      }
      ghost var free, pages0 := numPages, pages;
      var i := BisectRight(n.keys, key);
      KidPages(t, i, numPages);
      assert t.kids[i] in t.kids;
      var child := Load(n.children[i]);
      var below := InsertInto(n.children[i], child, key, rid, t.kids[i], NextOf(t.kids, i, next));
      HoldsInsert(pages0, pages, t, Entry(key, rid), free, maxKeys, next);
      ghost var pages1, c := pages, Grow(t.kids[i], Entry(key, rid), free, maxKeys);
      if below.None? {
        split := None;
      } else {
        split := AddChild(p, n, i, below.value.0, below.value.1);
      }
      assert pages == AbsorbStored(pages1, t, i, c, maxKeys);
    }

    /** Node n on page p gains a separator and the child to its right, and splits if it must. */
    method AddChild(p: nat, n: Node, i: nat, sep: int, rightNo: nat) returns (split: Option<(int, nat)>)
      requires n.Internal? && i <= |n.keys| && |n.children| == |n.keys| + 1
      modifies `pages, `numPages
      ensures var keys := InsertAt(n.keys, i, sep);
        var children := InsertAt(n.children, i + 1, rightNo);
        if |keys| <= maxKeys
        then split == None && numPages == old(numPages) && pages == old(pages)[p := Internal(keys, children)]
        else split == Some((keys[|keys| / 2], old(numPages))) && numPages == old(numPages) + 1
             && pages == SplitStored(old(pages), p, keys, children, old(numPages))
    {
      var keys := n.keys[..i] + [sep] + n.keys[i..];
      var children := n.children[..i + 1] + [rightNo] + n.children[i + 1..];
      if |keys| <= maxKeys {
        Store(p, Internal(keys, children));
        split := None;
      } else {
        split := SplitInternal(p, keys, children);
      }
    }

    method InsertIntoLeaf(p: nat, n: Node, key: int, rid: RowId, ghost t: Tree, ghost next: nat)
      returns (split: Option<(int, nat)>)
      requires 2 <= maxKeys && Ordered(t) && t.TLeaf? && p == t.page < numPages
      requires n == Leaf(Keys(t.entries), Rids(t.entries), next)
      modifies `pages, `numPages
      ensures var r := Grow(t, Entry(key, rid), old(numPages), maxKeys);
        && HoldsAll(pages, Parts(r), next)
        && numPages == r.free
        && split == (if r.split.None? then None else Some((r.split.value.0, r.split.value.1.page)))
      ensures Untouched(old(pages), pages, old(numPages), Pages(t))
    {
      var pos := BisectRight(n.keys, key);
      var keys := n.keys[..pos] + [key] + n.keys[pos..];
      var values := n.values[..pos] + [rid] + n.values[pos..];
      ghost var es := InsertAt(t.entries, pos, Entry(key, rid));
      KeysInsertAt(t.entries, pos, Entry(key, rid));
      HoldsLeaf(pages, t, Entry(key, rid), maxKeys, numPages, next);
      if |keys| <= maxKeys {
        Store(p, Leaf(keys, values, n.next));
        split := None;
      } else {
        split := SplitLeafNode(p, keys, values, n.next);
      }
    }

    method SplitLeafNode(p: nat, keys: seq<int>, values: seq<RowId>, next: nat) returns (split: Option<(int, nat)>)
      requires keys != [] && |values| == |keys|
      modifies `pages, `numPages
      ensures numPages == old(numPages) + 1
      ensures var mid := |keys| / 2;
        && split == Some((keys[mid], old(numPages)))
        && pages == old(pages)[p := Leaf(keys[..mid], values[..mid], old(numPages))]
                              [old(numPages) := Leaf(keys[mid..], values[mid..], next)]
    {
      var mid := |keys| / 2;
      var rightNo := NewPage();
      var rightKeys := keys[mid..];
      Store(p, Leaf(keys[..mid], values[..mid], rightNo));
      Store(rightNo, Leaf(rightKeys, values[mid..], next));
      split := Some((rightKeys[0], rightNo));
    }

    method SplitInternal(p: nat, keys: seq<int>, children: seq<nat>) returns (split: Option<(int, nat)>)
      requires keys != [] && |children| == |keys| + 1
      modifies `pages, `numPages
      ensures numPages == old(numPages) + 1
      ensures split == Some((keys[|keys| / 2], old(numPages)))
      ensures pages == SplitStored(old(pages), p, keys, children, old(numPages))
    {
      var mid := |keys| / 2;
      var rightNo := NewPage();
      Store(p, Internal(keys[..mid], children[..mid + 1]));
      Store(rightNo, Internal(keys[mid + 1..], children[mid + 1..]));
      split := Some((keys[mid], rightNo));
    }

    /** Insert (key, rowid): stable sorted insertion into the list of all entries. */
    method Insert(key: int, rid: RowId)
      requires Valid()
      modifies this
      ensures Valid() && maxKeys == old(maxKeys)
      ensures (tree, numPages) == InsertRoot(old(tree), Entry(key, rid), old(numPages), maxKeys)
      ensures Flat(tree) == Insort(old(Flat(tree)), Entry(key, rid))
    {
      ghost var t, free := tree, numPages;
      var n := Load(root);
      var split := InsertInto(root, n, key, rid, tree, 0);
      FinishInsert(split, t, Entry(key, rid), free);
    }

    /** Once the root's subtree has been inserted into, the tree is whole again. */
    method FinishInsert(split: Option<(int, nat)>, ghost t: Tree, ghost e: Entry, ghost free: nat)
      requires 2 <= maxKeys <= MAX_KEYS_LIMIT && meta == Meta(maxKeys, root)
      requires Sound(t, free, maxKeys) && root == t.page && HoldsAll(pages, Parts(Grow(t, e, free, maxKeys)), 0)
      requires var r := Grow(t, e, free, maxKeys);
        && numPages == r.free
        && split == (if r.split.None? then None else Some((r.split.value.0, r.split.value.1.page)))
      modifies this
      ensures Valid() && maxKeys == old(maxKeys)
      ensures (tree, numPages) == InsertRoot(t, e, free, maxKeys) && Flat(tree) == Insort(Flat(t), e)
    {
      InsertCompletes(pages, t, e, free, maxKeys);
      GrowRoot(split, Grow(t, e, free, maxKeys));
      tree := InsertRoot(t, e, free, maxKeys).0;
    }

    /** A root that split gets a new root above it. */
    method GrowRoot(split: Option<(int, nat)>, ghost r: Grown)
      requires split == (if r.split.None? then None else Some((r.split.value.0, r.split.value.1.page)))
      requires numPages == r.free && root == r.left.page && meta == Meta(maxKeys, root)
      modifies `pages, `numPages, `root, `meta
      ensures pages == RootedPages(old(pages), r) && numPages == Rooted(r).1
      ensures root == Rooted(r).0.page && meta == Meta(maxKeys, root)
    {
      if split.Some? {
        var newRoot := NewPage();
        Store(newRoot, Internal([split.value.0], [root, split.value.1]));
        root := newRoot;
        WriteMeta();
      }
    }

    /** Descend to the leftmost leaf that could hold key. */
    method FindLeaf(key: int) returns (p: nat, n: Node)
      requires Valid()
      ensures p == Leaves(tree)[Landing(tree, key)].page
      ensures p in pages && n == pages[p]
    {
      p := root;
      n := Load(root);
      ghost var t, next := tree, 0;
      while n.Internal?
        invariant Ordered(t) && Holds(pages, t, next) && p == t.page && n == pages[p]
        invariant LandingPage(tree, key) == LandingPage(t, key)
        decreases t
      {
        var i := BisectLeft(n.keys, key);
        assert t.kids[i] in t.kids;
        t, next := t.kids[i], NextOf(t.kids, i, next);
        p := n.children[i];
        n := Load(p);
      }
      LandingPageIs(tree, key);
    }

    /** Every RowId stored under key, as far as the walk along the chain can see. */
    method Search(key: int) returns (results: seq<RowId>)
      requires Valid()
      ensures results == Matches(Visible(tree, key), key)
    {
      var p, n := FindLeaf(key);
      results := [];
      ghost var c := Landing(tree, key);
      SearchStart(pages, tree, numPages, key);
      while true
        invariant Walked(tree, key, c) && AtLeaf(tree, c, n)
        invariant results == Matches(UpTo(tree, c, 0), key)
        decreases |Leaves(tree)| - c
      {
        LeafOrdered(tree, c);
        var i, found := LeafMatches(n, key, Leaves(tree)[c].entries);
        results := results + found;
        SearchStep(pages, tree, numPages, key, c, i);
        if i < |n.keys| {
          return;
        }
        if n.next != 0 && n.keys != [] && n.keys[|n.keys| - 1] <= key {
          c := c + 1;
          n := Load(n.next);
        } else {
          return;
        }
      }
    }

    /** The RowIds under key within one leaf, and the first position past them. */
    static method LeafMatches(n: Node, key: int, ghost es: seq<Entry>) returns (i: nat, found: seq<RowId>)
      requires n.Leaf? && n.keys == Keys(es) && n.values == Rids(es) && Sorted(n.keys)
      ensures i == UpperBound(n.keys, key) && found == Matches(es[..i], key)
    {
      found := [];
      i := BisectLeft(n.keys, key);
      NoMatchBelow(es, i, key);
      while i < |n.keys| && n.keys[i] == key
        invariant i <= |n.keys|
        invariant forall j :: 0 <= j < i ==> n.keys[j] <= key
        invariant forall j :: i <= j < |n.keys| ==> key <= n.keys[j]
        invariant found == Matches(es[..i], key)
      {
        found := found + [n.values[i]];
        MatchesStep(es, i, key);
        i := i + 1;
      }
      UpperBoundIs(n.keys, key, i);
    }

    /** The leftmost leaf. */
    method LeftmostLeaf() returns (n: Node)
      requires Valid()
      ensures AtLeaf(tree, 0, n)
    {
      n := Load(root);
      ghost var t, next := tree, 0;
      while n.Internal?
        invariant Ordered(t) && Holds(pages, t, next) && n == pages[t.page]
        invariant FirstLeaf(t) == FirstLeaf(tree)
        decreases t
      {
        assert t.kids[0] in t.kids;
        t, next := t.kids[0], NextOf(t.kids, 0, next);
        n := Load(n.children[0]);
      }
      LeavesNonEmpty(tree);
      HoldsLeaves(pages, tree, 0);
      assert Holds(pages, Leaves(tree)[0], NextOf(Leaves(tree), 0, 0));
    }

    /** The (key, RowId) pairs with low <= key <= high, in order; a bound of None is no bound. */
    method RangeScan(low: Option<int>, high: Option<int>) returns (out: seq<Entry>)
      requires Valid()
      ensures out == Within(Flat(tree), low, high)
    {
      var n;
      var i: nat;
      ghost var c;
      if low.None? {
        n := LeftmostLeaf();
        i, c := 0, 0;
      } else {
        var p;
        p, n := FindLeaf(low.value);
        c := Landing(tree, low.value);
        LandsAt(pages, tree, low.value);
        LeafOrdered(tree, c);
        i := BisectLeft(n.keys, low.value);
        RangeStart(tree, low.value, low, high);
      }
      out := [];
      while true
        invariant AtLeaf(tree, c, n) && i <= |n.keys|
        invariant out == Within(UpTo(tree, c, i), low, high) && AtLeast(From(tree, c, i), low)
        decreases |Leaves(tree)| - c
      {
        var j, found := LeafRange(n, i, high, Leaves(tree)[c].entries);
        out := out + found;
        RangeStep(pages, tree, numPages, low, high, c, i, j);
        if j < |n.keys| || n.next == 0 {
          return;
        }
        c, i := c + 1, 0;
        n := Load(n.next);
      }
    }

    /** The pairs of one leaf from position i on, up to the first key above high. */
    static method LeafRange(n: Node, i: nat, high: Option<int>, ghost es: seq<Entry>)
      returns (j: nat, found: seq<Entry>)
      requires n.Leaf? && n.keys == Keys(es) && n.values == Rids(es) && i <= |es|
      ensures i <= j <= |es| && found == es[i..j]
      ensures forall m :: i <= m < j ==> high.Some? ==> es[m].key <= high.value
      ensures j < |es| ==> high.Some? && es[j].key > high.value
    {
      found, j := [], i;
      while j < |n.keys| && !(high.Some? && n.keys[j] > high.value)
        invariant i <= j <= |es| && found == es[i..j]
        invariant forall m :: i <= m < j ==> high.Some? ==> es[m].key <= high.value
      {
        found := found + [Entry(n.keys[j], n.values[j])];
        j := j + 1;
      }
    }

    /** Remove the first visible (key, rid) entry from its leaf; false, and no change, if there is
        none to be seen. */
    method Delete(key: int, rid: RowId) returns (found: bool)
      requires Valid()
      modifies `pages, `tree
      ensures Valid()
      ensures found <==> Entry(key, rid) in Visible(old(tree), key)
      ensures tree == DeleteRoot(old(tree), Entry(key, rid))
      ensures Flat(tree) == if found then RemoveFirst(old(Flat(tree)), Entry(key, rid)) else old(Flat(tree))
      ensures !found ==> pages == old(pages)
    {
      ghost var e := Entry(key, rid);
      var p, n, i;
      ghost var c;
      found, p, n, i, c := Locate(key, rid);
      if found {
        DropEntry(p, n, i, e, c);
      }
      DeleteRootFlat(old(tree), e);
    }

    /** The first visible (key, rid) entry: its leaf n, on page p, and its place i there. */
    method Locate(key: int, rid: RowId) returns (found: bool, p: nat, n: Node, i: nat, ghost c: nat)
      requires Valid()
      ensures found <==> Entry(key, rid) in Visible(tree, key)
      ensures found ==> Walked(tree, key, c) && Missed(tree, Entry(key, rid), c)
      ensures found ==> AtLeaf(tree, c, n) && p == Leaves(tree)[c].page && i < |Leaves(tree)[c].entries|
      ensures found ==> Leaves(tree)[c].entries[i] == Entry(key, rid)
      ensures found ==> Entry(key, rid) !in Leaves(tree)[c].entries[..i]
    {
      ghost var e := Entry(key, rid);
      p, n := FindLeaf(key);
      c := Landing(tree, key);
      LandsAt(pages, tree, key);
      while true
        invariant Walked(tree, key, c) && AtLeaf(tree, c, n) && p == Leaves(tree)[c].page
        invariant Missed(tree, e, c)
        decreases |Leaves(tree)| - c
      {
        LeafOrdered(tree, c);
        i, found := LeafFind(n, key, rid, Leaves(tree)[c].entries);
        if found {
          FoundVisible(tree, e, c, i);
          return;
        }
        DeleteStep(pages, tree, numPages, e, c, i);
        if i < |n.keys| {
          return;
        }
        if n.next != 0 && n.keys != [] && n.keys[|n.keys| - 1] <= key {
          c := c + 1;
          p := n.next;
          n := Load(p);
        } else {
          return;
        }
      }
    }

    /** Drop entry i of leaf n, which lives on page p. */
    method DropEntry(p: nat, n: Node, i: nat, ghost e: Entry, ghost c: nat)
      requires Valid() && Walked(tree, e.key, c) && Missed(tree, e, c)
      requires AtLeaf(tree, c, n) && p == Leaves(tree)[c].page
      requires i < |Leaves(tree)[c].entries| && Leaves(tree)[c].entries[i] == e
      requires e !in Leaves(tree)[c].entries[..i]
      modifies `pages, `tree
      ensures Valid() && tree == DeleteRoot(old(tree), e) && e in Visible(old(tree), e.key)
    {
      ghost var es := Leaves(tree)[c].entries;
      var keys, values := n.keys[..i] + n.keys[i + 1..], n.values[..i] + n.values[i + 1..];
      WithoutEntry(es, i);
      DeleteFound(pages, tree, numPages, maxKeys, e, c, i, Leaf(keys, values, n.next));
      Store(p, Leaf(keys, values, n.next));
      tree := DeleteRoot(tree, e);
    }

    /** Look for (key, rid) in one leaf; failing that, i is the first position past key. */
    static method LeafFind(n: Node, key: int, rid: RowId, ghost es: seq<Entry>) returns (i: nat, found: bool)
      requires n.Leaf? && n.keys == Keys(es) && n.values == Rids(es) && Sorted(n.keys)
      ensures found ==> i < |es| && es[i] == Entry(key, rid) && Entry(key, rid) !in es[..i]
      ensures !found ==> i == UpperBound(n.keys, key) && Entry(key, rid) !in es
    {
      i := BisectLeft(n.keys, key);
      NotAmong(es, i, Entry(key, rid));
      while i < |n.keys| && n.keys[i] == key
        invariant i <= |es| && Entry(key, rid) !in es[..i]
        invariant forall j :: 0 <= j < i ==> n.keys[j] <= key
        invariant forall j :: i <= j < |n.keys| ==> key <= n.keys[j]
      {
        if n.values[i] == rid { return i, true; }
        assert es[..i + 1] == es[..i] + [es[i]];
        i := i + 1;
      }
      UpperBoundIs(n.keys, key, i);
      NotAfter(es, i, Entry(key, rid));
      found := false;
    }

    /** Number of levels. */
    method CountLevels() returns (levels: nat)
      requires Valid()
      ensures levels == Height(tree)
    {
      levels := 1;
      var n := Load(root);
      ghost var t, next := tree, 0;
      while n.Internal?
        invariant Ordered(t) && Holds(pages, t, next) && n == pages[t.page]
        invariant levels + Height(t) == Height(tree) + 1
        decreases t
      {
        levels := levels + 1;
        assert t.kids[0] in t.kids;
        t, next := t.kids[0], NextOf(t.kids, 0, next);
        n := Load(n.children[0]);
      }
    }
  }
}
