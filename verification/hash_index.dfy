/** A static hash index over byte pages (queryx/index/hash_index.py). */
module HashIndex {
  import opened Wrappers
  import opened Bytes
  import opened PageBytes
  import opened BTreeShape
  import opened HashChains

  /** `_write_bucket_page`: pack a bucket into a zeroed page. */
  method StoreBucket(b: Bucket) returns (raw: Data)
    requires BucketFits(b)
    ensures raw == EncodeBucket(b)
  {
    var buf := new byte[PAGE_SIZE](_ => 0);
    assert buf[..] == Zeros(PAGE_SIZE);
    ghost var header, body := BucketHeader(|b.entries|, b.next), PackEntries(b.entries);
    PutAtTwice(buf[..], 0, header, body);
    PutAtZeros(header + body);
    PackInto(buf, 0, BucketHeader(|b.entries|, b.next));
    WriteEntries(buf, BUCKET_HEADER, b.entries);
    raw := buf[..];
  }

  /** `_read_bucket_page`: read a bucket back from its page. */
  method LoadBucket(raw: Data) returns (b: Option<Bucket>)
    requires |raw| == PAGE_SIZE
    ensures b == DecodeBucket(raw)
  {
    var num := Unpack(raw[..2]);
    if BUCKET_HEADER + ENTRY_SIZE * num > PAGE_SIZE { return None; }
    var es := ReadEntries(raw, BUCKET_HEADER, num);
    b := Some(Bucket(es, Unpack(raw[2..6])));
  }

  /** The pages of a good index file: the meta page, and the bucket pages as they decode. */
  ghost predicate FileOk(
      meta: Data, pages: Buckets, numPages: nat, numBuckets: nat, chains: Chains, place: Places) {
    && numBuckets < 0x1_0000_0000 && numPages <= 0x1_0000_0000
    && meta == EncodeMeta(numBuckets)
    && ChainsOk(pages, chains, place, numBuckets, numPages)
  }

  class HashIndex {
    var meta: Data
    var pages: Buckets
    var numPages: nat
    var numBuckets: nat
    ghost var chains: Chains
    ghost var place: Places

    ghost predicate Valid()
      reads this
    {
      FileOk(meta, pages, numPages, numBuckets, chains, place)
    }

    /** Everything stored, as a bag. */
    ghost function Contents(): multiset<Entry>
      reads this
    {
      BagOfAll(pages, chains)
    }

    /** Open an index file that is already there: the bucket count comes from its meta page. */
    constructor Open(meta: Data, pages: Buckets, numPages: nat, ghost n: nat, ghost chains: Chains, ghost place: Places)
      requires FileOk(meta, pages, numPages, n, chains, place)
      ensures Valid() && numBuckets == n && Contents() == BagOfAll(pages, chains)
    {
      MetaRoundTrip(n);
      this.meta, this.pages, this.numPages := meta, pages, numPages;
      this.numBuckets := DecodeMeta(meta).value;
      this.chains, this.place := chains, place;
    }

    /** A fresh index: one empty page for each bucket. */
    constructor (n: nat)
      requires 1 <= n < 0xffff_fff0
      ensures Valid() && numBuckets == n && Contents() == multiset{}
    {
      numBuckets, meta, pages, numPages := n, EncodeMeta(n), map[], FIRST_BUCKET;
      chains, place := [], map[];
      new;
      for i := 0 to n
        invariant numBuckets == n && numPages == FIRST_BUCKET + i && |chains| == i && meta == EncodeMeta(n)
        invariant forall k :: 0 <= k < i ==> chains[k] == [FIRST_BUCKET + k]
        invariant forall p :: FIRST_BUCKET <= p < FIRST_BUCKET + i ==> p in pages && pages[p] == Bucket([], 0)
        invariant forall p :: FIRST_BUCKET <= p < FIRST_BUCKET + i ==> p in place && place[p] == (p - FIRST_BUCKET, 0)
      {
        var bucketNo := NewPage();
        WriteBucket(bucketNo, Bucket([], 0));
        chains, place := chains + [[bucketNo]], place[bucketNo := (i, 0)];
      }
      FreshChains(pages, chains, place, n);
    }

    method NewPage() returns (p: nat)
      modifies `numPages
      ensures p == old(numPages) && numPages == p + 1
    {
      p := numPages;
      numPages := p + 1;
    }

    method ReadBucket(p: nat) returns (b: Bucket)
      requires p in pages
      ensures b == pages[p]
    {
      b := pages[p];
    }

    method WriteBucket(p: nat, b: Bucket)
      requires BucketFits(b)
      modifies `pages
      ensures pages == old(pages)[p := b]
    {
      pages := pages[p := b];
    }

    /** Store one more entry under its key, in the first page of the chain with room for it. */
    method Insert(key: int, rid: RowId)
      requires Valid() && EntryFits(Entry(key, rid)) && numPages < 0x1_0000_0000
      modifies this
      ensures Contents() == old(Contents()) + multiset{Entry(key, rid)}
      ensures Valid() && numBuckets == old(numBuckets)
    {
      ghost var i := BucketOf(key, numBuckets);
      var pageNo, b, j := FindRoom(key);
      if |b.entries| < CAPACITY {
        AddToPage(i, j, pageNo, b, Entry(key, rid));
      } else {
        LinkPage(i, j, pageNo, b, Entry(key, rid));
      }
    }

    /** The first page of the key's chain that has room, or else the last page. */
    method FindRoom(key: int) returns (pageNo: nat, b: Bucket, ghost j: nat)
      requires Valid()
      ensures var c := chains[BucketOf(key, numBuckets)];
        j < |c| && pageNo == c[j] && (j == |c| - 1 || |b.entries| < CAPACITY)
      ensures pageNo in pages && b == pages[pageNo] && (|b.entries| < CAPACITY || b.next == 0)
    {
      var i := BucketOf(key, numBuckets);
      ghost var c := chains[i];
      pageNo, j := FIRST_BUCKET + i, 0;
      ChainAt(pages, c, i, j, numBuckets, numPages);
      b := ReadBucket(pageNo);
      while |b.entries| >= CAPACITY && b.next != 0
        invariant j < |c| && pageNo == c[j] && pageNo in pages && b == pages[pageNo]
        invariant if j + 1 < |c| then b.next == c[j + 1] && c[j + 1] != 0 else b.next == 0
        decreases |c| - j
      {
        pageNo, j := b.next, j + 1;
        ChainAt(pages, c, i, j, numBuckets, numPages);
        b := ReadBucket(pageNo);
      }
    }

    method AddToPage(ghost i: nat, ghost j: nat, pageNo: nat, b: Bucket, e: Entry)
      requires Valid() && i < numBuckets && j < |chains[i]| && chains[i][j] == pageNo
      requires pageNo in pages && pages[pageNo] == b && |b.entries| < CAPACITY
      requires EntryFits(e) && BucketOf(e.key, numBuckets) == i
      modifies `pages
      ensures Contents() == old(Contents()) + multiset{e}
      ensures Valid()
    {
      Added(pages, chains, place, numBuckets, numPages, i, j, e);
      WriteBucket(pageNo, b.(entries := b.entries + [e]));
    }

    method LinkPage(ghost i: nat, ghost j: nat, pageNo: nat, b: Bucket, e: Entry)
      requires Valid() && i < numBuckets && j < |chains[i]| && chains[i][j] == pageNo
      requires pageNo in pages && pages[pageNo] == b && b.next == 0
      requires EntryFits(e) && BucketOf(e.key, numBuckets) == i && numPages < 0x1_0000_0000
      modifies this
      ensures Contents() == old(Contents()) + multiset{e}
      ensures Valid() && numBuckets == old(numBuckets)
    {
      ghost var linked, longer, placed := LinkedAt(meta, pages, chains, place, numBuckets, numPages, i, j, e);
      WriteLink(pageNo, b, e);
      chains, place := longer, placed;
    }

    method WriteLink(pageNo: nat, b: Bucket, e: Entry)
      requires pageNo in pages && pages[pageNo] == b
      requires BucketFits(b.(next := numPages)) && BucketFits(Bucket([e], 0))
      modifies `pages, `numPages
      ensures pages == Link(old(pages), pageNo, old(numPages), e) && numPages == old(numPages) + 1
    {
      var overflowNo := NewPage();
      WriteBucket(pageNo, b.(next := overflowNo));
      WriteBucket(overflowNo, Bucket([e], 0));
    }

    /** The row ids stored under the key, each as often as it was stored. */
    method Search(key: int) returns (results: seq<RowId>)
      requires Valid()
      ensures forall rid :: multiset(results)[rid] == Contents()[Entry(key, rid)]
    {
      results := WalkChain(key);
      forall rid ensures multiset(results)[rid] == Contents()[Entry(key, rid)] {
        InItsChain(pages, chains, place, numBuckets, numPages, Entry(key, rid));
      }
    }

    method WalkChain(key: int) returns (results: seq<RowId>)
      requires Valid()
      ensures forall rid :: multiset(results)[rid] == Bag(pages, chains[BucketOf(key, numBuckets)])[Entry(key, rid)]
    {
      results := [];
      var i := BucketOf(key, numBuckets);
      var pageNo := FIRST_BUCKET + i;
      ghost var j, c := 0, chains[i];
      ChainAt(pages, c, i, 0, numBuckets, numPages);
      while pageNo != 0
        invariant j <= |c| && (if j < |c| then pageNo == c[j] != 0 else pageNo == 0)
        invariant Matched(pages, c, j, key, results)
        decreases |c| - j
      {
        ChainAt(pages, c, i, j, numBuckets, numPages);
        var b := ReadBucket(pageNo);
        var found := PageMatches(b.entries, key);
        MatchedStep(pages, c, j, key, results);
        results := results + found;
        pageNo, j := b.next, j + 1;
      }
      assert c[..|c|] == c;
    }

    method PageMatches(es: seq<Entry>, key: int) returns (found: seq<RowId>)
      ensures found == Matches(es, key)
    {
      found := [];
      for n := 0 to |es|
        invariant found == Matches(es[..n], key)
      {
        assert es[..n + 1] == es[..n] + [es[n]];
        MatchesOneMore(es[..n], es[n], key);
        if es[n].key == key { found := found + [es[n].rid]; }
      }
      assert es[..|es|] == es;
    }

    /** Remove one occurrence of the entry, or report that there is none. */
    method Delete(key: int, rid: RowId) returns (found: bool)
      requires Valid()
      modifies this
      ensures found == (Entry(key, rid) in old(Contents()))
      ensures Contents() == old(Contents()) - multiset{Entry(key, rid)}
      ensures Valid() && numBuckets == old(numBuckets)
    {
      ghost var i := BucketOf(key, numBuckets);
      var pageNo, b, n, j := FindEntry(Entry(key, rid));
      found := pageNo != 0;
      if found {
        DropFromPage(i, j, pageNo, b, n);
      } else {
        NotInBag(pages, chains[i], Entry(key, rid));
        InItsChain(pages, chains, place, numBuckets, numPages, Entry(key, rid));
      }
    }

    /** The first page of its chain that holds the entry, and where; page 0 if none does. */
    method FindEntry(e: Entry) returns (pageNo: nat, b: Bucket, n: nat, ghost j: nat)
      requires Valid()
      ensures var c := chains[BucketOf(e.key, numBuckets)];
        if pageNo == 0 then forall p :: p in c ==> e !in EntriesOn(pages, p)
        else j < |c| && pageNo == c[j] && pageNo in pages && b == pages[pageNo] && n < |b.entries| && b.entries[n] == e
    {
      var i := BucketOf(e.key, numBuckets);
      ghost var c := chains[i];
      ChainAt(pages, c, i, 0, numBuckets, numPages);
      pageNo, b, n, j := FIRST_BUCKET + i, Bucket([], 0), 0, 0;
      while pageNo != 0
        invariant j <= |c| && (if j < |c| then pageNo == c[j] != 0 else pageNo == 0)
        invariant forall k :: 0 <= k < j ==> e !in EntriesOn(pages, c[k])
        decreases |c| - j
      {
        ChainAt(pages, c, i, j, numBuckets, numPages);
        b := ReadBucket(pageNo);
        n := Position(b.entries, e);
        if n < |b.entries| { return; }
        pageNo, j := b.next, j + 1;
      }
    }

    /** Where the entry first stands (the length if it does not). */
    method Position(es: seq<Entry>, e: Entry) returns (n: nat)
      ensures n <= |es| && e !in es[..n] && (n < |es| ==> es[n] == e)
    {
      n := 0;
      while n < |es| && es[n] != e
        invariant n <= |es| && e !in es[..n]
      {
        n := n + 1;
      }
    }

    method DropFromPage(ghost i: nat, ghost j: nat, pageNo: nat, b: Bucket, n: nat)
      requires Valid() && i < numBuckets && j < |chains[i]| && chains[i][j] == pageNo
      requires pageNo in pages && pages[pageNo] == b && n < |b.entries|
      modifies `pages
      ensures b.entries[n] in old(Contents())
      ensures Contents() == old(Contents()) - multiset{b.entries[n]}
      ensures Valid()
    {
      var rest := b.entries[..n] + b.entries[n + 1..];
      Dropped(pages, chains, place, numBuckets, numPages, i, j, n);
      WriteBucket(pageNo, b.(entries := rest));
    }
  }

  lemma {:induction false} BagCancelOne(all': multiset<Entry>, all: multiset<Entry>, es: seq<Entry>, e: Entry)
    requires all' + multiset(es) == all + multiset(es + [e])
    ensures all' == all + multiset{e}
  {
    assert multiset(es + [e]) == multiset(es) + multiset{e};
    forall x ensures all'[x] == (all + multiset{e})[x] {
      assert (all' + multiset(es))[x] == (all + multiset(es + [e]))[x];
    }
  }

  lemma {:induction false} BagLose(
      all': multiset<Entry>, all: multiset<Entry>, rest: seq<Entry>, es: seq<Entry>, e: Entry)
    requires all' + multiset(es) == all + multiset(rest) && multiset(es) == multiset(rest) + multiset{e}
    ensures e in all && all' == all - multiset{e}
  {
    forall x ensures all'[x] + multiset{e}[x] == all[x] {
      assert (all' + multiset(es))[x] == (all + multiset(rest))[x];
    }
    assert all'[e] + multiset{e}[e] == all[e];
    assert all == all' + multiset{e};
  }

  lemma {:induction false} Added(
      view: Buckets, chains: Chains, place: Places, numBuckets: nat, numPages: nat, i: nat, j: nat, e: Entry)
    requires ChainsOk(view, chains, place, numBuckets, numPages) && i < numBuckets && j < |chains[i]|
    requires EntryFits(e) && BucketOf(e.key, numBuckets) == i && |EntriesOn(view, chains[i][j])| < CAPACITY
    ensures var p := chains[i][j]; p in view && BucketFits(view[p].(entries := view[p].entries + [e]))
    ensures var p := chains[i][j]; var view' := view[p := view[p].(entries := view[p].entries + [e])];
      && ChainsOk(view', chains, place, numBuckets, numPages)
      && BagOfAll(view', chains) == BagOfAll(view, chains) + multiset{e}
  {
    var p := chains[i][j];
    assert PageOk(view, p, i, numBuckets, numPages);
    var es := view[p].entries;
    Rewritten(view, chains, place, numBuckets, numPages, i, j, es + [e]);
    BagCancelOne(BagOfAll(view[p := view[p].(entries := es + [e])], chains), BagOfAll(view, chains), es, e);
  }

  /** Linking a fresh page to the last page of a chain, and what becomes of the chains. */
  lemma {:induction false} LinkedLast(
      meta: Data, view: Buckets, chains: Chains, place: Places, numBuckets: nat, numPages: nat, i: nat, e: Entry)
    returns (linked: Buckets, longer: Chains, placed: Places)
    requires FileOk(meta, view, numPages, numBuckets, chains, place) && i < numBuckets
    requires numPages < 0x1_0000_0000 && EntryFits(e) && BucketOf(e.key, numBuckets) == i
    ensures var c := chains[i]; c[|c| - 1] in view && linked == Link(view, c[|c| - 1], numPages, e)
    ensures FileOk(meta, linked, numPages + 1, numBuckets, longer, placed)
    ensures BagOfAll(linked, longer) == BagOfAll(view, chains) + multiset{e}
  {
    var c := chains[i];
    longer, placed := chains[i := c + [numPages]], place[numPages := (i, |c|)];
    Linked(view, chains, place, numBuckets, numPages, i, e);
    LinkedBag(view, chains, place, numBuckets, numPages, i, e);
    linked := Link(view, c[|c| - 1], numPages, e);
  }

  lemma {:induction false} LinkedAt(
      meta: Data, view: Buckets, chains: Chains, place: Places, numBuckets: nat, numPages: nat, i: nat, j: nat,
      e: Entry)
    returns (linked: Buckets, longer: Chains, placed: Places)
    requires FileOk(meta, view, numPages, numBuckets, chains, place) && i < numBuckets && j < |chains[i]|
    requires chains[i][j] in view && view[chains[i][j]].next == 0
    requires numPages < 0x1_0000_0000 && EntryFits(e) && BucketOf(e.key, numBuckets) == i
    ensures BucketFits(view[chains[i][j]].(next := numPages)) && BucketFits(Bucket([e], 0))
    ensures linked == Link(view, chains[i][j], numPages, e)
    ensures FileOk(meta, linked, numPages + 1, numBuckets, longer, placed)
    ensures BagOfAll(linked, longer) == BagOfAll(view, chains) + multiset{e}
  {
    LastOfChain(view, chains[i], i, j, numBuckets, numPages);
    linked, longer, placed := LinkedLast(meta, view, chains, place, numBuckets, numPages, i, e);
  }

  lemma {:induction false} Without(es: seq<Entry>, n: nat)
    requires n < |es|
    ensures var rest := es[..n] + es[n + 1..];
      multiset(es) == multiset(rest) + multiset{es[n]} && forall e :: e in rest ==> e in es
  {
    assert es == es[..n] + [es[n]] + es[n + 1..];
  }

  lemma {:induction false} Dropped(
      view: Buckets, chains: Chains, place: Places, numBuckets: nat, numPages: nat, i: nat, j: nat, n: nat)
    requires ChainsOk(view, chains, place, numBuckets, numPages) && i < numBuckets && j < |chains[i]|
    requires n < |EntriesOn(view, chains[i][j])|
    ensures var p := chains[i][j]; var es := EntriesOn(view, p);
      p in view && BucketFits(view[p].(entries := es[..n] + es[n + 1..]))
    ensures var p := chains[i][j]; var es := EntriesOn(view, p);
      var view' := view[p := view[p].(entries := es[..n] + es[n + 1..])];
      && ChainsOk(view', chains, place, numBuckets, numPages)
      && es[n] in BagOfAll(view, chains) && BagOfAll(view', chains) == BagOfAll(view, chains) - multiset{es[n]}
  {
    var p := chains[i][j];
    assert PageOk(view, p, i, numBuckets, numPages);
    var es := view[p].entries;
    var rest := es[..n] + es[n + 1..];
    Without(es, n);
    Rewritten(view, chains, place, numBuckets, numPages, i, j, rest);
    BagLose(BagOfAll(view[p := view[p].(entries := rest)], chains), BagOfAll(view, chains), rest, es, es[n]);
  }

  /** The page of a chain whose next pointer is 0 is its last. */
  lemma {:induction false} LastOfChain(view: Buckets, c: seq<nat>, i: nat, j: nat, numBuckets: nat, numPages: nat)
    requires numBuckets >= 1 && ChainOk(view, c, i, numBuckets, numPages)
    requires j < |c| && c[j] in view && view[c[j]].next == 0
    ensures j == |c| - 1 && c[j] < numPages && BucketFits(view[c[j]])
  {
    ChainAt(view, c, i, j, numBuckets, numPages);
  }

  /** What a walk meets at position j of a chain. */
  lemma {:induction false} ChainAt(view: Buckets, c: seq<nat>, i: nat, j: nat, numBuckets: nat, numPages: nat)
    requires numBuckets >= 1 && ChainOk(view, c, i, numBuckets, numPages) && j < |c|
    ensures c[j] in view && 0 < c[j] < numPages && BucketFits(view[c[j]])
    ensures if j + 1 < |c| then view[c[j]].next == c[j + 1] && c[j + 1] != 0 else view[c[j]].next == 0
  {
    assert LinkOk(view, c, j);
    assert c[j] in c && PageOk(view, c[j], i, numBuckets, numPages);
    if j + 1 < |c| { assert c[j + 1] in c && PageOk(view, c[j + 1], i, numBuckets, numPages); }
  }

  /** The results so far are the matches on the first j pages of the chain. */
  ghost predicate Matched(view: Buckets, c: seq<nat>, j: nat, key: int, results: seq<RowId>)
    requires j <= |c|
  {
    forall rid :: multiset(results)[rid] == Bag(view, c[..j])[Entry(key, rid)]
  }

  lemma {:induction false} MatchedStep(view: Buckets, c: seq<nat>, j: nat, key: int, results: seq<RowId>)
    requires j < |c| && Matched(view, c, j, key, results)
    ensures Matched(view, c, j + 1, key, results + Matches(EntriesOn(view, c[j]), key))
  {
    var found := Matches(EntriesOn(view, c[j]), key);
    forall rid ensures multiset(results + found)[rid] == Bag(view, c[..j + 1])[Entry(key, rid)] {
      MatchesCount(EntriesOn(view, c[j]), key, rid);
      BagNext(view, c, j);
    }
  }

  lemma {:induction false} FreshChains(view: Buckets, chains: Chains, place: Places, n: nat)
    requires |chains| == n >= 1
    requires forall k :: 0 <= k < n ==> chains[k] == [FIRST_BUCKET + k]
    requires forall p :: FIRST_BUCKET <= p < FIRST_BUCKET + n ==> p in view && view[p] == Bucket([], 0)
    requires forall p :: FIRST_BUCKET <= p < FIRST_BUCKET + n ==> p in place && place[p] == (p - FIRST_BUCKET, 0)
    ensures ChainsOk(view, chains, place, n, FIRST_BUCKET + n) && BagOfAll(view, chains) == multiset{}
  {
    EmptyChains(view, chains);
  }

  lemma {:induction false} EmptyChains(view: Buckets, chains: Chains)
    requires forall c :: c in chains ==> |c| == 1 && EntriesOn(view, c[0]) == []
    ensures BagOfAll(view, chains) == multiset{}
  {
    if chains != [] {
      assert chains[0] == [chains[0][0]];
      BagOne(view, chains[0][0]);
      EmptyChains(view, chains[1..]);
    }
  }
}
