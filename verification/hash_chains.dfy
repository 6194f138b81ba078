/** The pages of a static hash index: a directory of bucket pages, each the head of a chain of
    overflow pages (queryx/index/hash_index.py). */
module HashChains {
  import opened Wrappers
  import opened Bytes
  import opened PageBytes
  import opened BTreeShape

  const BUCKET_HEADER := 6
  const CAPACITY := 255
  const FIRST_BUCKET := 2
  const HASH_MULT := 2654435761

  /** The bytes of "HSH1". */
  const META_MAGIC: Data := [72, 83, 72, 49]

  // -- page layouts --------------------------------------------------------------

  /** A bucket page; `next` is 0 at the end of a chain. */
  datatype Bucket = Bucket(entries: seq<Entry>, next: nat)

  predicate BucketFits(b: Bucket) {
    |b.entries| <= CAPACITY && EntriesFit(b.entries) && b.next < 0x1_0000_0000
  }

  function BucketHeader(n: nat, next: nat): (b: Data)
    ensures |b| == BUCKET_HEADER
  {
    Pack(n, 2) + Pack(next, 4)
  }

  function EncodeBucket(b: Bucket): (d: Data)
    requires BucketFits(b)
    ensures |d| == PAGE_SIZE
  {
    BucketHeader(|b.entries|, b.next) + PackEntries(b.entries)
      + Zeros(PAGE_SIZE - BUCKET_HEADER - ENTRY_SIZE * |b.entries|)
  }

  /** The bucket a page spells; None where reading would run off the page. */
  function DecodeBucket(raw: Data): Option<Bucket> {
    if |raw| != PAGE_SIZE then None
    else
      var num := Unpack(raw[..2]);
      if BUCKET_HEADER + ENTRY_SIZE * num > PAGE_SIZE then None
      else Some(Bucket(UnpackEntries(raw[BUCKET_HEADER..], num), Unpack(raw[2..6])))
  }

  lemma {:induction false} BucketRoundTrip(b: Bucket)
    requires BucketFits(b)
    ensures DecodeBucket(EncodeBucket(b)) == Some(b)
  {
    var d := EncodeBucket(b);
    var rest := Zeros(PAGE_SIZE - BUCKET_HEADER - ENTRY_SIZE * |b.entries|);
    assert d[..2] == Pack(|b.entries|, 2) && d[2..6] == Pack(b.next, 4);
    assert d[BUCKET_HEADER..] == PackEntries(b.entries) + rest;
    UnpackPack16(|b.entries|);
    UnpackPack32(b.next);
    UnpackPackEntries(b.entries, rest);
  }

  /** Whatever is on a page, it is read as a bucket exactly if it starts with that bucket's bytes. */
  lemma {:induction false} BucketIff(raw: Data, b: Bucket)
    requires |raw| == PAGE_SIZE
    ensures DecodeBucket(raw) == Some(b) <==>
      BucketFits(b) && BucketHeader(|b.entries|, b.next) + PackEntries(b.entries) <= raw
  {
    if DecodeBucket(raw) == Some(b) {
      var num := Unpack(raw[..2]);
      PackUnpack16(raw[..2]);
      PackUnpack32(raw[2..6]);
      PackUnpackEntries(raw[BUCKET_HEADER..], num);
      assert BucketHeader(num, b.next) == raw[..BUCKET_HEADER];
      assert raw[..BUCKET_HEADER] + raw[BUCKET_HEADER..][..ENTRY_SIZE * num] == raw[..BUCKET_HEADER + ENTRY_SIZE * num];
    }
    if BucketFits(b) && BucketHeader(|b.entries|, b.next) + PackEntries(b.entries) <= raw {
      BucketRead(raw, b);
    }
  }

  lemma {:induction false} BucketRead(raw: Data, b: Bucket)
    requires |raw| == PAGE_SIZE && BucketFits(b)
    requires BucketHeader(|b.entries|, b.next) + PackEntries(b.entries) <= raw
    ensures DecodeBucket(raw) == Some(b)
  {
    var h := BucketHeader(|b.entries|, b.next);
    var rest := raw[BUCKET_HEADER + ENTRY_SIZE * |b.entries|..];
    assert raw == h + PackEntries(b.entries) + rest;
    assert raw[..2] == h[..2] == Pack(|b.entries|, 2) && raw[2..6] == h[2..6] == Pack(b.next, 4);
    assert raw[BUCKET_HEADER..] == PackEntries(b.entries) + rest;
    UnpackPack16(|b.entries|);
    UnpackPack32(b.next);
    UnpackPackEntries(b.entries, rest);
  }

  function EncodeMeta(numBuckets: nat): (d: Data)
    ensures |d| == PAGE_SIZE
  {
    META_MAGIC + Pack(numBuckets, 4) + Zeros(PAGE_SIZE - 8)
  }

  /** None for a page that is not the meta page of a hash index. */
  function DecodeMeta(raw: Data): Option<nat> {
    if |raw| != PAGE_SIZE || raw[..4] != META_MAGIC then None else Some(Unpack(raw[4..8]))
  }

  lemma {:induction false} MetaRoundTrip(numBuckets: nat)
    requires numBuckets < 0x1_0000_0000
    ensures DecodeMeta(EncodeMeta(numBuckets)) == Some(numBuckets)
  {
    var d := EncodeMeta(numBuckets);
    assert d[..4] == META_MAGIC && d[4..8] == Pack(numBuckets, 4);
    UnpackPack32(numBuckets);
  }

  /** A page is taken for the meta page exactly if it starts with the magic bytes and a bucket count. */
  lemma {:induction false} MetaIff(raw: Data, numBuckets: nat)
    requires |raw| == PAGE_SIZE
    ensures DecodeMeta(raw) == Some(numBuckets) <==>
      numBuckets < 0x1_0000_0000 && META_MAGIC + Pack(numBuckets, 4) <= raw
  {
    if DecodeMeta(raw) == Some(numBuckets) {
      PackUnpack32(raw[4..8]);
      assert raw[..4] + raw[4..8] == raw[..8];
    }
    if numBuckets < 0x1_0000_0000 && META_MAGIC + Pack(numBuckets, 4) <= raw {
      var h := META_MAGIC + Pack(numBuckets, 4);
      assert raw[..4] == h[..4] && raw[4..8] == h[4..8] == Pack(numBuckets, 4);
      UnpackPack32(numBuckets);
    }
  }

  // -- hashing -------------------------------------------------------------------

  /** The low 32 bits of key times the multiplier, modulo the bucket count; both operators round
      down, so negative keys land in range too. */
  function BucketOf(key: int, numBuckets: nat): (b: nat)
    requires numBuckets >= 1
    ensures b < numBuckets
  {
    (key * HASH_MULT) % 0x1_0000_0000 % numBuckets
  }

  lemma {:induction false} RemainderIs(x: int, n: nat, q: int, r: nat)
    requires r < n && x == n * q + r
    ensures x % n == r
  {
    var d := x / n - q;
    assert n * d == n * (x / n) - n * q == r - x % n;
    Multiple(n, d);
  }

  lemma {:induction false} Multiple(n: int, d: int)
    requires n >= 0
    ensures d >= 1 ==> n * d >= n
    ensures d <= -1 ==> n * d <= -n
  {
  }

  /** Two numbers a multiple of n apart leave the same remainder, and no others do. */
  lemma {:induction false} SameRemainder(x: int, y: int, n: nat)
    requires n >= 1
    ensures x % n == y % n ==> x == y + n * (x / n - y / n)
    ensures forall k: int :: x == y + n * k ==> x % n == y % n
  {
    forall k: int | x == y + n * k ensures x % n == y % n {
      assert x == n * (y / n + k) + y % n;
      RemainderIs(x, n, y / n + k, y % n);
    }
  }

  /** Where the bucket count divides the 32-bit range, the truncation changes nothing. */
  lemma {:induction false} BucketIs(key: int, n: nat, c: nat)
    requires n >= 1 && n * c == 0x1_0000_0000
    ensures BucketOf(key, n) == (key * HASH_MULT) % n
  {
    var x := key * HASH_MULT;
    var low, q := x % 0x1_0000_0000, x / 0x1_0000_0000;
    assert x == low + n * (c * q) by { assert n * (c * q) == (n * c) * q; }
    SameRemainder(x, low, n);
  }

  /** With a bucket count that divides the 32-bit range, like the default 64, two keys share a bucket
      exactly if they are a multiple of that count apart: runs of keys fill the buckets in turn. */
  lemma {:induction false} BucketsInTurn(a: int, b: int, n: nat, c: nat)
    requires n >= 1 && n * c == 0x1_0000_0000
    ensures BucketOf(a, n) == BucketOf(b, n) <==> a % n == b % n
  {
    BucketIs(a, n, c);
    BucketIs(b, n, c);
    var x, y := a * HASH_MULT, b * HASH_MULT;
    SameRemainder(x, y, n);
    SameRemainder(a, b, n);
    if a % n == b % n {
      var k := a / n - b / n;
      assert x == y + n * (k * HASH_MULT) by { assert a == b + n * k; Distribute(b, n, k, HASH_MULT); }
    }
    if x % n == y % n {
      var k := x / n - y / n;
      assert x == y + n * k;
      Undone(a, b, n, c, k);
    }
  }

  lemma {:induction false} Distribute(b: int, n: int, k: int, m: int)
    ensures (b + n * k) * m == b * m + n * (k * m)
  {
    assert (n * k) * m == n * (k * m);
  }

  const INVERSE := 244002641
  const CARRY := 150801925

  /** Modulo 2 to the 32, the multiplier has an inverse. */
  lemma {:induction false} Undone(a: int, b: int, n: nat, c: nat, k: int)
    requires n >= 1 && n * c == 0x1_0000_0000 && a * HASH_MULT == b * HASH_MULT + n * k
    ensures a % n == b % n
  {
    var m := k * INVERSE - c * (CARRY * (a - b));
    assert HASH_MULT * INVERSE == 1 + 0x1_0000_0000 * CARRY;
    assert (a - b) * (HASH_MULT * INVERSE) == (n * k) * INVERSE;
    assert a - b == (n * k) * INVERSE - 0x1_0000_0000 * (CARRY * (a - b));
    assert (n * k) * INVERSE == n * (k * INVERSE);
    assert 0x1_0000_0000 * (CARRY * (a - b)) == n * (c * (CARRY * (a - b)));
    assert n * m == n * (k * INVERSE) - n * (c * (CARRY * (a - b)));
    assert a == b + n * m;
    SameRemainder(a, b, n);
  }

  // -- chains --------------------------------------------------------------------

  type Chains = seq<seq<nat>>

  type Buckets = map<nat, Bucket>

  type Places = map<nat, (nat, nat)>

  function EntriesOn(view: Buckets, p: nat): seq<Entry> {
    if p in view then view[p].entries else []
  }

  /** The entries on the given pages, as a bag. */
  function Bag(view: Buckets, pages: seq<nat>): multiset<Entry> {
    if pages == [] then multiset{} else multiset(EntriesOn(view, pages[0])) + Bag(view, pages[1..])
  }

  function BagOfAll(view: Buckets, chains: Chains): multiset<Entry> {
    if chains == [] then multiset{} else Bag(view, chains[0]) + BagOfAll(view, chains[1..])
  }

  /** Chain i starts at bucket page i, follows the next pointers to their end, and holds entries
      of its own bucket only. */
  ghost predicate ChainOk(view: Buckets, chain: seq<nat>, i: nat, numBuckets: nat, numPages: nat)
    requires numBuckets >= 1
  {
    && chain != [] && chain[0] == FIRST_BUCKET + i
    && (forall p :: p in chain ==> PageOk(view, p, i, numBuckets, numPages))
    && (forall j :: 0 <= j < |chain| ==> chain[j] in view)
    && (forall j :: 0 <= j < |chain| ==> LinkOk(view, chain, j))
  }

  /** The page at position j points at the next one of its chain. */
  predicate LinkOk(view: Buckets, chain: seq<nat>, j: nat)
    requires j < |chain|
  {
    chain[j] in view && view[chain[j]].next == NextOn(chain, j)
  }

  predicate PageOk(view: Buckets, p: nat, i: nat, numBuckets: nat, numPages: nat)
    requires numBuckets >= 1
  {
    p in view && FIRST_BUCKET <= p < numPages && BucketFits(view[p]) && OfBucket(view[p].entries, i, numBuckets)
  }

  predicate OfBucket(es: seq<Entry>, i: nat, numBuckets: nat)
    requires numBuckets >= 1
  {
    forall e :: e in es ==> BucketOf(e.key, numBuckets) == i
  }

  function NextOn(chain: seq<nat>, j: nat): nat {
    if j + 1 < |chain| then chain[j + 1] else 0
  }

  /** Chain i at position j is the only place its page has. */
  ghost predicate Placed(chain: seq<nat>, i: nat, place: Places) {
    forall j :: 0 <= j < |chain| ==> chain[j] in place && place[chain[j]] == (i, j)
  }

  /** Every chain is in order, and no page lies on two chains or twice on one. */
  ghost predicate ChainsOk(view: Buckets, chains: Chains, place: Places, numBuckets: nat, numPages: nat) {
    && |chains| == numBuckets >= 1
    && (forall i :: 0 <= i < numBuckets ==>
          ChainOk(view, chains[i], i, numBuckets, numPages) && Placed(chains[i], i, place))
  }

  lemma {:induction false} BagFrame(view: Buckets, view': Buckets, pages: seq<nat>)
    requires forall p :: p in pages ==> EntriesOn(view, p) == EntriesOn(view', p)
    ensures Bag(view, pages) == Bag(view', pages)
  {
    if pages != [] { BagFrame(view, view', pages[1..]); }
  }

  lemma {:induction false} BagAppend(view: Buckets, a: seq<nat>, b: seq<nat>)
    ensures Bag(view, a + b) == Bag(view, a) + Bag(view, b)
  {
    if a == [] {
      assert a + b == b;
    } else {
      assert (a + b)[1..] == a[1..] + b;
      BagAppend(view, a[1..], b);
    }
  }

  lemma {:induction false} BagShift<T>(m: multiset<T>, a: multiset<T>, b: multiset<T>, x: multiset<T>, y: multiset<T>)
    requires a + x == b + y
    ensures (m + a) + x == (m + b) + y
  {
    assert (m + a) + x == m + (a + x);
  }

  /** Replacing the entries of one page of a chain replaces them in the chain's bag. */
  lemma {:induction false} BagPut(view: Buckets, view': Buckets, pages: seq<nat>, j: nat)
    requires j < |pages|
    requires forall k :: 0 <= k < |pages| && k != j ==> EntriesOn(view, pages[k]) == EntriesOn(view', pages[k])
    ensures Bag(view', pages) + multiset(EntriesOn(view, pages[j]))
         == Bag(view, pages) + multiset(EntriesOn(view', pages[j]))
  {
    if j == 0 {
      BagFrame(view, view', pages[1..]);
    } else {
      var rest := pages[1..];
      assert rest[j - 1] == pages[j];
      BagPut(view, view', rest, j - 1);
      BagShift(multiset(EntriesOn(view, pages[0])), Bag(view', rest), Bag(view, rest),
        multiset(EntriesOn(view, pages[j])), multiset(EntriesOn(view', pages[j])));
    }
  }

  lemma {:induction false} BagOfAllFrame(view: Buckets, view': Buckets, chains: Chains)
    requires forall c :: c in chains ==> Bag(view, c) == Bag(view', c)
    ensures BagOfAll(view, chains) == BagOfAll(view', chains)
  {
    if chains != [] { BagOfAllFrame(view, view', chains[1..]); }
  }

  lemma {:induction false} BagOfAllPut(view: Buckets, view': Buckets, chains: Chains, chains': Chains, i: nat)
    requires i < |chains| == |chains'|
    requires forall k :: 0 <= k < |chains| && k != i ==>
      chains'[k] == chains[k] && Bag(view, chains[k]) == Bag(view', chains[k])
    ensures BagOfAll(view', chains') + Bag(view, chains[i]) == BagOfAll(view, chains) + Bag(view', chains'[i])
  {
    if i == 0 {
      assert chains[1..] == chains'[1..];
      BagOfAllFrame(view, view', chains[1..]);
    } else {
      var rest, rest' := chains[1..], chains'[1..];
      BagOfAllPut(view, view', rest, rest', i - 1);
      assert rest[i - 1] == chains[i] && rest'[i - 1] == chains'[i];
      BagShift(Bag(view, chains[0]), BagOfAll(view', rest'), BagOfAll(view, rest),
        Bag(view, chains[i]), Bag(view', chains'[i]));
    }
  }

  lemma {:induction false} NotInBag(view: Buckets, pages: seq<nat>, e: Entry)
    requires forall p :: p in pages ==> e !in EntriesOn(view, p)
    ensures Bag(view, pages)[e] == 0
  {
    if pages != [] { NotInBag(view, pages[1..], e); }
  }

  lemma {:induction false} InOneChain(view: Buckets, chains: Chains, i: nat, e: Entry)
    requires i < |chains| && forall k :: 0 <= k < |chains| && k != i ==> Bag(view, chains[k])[e] == 0
    ensures BagOfAll(view, chains)[e] == Bag(view, chains[i])[e]
  {
    if i == 0 {
      NotInAny(view, chains[1..], e);
    } else {
      InOneChain(view, chains[1..], i - 1, e);
    }
  }

  lemma {:induction false} NotInAny(view: Buckets, chains: Chains, e: Entry)
    requires forall c :: c in chains ==> Bag(view, c)[e] == 0
    ensures BagOfAll(view, chains)[e] == 0
  {
    if chains != [] { NotInAny(view, chains[1..], e); }
  }

  /** An entry lies on the chain of its key's bucket and on no other. */
  lemma {:induction false} InItsChain(
      view: Buckets, chains: Chains, place: Places, numBuckets: nat, numPages: nat, e: Entry)
    requires ChainsOk(view, chains, place, numBuckets, numPages)
    ensures BagOfAll(view, chains)[e] == Bag(view, chains[BucketOf(e.key, numBuckets)])[e]
  {
    var i := BucketOf(e.key, numBuckets);
    forall k | 0 <= k < |chains| && k != i ensures Bag(view, chains[k])[e] == 0 {
      forall p | p in chains[k] ensures e !in EntriesOn(view, p) {
        assert PageOk(view, p, k, numBuckets, numPages);
      }
      NotInBag(view, chains[k], e);
    }
    InOneChain(view, chains, i, e);
  }

  /** A chain that does not use page p is as good after p was written. */
  lemma {:induction false} ChainFrame(
      view: Buckets, view': Buckets, chain: seq<nat>, i: nat, numBuckets: nat, numPages: nat, numPages': nat)
    requires numBuckets >= 1 && ChainOk(view, chain, i, numBuckets, numPages) && numPages <= numPages'
    requires forall p :: p in chain ==> p in view' && view'[p] == view[p]
    ensures ChainOk(view', chain, i, numBuckets, numPages') && Bag(view', chain) == Bag(view, chain)
  {
    BagFrame(view, view', chain);
    forall p | p in chain ensures PageOk(view', p, i, numBuckets, numPages') {
      assert PageOk(view, p, i, numBuckets, numPages);
    }
    forall j | 0 <= j < |chain| ensures LinkOk(view', chain, j) {
      assert LinkOk(view, chain, j) && chain[j] in chain;
    }
  }

  /** Rewriting the entries of one page keeps the chains. */
  lemma {:induction false} Rewritten(
      view: Buckets, chains: Chains, place: Places, numBuckets: nat, numPages: nat, i: nat, j: nat, es: seq<Entry>)
    requires ChainsOk(view, chains, place, numBuckets, numPages) && i < numBuckets && j < |chains[i]|
    requires |es| <= CAPACITY && EntriesFit(es) && OfBucket(es, i, numBuckets)
    ensures var p := chains[i][j]; var view' := view[p := view[p].(entries := es)];
      && ChainsOk(view', chains, place, numBuckets, numPages)
      && BagOfAll(view', chains) + multiset(view[p].entries) == BagOfAll(view, chains) + multiset(es)
  {
    var p := chains[i][j];
    assert p in chains[i];
    var view' := view[p := view[p].(entries := es)];
    forall k | 0 <= k < |chains| && k != i
      ensures ChainOk(view', chains[k], k, numBuckets, numPages) && Bag(view', chains[k]) == Bag(view, chains[k])
    {
      Apart(chains, place, i, j, k);
      ChainFrame(view, view', chains[k], k, numBuckets, numPages, numPages);
    }
    assert Placed(chains[i], i, place);
    BagPut(view, view', chains[i], j);
    BagOfAllPut(view, view', chains, chains, i);
    RewrittenOne(view, chains[i], i, numBuckets, numPages, p, es);
    BagCancel(BagOfAll(view', chains), BagOfAll(view, chains), Bag(view, chains[i]), Bag(view', chains[i]),
      multiset(view[p].entries), multiset(es));
  }

  lemma {:induction false} RewrittenOne(
      view: Buckets, c: seq<nat>, i: nat, numBuckets: nat, numPages: nat, q: nat, es: seq<Entry>)
    requires numBuckets >= 1 && ChainOk(view, c, i, numBuckets, numPages) && q in view
    requires |es| <= CAPACITY && EntriesFit(es) && OfBucket(es, i, numBuckets)
    ensures ChainOk(view[q := view[q].(entries := es)], c, i, numBuckets, numPages)
  {
    var view' := view[q := view[q].(entries := es)];
    forall p | p in c ensures PageOk(view', p, i, numBuckets, numPages) {
      assert PageOk(view, p, i, numBuckets, numPages);
    }
    forall j | 0 <= j < |c| ensures LinkOk(view', c, j) {
      assert LinkOk(view, c, j);
    }
  }

  lemma {:induction false} BagCancel<T>(
      all': multiset<T>, all: multiset<T>, one: multiset<T>, one': multiset<T>, old_: multiset<T>, new_: multiset<T>)
    requires all' + one == all + one' && one' + old_ == one + new_
    ensures all' + old_ == all + new_
  {
    forall e ensures (all' + old_)[e] == (all + new_)[e] {
      assert (all' + one)[e] == (all + one')[e] && (one' + old_)[e] == (one + new_)[e];
    }
  }

  /** Page j of chain i is not on another chain. */
  lemma {:induction false} Apart(chains: Chains, place: Places, i: nat, j: nat, k: nat)
    requires i < |chains| && j < |chains[i]| && k < |chains| && k != i
    requires Placed(chains[i], i, place) && Placed(chains[k], k, place)
    ensures chains[i][j] !in chains[k]
  {
  }

  /** The view once page `last` points at the fresh page n, which holds e alone. */
  function Link(view: Buckets, last: nat, n: nat, e: Entry): Buckets
    requires last in view
  {
    view[last := view[last].(next := n)][n := Bucket([e], 0)]
  }

  /** Linking a fresh page to the end of a chain keeps the chains. */
  lemma {:induction false} Linked(
      view: Buckets, chains: Chains, place: Places, numBuckets: nat, numPages: nat, i: nat, e: Entry)
    requires ChainsOk(view, chains, place, numBuckets, numPages) && i < numBuckets
    requires numPages < 0x1_0000_0000 && EntryFits(e) && BucketOf(e.key, numBuckets) == i
    ensures var c := chains[i]; c[|c| - 1] in view
    ensures var c := chains[i]; ChainsOk(Link(view, c[|c| - 1], numPages, e),
      chains[i := c + [numPages]], place[numPages := (i, |c|)], numBuckets, numPages + 1)
  {
    var c := chains[i];
    assert c[|c| - 1] in c;
    var view', chains' := Link(view, c[|c| - 1], numPages, e), chains[i := c + [numPages]];
    forall k | 0 <= k < numBuckets
      ensures ChainOk(view', chains'[k], k, numBuckets, numPages + 1)
      ensures Placed(chains'[k], k, place[numPages := (i, |c|)])
    {
      if k == i {
        Low(view, c, i, numBuckets, numPages);
        LinkedOne(view, view', c, place, numBuckets, numPages, i, e);
      } else {
        LinkedOther(view, chains, place, numBuckets, numPages, i, e, k);
      }
    }
  }

  /** Linking a fresh page that holds one entry adds that entry. */
  lemma {:induction false} LinkedBag(
      view: Buckets, chains: Chains, place: Places, numBuckets: nat, numPages: nat, i: nat, e: Entry)
    requires ChainsOk(view, chains, place, numBuckets, numPages) && i < numBuckets
    requires numPages < 0x1_0000_0000 && EntryFits(e) && BucketOf(e.key, numBuckets) == i
    ensures var c := chains[i]; c[|c| - 1] in view
    ensures var c := chains[i];
      BagOfAll(Link(view, c[|c| - 1], numPages, e), chains[i := c + [numPages]]) == BagOfAll(view, chains) + multiset{e}
  {
    var c := chains[i];
    assert c[|c| - 1] in c;
    var view', chains' := Link(view, c[|c| - 1], numPages, e), chains[i := c + [numPages]];
    LinkedOthers(view, view', chains, place, numBuckets, numPages, i, e);
    Low(view, c, i, numBuckets, numPages);
    LinkedEntries(view, c, numPages, e);
    BagOfAllPut(view, view', chains, chains', i);
    BagCancel(
      BagOfAll(view', chains'), BagOfAll(view, chains), Bag(view, c), Bag(view', chains'[i]), multiset{}, multiset{e});
  }

  lemma {:induction false} LinkedOthers(
      view: Buckets, view': Buckets, chains: Chains, place: Places, numBuckets: nat, numPages: nat, i: nat, e: Entry)
    requires ChainsOk(view, chains, place, numBuckets, numPages) && i < numBuckets
    requires numPages < 0x1_0000_0000 && EntryFits(e) && BucketOf(e.key, numBuckets) == i
    requires var c := chains[i]; c[|c| - 1] in view && view' == Link(view, c[|c| - 1], numPages, e)
    ensures forall k :: 0 <= k < |chains| && k != i ==> Bag(view', chains[k]) == Bag(view, chains[k])
  {
    forall k | 0 <= k < |chains| && k != i ensures Bag(view', chains[k]) == Bag(view, chains[k]) {
      LinkedOther(view, chains, place, numBuckets, numPages, i, e, k);
    }
  }

  lemma {:induction false} LinkedOther(
      view: Buckets, chains: Chains, place: Places, numBuckets: nat, numPages: nat, i: nat, e: Entry, k: nat)
    requires ChainsOk(view, chains, place, numBuckets, numPages) && i < numBuckets && k < numBuckets && k != i
    ensures var c := chains[i]; c[|c| - 1] in view
    ensures var c := chains[i]; var view' := Link(view, c[|c| - 1], numPages, e);
      && ChainOk(view', chains[k], k, numBuckets, numPages + 1) && Bag(view', chains[k]) == Bag(view, chains[k])
      && Placed(chains[k], k, place[numPages := (i, |c|)])
  {
    var c := chains[i];
    assert c[|c| - 1] in c;
    Apart(chains, place, i, |c| - 1, k);
    Low(view, chains[k], k, numBuckets, numPages);
    ChainFrame(view, Link(view, c[|c| - 1], numPages, e), chains[k], k, numBuckets, numPages, numPages + 1);
  }

  lemma {:induction false} Low(view: Buckets, chain: seq<nat>, i: nat, numBuckets: nat, numPages: nat)
    requires numBuckets >= 1 && ChainOk(view, chain, i, numBuckets, numPages)
    ensures numPages !in chain
  {
    forall p | p in chain ensures p < numPages {
      assert PageOk(view, p, i, numBuckets, numPages);
    }
  }

  lemma {:induction false} LinkedOne(
      view: Buckets, view': Buckets, c: seq<nat>, place: Places, numBuckets: nat, numPages: nat, i: nat, e: Entry)
    requires numBuckets >= 1 && ChainOk(view, c, i, numBuckets, numPages) && Placed(c, i, place) && numPages !in c
    requires numPages < 0x1_0000_0000 && EntryFits(e) && BucketOf(e.key, numBuckets) == i
    requires c[|c| - 1] in view && view' == Link(view, c[|c| - 1], numPages, e)
    ensures ChainOk(view', c + [numPages], i, numBuckets, numPages + 1)
    ensures Placed(c + [numPages], i, place[numPages := (i, |c|)])
    ensures Bag(view', c + [numPages]) == Bag(view, c) + multiset{e}
  {
    LinkedPages(view, c, numBuckets, numPages, i, e);
    LinkedNexts(view, view', c, c + [numPages], place, i, numPages, e);
    LinkedPlaced(c, place, i, numPages);
    LinkedEntries(view, c, numPages, e);
  }

  lemma {:induction false} LinkedPages(view: Buckets, c: seq<nat>, numBuckets: nat, numPages: nat, i: nat, e: Entry)
    requires numBuckets >= 1 && ChainOk(view, c, i, numBuckets, numPages) && numPages !in c
    requires numPages < 0x1_0000_0000 && EntryFits(e) && BucketOf(e.key, numBuckets) == i && c[|c| - 1] in view
    ensures forall p :: p in c + [numPages] ==>
      PageOk(Link(view, c[|c| - 1], numPages, e), p, i, numBuckets, numPages + 1)
  {
    forall p | p in c + [numPages] ensures PageOk(Link(view, c[|c| - 1], numPages, e), p, i, numBuckets, numPages + 1) {
      assert PageOk(view, c[0], i, numBuckets, numPages);
      if p != numPages {
        assert PageOk(view, p, i, numBuckets, numPages);
        LinkedPage(view, c[|c| - 1], numPages, e, p, i, numBuckets);
      }
    }
  }

  lemma {:induction false} LinkedEntries(view: Buckets, c: seq<nat>, n: nat, e: Entry)
    requires c != [] && n !in c && c[|c| - 1] in view
    ensures Bag(Link(view, c[|c| - 1], n, e), c + [n]) == Bag(view, c) + multiset{e}
  {
    var view' := Link(view, c[|c| - 1], n, e);
    BagAppend(view', c, [n]);
    BagFrame(view, view', c);
    BagOne(view', n);
  }

  lemma {:induction false} BagOne(view: Buckets, p: nat)
    ensures Bag(view, [p]) == multiset(EntriesOn(view, p))
  {
    assert Bag(view, [p]) == multiset(EntriesOn(view, p)) + Bag(view, []);
  }

  lemma {:induction false} LinkedPage(
      view: Buckets, last: nat, n: nat, e: Entry, p: nat, i: nat, numBuckets: nat)
    requires numBuckets >= 1 && PageOk(view, p, i, numBuckets, n) && last in view && n < 0x1_0000_0000
    ensures PageOk(Link(view, last, n, e), p, i, numBuckets, n + 1)
  {
    assert Link(view, last, n, e)[p].entries == view[p].entries;
  }

  lemma {:induction false} LinkedPlaced(c: seq<nat>, place: Places, i: nat, n: nat)
    requires Placed(c, i, place) && n !in c
    ensures Placed(c + [n], i, place[n := (i, |c|)])
  {
    assert forall j :: 0 <= j < |c| ==> c[j] in c;
  }

  lemma {:induction false} LinkedNexts(
      view: Buckets, view': Buckets, c: seq<nat>, c': seq<nat>, place: Places, i: nat, n: nat, e: Entry)
    requires c != [] && n !in c && Placed(c, i, place) && c[|c| - 1] in view
    requires view' == Link(view, c[|c| - 1], n, e) && c' == c + [n]
    requires forall j :: 0 <= j < |c| ==> LinkOk(view, c, j)
    ensures forall j :: 0 <= j < |c'| ==> LinkOk(view', c', j)
  {
    forall j | 0 <= j < |c'| ensures LinkOk(view', c', j) {
      LinkedNext(view, c, n, e, j);
    }
  }

  lemma {:induction false} LinkedNext(view: Buckets, c: seq<nat>, n: nat, e: Entry, j: nat)
    requires c != [] && n !in c && (forall k, l :: 0 <= k < l < |c| ==> c[k] != c[l])
    requires c[|c| - 1] in view && j <= |c| && (j < |c| ==> LinkOk(view, c, j))
    ensures LinkOk(Link(view, c[|c| - 1], n, e), c + [n], j)
  {
    if j < |c| { assert c[j] in c; }
  }

  // -- walking a chain -------------------------------------------------------------

  lemma {:induction false} MatchesCount(es: seq<Entry>, key: int, rid: RowId)
    ensures multiset(Matches(es, key))[rid] == multiset(es)[Entry(key, rid)]
  {
    if es != [] {
      assert es == [es[0]] + es[1..];
      MatchesCount(es[1..], key, rid);
    }
  }

  lemma {:induction false} BagNext(view: Buckets, chain: seq<nat>, j: nat)
    requires j < |chain|
    ensures Bag(view, chain[..j + 1]) == Bag(view, chain[..j]) + multiset(EntriesOn(view, chain[j]))
  {
    assert chain[..j + 1] == chain[..j] + [chain[j]];
    BagAppend(view, chain[..j], [chain[j]]);
    BagOne(view, chain[j]);
  }
}
