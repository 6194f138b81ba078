/** Fields and index entries inside the bytes of one page, written and read at a position the
    way Python's `struct.pack_into` and `unpack_from` do it. */
module PageBytes {
  import opened Bytes
  import opened BTreeShape

  /** The bytes with `b` written over those from `at` on. */
  function PutAt(d: Data, at: nat, b: Data): (r: Data)
    requires at + |b| <= |d|
    ensures |r| == |d|
  {
    d[..at] + b + d[at + |b|..]
  }

  /** A slice of what follows a position. */
  lemma {:induction false} SliceAfter(d: Data, at: nat, lo: nat, hi: nat)
    requires lo <= hi && at + hi <= |d|
    ensures d[at..][lo..hi] == d[at + lo..at + hi]
  {
  }

  /** A write changes the bytes it covers and no others. */
  lemma {:induction false} PutAtReads(d: Data, at: nat, b: Data, lo: nat, hi: nat)
    requires at + |b| <= |d| && lo <= hi <= |d|
    ensures hi <= at || at + |b| <= lo ==> PutAt(d, at, b)[lo..hi] == d[lo..hi]
    ensures lo == at && hi == at + |b| ==> PutAt(d, at, b)[lo..hi] == b
  {
    var r := PutAt(d, at, b);
    assert forall k :: 0 <= k < |d| ==> r[k] == if at <= k < at + |b| then b[k - at] else d[k];
    if hi <= at || at + |b| <= lo {
      assert r[lo..hi] == d[lo..hi];
    }
    if lo == at && hi == at + |b| {
      assert r[lo..hi] == b;
    }
  }

  lemma {:induction false} PutAtTwice(d: Data, at: nat, a: Data, b: Data)
    requires at + |a| + |b| <= |d|
    ensures PutAt(PutAt(d, at, a), at + |a|, b) == PutAt(d, at, a + b)
  {
  }

  lemma {:induction false} PutAtZeros(b: Data)
    requires |b| <= PAGE_SIZE
    ensures PutAt(Zeros(PAGE_SIZE), 0, b) == b + Zeros(PAGE_SIZE - |b|)
  {
  }

  /** `pack_into` on a page buffer. */
  method PackInto(buf: array<byte>, at: nat, b: Data)
    requires at + |b| <= buf.Length
    modifies buf
    ensures buf[..] == PutAt(old(buf[..]), at, b)
  {
    forall i | 0 <= i < |b| {
      buf[at + i] := b[i];
    }
  }

  // -- index entries -----------------------------------------------------------

  const ENTRY_SIZE := 16

  /** The entry's three numbers fit `struct` code qII. */
  predicate EntryFits(e: Entry) {
    IsInt64(e.key) && e.rid.page < 0x1_0000_0000 && e.rid.slot < 0x1_0000_0000
  }

  function PackEntry(e: Entry): (b: Data)
    requires EntryFits(e)
    ensures |b| == ENTRY_SIZE
  {
    PackSigned(e.key) + Pack(e.rid.page, 4) + Pack(e.rid.slot, 4)
  }

  function UnpackEntry(b: Data): Entry
    requires |b| == ENTRY_SIZE
  {
    Entry(UnpackSigned(b[..8]), RowId(Unpack(b[8..12]), Unpack(b[12..16])))
  }

  lemma {:induction false} UnpackPackEntry(e: Entry)
    requires EntryFits(e)
    ensures UnpackEntry(PackEntry(e)) == e
  {
    var b := PackEntry(e);
    assert b[..8] == PackSigned(e.key) && b[8..12] == Pack(e.rid.page, 4) && b[12..16] == Pack(e.rid.slot, 4);
    UnpackPackSigned(e.key);
    UnpackPack32(e.rid.page);
    UnpackPack32(e.rid.slot);
  }

  predicate EntriesFit(es: seq<Entry>) {
    forall e :: e in es ==> EntryFits(e)
  }

  function PackEntries(es: seq<Entry>): (b: Data)
    requires EntriesFit(es)
    ensures |b| == ENTRY_SIZE * |es|
  {
    if es == [] then [] else PackEntry(es[0]) + PackEntries(es[1..])
  }

  /** The n entries packed from the start of b. */
  function UnpackEntries(b: Data, n: nat): (es: seq<Entry>)
    requires ENTRY_SIZE * n <= |b|
    ensures |es| == n
    decreases n
  {
    if n == 0 then [] else [UnpackEntry(b[..ENTRY_SIZE])] + UnpackEntries(b[ENTRY_SIZE..], n - 1)
  }

  lemma {:induction false} UnpackPackEntries(es: seq<Entry>, rest: Data)
    requires EntriesFit(es)
    ensures UnpackEntries(PackEntries(es) + rest, |es|) == es
    decreases es
  {
    if es != [] {
      var first, others := PackEntry(es[0]), PackEntries(es[1..]);
      UnpackPackEntry(es[0]);
      UnpackPackEntries(es[1..], rest);
      UnpackFirst(first, others + rest, |es| - 1);
      assert PackEntries(es) + rest == first + (others + rest);
    }
  }

  lemma {:induction false} UnpackFirst(first: Data, rest: Data, n: nat)
    requires |first| == ENTRY_SIZE && ENTRY_SIZE * n <= |rest|
    ensures UnpackEntries(first + rest, n + 1) == [UnpackEntry(first)] + UnpackEntries(rest, n)
  {
    assert (first + rest)[..ENTRY_SIZE] == first && (first + rest)[ENTRY_SIZE..] == rest;
  }

  lemma {:induction false} PackUnpackEntry(b: Data)
    requires |b| == ENTRY_SIZE
    ensures EntryFits(UnpackEntry(b)) && PackEntry(UnpackEntry(b)) == b
  {
    PackUnpackSigned(b[..8]);
    PackUnpack32(b[8..12]);
    PackUnpack32(b[12..16]);
  }

  /** Packing undoes unpacking. */
  lemma {:induction false} PackUnpackEntries(b: Data, n: nat)
    requires ENTRY_SIZE * n <= |b|
    ensures EntriesFit(UnpackEntries(b, n)) && PackEntries(UnpackEntries(b, n)) == b[..ENTRY_SIZE * n]
    decreases n
  {
    if n > 0 {
      var es := UnpackEntries(b, n);
      PackUnpackEntry(b[..ENTRY_SIZE]);
      PackUnpackEntries(b[ENTRY_SIZE..], n - 1);
      assert es[1..] == UnpackEntries(b[ENTRY_SIZE..], n - 1);
      assert b[..ENTRY_SIZE * n] == b[..ENTRY_SIZE] + b[ENTRY_SIZE..][..ENTRY_SIZE * (n - 1)];
    }
  }

  lemma {:induction false} PackEntriesAppend(es: seq<Entry>, e: Entry)
    requires EntriesFit(es + [e])
    ensures EntriesFit(es) && EntryFits(e)
    ensures PackEntries(es + [e]) == PackEntries(es) + PackEntry(e)
    decreases es
  {
    assert forall x :: x in es ==> x in es + [e];
    assert e in es + [e];
    if es == [] {
      assert PackEntries([e][1..]) == [];
    } else {
      assert (es + [e])[1..] == es[1..] + [e];
      PackEntriesAppend(es[1..], e);
    }
  }

  lemma {:induction false} UnpackEntriesAppend(b: Data, n: nat)
    requires ENTRY_SIZE * (n + 1) <= |b|
    ensures UnpackEntries(b, n + 1)
      == UnpackEntries(b, n) + [UnpackEntry(b[ENTRY_SIZE * n..ENTRY_SIZE * (n + 1)])]
    decreases n
  {
    if n > 0 {
      var c := b[ENTRY_SIZE..];
      UnpackEntriesAppend(c, n - 1);
      assert c[ENTRY_SIZE * (n - 1)..ENTRY_SIZE * n] == b[ENTRY_SIZE * n..ENTRY_SIZE * (n + 1)];
    }
  }

  /** The first i entries have been written into page d at `at`, which made it b. */
  ghost predicate Written(d: Data, b: Data, at: nat, es: seq<Entry>, i: nat) {
    && i <= |es| && EntriesFit(es[..i]) && at + ENTRY_SIZE * i <= |d|
    && b == PutAt(d, at, PackEntries(es[..i]))
  }

  lemma {:induction false} WrittenStep(d: Data, b: Data, at: nat, es: seq<Entry>, i: nat)
    requires Written(d, b, at, es, i) && i < |es| && EntryFits(es[i]) && at + ENTRY_SIZE * |es| <= |d|
    ensures Written(d, PutAt(b, at + ENTRY_SIZE * i, PackEntry(es[i])), at, es, i + 1)
  {
    assert es[..i + 1] == es[..i] + [es[i]];
    PackEntriesAppend(es[..i], es[i]);
    PutAtTwice(d, at, PackEntries(es[..i]), PackEntry(es[i]));
  }

  lemma {:induction false} WrittenAll(d: Data, at: nat, es: seq<Entry>)
    requires at <= |d|
    ensures Written(d, d, at, es, 0)
    ensures forall b :: Written(d, b, at, es, |es|) ==> b == PutAt(d, at, PackEntries(es))
  {
    assert d == PutAt(d, at, []);
    assert es[..|es|] == es;
  }

  /** The writing loop: the entries one after another from `at` on. */
  method WriteEntries(buf: array<byte>, at: nat, es: seq<Entry>)
    requires EntriesFit(es) && at + ENTRY_SIZE * |es| <= buf.Length
    modifies buf
    ensures buf[..] == PutAt(old(buf[..]), at, PackEntries(es))
  {
    ghost var before := buf[..];
    WrittenAll(before, at, es);
    var i := 0;
    while i < |es|
      invariant Written(before, buf[..], at, es, i)
    {
      WrittenStep(before, buf[..], at, es, i);
      PackInto(buf, at + ENTRY_SIZE * i, PackEntry(es[i]));
      i := i + 1;
    }
  }

  /** The reading loop. */
  method ReadEntries(raw: Data, at: nat, n: nat) returns (es: seq<Entry>)
    requires at + ENTRY_SIZE * n <= |raw|
    ensures es == UnpackEntries(raw[at..], n)
  {
    es := [];
    var pos := at;
    for i := 0 to n
      invariant pos == at + ENTRY_SIZE * i && es == UnpackEntries(raw[at..], i)
    {
      UnpackEntriesAppend(raw[at..], i);
      assert raw[at..][ENTRY_SIZE * i..ENTRY_SIZE * (i + 1)] == raw[pos..pos + ENTRY_SIZE];
      es := es + [UnpackEntry(raw[pos..pos + ENTRY_SIZE])];
      pos := pos + ENTRY_SIZE;
    }
  }
}
