/** The pager: page-0 header, free list and write-ahead page writes (queryx/storage/pager.py). */
module Pager {
  import opened Wrappers
  import opened Bytes
  import opened Wal
  import opened Crash
  import SlottedPage

  const VERSION := 1

  /** How many free-list entries fit in page 0. */
  const MAX_FREE := 1021

  /** The bytes of "QRYX". */
  const HEADER_MAGIC: Data := [81, 82, 89, 88]

  datatype HeaderError = TooShort | BadMagic | BadVersion | BadCount

  // -- page 0 ----------------------------------------------------------------

  predicate Fits(free: seq<nat>) {
    |free| <= MAX_FREE && forall i :: 0 <= i < |free| ==> free[i] < 0x1_0000_0000
  }

  function HeaderPage(free: seq<nat>): (b: Data)
    requires |free| <= MAX_FREE
    ensures |b| == PAGE_SIZE
  {
    HEADER_MAGIC + Pack(VERSION, 2) + Pack(|free|, 4) + PackList(free) + Zeros(PAGE_SIZE - 10 - 4 * |free|)
  }

  function LoadHeader(data: Data): Result<seq<nat>, HeaderError> {
    if |data| < 10 then Err(TooShort)
    else if data[..4] != HEADER_MAGIC then Err(BadMagic)
    else if Unpack(data[4..6]) != VERSION then Err(BadVersion)
    else
      var count := Unpack(data[6..10]);
      if 10 + 4 * count > |data| then Err(BadCount) else Ok(UnpackList(data[10..], count))
  }

  /** Loading page 0 gives back the free list that was written there, in order. */
  lemma {:induction false} HeaderRoundTrip(free: seq<nat>)
    requires Fits(free)
    ensures LoadHeader(HeaderPage(free)) == Ok(free)
  {
    var b := HeaderPage(free);
    var rest := Zeros(PAGE_SIZE - 10 - 4 * |free|);
    assert b[..4] == HEADER_MAGIC;
    assert b[4..6] == Pack(VERSION, 2);
    assert b[6..10] == Pack(|free|, 4);
    assert b[10..] == PackList(free) + rest;
    UnpackPack16(VERSION);
    UnpackPack32(|free|);
    UnpackPackList(free, rest);
  }

  /** The data starts with a header of this version that lists these pages. */
  predicate Heads(data: Data, free: seq<nat>) {
    && (forall i :: 0 <= i < |free| ==> free[i] < 0x1_0000_0000) && |free| < 0x1_0000_0000
    && HEADER_MAGIC + Pack(VERSION, 2) + Pack(|free|, 4) + PackList(free) <= data
  }

  /** Whatever page 0 holds, a free list is loaded from it exactly if a whole header with that list
      stands at its front. */
  lemma {:induction false} HeaderIff(data: Data, free: seq<nat>)
    ensures LoadHeader(data) == Ok(free) <==> Heads(data, free)
  {
    if LoadHeader(data) == Ok(free) { HeaderStands(data); }
    if Heads(data, free) { HeaderLoads(data, free); }
  }

  lemma {:induction false} HeaderStands(data: Data)
    requires LoadHeader(data).Ok?
    ensures Heads(data, LoadHeader(data).value)
  {
    var n := Unpack(data[6..10]);
    UnpackPack16(VERSION);
    PackUnpack16(data[4..6]);
    PackUnpack32(data[6..10]);
    PackUnpackList(data[10..], n);
    FrontOfFour(data, 4 * n);
  }

  lemma {:induction false} FrontOfFour(data: Data, n: nat)
    requires 10 + n <= |data|
    ensures data[..4] + data[4..6] + data[6..10] + data[10..][..n] <= data
  {
  }

  lemma {:induction false} HeaderLoads(data: Data, free: seq<nat>)
    requires Heads(data, free)
    ensures LoadHeader(data) == Ok(free)
  {
    var h := HEADER_MAGIC + Pack(VERSION, 2) + Pack(|free|, 4);
    var rest := data[10 + 4 * |free|..];
    assert data == h + PackList(free) + rest;
    assert data[..4] == h[..4] && data[4..6] == h[4..6] == Pack(VERSION, 2);
    assert data[6..10] == h[6..10] == Pack(|free|, 4);
    assert data[10..] == PackList(free) + rest;
    UnpackPack16(VERSION);
    UnpackPack32(|free|);
    UnpackPackList(free, rest);
  }

  // -- allocation ------------------------------------------------------------

  /** Pages 0, ..., numPages - 1 are there. */
  predicate Contiguous(disk: Disk, numPages: nat) {
    (forall p :: p in disk ==> p < numPages) && (forall p :: 0 <= p < numPages ==> p in disk)
  }

  predicate ListOk(free: seq<nat>, numPages: nat) {
    && |free| <= MAX_FREE
    && (forall i :: 0 <= i < |free| ==> 1 <= free[i] < numPages)
    && (forall i, j :: 0 <= i < j < |free| ==> free[i] != free[j])
  }

  datatype PageOp = Allocate | Free(page: nat) | WritePage(page: nat, data: Data)

  /** The pager between operations: its file, its free list, and the pages it has handed out and
      not been given back. The pager does not keep `out`. */
  datatype Files = Files(disk: Disk, numPages: nat, free: seq<nat>, out: set<nat>)

  predicate FilesOk(f: Files) {
    && Contiguous(f.disk, f.numPages) && 1 <= f.numPages <= 0x1_0000_0000
    && ListOk(f.free, f.numPages)
    && f.disk[0] == HeaderPage(f.free)
    && (forall p :: p in f.out ==> 1 <= p < f.numPages && p !in f.free)
  }

  /** What the operation demands of its caller, and what the page format does: 32-bit page numbers. */
  predicate Allowed(f: Files, op: PageOp) {
    match op
    case Allocate => f.free == [] ==> f.numPages < 0x1_0000_0000
    case Free(p) => 1 <= p < f.numPages && (p in f.free || |f.free| < MAX_FREE)
    case WritePage(p, d) => 1 <= p < f.numPages && |d| == PAGE_SIZE
  }

  /** The page writes an operation makes, in order. */
  function Writes(f: Files, op: PageOp): seq<Rec>
    requires FilesOk(f) && Allowed(f, op)
  {
    match op
    case Allocate =>
      if f.free == [] then [Rec(f.numPages, SlottedPage.EmptyPage())]
      else [Rec(f.free[|f.free| - 1], SlottedPage.EmptyPage()), Rec(0, HeaderPage(f.free[..|f.free| - 1]))]
    case Free(p) => if p in f.free then [] else [Rec(0, HeaderPage(f.free + [p]))]
    case WritePage(p, d) => [Rec(p, d)]
  }

  /** The state when an operation returns. */
  function Done(f: Files, op: PageOp): Files
    requires FilesOk(f) && Allowed(f, op)
  {
    var disk := f.disk + Images(Writes(f, op));
    match op
    case Allocate =>
      if f.free == [] then Files(disk, f.numPages + 1, f.free, f.out + {f.numPages})
      else Files(disk, f.numPages, f.free[..|f.free| - 1], f.out + {f.free[|f.free| - 1]})
    case Free(p) => Files(disk, f.numPages, if p in f.free then f.free else f.free + [p], f.out - {p})
    case WritePage(p, d) => f.(disk := disk)
  }

  /** The state a fresh pager loads when the file holds the first n page writes of an operation
      that never returned; a page being given back counts as given back. */
  function Reloaded(f: Files, op: PageOp, n: nat): Files
    requires FilesOk(f) && Allowed(f, op) && n <= |Writes(f, op)|
  {
    var disk := f.disk + Images(Writes(f, op)[..n]);
    var free := match LoadHeader(disk[0]) case Ok(l) => l case Err(_) => [];
    Files(disk, if op.Allocate? && f.free == [] && n > 0 then f.numPages + 1 else f.numPages, free,
          if op.Free? then f.out - {op.page} else f.out)
  }

  lemma {:induction false} ImagesOne(r: Rec)
    ensures Images([r]) == map[r.page := r.data]
  {
  }

  lemma {:induction false} ImagesTwo(a: Rec, b: Rec)
    ensures Images([a, b]) == map[a.page := a.data][b.page := b.data]
  {
    ImagesOne(a);
    ImagesAppend([a], b);
    assert [a] + [b] == [a, b];
  }

  /** The page writes of an operation, as far as the first n of them, one by one. */
  lemma {:induction false} WritesSoFar(f: Files, op: PageOp, n: nat)
    requires FilesOk(f) && Allowed(f, op) && n <= |Writes(f, op)|
    ensures var ws := Writes(f, op);
      Images(ws[..n]) ==
        if n == 0 then map[]
        else if n == 1 then map[ws[0].page := ws[0].data]
        else map[ws[0].page := ws[0].data][ws[1].page := ws[1].data]
  {
    var ws := Writes(f, op);
    if n == 0 { assert ws[..0] == []; }
    if n == 1 { assert ws[..1] == [ws[0]]; ImagesOne(ws[0]); }
    if n == 2 { assert ws[..2] == [ws[0], ws[1]]; ImagesTwo(ws[0], ws[1]); }
  }

  /** Every operation keeps the free list duplicate-free, within the file and apart from the pages
      in use, and page 0 always holds it. */
  lemma {:induction false} DoneOk(f: Files, op: PageOp)
    requires FilesOk(f) && Allowed(f, op)
    ensures FilesOk(Done(f, op))
  {
    match op
    case Allocate => AllocateOk(f);
    case Free(p) => FreeOk(f, p);
    case WritePage(p, d) => ImagesOne(Rec(p, d));
  }

  lemma {:induction false} AllocateOk(f: Files)
    requires FilesOk(f) && Allowed(f, Allocate)
    ensures FilesOk(Done(f, Allocate))
  {
    if f.free == [] {
      ImagesOne(Rec(f.numPages, SlottedPage.EmptyPage()));
    } else {
      AllocateFreed(f);
      LastFree(f.free, f.numPages);
    }
  }

  lemma {:induction false} FreeOk(f: Files, p: nat)
    requires FilesOk(f) && Allowed(f, Free(p))
    ensures FilesOk(Done(f, Free(p)))
  {
    if p in f.free {
      assert f.disk + Images([]) == f.disk;
    } else {
      ImagesOne(Rec(0, HeaderPage(f.free + [p])));
      FreedOk(f.free, f.numPages, p);
    }
  }

  lemma {:induction false} FreedOk(free: seq<nat>, numPages: nat, p: nat)
    requires ListOk(free, numPages) && p !in free && 1 <= p < numPages && |free| < MAX_FREE
    ensures ListOk(free + [p], numPages)
  {
    assert forall i :: 0 <= i < |free| ==> free[i] in free;
  }

  /** Page 0 holds the old free list until the operation's last page write, and then the new one. */
  lemma {:induction false} ReloadedList(f: Files, op: PageOp, n: nat)
    requires FilesOk(f) && Allowed(f, op) && n <= |Writes(f, op)|
    ensures 0 in Reloaded(f, op, n).disk
    ensures Reloaded(f, op, n).free == if n == |Writes(f, op)| then Done(f, op).free else f.free
    ensures Reloaded(f, op, n).disk[0] == HeaderPage(Reloaded(f, op, n).free)
  {
    HeaderRoundTrip(f.free);
    var ws := Writes(f, op);
    if n == |ws| {
      assert ws[..n] == ws;
      DoneOk(f, op);
      HeaderRoundTrip(Done(f, op).free);
    } else {
      WritesSoFar(f, op, n);
      assert n == 0 || ws[0].page != 0;
    }
  }

  /** A crash after any number of an operation's page writes loads a free list that never holds a
      page still in use. */
  lemma {:induction false} ReloadedOk(f: Files, op: PageOp, n: nat)
    requires FilesOk(f) && Allowed(f, op) && n <= |Writes(f, op)|
    ensures FilesOk(Reloaded(f, op, n))
    ensures Reloaded(f, op, n).free == f.free || Reloaded(f, op, n).free == Done(f, op).free
  {
    ReloadedList(f, op, n);
    var ws := Writes(f, op);
    if n == |ws| {
      assert ws[..n] == ws;
      DoneOk(f, op);
    } else if n == 0 {
      ReloadedNone(f, op);
    } else {
      ReloadedHalf(f);
    }
  }

  /** None of its page writes made it to the file. */
  lemma {:induction false} ReloadedNone(f: Files, op: PageOp)
    requires FilesOk(f) && Allowed(f, op) && Writes(f, op) != []
    ensures FilesOk(Reloaded(f, op, 0))
  {
    HeaderRoundTrip(f.free);
    WritesSoFar(f, op, 0);
    assert f.disk + map[] == f.disk;
  }

  /** The page taken from the list was emptied, and the list still holds it. */
  lemma {:induction false} ReloadedHalf(f: Files)
    requires FilesOk(f) && f.free != []
    ensures FilesOk(Reloaded(f, Allocate, 1))
  {
    HeaderRoundTrip(f.free);
    WritesSoFar(f, Allocate, 1);
    LastFree(f.free, f.numPages);
  }

  // -- the pager itself ------------------------------------------------------

  datatype Outcome = Success | PageZero | NoSuchPage | FreeListFull

  lemma {:induction false} PersistSteps(disk: Disk, log: Data, p: nat, d: Data, crc: Checksum)
    requires Loggable(Rec(p, d))
    ensures var log' := log + Encode(Rec(p, d), crc);
      Steps(State(disk, log, Up, disk), [Append(p, d)] + [Write] + [MaybeCheckpoint], crc)
        == State(disk[p := d], if |log'| >= CHECKPOINT_BYTES then [] else log', Up, disk[p := d])
  {
    var s := State(disk, log, Up, disk);
    StepsLast(s, [], Append(p, d), crc);
    assert [] + [Append(p, d)] == [Append(p, d)];
    StepsLast(s, [Append(p, d)], Write, crc);
    StepsLast(s, [Append(p, d)] + [Write], MaybeCheckpoint, crc);
  }

  /** Allocation spelled out, when no page is free and when some are. */
  lemma {:induction false} AllocateIs(f: Files)
    requires FilesOk(f) && Allowed(f, Allocate)
    ensures f.free == [] ==>
      Done(f, Allocate)
      == Files(f.disk[f.numPages := SlottedPage.EmptyPage()], f.numPages + 1, [], f.out + {f.numPages})
    ensures f.free != [] ==>
      var p, rest := f.free[|f.free| - 1], f.free[..|f.free| - 1];
      && Done(f, Allocate)
         == Files(f.disk[p := SlottedPage.EmptyPage()][0 := HeaderPage(rest)], f.numPages, rest, f.out + {p})
      && 1 <= p < f.numPages && p !in rest
  {
    if f.free == [] {
      ImagesOne(Rec(f.numPages, SlottedPage.EmptyPage()));
    } else {
      AllocateFreed(f);
    }
  }

  /** Page p was handed out: the last freed one, or else one past the end; no other page in use changed. */
  predicate Taken(f: Files, g: Files, p: nat) {
    && (if f.free == [] then p == f.numPages && g.numPages == p + 1 && g.free == []
        else p == f.free[|f.free| - 1] && g.numPages == f.numPages && g.free == f.free[..|f.free| - 1])
    && g.out == f.out + {p} && SameBut(f.disk, g.disk, p)
  }

  /** Page p was given back: it is the next one to hand out, unless it was in the list before; no other page
      changed. */
  predicate GivenBack(f: Files, g: Files, p: nat) {
    && g.free == (if p in f.free then f.free else f.free + [p]) && g.numPages == f.numPages
    && g.out == f.out - {p} && SameBut(f.disk, g.disk, 0)
  }

  predicate SameBut(disk: Disk, now: Disk, p: nat) {
    forall q :: q in disk && q != p && q != 0 ==> q in now && now[q] == disk[q]
  }

  lemma {:induction false} AllocateTakes(f: Files) returns (p: nat)
    requires FilesOk(f) && Allowed(f, Allocate)
    ensures Taken(f, Done(f, Allocate), p)
  {
    AllocateIs(f);
    p := if f.free == [] then f.numPages else f.free[|f.free| - 1];
  }

  lemma {:induction false} FreeGives(f: Files, p: nat)
    requires FilesOk(f) && Allowed(f, Free(p))
    ensures GivenBack(f, Done(f, Free(p)), p)
  {
    if p !in f.free { ImagesOne(Rec(0, HeaderPage(f.free + [p]))); }
  }

  /** Every page behind page 0 is in use or free. */
  predicate Accounted(f: Files) {
    forall p :: 1 <= p < f.numPages ==> p in f.out || p in f.free
  }

  /** No operation loses a page. */
  lemma {:induction false} DoneAccounted(f: Files, op: PageOp)
    requires FilesOk(f) && Allowed(f, op) && Accounted(f)
    ensures Accounted(Done(f, op))
  {
    match op
    case Allocate =>
      var p := AllocateTakes(f);
      TakenAccounted(f, Done(f, op), p);
    case Free(p) =>
      FreeGives(f, p);
      GivenAccounted(f, Done(f, op), p);
    case WritePage(_, _) =>
  }

  lemma {:induction false} TakenAccounted(f: Files, g: Files, p: nat)
    requires Taken(f, g, p) && Accounted(f)
    ensures Accounted(g)
  {
    if f.free != [] { assert f.free == g.free + [p]; }
  }

  lemma {:induction false} GivenAccounted(f: Files, g: Files, p: nat)
    requires GivenBack(f, g, p) && Accounted(f)
    ensures Accounted(g)
  {
  }

  lemma {:induction false} AllocateFreed(f: Files)
    requires FilesOk(f) && f.free != []
    ensures var p, rest := f.free[|f.free| - 1], f.free[..|f.free| - 1];
      && Done(f, Allocate)
         == Files(f.disk[p := SlottedPage.EmptyPage()][0 := HeaderPage(rest)], f.numPages, rest, f.out + {p})
      && 1 <= p < f.numPages && p !in rest
  {
    var p, rest := f.free[|f.free| - 1], f.free[..|f.free| - 1];
    DiskTwo(f.disk, Rec(p, SlottedPage.EmptyPage()), Rec(0, HeaderPage(rest)));
    LastFree(f.free, f.numPages);
  }

  lemma {:induction false} DiskTwo(disk: Disk, a: Rec, b: Rec)
    ensures disk + Images([a, b]) == disk[a.page := a.data][b.page := b.data]
  {
    ImagesTwo(a, b);
  }

  lemma {:induction false} LastFree(free: seq<nat>, numPages: nat)
    requires ListOk(free, numPages) && free != []
    ensures var p := free[|free| - 1];
      1 <= p < numPages && p !in free[..|free| - 1] && ListOk(free[..|free| - 1], numPages)
  {
  }

  /** How many pages the file has once these records have been written into one of n pages. */
  function Extended(rs: seq<Rec>, n: nat): (m: nat)
    ensures n <= m
  {
    if rs == [] then n else Extended(rs[1..], if rs[0].page < n then n else rs[0].page + 1)
  }

  lemma {:induction false} ExtendedNext(rs: seq<Rec>, k: nat, n: nat)
    requires k < |rs|
    ensures Extended(rs[k..], n) == Extended(rs[k + 1..], if rs[k].page < n then n else rs[k].page + 1)
  {
    assert rs[k..][0] == rs[k] && rs[k..][1..] == rs[k + 1..];
  }

  /** With the records from k on still to be written, disk and length are on their way. */
  predicate Replaying(start: Disk, n: nat, rs: seq<Rec>, disk: Disk, m: nat, k: nat) {
    k <= |rs| && disk + Images(rs[k..]) == start + Images(rs) && Extended(rs[k..], m) == Extended(rs, n)
  }

  lemma {:induction false} ReplayEnds(start: Disk, n: nat, rs: seq<Rec>)
    ensures Replaying(start, n, rs, start, n, 0)
    ensures forall disk, m :: Replaying(start, n, rs, disk, m, |rs|) ==>
      disk == start + Images(rs) && m == Extended(rs, n)
  {
    assert rs[0..] == rs && rs[|rs|..] == [];
  }

  lemma {:induction false} ReplayStep(start: Disk, n: nat, rs: seq<Rec>, disk: Disk, m: nat, k: nat)
    requires Replaying(start, n, rs, disk, m, k) && k < |rs|
    ensures Replaying(start, n, rs, disk[rs[k].page := rs[k].data], if rs[k].page < m then m else rs[k].page + 1, k + 1)
  {
    ImagesStep(disk, rs, k);
    ExtendedNext(rs, k, m);
  }

  /** Every page of the longer file was there or is a record's, and its last one is there. */
  lemma {:induction false} ExtendedCovers(disk: Disk, rs: seq<Rec>, n: nat)
    requires (forall p :: p in disk ==> p < n) && (n > 0 ==> n - 1 in disk)
    ensures forall p :: p in disk + Images(rs) ==> p < Extended(rs, n)
    ensures Extended(rs, n) > 0 ==> Extended(rs, n) - 1 in disk + Images(rs)
    decreases rs
  {
    if rs != [] {
      var next := disk[rs[0].page := rs[0].data];
      ExtendedCovers(next, rs[1..], if rs[0].page < n then n else rs[0].page + 1);
      assert disk + Images(rs) == next + Images(rs[1..]);
    }
  }

  /** The file's length tells how many pages a contiguous file has. */
  lemma {:induction false} ExtendedIs(disk: Disk, rs: seq<Rec>, n: nat, m: nat)
    requires Contiguous(disk, n) && Contiguous(disk + Images(rs), m)
    ensures Extended(rs, n) == m
  {
    ExtendedCovers(disk, rs, n);
    assert m > 0 ==> m - 1 in disk + Images(rs);
  }

  /** A recovered file is the one it was when its pages, its list and the pages in use are. */
  lemma {:induction false} RecoveredFiles(disk: Disk, rs: seq<Rec>, n: nat, f: Files)
    requires Contiguous(disk, n) && FilesOk(f) && f.disk == disk + Images(rs)
    ensures Extended(rs, n) == f.numPages && LoadHeader(f.disk[0]) == Ok(f.free)
  {
    ExtendedIs(disk, rs, n, f.numPages);
    HeaderRoundTrip(f.free);
  }

  class Pager {
    var disk: Disk
    var numPages: nat
    var freeList: seq<nat>
    const wal: WriteAheadLog
    ghost var out: set<nat>

    ghost function View(): Files
      reads this
    {
      Files(disk, numPages, freeList, out)
    }

    ghost predicate Valid()
      reads this
    {
      FilesOk(View())
    }

    /** Take over a data file and its log as some earlier run left them, and `out`, the pages that
        run had handed out. */
    constructor (disk: Disk, numPages: nat, wal: WriteAheadLog, ghost out: set<nat>)
      requires Contiguous(disk, numPages)
      ensures this.disk == disk && this.numPages == numPages && this.wal == wal && freeList == [] && this.out == out
    {
      this.disk := disk;
      this.numPages := numPages;
      this.freeList := [];
      this.wal := wal;
      this.out := out;
    }

    method WriteAt(p: nat, data: Data)
      modifies `disk, `numPages
      ensures disk == old(disk)[p := data]
      ensures numPages == if p < old(numPages) then old(numPages) else p + 1
    {
      disk := disk[p := data];
      if numPages <= p {
        numPages := p + 1;
      }
    }

    /** Reapply every intact record of the log; how many there were. */
    method Replay() returns (count: nat)
      modifies `disk, `numPages
      ensures count == |Parse(wal.file, wal.crc)|
      ensures disk == old(disk) + Images(Parse(wal.file, wal.crc))
      ensures numPages == Extended(Parse(wal.file, wal.crc), old(numPages))
    {
      var records := wal.Records();
      count := 0;
      ghost var start, n := disk, numPages;
      ReplayEnds(disk, numPages, records);
      while count < |records|
        invariant Replaying(start, n, records, disk, numPages, count)
      {
        ReplayStep(start, n, records, disk, numPages, count);
        WriteAt(records[count].page, records[count].data);
        count := count + 1;
      }
    }

    /** Recovery on open: what an undisturbed reopening does in the crash model. */
    method Recover()
      modifies `disk, `numPages, wal
      ensures var records := Parse(old(wal.file), wal.crc);
        && disk == old(disk) + Images(records)
        && numPages == Extended(records, old(numPages))
        && wal.file == if records == [] then old(wal.file) else []
      ensures forall tail: Data, committed: Disk ::
        Inv(State(old(disk), old(wal.file), Down, committed), Parse(old(wal.file), wal.crc), tail, wal.crc) ==>
        State(disk, wal.file, Up, committed)
          == Steps(State(old(disk), old(wal.file), Down, committed), Reopen(|Parse(old(wal.file), wal.crc)|), wal.crc)
    {
      var replayed := Replay();
      if replayed > 0 {
        wal.Checkpoint();
      }
      ghost var rs := Parse(old(wal.file), wal.crc);
      forall tail: Data, committed: Disk
        | Inv(State(old(disk), old(wal.file), Down, committed), rs, tail, wal.crc)
        ensures State(disk, wal.file, Up, committed)
             == Steps(State(old(disk), old(wal.file), Down, committed), Reopen(|rs|), wal.crc)
      {
        ReopenRestores(State(old(disk), old(wal.file), Down, committed), rs, tail, wal.crc);
      }
    }

    /** Read the free list from page 0. A page that was never written reads as zeros. */
    method LoadFreeList() returns (r: Result<seq<nat>, HeaderError>)
      modifies `freeList
      ensures r == LoadHeader(if 0 in disk then disk[0] else Zeros(PAGE_SIZE))
      ensures freeList == if r.Ok? then r.value else old(freeList)
    {
      r := LoadHeader(if 0 in disk then disk[0] else Zeros(PAGE_SIZE));
      if r.Ok? {
        freeList := r.value;
      }
    }

    /** Opening the file: recover, then load the free list from page 0, or write page 0 if there is
        no file yet. A new file is valid; and a file that recovery brings back to what some run left
        is opened as exactly that, with its length, its list and the pages in use. */
    method Open() returns (r: Result<seq<nat>, HeaderError>, created: bool)
      requires freeList == [] && Contiguous(disk, numPages)
      modifies this, wal
      ensures out == old(out)
      ensures var records := Parse(old(wal.file), wal.crc);
        var recovered := old(disk) + Images(records);
        && created == (Extended(records, old(numPages)) == 0)
        && (created ==> r == Ok([]) && freeList == [] && disk == map[0 := HeaderPage([])] && numPages == 1)
        && (!created ==> disk == recovered && numPages == Extended(records, old(numPages)))
        && (!created ==> r == LoadHeader(if 0 in disk then disk[0] else Zeros(PAGE_SIZE)))
        && (!created ==> freeList == if r.Ok? then r.value else [])
      ensures created && out == {} ==> Valid()
      ensures forall f: Files ::
        (FilesOk(f) && f.out == old(out) && f.disk == old(disk) + Images(Parse(old(wal.file), wal.crc)))
        ==> View() == f && Valid()
    {
      ghost var start, n, rs := disk, numPages, Parse(wal.file, wal.crc);
      ExtendedCovers(disk, rs, numPages);
      Recover();
      created := numPages == 0;
      if created {
        assert disk == map[];
        PersistPage(0, HeaderPage([]));
        r := Ok([]);
      } else {
        r := LoadFreeList();
      }
      forall f: Files | FilesOk(f) && f.out == out && f.disk == start + Images(rs) ensures View() == f && Valid() {
        RecoveredFiles(start, rs, n, f);
      }
    }

    /** Log the page image, write the page, and truncate the log once it is long. */
    method PersistPage(p: nat, data: Data)
      requires Loggable(Rec(p, data))
      modifies `disk, `numPages, wal
      ensures disk == old(disk)[p := data]
      ensures numPages == if p < old(numPages) then old(numPages) else p + 1
      ensures State(disk, wal.file, Up, disk)
           == Steps(State(old(disk), old(wal.file), Up, old(disk)),
                    [Append(p, data)] + [Write] + [MaybeCheckpoint], wal.crc)
      ensures |wal.file| < CHECKPOINT_BYTES
    {
      PersistSteps(disk, wal.file, p, data, wal.crc);
      wal.LogAppend(p, data);
      WriteAt(p, data);
      if |wal.file| >= CHECKPOINT_BYTES {
        wal.Checkpoint();
      }
    }

    /** A fresh, empty page: the last freed one if there is any, else one past the end. */
    method AllocatePage() returns (p: nat)
      requires Valid() && Allowed(View(), Allocate)
      modifies this, wal
      ensures Valid() && View() == Done(old(View()), Allocate)
      ensures Taken(old(View()), View(), p)
      ensures p !in old(out) && out == old(out) + {p} && p !in freeList && disk[p] == SlottedPage.EmptyPage()
    {
      ghost var _ := AllocateTakes(View());
      DoneOk(View(), Allocate);
      AllocateIs(View());
      if freeList != [] {
        p := TakeFreed();
      } else {
        p := AddPage();
      }
    }

    /** Add an empty page at the end of the file. */
    method AddPage() returns (p: nat)
      requires Valid() && freeList == [] && numPages < 0x1_0000_0000
      modifies this, wal
      ensures p == old(numPages) && View() == Done(old(View()), Allocate)
    {
      AllocateIs(View());
      p := numPages;
      PersistPage(p, SlottedPage.EmptyPage());
      out := out + {p};
    }

    /** Take the last freed page: empty it, then write the shorter list. */
    method TakeFreed() returns (p: nat)
      requires Valid() && freeList != []
      modifies this, wal
      ensures p == old(freeList)[|old(freeList)| - 1] && View() == Done(old(View()), Allocate)
    {
      AllocateFreed(View());
      p := freeList[|freeList| - 1];
      freeList := freeList[..|freeList| - 1];
      PersistPage(p, SlottedPage.EmptyPage());
      PersistPage(0, HeaderPage(freeList));
      out := out + {p};
    }

    /** Give a page back. A page already in the list is left alone. */
    method FreePage(p: nat) returns (outcome: Outcome)
      requires Valid()
      modifies this, wal
      ensures Valid()
      ensures outcome.PageZero? <==> p < 1
      ensures outcome.NoSuchPage? <==> p >= old(numPages)
      ensures outcome.FreeListFull? <==> 1 <= p < old(numPages) && p !in old(freeList) && |old(freeList)| == MAX_FREE
      ensures View() == if outcome.Success? then Done(old(View()), Free(p)) else old(View())
      ensures outcome.Success? ==> GivenBack(old(View()), View(), p)
    {
      if p < 1 {
        return PageZero;
      }
      if p >= numPages {
        return NoSuchPage;
      }
      if p in freeList {
        FreeGives(View(), p);
        out := out - {p};
        assert Images([]) == map[] && disk + map[] == disk;
        return Success;
      }
      if |freeList| >= MAX_FREE {
        return FreeListFull;
      }
      GiveBack(p);
      return Success;
    }

    /** Put the page at the end of the list, and write the list. */
    method GiveBack(p: nat)
      requires Valid() && 1 <= p < numPages && p !in freeList && |freeList| < MAX_FREE
      modifies this, wal
      ensures Valid() && View() == Done(old(View()), Free(p)) && GivenBack(old(View()), View(), p)
    {
      FreeGives(View(), p);
      DoneOk(View(), Free(p));
      ImagesOne(Rec(0, HeaderPage(freeList + [p])));
      freeList := freeList + [p];
      PersistPage(0, HeaderPage(freeList));
      out := out - {p};
    }
  }
}
