/** A table's rows, packed into the data pages of one file (queryx/storage/heap_file.py). */
module HeapFile {
  import opened Wrappers
  import opened Bytes
  import opened PageBytes
  import opened BTreeShape
  import opened SlottedPage
  import Page
  import Pool = BufferModel

  /** The largest record that fits in an empty page. */
  const MAX_RECORD_SIZE := 4088

  datatype HeapError = EmptyRecord | TooLarge | NoSuchPage | NoSuchSlot

  type Memory = map<nat, Data>

  type Rows = map<RowId, Data>

  /** Data pages are 1, ..., numPages - 1. */
  predicate PagesOk(memory: Memory, numPages: nat) {
    numPages >= 1 && forall p :: 1 <= p < numPages ==> p in memory && WellFormed(memory[p])
  }

  /** The slots of every data page, and what each holds. */
  type Dirs = map<nat, seq<Option<Data>>>

  function DirsOf(memory: Memory, numPages: nat): Dirs
    requires PagesOk(memory, numPages)
  {
    map p | 1 <= p < numPages :: Records(memory[p])
  }

  /** The addresses of the live rows. */
  function LiveRids(dirs: Dirs): set<RowId> {
    set p, i | p in dirs && 0 <= i < |dirs[p]| && dirs[p][i].Some? :: RowId(p, i)
  }

  /** The abstract value of a heap file: the live rows by address. */
  function RowsOf(dirs: Dirs): Rows {
    map rid | rid in LiveRids(dirs) :: dirs[rid.page][rid.slot].value
  }

  predicate Has(dirs: Dirs, rid: RowId, record: Data) {
    rid.page in dirs && rid.slot < |dirs[rid.page]| && dirs[rid.page][rid.slot] == Some(record)
  }

  lemma {:induction false} RowsHas(dirs: Dirs, rid: RowId, record: Data)
    ensures rid in RowsOf(dirs) && RowsOf(dirs)[rid] == record <==> Has(dirs, rid, record)
  {
  }

  /** Storing a record in a dead or new slot of one page adds that row to the map. */
  lemma {:induction false} RowsPut(dirs: Dirs, p: nat, i: nat, record: Data)
    requires p in dirs && i <= |dirs[p]| && (i < |dirs[p]| ==> dirs[p][i].None?)
    ensures RowId(p, i) !in RowsOf(dirs)
    ensures RowsOf(dirs[p := WithRecord(dirs[p], i, record)]) == RowsOf(dirs)[RowId(p, i) := record]
  {
  }

  lemma {:induction false} RowsKill(dirs: Dirs, p: nat, i: nat)
    requires p in dirs && i < |dirs[p]|
    ensures RowsOf(dirs[p := dirs[p][i := None]]) == RowsOf(dirs) - {RowId(p, i)}
  {
  }

  /** The slots after the one at an address was killed, if there is one. */
  function Deleted(dirs: Dirs, rid: RowId): Dirs {
    if rid.page in dirs && rid.slot < |dirs[rid.page]| then
      dirs[rid.page := dirs[rid.page][rid.slot := None]]
    else dirs
  }

  function Deleting(dirs: Dirs, rid: RowId): Result<bool, HeapError> {
    if rid.page !in dirs then Err(NoSuchPage)
    else if rid.slot >= |dirs[rid.page]| then Err(NoSuchSlot)
    else Ok(dirs[rid.page][rid.slot].Some?)
  }

  /** That takes the one row away, and reports whether there was one. */
  lemma {:induction false} DeletedRows(dirs: Dirs, rid: RowId)
    ensures RowsOf(Deleted(dirs, rid)) == RowsOf(dirs) - {rid}
    ensures rid in RowsOf(dirs) <==> Deleting(dirs, rid) == Ok(true)
  {
    if rid.page in dirs && rid.slot < |dirs[rid.page]| {
      RowsKill(dirs, rid.page, rid.slot);
    }
  }

  /** A page without records holds no rows. */
  lemma {:induction false} RowsGrow(dirs: Dirs, p: nat)
    requires p !in dirs
    ensures RowsOf(dirs[p := []]) == RowsOf(dirs)
  {
  }

  lemma {:induction false} RowsFresh(dirs: Dirs, p: nat, record: Data)
    requires p !in dirs
    ensures RowId(p, 0) !in RowsOf(dirs)
    ensures RowsOf(dirs[p := WithRecord([], 0, record)]) == RowsOf(dirs)[RowId(p, 0) := record]
  {
    RowsGrow(dirs, p);
    RowsPut(dirs[p := []], p, 0, record);
    UpdateTwice(dirs, p, [], WithRecord([], 0, record));
  }

  lemma {:induction false} UpdateTwice<K, V>(m: map<K, V>, k: K, a: V, b: V)
    ensures m[k := a][k := b] == m[k := b]
  {
  }

  lemma {:induction false} DirsPut(memory: Memory, numPages: nat, p: nat, d: Data)
    requires PagesOk(memory, numPages) && 1 <= p < numPages && WellFormed(d)
    ensures PagesOk(memory[p := d], numPages)
    ensures DirsOf(memory[p := d], numPages) == DirsOf(memory, numPages)[p := Records(d)]
  {
  }

  lemma {:induction false} DirsGrow(memory: Memory, numPages: nat)
    requires PagesOk(memory, numPages)
    ensures PagesOk(memory[numPages := EmptyPage()], numPages + 1)
    ensures DirsOf(memory[numPages := EmptyPage()], numPages + 1) == DirsOf(memory, numPages)[numPages := []]
  {
    EmptyIs();
  }

  /** Flushing the buffer pool and opening the file from disk gives the rows that the pool showed. */
  lemma {:induction false} FlushReopens(pool: Pool.Pool, capacity: nat, numPages: nat)
    requires Pool.Consistent(pool, capacity) && PagesOk(Pool.View(pool), numPages)
    ensures PagesOk(Pool.FlushAll(pool).disk, numPages)
    ensures RowsOf(DirsOf(Pool.FlushAll(pool).disk, numPages)) == RowsOf(DirsOf(Pool.View(pool), numPages))
  {
    Pool.FlushKeeps(pool, capacity);
  }

  predicate Before(a: RowId, b: RowId) {
    a.page < b.page || (a.page == b.page && a.slot < b.slot)
  }

  class HeapFile {
    /** The file's pages as the buffer pool shows them. */
    var memory: Memory
    var numPages: nat
    var lastPage: Option<nat>

    ghost predicate Valid()
      reads this
    {
      PagesOk(memory, numPages) && lastPage == if numPages > 1 then Some(numPages - 1) else None
    }

    ghost function Dirs(): Dirs
      reads this
      requires Valid()
    {
      DirsOf(memory, numPages)
    }

    ghost function Rows(): Rows
      reads this
      requires Valid()
    {
      RowsOf(Dirs())
    }

    /** The last page has room for the record. */
    ghost predicate HasRoom(record: Data)
      reads this
      requires Valid()
    {
      && lastPage.Some?
      && Need(Records(memory[lastPage.value]), record) <= FreeSpace(memory[lastPage.value])
    }

    /** Open a file, new or not: the same pages mean the same rows. */
    constructor (memory: Memory, numPages: nat)
      requires PagesOk(memory, numPages)
      ensures Valid() && Rows() == RowsOf(DirsOf(memory, numPages))
    {
      this.memory, this.numPages := memory, numPages;
      this.lastPage := if numPages > 1 then Some(numPages - 1) else None;
    }

    method NewPage() returns (p: nat)
      requires PagesOk(memory, numPages)
      modifies `memory, `numPages
      ensures p == old(numPages) && numPages == p + 1 && memory == old(memory)[p := EmptyPage()]
      ensures PagesOk(memory, numPages) && DirsOf(memory, numPages) == DirsOf(old(memory), p)[p := []]
    {
      DirsGrow(memory, numPages);
      p := numPages;
      numPages := p + 1;
      memory := memory[p := EmptyPage()];
    }

    /** Try to store a record in page p. */
    method InsertInto(p: nat, record: Data) returns (slot: Option<nat>)
      requires PagesOk(memory, numPages) && 1 <= p < numPages && record != []
      modifies `memory
      ensures PagesOk(memory, numPages)
      ensures slot.None? <==> FreeSpace(old(memory)[p]) < Need(Records(old(memory)[p]), record)
      ensures slot.None? ==> memory == old(memory)
      ensures slot.Some? ==> slot.value == DeadSlot(DirsOf(old(memory), numPages)[p])
      ensures slot.Some? ==>
        var dirs := DirsOf(old(memory), numPages);
        DirsOf(memory, numPages) == dirs[p := WithRecord(dirs[p], slot.value, record)]
    {
      var page := new Page.Page.FromBytes(memory[p]);
      var r := page.InsertRecord(record);
      if r.Err? { return None; }
      var raw := page.ToBytes();
      DirsPut(memory, numPages, p, raw);
      memory := memory[p := raw];
      slot := Some(r.value);
    }

    /** Store a record under a fresh address; anything from 1 to MAX_RECORD_SIZE bytes fits. */
    method Insert(record: Data) returns (r: Result<RowId, HeapError>)
      requires Valid()
      modifies this
      ensures Valid()
      ensures record == [] <==> r == Err(EmptyRecord)
      ensures |record| > MAX_RECORD_SIZE <==> r == Err(TooLarge)
      ensures r.Err? ==> record == [] || |record| > MAX_RECORD_SIZE
      ensures r.Err? ==> memory == old(memory) && numPages == old(numPages) && lastPage == old(lastPage)
      ensures r.Ok? ==> r.value !in old(Rows()) && Rows() == old(Rows())[r.value := record]
      ensures r.Ok? ==> lastPage == Some(r.value.page)
      ensures r.Ok? && old(HasRoom(record)) ==> numPages == old(numPages) && r.value.page == old(lastPage.value)
      ensures r.Ok? && !old(HasRoom(record)) ==> numPages == old(numPages) + 1 && r.value.page == old(numPages)
    {
      if record == [] { return Err(EmptyRecord); }
      if |record| > MAX_RECORD_SIZE { return Err(TooLarge); }
      if lastPage.Some? {
        var slot := InsertInto(lastPage.value, record);
        if slot.Some? {
          RowsPut(old(Dirs()), lastPage.value, slot.value, record);
          return Ok(RowId(lastPage.value, slot.value));
        }
      }
      r := InsertFresh(record);
    }

    /** Allocate a page and store the record there. */
    method InsertFresh(record: Data) returns (r: Result<RowId, HeapError>)
      requires Valid() && 0 < |record| <= MAX_RECORD_SIZE
      modifies this
      ensures Valid()
      ensures r.Ok? && r.value !in old(Rows()) && Rows() == old(Rows())[r.value := record]
      ensures lastPage == Some(r.value.page) && r.value.page == old(numPages) && numPages == old(numPages) + 1
    {
      ghost var dirs := Dirs();
      RowsFresh(dirs, numPages, record);
      var pageNo, slot := InsertNew(record);
      lastPage := Some(pageNo);
      r := Ok(RowId(pageNo, slot));
    }

    /** The fresh page always has room. */
    method InsertNew(record: Data) returns (pageNo: nat, slot: nat)
      requires PagesOk(memory, numPages) && 0 < |record| <= MAX_RECORD_SIZE
      modifies `memory, `numPages
      ensures pageNo == old(numPages) && numPages == pageNo + 1 && slot == 0 && PagesOk(memory, numPages)
      ensures DirsOf(memory, numPages) == DirsOf(old(memory), pageNo)[pageNo := WithRecord([], 0, record)]
    {
      EmptyIs();
      ghost var dirs: Dirs := DirsOf(memory, numPages);
      pageNo := NewPage();
      var placed := InsertInto(pageNo, record);
      slot := placed.value;
      UpdateTwice(dirs, pageNo, [], WithRecord([], 0, record));
    }

    /** Delete a row; false if its slot was dead already. */
    method Delete(rid: RowId) returns (r: Result<bool, HeapError>)
      requires Valid()
      modifies this
      ensures Valid()
      ensures r == Err(NoSuchPage) <==> rid.page !in old(Dirs())
      ensures r == Err(NoSuchSlot) <==> rid.page in old(Dirs()) && rid.slot >= |old(Dirs())[rid.page]|
      ensures r.Ok? ==> r.value == (rid in old(Rows()))
      ensures r.Err? ==> rid !in old(Rows())
      ensures Rows() == old(Rows()) - {rid}
    {
      r := DeleteAt(rid);
      DeletedRows(old(Dirs()), rid);
    }

    method DeleteAt(rid: RowId) returns (r: Result<bool, HeapError>)
      requires Valid()
      modifies `memory
      ensures Valid()
      ensures r == Deleting(old(Dirs()), rid) && Dirs() == Deleted(old(Dirs()), rid)
    {
      if !(1 <= rid.page < numPages) { return Err(NoSuchPage); }
      var d := DeleteFrom(rid.page, rid.slot);
      if d.None? { return Err(NoSuchSlot); }
      r := Ok(d.value);
    }

    /** Kill a slot of page p; None if there is no such slot. */
    method DeleteFrom(p: nat, slot: nat) returns (r: Option<bool>)
      requires PagesOk(memory, numPages) && 1 <= p < numPages
      modifies `memory
      ensures PagesOk(memory, numPages)
      ensures var rs := DirsOf(old(memory), numPages)[p];
        r == if slot < |rs| then Some(rs[slot].Some?) else None
      ensures r.None? ==> memory == old(memory)
      ensures r.Some? ==>
        var dirs := DirsOf(old(memory), numPages);
        DirsOf(memory, numPages) == dirs[p := dirs[p][slot := None]]
    {
      var page := new Page.Page.FromBytes(memory[p]);
      var d := page.DeleteRecord(slot);
      if d.Err? { return None; }
      if d.value {
        var raw := page.ToBytes();
        DirsPut(memory, numPages, p, raw);
        memory := memory[p := raw];
      } else {
        ghost var rs := DirsOf(memory, numPages)[p];
        assert rs[slot := None] == rs;
      }
      r := Some(d.value);
    }

    /** The record at an address, None if its slot is dead. */
    method Get(rid: RowId) returns (r: Result<Option<Data>, HeapError>)
      requires Valid()
      ensures r == Err(NoSuchPage) <==> rid.page !in Dirs()
      ensures r == Err(NoSuchSlot) <==> rid.page in Dirs() && rid.slot >= |Dirs()[rid.page]|
      ensures r.Ok? ==> r.value == if rid in Rows() then Some(Rows()[rid]) else None
      ensures r.Err? ==> rid !in Rows()
    {
      if !(1 <= rid.page < numPages) { return Err(NoSuchPage); }
      var page := new Page.Page.FromBytes(memory[rid.page]);
      var g := page.GetRecord(rid.slot);
      if g.Err? { return Err(NoSuchSlot); }
      r := Ok(g.value);
    }

    /** Every live row once, in page and then slot order. */
    method Scan() returns (rows: seq<(RowId, Data)>)
      requires Valid()
      ensures forall rid, b :: (rid, b) in rows <==> rid in Rows() && Rows()[rid] == b
      ensures forall x, y :: 0 <= x < y < |rows| ==> Before(rows[x].0, rows[y].0)
    {
      rows := ScanPages();
      ScanIs(Dirs(), numPages);
      forall rid, b ensures (rid, b) in rows <==> rid in Rows() && Rows()[rid] == b {
        RowsHas(Dirs(), rid, b);
      }
    }

    method ScanPages() returns (rows: seq<(RowId, Data)>)
      requires PagesOk(memory, numPages)
      ensures rows == ScanOf(DirsOf(memory, numPages), numPages)
    {
      rows := [];
      for p := 1 to numPages
        invariant rows == ScanOf(DirsOf(memory, numPages), p)
      {
        var found := ScanPage(p);
        rows := rows + found;
      }
    }

    method ScanPage(p: nat) returns (rows: seq<(RowId, Data)>)
      requires PagesOk(memory, numPages) && 1 <= p < numPages
      ensures rows == Address(p, Page.LiveOf(DirsOf(memory, numPages)[p]))
    {
      var page := new Page.Page.FromBytes(memory[p]);
      var live := page.LiveRecords();
      rows := Addressed(p, live);
    }

    method Addressed(p: nat, live: seq<(nat, Data)>) returns (rows: seq<(RowId, Data)>)
      ensures rows == Address(p, live)
    {
      rows := [];
      for k := 0 to |live|
        invariant rows == Address(p, live[..k])
      {
        rows := rows + [(RowId(p, live[k].0), live[k].1)];
      }
      assert live[..|live|] == live;
    }
  }

  /** The records of page p with their full addresses. */
  function Address(p: nat, live: seq<(nat, Data)>): (rows: seq<(RowId, Data)>)
    ensures |rows| == |live|
  {
    seq(|live|, k requires 0 <= k < |live| => (RowId(p, live[k].0), live[k].1))
  }

  /** The rows of pages 1, ..., n - 1, page by page. */
  function ScanOf(dirs: Dirs, n: nat): seq<(RowId, Data)>
    requires n >= 1 && forall p :: 1 <= p < n ==> p in dirs
  {
    if n == 1 then [] else ScanOf(dirs, n - 1) + Address(n - 1, Page.LiveOf(dirs[n - 1]))
  }

  lemma {:induction false} AddressIs(p: nat, rs: seq<Option<Data>>)
    ensures var b := Address(p, Page.LiveOf(rs));
      && (forall rid: RowId, d :: (rid, d) in b <==> rid.page == p && rid.slot < |rs| && rs[rid.slot] == Some(d))
      && (forall x, y :: 0 <= x < y < |b| ==> Before(b[x].0, b[y].0))
  {
    var live := Page.LiveOf(rs);
    var b := Address(p, live);
    Page.LiveOfIs(rs);
    forall rid: RowId, d ensures (rid, d) in b <==> rid.page == p && (rid.slot, d) in live {
      if rid.page == p && (rid.slot, d) in live {
        var k :| 0 <= k < |live| && live[k] == (rid.slot, d);
        assert b[k] == (rid, d);
      }
    }
  }

  lemma {:induction false} ScanIs(dirs: Dirs, n: nat)
    requires n >= 1 && forall p :: 1 <= p < n ==> p in dirs
    ensures forall rid: RowId, b :: (rid, b) in ScanOf(dirs, n) <==> 1 <= rid.page < n && Has(dirs, rid, b)
    ensures forall x, y :: 0 <= x < y < |ScanOf(dirs, n)| ==> Before(ScanOf(dirs, n)[x].0, ScanOf(dirs, n)[y].0)
    decreases n
  {
    if n > 1 {
      var a := ScanOf(dirs, n - 1);
      ScanIs(dirs, n - 1);
      AddressIs(n - 1, dirs[n - 1]);
      forall x | 0 <= x < |a| ensures a[x].0.page < n - 1 {
        assert (a[x].0, a[x].1) in a;
      }
      var b := Address(n - 1, Page.LiveOf(dirs[n - 1]));
      forall y | 0 <= y < |b| ensures b[y].0.page == n - 1 {
        assert (b[y].0, b[y].1) in b;
      }
    }
  }
}
