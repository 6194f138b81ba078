/** A slotted page edited in place (queryx/storage/page.py). */
module Page {
  import opened Bytes
  import opened PageBytes
  import opened Wrappers
  import opened SlottedPage

  datatype PageError = PageFull | EmptyRecord | NoSuchSlot

  lemma {:induction false} DeadSlotIs(rs: seq<Option<Data>>, i: nat)
    requires i <= |rs| && (i < |rs| ==> rs[i].None?) && forall j :: 0 <= j < i ==> rs[j].Some?
    ensures DeadSlot(rs) == i
  {
  }

  class Page {
    const data: array<byte>

    ghost predicate Valid()
      reads this, data
    {
      WellFormed(data[..])
    }

    /** The record in each slot. */
    ghost function Slots(): seq<Option<Data>>
      reads this, data
      requires Valid()
    {
      Records(data[..])
    }

    /** Wrap a copy of a block that was read from disk. */
    constructor FromBytes(raw: Data)
      requires WellFormed(raw)
      ensures fresh(data) && data[..] == raw && Valid()
    {
      data := new byte[PAGE_SIZE](i requires 0 <= i < PAGE_SIZE => raw[i]);
      new;
      assert data[..] == raw;
    }

    method ToBytes() returns (raw: Data)
      ensures raw == data[..]
    {
      raw := data[..];
    }

    method ReadU16(at: nat) returns (v: nat)
      requires at + 2 <= data.Length
      ensures v == U16(data[..], at)
    {
      assert data[..][at..at + 2] == [data[at], data[at + 1]];
      v := Unpack([data[at], data[at + 1]]);
    }

    method ReadSlot(i: nat) returns (s: Slot)
      requires SlotAt(i + 1) <= data.Length
      ensures s == GetSlot(data[..], i)
    {
      var offset := ReadU16(SlotAt(i));
      var length := ReadU16(SlotAt(i) + 2);
      s := Slot(offset, length);
    }

    method FindDeadSlot() returns (i: nat)
      requires Valid()
      ensures i == DeadSlot(Slots())
    {
      var n := ReadU16(0);
      i := 0;
      while i < n
        invariant i <= n && forall j :: 0 <= j < i ==> Slots()[j].Some?
      {
        var s := ReadSlot(i);
        if s.Dead() { break; }
        i := i + 1;
      }
      DeadSlotIs(Slots(), i);
    }

    /** Bytes between the end of the directory and the records. */
    method FreeBytes() returns (free: int)
      requires Valid()
      ensures free == FreeSpace(data[..])
    {
      var n := ReadU16(0);
      var end := ReadU16(2);
      free := end - SlotAt(n);
    }

    /** Store a record: in the first dead slot if there is one and otherwise in a new one. It is
        refused exactly when it is empty or the free space is short, and then nothing changes. */
    method InsertRecord(record: Data) returns (r: Result<nat, PageError>)
      requires Valid()
      modifies data
      ensures Valid()
      ensures record == [] <==> r == Err(EmptyRecord)
      ensures record != [] && FreeSpace(old(data[..])) < Need(old(Slots()), record) <==> r == Err(PageFull)
      ensures record != [] && FreeSpace(old(data[..])) >= Need(old(Slots()), record) <==> r.Ok?
      ensures r.Err? ==> data[..] == old(data[..])
      ensures r.Ok? ==> r.value == DeadSlot(old(Slots()))
      ensures r.Ok? ==> Slots() == WithRecord(old(Slots()), r.value, record)
      ensures r.Ok? ==> FreeSpace(data[..]) == FreeSpace(old(data[..])) - Need(old(Slots()), record)
    {
      if record == [] { return Err(EmptyRecord); }
      var i := FindDeadSlot();
      var n := ReadU16(0);
      var free := FreeBytes();
      if free < |record| + (if i < n then 0 else SLOT_SIZE) { return Err(PageFull); }
      PlaceKeeps(data[..], i, record);
      PlaceAt(i, record);
      r := Ok(i);
    }

    /** Write the record, the boundary, the slot and, for a new slot, the slot count. */
    method PlaceAt(i: nat, record: Data)
      requires Roomy(data[..], i, record)
      modifies data
      ensures data[..] == Place(old(data[..]), i, record)
    {
      var n := ReadU16(0);
      var end := ReadU16(2);
      var offset := end - |record|;
      PackInto(data, offset, record);
      PointAt(i, Slot(offset, |record|), i == n);
    }

    method SetU16(at: nat, v: nat)
      requires at + 2 <= data.Length
      modifies data
      ensures data[..] == PutU16(old(data[..]), at, v)
    {
      PackInto(data, at, Pack(v, 2));
    }

    method SetSlot(i: nat, s: Slot)
      requires SlotAt(i + 1) <= data.Length
      modifies data
      ensures data[..] == PutSlot(old(data[..]), i, s)
    {
      PackInto(data, SlotAt(i), Pack(s.offset, 2) + Pack(s.length, 2));
    }

    method PointAt(i: nat, s: Slot, grows: bool)
      requires data.Length == PAGE_SIZE && SlotAt(i + 1) <= PAGE_SIZE
      modifies data
      ensures data[..] == Point(old(data[..]), i, s, grows)
    {
      SetU16(2, s.offset);
      SetSlot(i, s);
      if grows {
        SetU16(0, i + 1);
      }
    }

    /** The record in a slot, None if the slot is dead. */
    method GetRecord(i: int) returns (r: Result<Option<Data>, PageError>)
      requires Valid()
      ensures r == if 0 <= i < |Slots()| then Ok(Slots()[i]) else Err(NoSuchSlot)
    {
      var n := ReadU16(0);
      if !(0 <= i < n) { return Err(NoSuchSlot); }
      var s := ReadSlot(i);
      if s.Dead() { return Ok(None); }
      r := Ok(Some(data[s.offset..s.End()]));
      assert data[..][s.offset..s.End()] == data[s.offset..s.End()];
    }

    /** Kill a slot; false if it was dead already. */
    method DeleteRecord(i: int) returns (r: Result<bool, PageError>)
      requires Valid()
      modifies data
      ensures Valid() && FreeSpace(data[..]) == FreeSpace(old(data[..]))
      ensures r == if 0 <= i < |old(Slots())| then Ok(old(Slots())[i].Some?) else Err(NoSuchSlot)
      ensures r == Ok(true) ==> Slots() == old(Slots())[i := None]
      ensures r != Ok(true) ==> data[..] == old(data[..])
    {
      var n := ReadU16(0);
      if !(0 <= i < n) { return Err(NoSuchSlot); }
      var s := ReadSlot(i);
      if s.Dead() { return Ok(false); }
      KillKeeps(data[..], i);
      SetSlot(i, Slot(0, 0));
      r := Ok(true);
    }

    /** Every live record with its slot, in slot order. */
    method LiveRecords() returns (live: seq<(nat, Data)>)
      requires Valid()
      ensures live == LiveOf(Slots())
    {
      live := [];
      var n := ReadU16(0);
      for i := 0 to n
        invariant live == LiveOf(Slots()[..i])
      {
        var s := ReadSlot(i);
        LiveOfNext(Slots(), i);
        if !s.Dead() {
          assert data[..][s.offset..s.End()] == data[s.offset..s.End()];
          live := live + [(i, data[s.offset..s.End()])];
        }
      }
      assert Slots()[..n] == Slots();
    }
  }

  /** The live slots of a directory and their records, in slot order. */
  function LiveOf(rs: seq<Option<Data>>): seq<(nat, Data)> {
    if rs == [] then []
    else
      var n := |rs| - 1;
      LiveOf(rs[..n]) + if rs[n].Some? then [(n, rs[n].value)] else []
  }

  lemma {:induction false} LiveOfNext(rs: seq<Option<Data>>, i: nat)
    requires i < |rs|
    ensures LiveOf(rs[..i + 1]) == LiveOf(rs[..i]) + if rs[i].Some? then [(i, rs[i].value)] else []
  {
    assert rs[..i + 1][..i] == rs[..i];
  }

  /** The scan of a page lists exactly its live slots, each once, in order. */
  lemma {:induction false} LiveOfIs(rs: seq<Option<Data>>)
    ensures forall i: nat, b :: (i, b) in LiveOf(rs) <==> i < |rs| && rs[i] == Some(b)
    ensures forall x, y :: 0 <= x < y < |LiveOf(rs)| ==> LiveOf(rs)[x].0 < LiveOf(rs)[y].0
  {
    if rs != [] {
      var n := |rs| - 1;
      var front := rs[..n];
      LiveOfIs(front);
      forall x | 0 <= x < |LiveOf(front)| ensures LiveOf(front)[x].0 < n {
        assert (LiveOf(front)[x].0, LiveOf(front)[x].1) in LiveOf(front);
      }
      forall i: nat, b ensures (i, b) in LiveOf(rs) <==> i < |rs| && rs[i] == Some(b) {
        assert (i, b) in LiveOf(front) <==> i < n && rs[i] == Some(b);
      }
    }
  }
}
