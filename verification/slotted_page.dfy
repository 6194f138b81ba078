/** The slotted record layout of a page, as functions of its bytes (queryx/storage/page.py). */
module SlottedPage {
  import opened Bytes
  import opened PageBytes
  import opened Wrappers

  const HEADER_SIZE := 4
  const SLOT_SIZE := 4

  /** An empty page: no slots, and all of it free. */
  function EmptyPage(): (b: Data)
    ensures |b| == PAGE_SIZE
  {
    Pack(0, 2) + Pack(PAGE_SIZE, 2) + Zeros(PAGE_SIZE - 4)
  }

  function U16(d: Data, at: nat): nat
    requires at + 2 <= |d|
  {
    Unpack(d[at..at + 2])
  }

  /** A slot directory entry: where a record lies and how long it is. */
  datatype Slot = Slot(offset: nat, length: nat) {
    predicate Dead() { offset == 0 && length == 0 }

    function End(): nat { offset + length }
  }

  function SlotAt(i: nat): nat { HEADER_SIZE + i * SLOT_SIZE }

  function NumSlots(d: Data): nat
    requires |d| == PAGE_SIZE
  {
    U16(d, 0)
  }

  /** Where the record region begins. */
  function FreeEnd(d: Data): nat
    requires |d| == PAGE_SIZE
  {
    U16(d, 2)
  }

  function GetSlot(d: Data, i: nat): Slot
    requires SlotAt(i + 1) <= |d|
  {
    Slot(U16(d, SlotAt(i)), U16(d, SlotAt(i) + 2))
  }

  /** The bytes between the slot directory and the records. */
  function FreeSpace(d: Data): int
    requires |d| == PAGE_SIZE
  {
    FreeEnd(d) - SlotAt(NumSlots(d))
  }

  /** A live slot points into the record region. */
  predicate SlotOk(s: Slot, freeEnd: nat) {
    s.Dead() || (freeEnd <= s.offset && s.End() <= PAGE_SIZE && s.length > 0)
  }

  predicate Disjoint(s: Slot, t: Slot) {
    s.Dead() || t.Dead() || s.End() <= t.offset || t.End() <= s.offset
  }

  /** The directory ends before the records begin, and live records lie in their region without
      overlapping. */
  predicate WellFormed(d: Data) {
    && |d| == PAGE_SIZE
    && SlotAt(NumSlots(d)) <= FreeEnd(d) <= PAGE_SIZE
    && (forall i :: 0 <= i < NumSlots(d) ==> SlotOk(GetSlot(d, i), FreeEnd(d)))
    && (forall i, j :: 0 <= i < j < NumSlots(d) ==> Disjoint(GetSlot(d, i), GetSlot(d, j)))
  }

  function RecordOf(d: Data, s: Slot): Option<Data>
    requires s.Dead() || s.End() <= |d|
  {
    if s.Dead() then None else Some(d[s.offset..s.End()])
  }

  /** The abstract value of a page: for each slot its record, None for a dead slot. */
  function Records(d: Data): (rs: seq<Option<Data>>)
    requires WellFormed(d)
    ensures |rs| == NumSlots(d)
  {
    seq(NumSlots(d), i requires 0 <= i < NumSlots(d) => RecordOf(d, GetSlot(d, i)))
  }

  lemma {:induction false} EmptyIs()
    ensures WellFormed(EmptyPage()) && Records(EmptyPage()) == []
    ensures FreeSpace(EmptyPage()) == PAGE_SIZE - HEADER_SIZE
  {
  }

  // -- writing fields ------------------------------------------------------------

  function PutU16(d: Data, at: nat, v: nat): (r: Data)
    requires at + 2 <= |d|
    ensures |r| == |d|
  {
    PutAt(d, at, Pack(v, 2))
  }

  function PutSlot(d: Data, i: nat, s: Slot): (r: Data)
    requires SlotAt(i + 1) <= |d|
    ensures |r| == |d|
  {
    PutAt(d, SlotAt(i), Pack(s.offset, 2) + Pack(s.length, 2))
  }

  /** Whether bytes [lo, hi) are the same in both. */
  predicate Same(d: Data, d': Data, lo: nat, hi: nat) {
    lo <= hi <= |d| == |d'| && d[lo..hi] == d'[lo..hi]
  }

  /** The two halves of a slot entry. */
  lemma {:induction false} Halves(d: Data, at: nat)
    requires at + 4 <= |d|
    ensures d[at..at + 2] == d[at..at + 4][..2] && d[at + 2..at + 4] == d[at..at + 4][2..]
  {
  }

  lemma {:induction false} SameSlot(d: Data, d': Data, i: nat)
    requires SlotAt(i + 1) <= |d| && Same(d, d', SlotAt(i), SlotAt(i + 1))
    ensures GetSlot(d, i) == GetSlot(d', i)
  {
    Halves(d, SlotAt(i));
    Halves(d', SlotAt(i));
  }

  lemma {:induction false} PutU16Reads(d: Data, at: nat, v: nat)
    requires at + 2 <= |d| && v < 0x1_0000
    ensures U16(PutU16(d, at, v), at) == v
  {
    UnpackPack16(v);
    PutAtReads(d, at, Pack(v, 2), at, at + 2);
  }

  lemma {:induction false} PutU16Same(d: Data, at: nat, v: nat, lo: nat, hi: nat)
    requires at + 2 <= |d| && lo <= hi <= |d| && (hi <= at || at + 2 <= lo)
    ensures Same(d, PutU16(d, at, v), lo, hi)
  {
    PutAtReads(d, at, Pack(v, 2), lo, hi);
  }

  lemma {:induction false} PutSlotReads(d: Data, i: nat, s: Slot)
    requires SlotAt(i + 1) <= |d| && s.offset < 0x1_0000 && s.length < 0x1_0000
    ensures GetSlot(PutSlot(d, i, s), i) == s
  {
    var at, b := SlotAt(i), Pack(s.offset, 2) + Pack(s.length, 2);
    var r := PutSlot(d, i, s);
    UnpackPack16(s.offset);
    UnpackPack16(s.length);
    PutAtReads(d, at, b, at, at + 4);
    Halves(r, at);
    assert b[..2] == Pack(s.offset, 2) && b[2..] == Pack(s.length, 2);
  }

  lemma {:induction false} PutSlotSame(d: Data, i: nat, s: Slot, lo: nat, hi: nat)
    requires SlotAt(i + 1) <= |d| && lo <= hi <= |d| && (hi <= SlotAt(i) || SlotAt(i + 1) <= lo)
    ensures Same(d, PutSlot(d, i, s), lo, hi)
  {
    PutAtReads(d, SlotAt(i), Pack(s.offset, 2) + Pack(s.length, 2), lo, hi);
  }

  // -- inserting and deleting ------------------------------------------------------

  /** The first dead slot, or the number of slots if all are live. */
  function DeadSlot(rs: seq<Option<Data>>): (i: nat)
    ensures i <= |rs| && (i < |rs| ==> rs[i].None?) && forall j :: 0 <= j < i ==> rs[j].Some?
  {
    if rs == [] || rs[0].None? then 0 else 1 + DeadSlot(rs[1..])
  }

  /** The bytes an insertion needs: the record, and a slot entry unless a dead slot is reused. */
  function Need(rs: seq<Option<Data>>, record: Data): nat {
    |record| + if DeadSlot(rs) < |rs| then 0 else SLOT_SIZE
  }

  /** The records of a page once slot i holds the record; slot |rs| is a new one. */
  function WithRecord(rs: seq<Option<Data>>, i: nat, record: Data): seq<Option<Data>>
    requires i <= |rs|
  {
    if i < |rs| then rs[i := Some(record)] else rs + [Some(record)]
  }

  /** The page after a record was placed below the others and slot i was made to point at it. */
  function Place(d: Data, i: nat, record: Data): (r: Data)
    requires |d| == PAGE_SIZE && |record| <= FreeEnd(d) <= PAGE_SIZE && SlotAt(i + 1) <= PAGE_SIZE
    ensures |r| == PAGE_SIZE
  {
    var offset := FreeEnd(d) - |record|;
    Point(PutAt(d, offset, record), i, Slot(offset, |record|), i == NumSlots(d))
  }

  /** The header's end of free space and slot i pointing at a record, and one slot more if i is new. */
  function Point(d: Data, i: nat, s: Slot, grows: bool): (r: Data)
    requires |d| == PAGE_SIZE && SlotAt(i + 1) <= PAGE_SIZE
    ensures |r| == PAGE_SIZE
  {
    var d2 := PutSlot(PutU16(d, 2, s.offset), i, s);
    if grows then PutU16(d2, 0, i + 1) else d2
  }

  /** Room between the directory, with slot i in it, and the records. */
  predicate Roomy(d: Data, i: nat, record: Data) {
    && |d| == PAGE_SIZE && i <= NumSlots(d) && FreeEnd(d) <= PAGE_SIZE
    && |record| + SlotAt(i + 1) <= FreeEnd(d) && |record| + SlotAt(NumSlots(d)) <= FreeEnd(d)
  }

  /** A slot to place a record in, and room for it. */
  predicate Placeable(d: Data, i: nat, record: Data) {
    && WellFormed(d) && record != [] && i <= NumSlots(d)
    && |record| + (if i < NumSlots(d) then 0 else SLOT_SIZE) <= FreeSpace(d)
  }

  /** A placement leaves alone what it does not write. */
  lemma {:induction false} PlaceSame(d: Data, i: nat, record: Data, lo: nat, hi: nat)
    requires Roomy(d, i, record) && HEADER_SIZE <= lo <= hi <= PAGE_SIZE
    requires hi <= SlotAt(i) || SlotAt(i + 1) <= lo
    requires hi <= FreeEnd(d) - |record| || FreeEnd(d) <= lo
    ensures Same(d, Place(d, i, record), lo, hi)
  {
    var offset := FreeEnd(d) - |record|;
    var d0 := PutAt(d, offset, record);
    PutAtReads(d, offset, record, lo, hi);
    PointSame(d0, i, Slot(offset, |record|), i == NumSlots(d), lo, hi);
  }

  /** Nor do the header and the slot, which are written after the record. */
  lemma {:induction false} PointSame(d: Data, i: nat, s: Slot, grows: bool, lo: nat, hi: nat)
    requires |d| == PAGE_SIZE && SlotAt(i + 1) <= PAGE_SIZE && HEADER_SIZE <= lo <= hi <= PAGE_SIZE
    requires hi <= SlotAt(i) || SlotAt(i + 1) <= lo
    ensures Same(d, Point(d, i, s, grows), lo, hi)
  {
    var d1 := PutU16(d, 2, s.offset);
    var d2 := PutSlot(d1, i, s);
    PutU16Same(d, 2, s.offset, lo, hi);
    PutSlotSame(d1, i, s, lo, hi);
    if grows { PutU16Same(d2, 0, i + 1, lo, hi); }
  }

  lemma {:induction false} PlaceHeader(d: Data, i: nat, record: Data)
    requires Roomy(d, i, record)
    ensures FreeEnd(Place(d, i, record)) == FreeEnd(d) - |record|
    ensures NumSlots(Place(d, i, record)) == if i < NumSlots(d) then NumSlots(d) else i + 1
  {
    var offset := FreeEnd(d) - |record|;
    var d0 := PutAt(d, offset, record);
    var d1 := PutU16(d0, 2, offset);
    var d2 := PutSlot(d1, i, Slot(offset, |record|));
    PutAtReads(d, offset, record, 0, 2);
    PutU16Same(d0, 2, offset, 0, 2);
    PutU16Reads(d0, 2, offset);
    PutSlotSame(d1, i, Slot(offset, |record|), 0, 2);
    PutSlotSame(d1, i, Slot(offset, |record|), 2, 4);
    if i == NumSlots(d) {
      PutU16Reads(d2, 0, i + 1);
      PutU16Same(d2, 0, i + 1, 2, 4);
    }
  }

  lemma {:induction false} PlaceRecord(d: Data, i: nat, record: Data)
    requires Roomy(d, i, record)
    ensures Place(d, i, record)[FreeEnd(d) - |record|..FreeEnd(d)] == record
  {
    var offset := FreeEnd(d) - |record|;
    PutAtReads(d, offset, record, offset, FreeEnd(d));
    PointSame(
      PutAt(d, offset, record), i, Slot(offset, |record|), i == NumSlots(d), offset, FreeEnd(d));
  }

  lemma {:induction false} PlaceSlot(d: Data, i: nat, record: Data)
    requires Roomy(d, i, record)
    ensures GetSlot(Place(d, i, record), i) == Slot(FreeEnd(d) - |record|, |record|)
  {
    var offset := FreeEnd(d) - |record|;
    var d1 := PutU16(PutAt(d, offset, record), 2, offset);
    var d2 := PutSlot(d1, i, Slot(offset, |record|));
    PutSlotReads(d1, i, Slot(offset, |record|));
    if i == NumSlots(d) {
      PutU16Same(d2, 0, i + 1, SlotAt(i), SlotAt(i + 1));
      SameSlot(d2, PutU16(d2, 0, i + 1), i);
    }
  }

  lemma {:induction false} PlaceOthers(d: Data, i: nat, record: Data, j: nat)
    requires Placeable(d, i, record) && j < NumSlots(d) && j != i
    ensures GetSlot(Place(d, i, record), j) == GetSlot(d, j)
    ensures RecordOf(Place(d, i, record), GetSlot(d, j)) == RecordOf(d, GetSlot(d, j))
  {
    PlaceSame(d, i, record, SlotAt(j), SlotAt(j + 1));
    SameSlot(d, Place(d, i, record), j);
    var s := GetSlot(d, j);
    if !s.Dead() { PlaceSame(d, i, record, s.offset, s.End()); }
  }

  lemma {:induction false} PlaceSlots(d: Data, i: nat, record: Data)
    requires Placeable(d, i, record)
    ensures SlotAt(NumSlots(Place(d, i, record))) <= PAGE_SIZE
    ensures var d', offset := Place(d, i, record), FreeEnd(d) - |record|;
      forall j :: 0 <= j < NumSlots(d') ==> GetSlot(d', j) == if j == i then Slot(offset, |record|) else GetSlot(d, j)
  {
    PlaceHeader(d, i, record);
    PlaceSlot(d, i, record);
    forall j | 0 <= j < NumSlots(d) && j != i ensures GetSlot(Place(d, i, record), j) == GetSlot(d, j) {
      PlaceOthers(d, i, record, j);
    }
  }

  lemma {:induction false} PlaceWellFormed(d: Data, i: nat, record: Data)
    requires Placeable(d, i, record)
    ensures WellFormed(Place(d, i, record))
  {
    PlaceHeader(d, i, record);
    PlaceSlots(d, i, record);
  }

  /** Placing a record keeps the page well formed, stores the record in its slot, leaves every
      other slot's record as it was, and uses exactly the space it needs. */
  lemma {:induction false} PlaceKeeps(d: Data, i: nat, record: Data)
    requires Placeable(d, i, record)
    ensures var d' := Place(d, i, record);
      && WellFormed(d') && Records(d') == WithRecord(Records(d), i, record)
      && FreeSpace(d') == FreeSpace(d) - |record| - (if i < NumSlots(d) then 0 else SLOT_SIZE)
  {
    var d' := Place(d, i, record);
    PlaceHeader(d, i, record);
    PlaceWellFormed(d, i, record);
    var rs, rs' := Records(d), Records(d');
    PlaceRecord(d, i, record);
    PlaceSlot(d, i, record);
    assert rs'[i] == Some(record);
    forall j | 0 <= j < NumSlots(d) && j != i ensures rs'[j] == rs[j] {
      PlaceOthers(d, i, record, j);
    }
    assert rs' == WithRecord(rs, i, record);
  }

  /** The page after slot i was marked dead. */
  function Kill(d: Data, i: nat): (r: Data)
    requires |d| == PAGE_SIZE && SlotAt(i + 1) <= PAGE_SIZE
    ensures |r| == PAGE_SIZE
  {
    PutSlot(d, i, Slot(0, 0))
  }

  lemma {:induction false} KillSlots(d: Data, i: nat)
    requires |d| == PAGE_SIZE && SlotAt(NumSlots(d)) <= PAGE_SIZE && i < NumSlots(d)
    ensures NumSlots(Kill(d, i)) == NumSlots(d) && FreeEnd(Kill(d, i)) == FreeEnd(d)
    ensures forall j :: 0 <= j < NumSlots(d) ==> GetSlot(Kill(d, i), j) == if j == i then Slot(0, 0) else GetSlot(d, j)
  {
    var d' := Kill(d, i);
    PutSlotReads(d, i, Slot(0, 0));
    PutSlotSame(d, i, Slot(0, 0), 0, 2);
    PutSlotSame(d, i, Slot(0, 0), 2, 4);
    forall j | 0 <= j < NumSlots(d) && j != i ensures GetSlot(d', j) == GetSlot(d, j) {
      PutSlotSame(d, i, Slot(0, 0), SlotAt(j), SlotAt(j + 1));
      SameSlot(d, d', j);
    }
  }

  /** Deleting a record keeps the page well formed and every other record, and frees no space. */
  lemma {:induction false} KillKeeps(d: Data, i: nat)
    requires WellFormed(d) && i < NumSlots(d)
    ensures WellFormed(Kill(d, i)) && Records(Kill(d, i)) == Records(d)[i := None]
    ensures FreeSpace(Kill(d, i)) == FreeSpace(d)
  {
    var d' := Kill(d, i);
    KillSlots(d, i);
    var rs, rs' := Records(d), Records(d');
    forall j | 0 <= j < NumSlots(d) && j != i ensures rs'[j] == rs[j] {
      var s := GetSlot(d, j);
      if !s.Dead() { PutSlotSame(d, i, Slot(0, 0), s.offset, s.End()); }
    }
    assert rs' == rs[i := None];
  }
}
