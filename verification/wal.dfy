/** The write-ahead log: record encoding and torn-tail detection (queryx/wal/log.py). */
module Wal {
  import opened Bytes

  /** A logged page image. */
  datatype Rec = Rec(page: nat, data: Data)

  /** The checksum stored with each record; nothing below depends on which one it is. */
  type Checksum = Data -> u32

  const MAX_DATA := 0x100_0000

  predicate Loggable(r: Rec) {
    r.page < 0x1_0000_0000 && 1 <= |r.data| <= MAX_DATA
  }

  /** The bytes of "WLOG". */
  const MAGIC: Data := [87, 76, 79, 71]

  function Header(r: Rec, crc: Checksum): (b: Data)
    ensures |b| == 16
  {
    MAGIC + Pack(r.page, 4) + Pack(|r.data|, 4) + Pack(crc(r.data), 4)
  }

  function Encode(r: Rec, crc: Checksum): (b: Data)
    ensures |b| == 16 + |r.data|
  {
    Header(r, crc) + r.data
  }

  function EncodeAll(rs: seq<Rec>, crc: Checksum): Data {
    if rs == [] then [] else Encode(rs[0], crc) + EncodeAll(rs[1..], crc)
  }

  /** The intact record at the front of the bytes, if there is one. */
  function First(log: Data, crc: Checksum): (r: seq<Rec>)
    ensures |r| <= 1
    ensures r != [] ==> 16 + |r[0].data| <= |log| && r[0].data == log[16..16 + |r[0].data|]
  {
    if |log| < 16 then []
    else
      var page, length, sum := Unpack(log[4..8]), Unpack(log[8..12]), Unpack(log[12..16]);
      if log[..4] != MAGIC || length <= 0 || length > MAX_DATA then []
      else if |log| - 16 < length then []
      else
        var data := log[16..16 + length];
        if crc(data) != sum then [] else [Rec(page, data)]
  }

  /** The records that `records` yields: it stops at the first one that is not intact. */
  function Parse(log: Data, crc: Checksum): seq<Rec>
    decreases |log|
  {
    var r := First(log, crc);
    if r == [] then [] else r + Parse(log[16 + |r[0].data|..], crc)
  }

  lemma {:induction false} HeaderFields(r: Rec, crc: Checksum, log: Data)
    requires Loggable(r) && 16 <= |log| && log[..16] == Header(r, crc)
    ensures log[..4] == MAGIC && Unpack(log[4..8]) == r.page
    ensures Unpack(log[8..12]) == |r.data| && Unpack(log[12..16]) == crc(r.data)
  {
    var h := Header(r, crc);
    assert log[..4] == h[..4] && log[4..8] == h[4..8] && log[8..12] == h[8..12] && log[12..16] == h[12..16];
    assert h[4..8] == Pack(r.page, 4) && h[8..12] == Pack(|r.data|, 4) && h[12..16] == Pack(crc(r.data), 4);
    UnpackPack32(r.page);
    UnpackPack32(|r.data|);
    UnpackPack32(crc(r.data));
  }

  /** A record at the front is read back whatever follows it. */
  lemma {:induction false} FirstEncoded(r: Rec, crc: Checksum, rest: Data)
    requires Loggable(r)
    ensures First(Encode(r, crc) + rest, crc) == [r]
  {
    var log := Encode(r, crc) + rest;
    assert log[..16] == Header(r, crc);
    HeaderFields(r, crc, log);
    assert log[16..16 + |r.data|] == r.data;
  }

  /** A strict prefix of an encoding is never taken for a record, whatever the checksum. */
  lemma {:induction false} FirstTorn(r: Rec, crc: Checksum, cut: nat)
    requires Loggable(r) && cut < |Encode(r, crc)|
    ensures First(Encode(r, crc)[..cut], crc) == []
  {
    var log := Encode(r, crc)[..cut];
    if 16 <= cut {
      assert log[..16] == Header(r, crc);
      HeaderFields(r, crc, log);
    }
  }

  predicate AllLoggable(rs: seq<Rec>) {
    forall i :: 0 <= i < |rs| ==> Loggable(rs[i])
  }

  // -- any bytes at all --------------------------------------------------------

  /** A whole encoding, its own checksum included, stands at the front of the log. */
  ghost predicate StartsWhole(log: Data, crc: Checksum) {
    exists r :: Loggable(r) && Encode(r, crc) <= log
  }

  /** Whatever bytes the log is, a record is read from its front exactly if the record's whole
      encoding stands there, with the checksum of its data. */
  lemma {:induction false} FirstIff(log: Data, r: Rec, crc: Checksum)
    ensures First(log, crc) == [r] <==> Loggable(r) && Encode(r, crc) <= log
  {
    if First(log, crc) == [r] { FirstEncodes(log, r, crc); }
    if Loggable(r) && Encode(r, crc) <= log {
      var rest := log[|Encode(r, crc)|..];
      assert log == Encode(r, crc) + rest;
      FirstEncoded(r, crc, rest);
    }
  }

  lemma {:induction false} FirstEncodes(log: Data, r: Rec, crc: Checksum)
    requires First(log, crc) == [r]
    ensures Loggable(r) && Encode(r, crc) <= log
  {
    HeaderSpelled(log, r, crc);
    WholePrefix(Header(r, crc), r.data, log);
    PackUnpack32(log[4..8]);
  }

  lemma {:induction false} WholePrefix(h: Data, data: Data, log: Data)
    requires h <= log && |h| + |data| <= |log| && data == log[|h|..|h| + |data|]
    ensures h + data <= log
  {
  }

  /** The fields of a header spell the whole header. */
  lemma {:induction false} HeaderSpelled(log: Data, r: Rec, crc: Checksum)
    requires 16 <= |log| && log[..4] == MAGIC && r.page == Unpack(log[4..8])
    requires |r.data| == Unpack(log[8..12]) && crc(r.data) == Unpack(log[12..16])
    ensures Header(r, crc) <= log
  {
    PackUnpack32(log[4..8]);
    PackUnpack32(log[8..12]);
    PackUnpack32(log[12..16]);
    FourFields(log);
  }

  lemma {:induction false} FourFields(log: Data)
    requires 16 <= |log|
    ensures log[..4] + log[4..8] + log[8..12] + log[12..16] <= log
  {
  }

  lemma {:induction false} FirstNone(log: Data, crc: Checksum)
    ensures First(log, crc) == [] <==> !StartsWhole(log, crc)
  {
    var f := First(log, crc);
    if f != [] {
      assert f == [f[0]];
      FirstIff(log, f[0], crc);
    }
    if StartsWhole(log, crc) {
      var r :| Loggable(r) && Encode(r, crc) <= log;
      FirstIff(log, r, crc);
    }
  }

  /** The log starts with the encodings of these records, and no whole encoding stands behind them. */
  ghost predicate Logged(rs: seq<Rec>, log: Data, crc: Checksum) {
    AllLoggable(rs) && EncodeAll(rs, crc) <= log && !StartsWhole(log[|EncodeAll(rs, crc)|..], crc)
  }

  /** Whatever bytes the log is, it reads back as the records whose whole encodings it starts with, as
      far as they go. */
  lemma {:induction false} ParseIff(log: Data, rs: seq<Rec>, crc: Checksum)
    ensures Parse(log, crc) == rs <==> Logged(rs, log, crc)
    decreases |log|
  {
    var f := First(log, crc);
    if f == [] || rs == [] {
      LoggedStart(rs, log, crc);
    } else {
      var rest := ParseNext(log, rs, f[0], crc);
      ParseIff(rest, rs[1..], crc);
    }
  }

  lemma {:induction false} LoggedStart(rs: seq<Rec>, log: Data, crc: Checksum)
    requires First(log, crc) == [] || rs == []
    ensures Parse(log, crc) == rs <==> Logged(rs, log, crc)
  {
    FirstNone(log, crc);
    assert log[0..] == log;
    if rs != [] && EncodeAll(rs, crc) <= log { assert Encode(rs[0], crc) <= log; }
  }

  /** The first record aside, the rest of the log against the rest of the records. */
  lemma {:induction false} ParseNext(log: Data, rs: seq<Rec>, r: Rec, crc: Checksum) returns (rest: Data)
    requires First(log, crc) != [] && First(log, crc)[0] == r && rs != []
    ensures |rest| < |log|
    ensures Parse(log, crc) == rs <==> rs[0] == r && Parse(rest, crc) == rs[1..]
    ensures Logged(rs, log, crc) <==> rs[0] == r && Logged(rs[1..], rest, crc)
  {
    assert First(log, crc) == [r];
    rest := log[16 + |r.data|..];
    assert Parse(log, crc) == [r] + Parse(rest, crc);
    assert rs == [rs[0]] + rs[1..];
    FirstEncodes(log, r, crc);
    if Logged(rs, log, crc) { LoggedFirst(log, rs, crc); }
    if rs[0] == r {
      assert log == Encode(r, crc) + rest;
      LoggedStep(r, rs, rest, crc);
    }
  }

  lemma {:induction false} LoggedFirst(log: Data, rs: seq<Rec>, crc: Checksum)
    requires rs != [] && Logged(rs, log, crc)
    ensures First(log, crc) == [rs[0]]
  {
    assert Encode(rs[0], crc) <= log;
    FirstIff(log, rs[0], crc);
  }

  lemma {:induction false} SamePrefix(b: Data, more: Data, rest: Data)
    ensures b + more <= b + rest <==> more <= rest
  {
    if b + more <= b + rest {
      assert (b + more)[|b|..] == more && (b + rest)[|b|..][..|more|] == (b + rest)[..|b + more|][|b|..];
    }
  }

  lemma {:induction false} LoggedStep(r: Rec, rs: seq<Rec>, rest: Data, crc: Checksum)
    requires Loggable(r) && rs != [] && rs[0] == r
    ensures Logged(rs, Encode(r, crc) + rest, crc) <==> Logged(rs[1..], rest, crc)
  {
    var (b, more) := (Encode(r, crc), EncodeAll(rs[1..], crc));
    assert EncodeAll(rs, crc) == b + more;
    SamePrefix(b, more, rest);
    if more <= rest { assert (b + rest)[|b + more|..] == rest[|more|..]; }
    assert rs == [r] + rs[1..];
  }

  /** What an append that was cut short leaves at the end of the file. */
  ghost predicate Torn(tail: Data, crc: Checksum) {
    exists r, cut: nat :: Loggable(r) && cut < |Encode(r, crc)| && tail == Encode(r, crc)[..cut]
  }

  lemma {:induction false} EmptyTorn(crc: Checksum)
    ensures Torn([], crc)
  {
    var r := Rec(0, [0]);
    assert Loggable(r) && [] == Encode(r, crc)[..0];
  }

  /** The log reads back as exactly the records whose append completed: any records followed by
      what is left of one more. */
  lemma {:induction false} ParseEncoded(rs: seq<Rec>, tail: Data, crc: Checksum)
    requires AllLoggable(rs) && Torn(tail, crc)
    ensures Parse(EncodeAll(rs, crc) + tail, crc) == rs
  {
    if rs == [] {
      assert EncodeAll(rs, crc) + tail == tail;
      var r, cut: nat :| Loggable(r) && cut < |Encode(r, crc)| && tail == Encode(r, crc)[..cut];
      FirstTorn(r, crc, cut);
    } else {
      var rest := EncodeAll(rs[1..], crc) + tail;
      assert EncodeAll(rs, crc) + tail == Encode(rs[0], crc) + rest;
      ParseStep(rs[0], rest, crc);
      ParseEncoded(rs[1..], tail, crc);
    }
  }

  lemma {:induction false} ParseStep(r: Rec, rest: Data, crc: Checksum)
    requires Loggable(r)
    ensures Parse(Encode(r, crc) + rest, crc) == [r] + Parse(rest, crc)
  {
    FirstEncoded(r, crc, rest);
    assert (Encode(r, crc) + rest)[16 + |r.data|..] == rest;
  }

  lemma {:induction false} EncodeAllAppend(rs: seq<Rec>, r: Rec, crc: Checksum)
    ensures EncodeAll(rs + [r], crc) == EncodeAll(rs, crc) + Encode(r, crc)
  {
    if rs == [] {
      assert EncodeAll([r], crc) == Encode(r, crc) + EncodeAll([], crc);
      assert [] + [r] == [r];
    } else {
      assert (rs + [r])[0] == rs[0] && (rs + [r])[1..] == rs[1..] + [r];
      EncodeAllAppend(rs[1..], r, crc);
    }
  }

  lemma {:induction false} EncodeAllSize(rs: seq<Rec>, size: nat, crc: Checksum)
    requires forall i :: 0 <= i < |rs| ==> |rs[i].data| == size
    ensures |EncodeAll(rs, crc)| == (16 + size) * |rs|
  {
    if rs != [] {
      EncodeAllSize(rs[1..], size, crc);
      assert (16 + size) * |rs| == (16 + size) + (16 + size) * (|rs| - 1);
    }
  }

  /** A torn tail of one to three bytes hides every record appended after it. */
  lemma {:induction false} ShortTailHides(tail: Data, r: Rec, rest: Data, crc: Checksum)
    requires 1 <= |tail| <= 3
    ensures Parse(tail + Encode(r, crc) + rest, crc) == []
  {
    var log := tail + Encode(r, crc) + rest;
    assert log[..4][|tail|] == MAGIC[0];
  }

  /** A record that starts in a torn record's remains is not one about a page numbered below 87
      (the first byte of the magic number) other than the torn record's own. */
  lemma {:induction false} FirstHidden(r: Rec, cut: nat, next: Rec, crc: Checksum)
    requires Loggable(r) && Loggable(next) && 1 <= cut < |Encode(r, crc)|
    requires next.page < 87 && next.page != r.page
    ensures var f := First(Encode(r, crc)[..cut] + Encode(next, crc), crc);
      f != [] ==> f[0].page != next.page
  {
    var a, b := Encode(r, crc)[..cut], Encode(next, crc);
    var log := a + b;
    var h := Header(r, crc);
    assert b[..4] == MAGIC;
    if cut < 4 {
      assert log[cut] == b[0] == b[..4][0];
      assert log[..4][cut] == MAGIC[0];
    } else if cut < 8 {
      assert log[cut] == b[0] == b[..4][0];
      assert log[4..8][cut - 4] == MAGIC[0];
      UnpackHasByte(log[4..8], cut - 4);
    } else {
      assert log[4..8] == h[4..8] == Pack(r.page, 4);
      UnpackPack32(r.page);
    }
  }

  /** A number is at least each of its bytes. */
  lemma {:induction false} UnpackHasByte(b: Data, i: nat)
    requires i < |b|
    ensures Unpack(b) >= b[i]
  {
    if i > 0 { UnpackHasByte(b[1..], i - 1); }
  }

  /** Read from any place behind its start, the encoding holds no record. */
  ghost predicate Quiet(r: Rec, crc: Checksum) {
    forall k :: 1 <= k <= |Encode(r, crc)| ==> Parse(Encode(r, crc)[k..], crc) == []
  }

  /** Where that record ends, the rest is a part of the later record's encoding. */
  lemma {:induction false} RestInside(r: Rec, cut: nat, next: Rec, crc: Checksum) returns (k: nat)
    requires Loggable(r) && 1 <= cut < |Encode(r, crc)|
    requires First(Encode(r, crc)[..cut] + Encode(next, crc), crc) != []
    ensures 1 <= k <= |Encode(next, crc)|
    ensures var log := Encode(r, crc)[..cut] + Encode(next, crc);
      log[16 + |First(log, crc)[0].data|..] == Encode(next, crc)[k..]
  {
    var log := Encode(r, crc)[..cut] + Encode(next, crc);
    var end := 16 + |First(log, crc)[0].data|;
    if cut >= 16 {
      assert log[..16] == Header(r, crc);
      HeaderFields(r, crc, log);
    }
    k := end - cut;
  }

  /** A torn tail of any length hides a quiet record appended after it: no record read back is about
      that record's page. */
  lemma {:induction false} TornTailHides(r: Rec, cut: nat, next: Rec, crc: Checksum)
    requires Loggable(r) && Loggable(next) && 1 <= cut < |Encode(r, crc)|
    requires Quiet(next, crc) && next.page < 87 && next.page != r.page
    ensures forall x :: x in Parse(Encode(r, crc)[..cut] + Encode(next, crc), crc) ==> x.page != next.page
  {
    var log := Encode(r, crc)[..cut] + Encode(next, crc);
    var f := First(log, crc);
    FirstHidden(r, cut, next, crc);
    if f != [] {
      var k := RestInside(r, cut, next, crc);
      assert Parse(log, crc) == f + [];
    }
  }

  // -- quiet pages -------------------------------------------------------------

  lemma {:induction false} PackByte(n: nat)
    requires n < 256
    ensures Pack(n, 4) == [n, 0, 0, 0]
  {
    assert Pack(0, 1) == [0] + Pack(0, 0);
    assert Pack(0, 2) == [0] + Pack(0, 1);
    assert Pack(0, 3) == [0] + Pack(0, 2);
  }

  lemma {:induction false} PackPageSize()
    ensures Pack(PAGE_SIZE, 4) == [0, 16, 0, 0]
  {
    PackByte(16);
    assert Pack(16, 3) == Pack(16, 4)[..3] by {
      assert Pack(0, 1) == [0] + Pack(0, 0);
      assert Pack(0, 2) == [0] + Pack(0, 1);
    }
  }

  /** The first sixteen bytes of a whole page's record, but for the checksum. */
  lemma {:induction false} PageHeader(r: Rec, crc: Checksum)
    requires r.page < 256 && |r.data| == PAGE_SIZE
    ensures Encode(r, crc)[..12] == [87, 76, 79, 71, r.page, 0, 0, 0, 0, 16, 0, 0]
  {
    PackByte(r.page);
    PackPageSize();
  }

  /** Inside the header, no record starts, unless the checksum looks like the magic number. */
  lemma {:induction false} HeaderQuiet(r: Rec, k: nat, crc: Checksum)
    requires r.page < 87 && |r.data| == PAGE_SIZE && 1 <= k < 12
    ensures Parse(Encode(r, crc)[k..], crc) == []
  {
    PageHeader(r, crc);
    var s := Encode(r, crc)[k..];
    assert s[..4][0] == Encode(r, crc)[..12][k];
  }

  /** Nor does one start where a byte of the magic number is missing. */
  lemma {:induction false} NoMagic(log: Data, k: nat, i: nat, crc: Checksum)
    requires k <= |log| && i < 4 && (k + i < |log| ==> log[k + i] != MAGIC[i])
    ensures Parse(log[k..], crc) == []
  {
    var s := log[k..];
    if |s| >= 16 { assert s[..4][i] == log[k + i]; }
  }

  lemma {:induction false} UnpackZeros(b: Data)
    requires forall i :: 0 <= i < |b| ==> b[i] == 0
    ensures Unpack(b) == 0
  {
    if b != [] { UnpackZeros(b[1..]); }
  }

  /** A page of zeros with a low number is quiet, whatever its checksum. */
  lemma {:induction false} ZerosQuiet(q: nat, crc: Checksum)
    requires q < 87
    ensures Loggable(Rec(q, Zeros(PAGE_SIZE))) && Quiet(Rec(q, Zeros(PAGE_SIZE)), crc)
  {
    var r := Rec(q, Zeros(PAGE_SIZE));
    var b := Encode(r, crc);
    assert forall i :: 16 <= i < |b| ==> b[i] == 0;
    forall k | 1 <= k <= |b| ensures Parse(b[k..], crc) == [] {
      if k < 12 {
        HeaderQuiet(r, k, crc);
      } else if k == 12 {
        UnpackZeros(b[12..][8..12]);
      } else {
        NoMagic(b, k, 3, crc);
      }
    }
  }

  lemma {:induction false} SliceOfTake(s: Data, n: nat, i: nat, j: nat)
    requires i <= j <= n <= |s|
    ensures s[..n][i..j] == s[i..j]
  {
  }

  /** The records before position pos have been read. */
  predicate ReadSoFar(log: Data, pos: nat, rs: seq<Rec>, crc: Checksum) {
    pos <= |log| && rs + Parse(log[pos..], crc) == Parse(log, crc)
  }

  lemma {:induction false} ReadStart(log: Data, crc: Checksum)
    ensures ReadSoFar(log, 0, [], crc)
  {
    assert log[0..] == log && [] + Parse(log, crc) == Parse(log, crc);
  }

  lemma {:induction false} ReadEnds(log: Data, pos: nat, rs: seq<Rec>, crc: Checksum)
    requires ReadSoFar(log, pos, rs, crc) && First(log[pos..], crc) == []
    ensures rs == Parse(log, crc) && Logged(rs, log, crc)
  {
    assert Parse(log[pos..], crc) == [] && rs + [] == rs;
    ParseIff(log, rs, crc);
  }

  lemma {:induction false} ReadStep(log: Data, pos: nat, rs: seq<Rec>, r: Rec, crc: Checksum) returns (next: nat)
    requires ReadSoFar(log, pos, rs, crc) && First(log[pos..], crc) == [r]
    ensures next == pos + 16 + |r.data| && ReadSoFar(log, next, rs + [r], crc)
  {
    var rest, n := log[pos..], 16 + |r.data|;
    next := pos + n;
    assert rest[n..] == log[next..];
    assert rs + ([r] + Parse(rest[n..], crc)) == (rs + [r]) + Parse(rest[n..], crc);
  }

  class WriteAheadLog {
    var file: Data
    const crc: Checksum

    constructor (file: Data, crc: Checksum)
      ensures this.file == file && this.crc == crc
    {
      this.file := file;
      this.crc := crc;
    }

    /** Append a record at the end of the file. */
    method LogAppend(page: nat, data: Data)
      requires page < 0x1_0000_0000 && |data| < 0x1_0000_0000
      modifies this
      ensures file == old(file) + Encode(Rec(page, data), crc)
    {
      var sum := crc(data);
      file := file + (MAGIC + Pack(page, 4) + Pack(|data|, 4) + Pack(sum, 4));
      file := file + data;
    }

    /** Read the record at pos, if an intact one starts there. */
    method ReadRecord(pos: nat) returns (r: seq<Rec>)
      requires pos <= |file|
      ensures r == First(file[pos..], crc)
    {
      ghost var rest := file[pos..];
      if |file| - pos < 16 {
        return [];
      }
      var header := file[pos..pos + 16];
      assert header == rest[..16];
      SliceOfTake(rest, 16, 0, 4);
      SliceOfTake(rest, 16, 4, 8);
      SliceOfTake(rest, 16, 8, 12);
      SliceOfTake(rest, 16, 12, 16);
      var page, length, sum := Unpack(header[4..8]), Unpack(header[8..12]), Unpack(header[12..16]);
      if header[..4] != MAGIC || length <= 0 || length > MAX_DATA {
        return [];
      }
      if |file| - pos - 16 < length {
        return [];
      }
      var data := file[pos + 16..pos + 16 + length];
      assert data == rest[16..16 + length];
      if crc(data) != sum {
        return [];
      }
      return [Rec(page, data)];
    }

    /** The intact records, in order, stopping at a torn or corrupt one. */
    method Records() returns (rs: seq<Rec>)
      ensures rs == Parse(file, crc) && Logged(rs, file, crc)
    {
      rs := [];
      var pos := 0;
      ReadStart(file, crc);
      while true
        invariant ReadSoFar(file, pos, rs, crc)
        decreases |file| - pos
      {
        var r := ReadRecord(pos);
        if r == [] {
          ReadEnds(file, pos, rs, crc);
          return;
        }
        assert r == [r[0]];
        ghost var next := ReadStep(file, pos, rs, r[0], crc);
        rs := rs + r;
        pos := pos + 16 + |r[0].data|;
      }
    }

    /** Truncate the log. */
    method Checkpoint()
      modifies this
      ensures file == []
    {
      file := [];
    }
  }
}
