/** Little-endian integers, as Python's `struct` module packs them. */
module Bytes {

  type byte = x: int | 0 <= x < 256

  type Data = seq<byte>

  const PAGE_SIZE := 4096

  /** Unsigned 32-bit values, `struct` code I. */
  type u32 = x: int | 0 <= x < 0x1_0000_0000

  function Pow256(w: nat): nat {
    if w == 0 then 1 else 256 * Pow256(w - 1)
  }

  lemma {:induction false} Pow256Values()
    ensures Pow256(2) == 0x1_0000 && Pow256(4) == 0x1_0000_0000 && Pow256(8) == 0x1_0000_0000_0000_0000
  {
    assert Pow256(2) == 256 * Pow256(1) && Pow256(1) == 256 * Pow256(0);
    assert Pow256(4) == 256 * Pow256(3) && Pow256(3) == 256 * Pow256(2);
    assert Pow256(6) == 256 * Pow256(5) && Pow256(5) == 256 * Pow256(4);
    assert Pow256(8) == 256 * Pow256(7) && Pow256(7) == 256 * Pow256(6);
  }

  /** The w low-order bytes of n, least significant first. */
  function Pack(n: nat, w: nat): (b: Data)
    ensures |b| == w
  {
    if w == 0 then [] else [n % 256] + Pack(n / 256, w - 1)
  }

  function Unpack(b: Data): nat {
    if b == [] then 0 else b[0] + 256 * Unpack(b[1..])
  }

  /** Unpacking undoes packing for every value that fits. */
  lemma {:induction false} UnpackPack(n: nat, w: nat)
    requires n < Pow256(w)
    ensures Unpack(Pack(n, w)) == n
  {
    if w > 0 {
      UnpackPack(n / 256, w - 1);
      assert Pack(n, w)[1..] == Pack(n / 256, w - 1);
    }
  }

  lemma {:induction false} UnpackPack16(n: nat)
    requires n < 0x1_0000
    ensures Unpack(Pack(n, 2)) == n
  {
    Pow256Values();
    UnpackPack(n, 2);
  }

  lemma {:induction false} UnpackPack32(n: nat)
    requires n < 0x1_0000_0000
    ensures Unpack(Pack(n, 4)) == n
  {
    Pow256Values();
    UnpackPack(n, 4);
  }

  /** Packing undoes unpacking: bytes of a given number spell one number only. */
  lemma {:induction false} PackUnpack(b: Data)
    ensures Unpack(b) < Pow256(|b|) && Pack(Unpack(b), |b|) == b
  {
    if b != [] {
      PackUnpack(b[1..]);
      assert Unpack(b) % 256 == b[0] && Unpack(b) / 256 == Unpack(b[1..]);
      assert b == [b[0]] + b[1..];
    }
  }

  /** The first bytes are the low-order ones. */
  lemma {:induction false} UnpackConcat(a: Data, b: Data)
    ensures Unpack(a + b) == Unpack(a) + Pow256(|a|) * Unpack(b)
  {
    if a == [] {
      assert a + b == b;
    } else {
      assert (a + b)[1..] == a[1..] + b;
      UnpackConcat(a[1..], b);
      assert Pow256(|a|) * Unpack(b) == 256 * (Pow256(|a| - 1) * Unpack(b));
    }
  }

  lemma {:induction false} PackUnpack16(b: Data)
    requires |b| == 2
    ensures Unpack(b) < 0x1_0000 && Pack(Unpack(b), 2) == b
  {
    Pow256Values();
    PackUnpack(b);
  }

  lemma {:induction false} PackUnpack32(b: Data)
    requires |b| == 4
    ensures Unpack(b) < 0x1_0000_0000 && Pack(Unpack(b), 4) == b
  {
    Pow256Values();
    PackUnpack(b);
  }

  predicate IsInt64(k: int) {
    -0x8000_0000_0000_0000 <= k < 0x8000_0000_0000_0000
  }

  /** A signed 64-bit value in two's complement, `struct` code q. */
  function PackSigned(k: int): (b: Data)
    requires IsInt64(k)
    ensures |b| == 8
  {
    Pack(if k < 0 then k + 0x1_0000_0000_0000_0000 else k, 8)
  }

  function UnpackSigned(b: Data): int {
    var n := Unpack(b);
    if n < 0x8000_0000_0000_0000 then n else n - 0x1_0000_0000_0000_0000
  }

  lemma {:induction false} UnpackPackSigned(k: int)
    requires IsInt64(k)
    ensures UnpackSigned(PackSigned(k)) == k
  {
    Pow256Values();
    UnpackPack(if k < 0 then k + 0x1_0000_0000_0000_0000 else k, 8);
  }

  lemma {:induction false} PackUnpackSigned(b: Data)
    requires |b| == 8
    ensures IsInt64(UnpackSigned(b)) && PackSigned(UnpackSigned(b)) == b
  {
    Pow256Values();
    PackUnpack(b);
  }

  /** A list of 32-bit values. */
  function PackList(ns: seq<nat>): (b: Data)
    ensures |b| == 4 * |ns|
  {
    if ns == [] then [] else Pack(ns[0], 4) + PackList(ns[1..])
  }

  function UnpackList(b: Data, n: nat): (ns: seq<nat>)
    requires 4 * n <= |b|
    ensures |ns| == n
  {
    if n == 0 then [] else [Unpack(b[..4])] + UnpackList(b[4..], n - 1)
  }

  lemma {:induction false} UnpackPackList(ns: seq<nat>, rest: Data)
    requires forall i :: 0 <= i < |ns| ==> ns[i] < 0x1_0000_0000
    ensures UnpackList(PackList(ns) + rest, |ns|) == ns
  {
    if ns != [] {
      var b := PackList(ns) + rest;
      assert b[..4] == Pack(ns[0], 4);
      assert b[4..] == PackList(ns[1..]) + rest;
      UnpackPack32(ns[0]);
      UnpackPackList(ns[1..], rest);
    }
  }

  lemma {:induction false} PackUnpackList(b: Data, n: nat)
    requires 4 * n <= |b|
    ensures var ns := UnpackList(b, n);
      PackList(ns) == b[..4 * n] && forall i :: 0 <= i < n ==> ns[i] < 0x1_0000_0000
    decreases n
  {
    if n > 0 {
      var ns := UnpackList(b, n);
      PackUnpack32(b[..4]);
      PackUnpackList(b[4..], n - 1);
      assert ns[1..] == UnpackList(b[4..], n - 1);
      assert b[..4 * n] == b[..4] + b[4..][..4 * (n - 1)];
    }
  }

  lemma {:induction false} PackListAppend(ns: seq<nat>, n: nat)
    ensures PackList(ns + [n]) == PackList(ns) + Pack(n, 4)
  {
    if ns == [] {
      assert PackList([n][1..]) == [];
    } else {
      assert (ns + [n])[1..] == ns[1..] + [n];
      PackListAppend(ns[1..], n);
    }
  }

  lemma {:induction false} UnpackListAppend(b: Data, n: nat)
    requires 4 * (n + 1) <= |b|
    ensures UnpackList(b, n + 1) == UnpackList(b, n) + [Unpack(b[4 * n..4 * (n + 1)])]
    decreases n
  {
    if n > 0 {
      UnpackListAppend(b[4..], n - 1);
      assert b[4..][4 * (n - 1)..4 * n] == b[4 * n..4 * (n + 1)];
    }
  }

  /** n zero bytes, as `bytearray(n)` makes them. */
  function Zeros(n: nat): (b: Data)
    ensures |b| == n
  {
    seq(n, _ => 0)
  }
}
