/** B+ tree nodes as the bytes of a page (queryx/index/btree.py). */
module BTreeCodec {
  import opened Wrappers
  import opened Bytes
  import opened PageBytes
  import opened BTreeShape
  import opened BTreeStore

  const LEAF: byte := 1
  const INTERNAL: byte := 0
  const LEAF_HEADER := 7
  const INT_HEADER := 3

  // -- separator keys ----------------------------------------------------------

  predicate KeysFit(keys: seq<int>) {
    forall k :: k in keys ==> IsInt64(k)
  }

  function PackKeys(keys: seq<int>): (b: Data)
    requires KeysFit(keys)
    ensures |b| == 8 * |keys|
  {
    if keys == [] then [] else PackSigned(keys[0]) + PackKeys(keys[1..])
  }

  function UnpackKeys(b: Data, n: nat): (keys: seq<int>)
    requires 8 * n <= |b|
    ensures |keys| == n
  {
    if n == 0 then [] else [UnpackSigned(b[..8])] + UnpackKeys(b[8..], n - 1)
  }

  lemma {:induction false} UnpackPackKeys(keys: seq<int>, rest: Data)
    requires KeysFit(keys)
    ensures UnpackKeys(PackKeys(keys) + rest, |keys|) == keys
  {
    if keys != [] {
      var b := PackKeys(keys) + rest;
      assert b[..8] == PackSigned(keys[0]);
      assert b[8..] == PackKeys(keys[1..]) + rest;
      UnpackPackSigned(keys[0]);
      UnpackPackKeys(keys[1..], rest);
    }
  }

  lemma {:induction false} PackUnpackKeys(b: Data, n: nat)
    requires 8 * n <= |b|
    ensures KeysFit(UnpackKeys(b, n)) && PackKeys(UnpackKeys(b, n)) == b[..8 * n]
    decreases n
  {
    if n > 0 {
      var keys := UnpackKeys(b, n);
      PackUnpackSigned(b[..8]);
      PackUnpackKeys(b[8..], n - 1);
      assert keys[1..] == UnpackKeys(b[8..], n - 1);
      assert b[..8 * n] == b[..8] + b[8..][..8 * (n - 1)];
    }
  }

  lemma {:induction false} PackKeysAppend(keys: seq<int>, k: int)
    requires KeysFit(keys + [k])
    ensures KeysFit(keys) && IsInt64(k)
    ensures PackKeys(keys + [k]) == PackKeys(keys) + PackSigned(k)
  {
    assert forall x :: x in keys ==> x in keys + [k];
    assert k in keys + [k];
    if keys == [] {
      assert PackKeys([k][1..]) == [];
    } else {
      assert (keys + [k])[1..] == keys[1..] + [k];
      PackKeysAppend(keys[1..], k);
    }
  }

  lemma {:induction false} UnpackKeysAppend(b: Data, n: nat)
    requires 8 * (n + 1) <= |b|
    ensures UnpackKeys(b, n + 1) == UnpackKeys(b, n) + [UnpackSigned(b[8 * n..8 * (n + 1)])]
    decreases n
  {
    if n > 0 {
      UnpackKeysAppend(b[8..], n - 1);
      assert b[8..][8 * (n - 1)..8 * n] == b[8 * n..8 * (n + 1)];
    }
  }

  // -- nodes -------------------------------------------------------------------

  /** The entries of a leaf that keeps keys and row ids in two parallel lists. */
  function Entries(keys: seq<int>, values: seq<RowId>): (es: seq<Entry>)
    requires |keys| == |values|
    ensures |es| == |keys| && Keys(es) == keys && Rids(es) == values
  {
    var es := seq(|keys|, i requires 0 <= i < |keys| => Entry(keys[i], values[i]));
    assert Keys(es) == keys && Rids(es) == values;
    es
  }

  /** The node can be packed into one page. */
  predicate NodeFits(n: Node) {
    match n
    case Leaf(keys, values, next) =>
      && |keys| == |values| && next < 0x1_0000_0000
      && EntriesFit(Entries(keys, values))
      && LEAF_HEADER + ENTRY_SIZE * |keys| <= PAGE_SIZE
    case Internal(keys, children) =>
      && |children| == |keys| + 1 && KeysFit(keys)
      && (forall i :: 0 <= i < |children| ==> children[i] < 0x1_0000_0000)
      && INT_HEADER + 8 * |keys| + 4 * |children| <= PAGE_SIZE
  }

  function LeafHeader(n: nat, next: nat): (b: Data)
    ensures |b| == LEAF_HEADER
  {
    [LEAF] + Pack(n, 2) + Pack(next, 4)
  }

  function IntHeader(n: nat): (b: Data)
    ensures |b| == INT_HEADER
  {
    [INTERNAL] + Pack(n, 2)
  }

  /** The page a node is stored as. */
  function EncodeNode(n: Node): (d: Data)
    requires NodeFits(n)
    ensures |d| == PAGE_SIZE
  {
    match n
    case Leaf(keys, values, next) =>
      LeafHeader(|keys|, next) + PackEntries(Entries(keys, values))
        + Zeros(PAGE_SIZE - LEAF_HEADER - ENTRY_SIZE * |keys|)
    case Internal(keys, children) =>
      IntHeader(|keys|) + PackKeys(keys) + PackList(children)
        + Zeros(PAGE_SIZE - INT_HEADER - 8 * |keys| - 4 * |children|)
  }

  /** The node that a page spells; None where reading would run off the page. */
  function DecodeNode(raw: Data): Option<Node>
    requires |raw| == PAGE_SIZE
  {
    var num := Unpack(raw[1..3]);
    if raw[0] == LEAF then
      if LEAF_HEADER + ENTRY_SIZE * num > PAGE_SIZE then None
      else
        var es := UnpackEntries(raw[LEAF_HEADER..], num);
        Some(Leaf(Keys(es), Rids(es), Unpack(raw[3..7])))
    else if INT_HEADER + 8 * num + 4 * (num + 1) > PAGE_SIZE then None
    else
      Some(Internal(UnpackKeys(raw[INT_HEADER..], num), UnpackList(raw[INT_HEADER + 8 * num..], num + 1)))
  }

  /** Loading a stored node gives the node back. */
  lemma {:induction false} NodeRoundTrip(n: Node)
    requires NodeFits(n)
    ensures DecodeNode(EncodeNode(n)) == Some(n)
  {
    match n
    case Leaf(keys, values, next) => LeafRoundTrip(keys, values, next);
    case Internal(keys, children) => InternalRoundTrip(keys, children);
  }

  lemma {:induction false} LeafRoundTrip(keys: seq<int>, values: seq<RowId>, next: nat)
    requires NodeFits(Leaf(keys, values, next))
    ensures DecodeNode(EncodeNode(Leaf(keys, values, next))) == Some(Leaf(keys, values, next))
  {
    var d := EncodeNode(Leaf(keys, values, next));
    var es := Entries(keys, values);
    assert d[1..3] == Pack(|keys|, 2);
    assert d[3..7] == Pack(next, 4);
    assert d[LEAF_HEADER..] == PackEntries(es) + Zeros(PAGE_SIZE - LEAF_HEADER - ENTRY_SIZE * |keys|);
    UnpackPack16(|keys|);
    UnpackPack32(next);
    UnpackPackEntries(es, Zeros(PAGE_SIZE - LEAF_HEADER - ENTRY_SIZE * |keys|));
  }

  lemma {:induction false} InternalRoundTrip(keys: seq<int>, children: seq<nat>)
    requires NodeFits(Internal(keys, children))
    ensures DecodeNode(EncodeNode(Internal(keys, children))) == Some(Internal(keys, children))
  {
    var d := EncodeNode(Internal(keys, children));
    var rest := Zeros(PAGE_SIZE - INT_HEADER - 8 * |keys| - 4 * |children|);
    assert d[1..3] == Pack(|keys|, 2);
    assert d[INT_HEADER..] == PackKeys(keys) + (PackList(children) + rest);
    assert d[INT_HEADER + 8 * |keys|..] == PackList(children) + rest;
    UnpackPack16(|keys|);
    UnpackPackKeys(keys, PackList(children) + rest);
    UnpackPackList(children, rest);
  }

  /** The page starts with the node's bytes; whatever is behind them is left unread, and any first byte
      but that of a leaf stands for an inner node. */
  predicate Spells(raw: Data, n: Node)
    requires |raw| == PAGE_SIZE
  {
    NodeFits(n) &&
    match n
    case Leaf(keys, values, next) => LeafHeader(|keys|, next) + PackEntries(Entries(keys, values)) <= raw
    case Internal(keys, children) =>
      raw[0] != LEAF && Pack(|keys|, 2) + PackKeys(keys) + PackList(children) <= raw[1..]
  }

  /** Whatever is on a page, it is read as a node exactly if it spells that node. */
  lemma {:induction false} DecodeIff(raw: Data, n: Node)
    requires |raw| == PAGE_SIZE
    ensures DecodeNode(raw) == Some(n) <==> Spells(raw, n)
  {
    if DecodeNode(raw) == Some(n) {
      if raw[0] == LEAF { LeafSpelled(raw); } else { InternalSpelled(raw); }
    }
    if Spells(raw, n) {
      if n.Leaf? { SpelledLeaf(raw, n.keys, n.values, n.next); } else { SpelledInternal(raw, n.keys, n.children); }
    }
  }

  lemma {:induction false} LeafSpelled(raw: Data)
    requires |raw| == PAGE_SIZE && raw[0] == LEAF && DecodeNode(raw).Some?
    ensures Spells(raw, DecodeNode(raw).value)
  {
    var num := Unpack(raw[1..3]);
    var es := UnpackEntries(raw[LEAF_HEADER..], num);
    PackUnpack16(raw[1..3]);
    PackUnpack32(raw[3..7]);
    PackUnpackEntries(raw[LEAF_HEADER..], num);
    assert Entries(Keys(es), Rids(es)) == es;
    assert LeafHeader(num, Unpack(raw[3..7])) == raw[..LEAF_HEADER];
    FrontOf(raw, LEAF_HEADER, ENTRY_SIZE * num);
  }

  lemma {:induction false} FrontOf(raw: Data, at: nat, size: nat)
    requires at + size <= |raw|
    ensures raw[..at] + raw[at..][..size] == raw[..at + size]
  {
  }

  lemma {:induction false} InternalSpelled(raw: Data)
    requires |raw| == PAGE_SIZE && raw[0] != LEAF && DecodeNode(raw).Some?
    ensures Spells(raw, DecodeNode(raw).value)
  {
    var num := Unpack(raw[1..3]);
    PackUnpack16(raw[1..3]);
    PackUnpackKeys(raw[INT_HEADER..], num);
    PackUnpackList(raw[INT_HEADER + 8 * num..], num + 1);
    FrontOfThree(raw[1..], 2, 8 * num, 4 * (num + 1));
    SliceAfter(raw, 1, 0, 2);
    assert raw[1..][2..] == raw[INT_HEADER..] && raw[1..][2 + 8 * num..] == raw[INT_HEADER + 8 * num..];
  }

  lemma {:induction false} FrontOfThree(b: Data, n: nat, m: nat, k: nat)
    requires n + m + k <= |b|
    ensures b[0..n] + b[n..][..m] + b[n + m..][..k] <= b
  {
  }

  lemma {:induction false} SpelledLeaf(raw: Data, keys: seq<int>, values: seq<RowId>, next: nat)
    requires |raw| == PAGE_SIZE && Spells(raw, Leaf(keys, values, next))
    ensures DecodeNode(raw) == Some(Leaf(keys, values, next))
  {
    var (es, h) := (Entries(keys, values), LeafHeader(|keys|, next));
    var rest := raw[LEAF_HEADER + ENTRY_SIZE * |keys|..];
    assert raw == h + PackEntries(es) + rest;
    assert raw[1..3] == h[1..3] == Pack(|keys|, 2) && raw[3..7] == h[3..7] == Pack(next, 4);
    assert raw[LEAF_HEADER..] == PackEntries(es) + rest;
    UnpackPack16(|keys|);
    UnpackPack32(next);
    UnpackPackEntries(es, rest);
  }

  lemma {:induction false} SplitThree(d: Data, a: Data, b: Data, c: Data) returns (rest: Data)
    requires a + b + c <= d
    ensures d[..|a|] == a && d[|a|..] == b + (c + rest) && d[|a| + |b|..] == c + rest
  {
    rest := d[|a| + |b| + |c|..];
    assert d == (a + b + c) + rest;
  }

  lemma {:induction false} SpelledInternal(raw: Data, keys: seq<int>, children: seq<nat>)
    requires |raw| == PAGE_SIZE && Spells(raw, Internal(keys, children))
    ensures DecodeNode(raw) == Some(Internal(keys, children))
  {
    var rest := SplitThree(raw[1..], Pack(|keys|, 2), PackKeys(keys), PackList(children));
    assert raw[1..3] == raw[1..][..2];
    assert raw[INT_HEADER..] == raw[1..][2..] && raw[INT_HEADER + 8 * |keys|..] == raw[1..][2 + 8 * |keys|..];
    UnpackPack16(|keys|);
    UnpackPackKeys(keys, PackList(children) + rest);
    UnpackPackList(children, rest);
  }

  // -- storing and loading -----------------------------------------------------

  /** `_store`: pack a node into a zeroed page. */
  method StoreNode(n: Node) returns (raw: Data)
    requires NodeFits(n)
    ensures raw == EncodeNode(n)
  {
    var buf := new byte[PAGE_SIZE](_ => 0);
    assert buf[..] == Zeros(PAGE_SIZE);
    if n.Leaf? {
      WriteLeaf(buf, n.keys, n.values, n.next);
    } else {
      WriteInternal(buf, n.keys, n.children);
    }
    raw := buf[..];
  }

  method WriteLeaf(buf: array<byte>, keys: seq<int>, values: seq<RowId>, next: nat)
    requires NodeFits(Leaf(keys, values, next)) && buf[..] == Zeros(PAGE_SIZE)
    modifies buf
    ensures buf[..] == EncodeNode(Leaf(keys, values, next))
  {
    ghost var header, body := LeafHeader(|keys|, next), PackEntries(Entries(keys, values));
    PutAtTwice(buf[..], 0, header, body);
    PutAtZeros(header + body);
    PackInto(buf, 0, LeafHeader(|keys|, next));
    WriteEntries(buf, LEAF_HEADER, Entries(keys, values));
  }

  method WriteInternal(buf: array<byte>, keys: seq<int>, children: seq<nat>)
    requires NodeFits(Internal(keys, children)) && buf[..] == Zeros(PAGE_SIZE)
    modifies buf
    ensures buf[..] == EncodeNode(Internal(keys, children))
  {
    ghost var header, body, tail := IntHeader(|keys|), PackKeys(keys), PackList(children);
    PutAtTwice(buf[..], 0, header, body);
    PutAtTwice(buf[..], 0, header + body, tail);
    PutAtZeros(header + body + tail);
    PackInto(buf, 0, IntHeader(|keys|));
    WriteKeys(buf, INT_HEADER, keys);
    WriteList(buf, INT_HEADER + 8 * |keys|, children);
  }

  /** The first i keys have been written into page d at `at`, which made it b. */
  ghost predicate KeysWritten(d: Data, b: Data, at: nat, keys: seq<int>, i: nat) {
    && i <= |keys| && KeysFit(keys[..i]) && at + 8 * i <= |d|
    && b == PutAt(d, at, PackKeys(keys[..i]))
  }

  lemma {:induction false} KeysWrittenStep(d: Data, b: Data, at: nat, keys: seq<int>, i: nat)
    requires KeysWritten(d, b, at, keys, i) && i < |keys| && IsInt64(keys[i]) && at + 8 * |keys| <= |d|
    ensures KeysWritten(d, PutAt(b, at + 8 * i, PackSigned(keys[i])), at, keys, i + 1)
  {
    assert keys[..i + 1] == keys[..i] + [keys[i]];
    PackKeysAppend(keys[..i], keys[i]);
    PutAtTwice(d, at, PackKeys(keys[..i]), PackSigned(keys[i]));
  }

  lemma {:induction false} KeysWrittenAll(d: Data, at: nat, keys: seq<int>)
    requires at <= |d|
    ensures KeysWritten(d, d, at, keys, 0)
    ensures forall b :: KeysWritten(d, b, at, keys, |keys|) ==> b == PutAt(d, at, PackKeys(keys))
  {
    assert d == PutAt(d, at, []);
    assert keys[..|keys|] == keys;
  }

  method WriteKeys(buf: array<byte>, at: nat, keys: seq<int>)
    requires KeysFit(keys) && at + 8 * |keys| <= buf.Length
    modifies buf
    ensures buf[..] == PutAt(old(buf[..]), at, PackKeys(keys))
  {
    ghost var before := buf[..];
    KeysWrittenAll(before, at, keys);
    var i := 0;
    while i < |keys|
      invariant KeysWritten(before, buf[..], at, keys, i)
    {
      KeysWrittenStep(before, buf[..], at, keys, i);
      PackInto(buf, at + 8 * i, PackSigned(keys[i]));
      i := i + 1;
    }
  }

  /** The first i children have been written into page d at `at`, which made it b. */
  ghost predicate ListWritten(d: Data, b: Data, at: nat, ns: seq<nat>, i: nat) {
    i <= |ns| && at + 4 * i <= |d| && b == PutAt(d, at, PackList(ns[..i]))
  }

  lemma {:induction false} ListWrittenStep(d: Data, b: Data, at: nat, ns: seq<nat>, i: nat)
    requires ListWritten(d, b, at, ns, i) && i < |ns| && at + 4 * |ns| <= |d|
    ensures ListWritten(d, PutAt(b, at + 4 * i, Pack(ns[i], 4)), at, ns, i + 1)
  {
    assert ns[..i + 1] == ns[..i] + [ns[i]];
    PackListAppend(ns[..i], ns[i]);
    PutAtTwice(d, at, PackList(ns[..i]), Pack(ns[i], 4));
  }

  lemma {:induction false} ListWrittenAll(d: Data, at: nat, ns: seq<nat>)
    requires at <= |d|
    ensures ListWritten(d, d, at, ns, 0)
    ensures forall b :: ListWritten(d, b, at, ns, |ns|) ==> b == PutAt(d, at, PackList(ns))
  {
    assert d == PutAt(d, at, []);
    assert ns[..|ns|] == ns;
  }

  method WriteList(buf: array<byte>, at: nat, ns: seq<nat>)
    requires at + 4 * |ns| <= buf.Length
    modifies buf
    ensures buf[..] == PutAt(old(buf[..]), at, PackList(ns))
  {
    ghost var before := buf[..];
    ListWrittenAll(before, at, ns);
    var i := 0;
    while i < |ns|
      invariant ListWritten(before, buf[..], at, ns, i)
    {
      ListWrittenStep(before, buf[..], at, ns, i);
      PackInto(buf, at + 4 * i, Pack(ns[i], 4));
      i := i + 1;
    }
  }

  /** `_load`: read a node back from its page. */
  method LoadNode(raw: Data) returns (n: Option<Node>)
    requires |raw| == PAGE_SIZE
    ensures n == DecodeNode(raw)
  {
    var num := Unpack(raw[1..3]);
    if raw[0] == LEAF {
      if LEAF_HEADER + ENTRY_SIZE * num > PAGE_SIZE { return None; }
      var es := ReadEntries(raw, LEAF_HEADER, num);
      return Some(Leaf(Keys(es), Rids(es), Unpack(raw[3..7])));
    }
    if INT_HEADER + 8 * num + 4 * (num + 1) > PAGE_SIZE { return None; }
    var keys := ReadKeys(raw, INT_HEADER, num);
    var children := ReadList(raw, INT_HEADER + 8 * num, num + 1);
    n := Some(Internal(keys, children));
  }

  method ReadKeys(raw: Data, at: nat, n: nat) returns (keys: seq<int>)
    requires at + 8 * n <= |raw|
    ensures keys == UnpackKeys(raw[at..], n)
  {
    keys := [];
    var pos := at;
    for i := 0 to n
      invariant pos == at + 8 * i && keys == UnpackKeys(raw[at..], i)
    {
      UnpackKeysAppend(raw[at..], i);
      SliceAfter(raw, at, 8 * i, 8 * (i + 1));
      keys := keys + [UnpackSigned(raw[pos..pos + 8])];
      pos := pos + 8;
    }
  }

  method ReadList(raw: Data, at: nat, n: nat) returns (ns: seq<nat>)
    requires at + 4 * n <= |raw|
    ensures ns == UnpackList(raw[at..], n)
  {
    ns := [];
    var pos := at;
    for i := 0 to n
      invariant pos == at + 4 * i && ns == UnpackList(raw[at..], i)
    {
      UnpackListAppend(raw[at..], i);
      SliceAfter(raw, at, 4 * i, 4 * (i + 1));
      ns := ns + [Unpack(raw[pos..pos + 4])];
      pos := pos + 4;
    }
  }
}
