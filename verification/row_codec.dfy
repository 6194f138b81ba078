/** Rows as bytes, column by column (queryx/storage/page.py). */
module RowCodec {
  import opened Bytes
  import opened Wrappers

  datatype ColumnType = INT | TEXT

  /** A stored value; text is its encoded bytes. */
  datatype Field = IntField(i: int) | TextField(text: Data)

  predicate FieldFits(t: ColumnType, f: Field) {
    match t
    case INT => f.IntField? && IsInt64(f.i)
    case TEXT => f.TextField? && |f.text| <= 0xFFFF
  }

  predicate RowFits(schema: seq<ColumnType>, row: seq<Field>) {
    |schema| == |row| && forall k :: 0 <= k < |schema| ==> FieldFits(schema[k], row[k])
  }

  function PackField(f: Field): Data
    requires FieldFits(if f.IntField? then INT else TEXT, f)
  {
    match f
    case IntField(i) => PackSigned(i)
    case TextField(text) => Pack(|text|, 2) + text
  }

  function Serialize(schema: seq<ColumnType>, row: seq<Field>): Data
    requires RowFits(schema, row)
  {
    if row == [] then [] else PackField(row[0]) + Serialize(schema[1..], row[1..])
  }

  /** Python's slice: it stops at the end of the data. */
  function Slice(d: Data, lo: nat, hi: nat): Data
    requires lo <= hi
  {
    if lo >= |d| then [] else d[lo..if hi <= |d| then hi else |d|]
  }

  /** One field from position pos, and the position after it; None if its fixed part is cut off. */
  function ReadField(t: ColumnType, d: Data, pos: nat): Option<(Field, nat)> {
    match t
    case INT =>
      if pos + 8 > |d| then None else Some((IntField(UnpackSigned(d[pos..pos + 8])), pos + 8))
    case TEXT =>
      if pos + 2 > |d| then None
      else
        var length := Unpack(d[pos..pos + 2]);
        Some((TextField(Slice(d, pos + 2, pos + 2 + length)), pos + 2 + length))
  }

  /** The fields of the columns from position pos on. */
  function Deserialize(schema: seq<ColumnType>, d: Data, pos: nat): Option<seq<Field>> {
    if schema == [] then Some([])
    else
      match ReadField(schema[0], d, pos)
      case None => None
      case Some((f, next)) =>
        match Deserialize(schema[1..], d, next)
        case None => None
        case Some(rest) => Some([f] + rest)
  }

  /** The bytes stand in the data at that position. */
  predicate At(d: Data, pos: nat, p: Data) {
    pos <= |d| && p <= d[pos..]
  }

  lemma {:induction false} AtParts(d: Data, pos: nat, p: Data, q: Data)
    requires At(d, pos, p + q)
    ensures At(d, pos, p) && At(d, pos + |p|, q)
  {
    var r := d[pos..];
    assert r[..|p|] == (p + q)[..|p|] == p;
    assert d[pos + |p|..] == r[|p|..] && (p + q)[|p|..] == q;
  }

  lemma {:induction false} AtSlice(d: Data, pos: nat, p: Data)
    requires At(d, pos, p)
    ensures pos + |p| <= |d| && d[pos..pos + |p|] == p
  {
    assert d[pos..][..|p|] == d[pos..pos + |p|];
  }

  lemma {:induction false} FieldReads(t: ColumnType, f: Field, d: Data, pos: nat)
    requires FieldFits(t, f) && At(d, pos, PackField(f))
    ensures ReadField(t, d, pos) == Some((f, pos + |PackField(f)|))
  {
    match f
    case IntField(i) =>
      AtSlice(d, pos, PackSigned(i));
      UnpackPackSigned(i);
    case TextField(text) =>
      AtParts(d, pos, Pack(|text|, 2), text);
      AtSlice(d, pos, Pack(|text|, 2));
      AtSlice(d, pos + 2, text);
      UnpackPack16(|text|);
  }

  lemma {:induction false} DeserializeStep(
      schema: seq<ColumnType>, d: Data, pos: nat, f: Field, next: nat, rest: seq<Field>)
    requires schema != [] && ReadField(schema[0], d, pos) == Some((f, next))
    requires Deserialize(schema[1..], d, next) == Some(rest)
    ensures Deserialize(schema, d, pos) == Some([f] + rest)
  {
  }

  lemma {:induction false} SerializeFirst(schema: seq<ColumnType>, row: seq<Field>)
    requires RowFits(schema, row) && row != []
    ensures FieldFits(schema[0], row[0]) && RowFits(schema[1..], row[1..])
    ensures Serialize(schema, row) == PackField(row[0]) + Serialize(schema[1..], row[1..])
  {
  }

  /** The first field reads back, and the others follow it. */
  lemma {:induction false} FirstReads(t: ColumnType, f: Field, rest: Data, d: Data, pos: nat) returns (next: nat)
    requires FieldFits(t, f) && At(d, pos, PackField(f) + rest)
    ensures ReadField(t, d, pos) == Some((f, next)) && At(d, next, rest)
  {
    next := pos + |PackField(f)|;
    AtParts(d, pos, PackField(f), rest);
    FieldReads(t, f, d, pos);
  }

  lemma {:induction false} RowReads(schema: seq<ColumnType>, row: seq<Field>, d: Data, pos: nat)
    requires RowFits(schema, row) && At(d, pos, Serialize(schema, row))
    ensures Deserialize(schema, d, pos) == Some(row)
    decreases |row|
  {
    if row != [] {
      SerializeFirst(schema, row);
      var next := FirstReads(schema[0], row[0], Serialize(schema[1..], row[1..]), d, pos);
      RowReads(schema[1..], row[1..], d, next);
      DeserializeStep(schema, d, pos, row[0], next, row[1..]);
      assert [row[0]] + row[1..] == row;
    }
  }

  /** Reading a row back from where it was written gives the row, whatever surrounds it. */
  lemma {:induction false} RowRoundTrip(schema: seq<ColumnType>, row: seq<Field>, a: Data, b: Data)
    requires RowFits(schema, row)
    ensures Deserialize(schema, a + Serialize(schema, row) + b, |a|) == Some(row)
  {
    RowReads(schema, row, a + Serialize(schema, row) + b, |a|);
  }

  /** The reading loop: it moves one position along the data and collects the fields. */
  method DeserializeRow(schema: seq<ColumnType>, d: Data) returns (r: Option<seq<Field>>)
    ensures r == Deserialize(schema, d, 0)
  {
    var values: seq<Field> := [];
    var pos := 0;
    PrefixedNone(Deserialize(schema, d, 0));
    assert schema[0..] == schema;
    for k := 0 to |schema|
      invariant Deserialize(schema, d, 0) == Prefixed(values, Deserialize(schema[k..], d, pos))
    {
      var field := ReadField(schema[k], d, pos);
      if field.None? { return None; }
      PrefixedTwice(values, field.value.0, Deserialize(schema[k + 1..], d, field.value.1));
      assert schema[k..][1..] == schema[k + 1..];
      values := values + [field.value.0];
      pos := field.value.1;
    }
    assert values + [] == values;
    r := Some(values);
  }

  function Prefixed(values: seq<Field>, rest: Option<seq<Field>>): Option<seq<Field>> {
    match rest
    case None => None
    case Some(more) => Some(values + more)
  }

  lemma {:induction false} PrefixedNone(rest: Option<seq<Field>>)
    ensures Prefixed([], rest) == rest
  {
    if rest.Some? { assert [] + rest.value == rest.value; }
  }

  lemma {:induction false} PrefixedTwice(values: seq<Field>, f: Field, rest: Option<seq<Field>>)
    ensures Prefixed(values, Prefixed([f], rest)) == Prefixed(values + [f], rest)
  {
    if rest.Some? { assert values + ([f] + rest.value) == (values + [f]) + rest.value; }
  }

  lemma {:induction false} SerializeFrom(schema: seq<ColumnType>, row: seq<Field>, k: nat, d: Data)
    requires RowFits(schema, row) && k < |row|
    ensures d + Serialize(schema[k..], row[k..]) == (d + PackField(row[k])) + Serialize(schema[k + 1..], row[k + 1..])
  {
  }

  /** The writing loop. */
  method SerializeRow(schema: seq<ColumnType>, row: seq<Field>) returns (d: Data)
    requires RowFits(schema, row)
    ensures d == Serialize(schema, row)
  {
    d := [];
    for k := 0 to |row|
      invariant d + Serialize(schema[k..], row[k..]) == Serialize(schema, row)
    {
      SerializeFrom(schema, row, k, d);
      d := d + PackField(row[k]);
    }
  }
}
