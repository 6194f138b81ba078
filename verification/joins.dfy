/** Two-table joins: the nested loop and the index-driven one (queryx/execution/operators.py,
    queryx/database.py). */
module Joins {
  import opened Wrappers
  import opened Sequences
  import opened Sql
  import opened Planner
  import B = BTreeShape

  // -- column lookup ---------------------------------------------------------

  /** What follows the last dot. */
  function Bare(name: string): string {
    if '.' in name then
      var i := FirstDot(name);
      Bare(name[i + 1..])
    else name
  }

  function FirstDot(name: string): (i: nat)
    requires '.' in name
    ensures i < |name| && name[i] == '.'
  {
    if name[0] == '.' then 0 else 1 + FirstDot(name[1..])
  }

  /** Full names to positions; a later column of the same name wins. */
  function FullNames(names: seq<string>, from: nat): Index {
    if names == [] then map[] else map[names[0] := from] + FullNames(names[1..], from + 1)
  }

  function BareCount(names: seq<string>, bare: string): nat {
    if names == [] then 0 else (if Bare(names[0]) == bare then 1 else 0) + BareCount(names[1..], bare)
  }

  /** Bare names to positions, where only one column has the name. */
  function BareNames(all: seq<string>, names: seq<string>, from: nat): Index {
    if names == [] then map[]
    else
      var rest := BareNames(all, names[1..], from + 1);
      if BareCount(all, Bare(names[0])) == 1 then rest + map[Bare(names[0]) := from] else rest
  }

  /** `column_index`: full names, and unambiguous bare ones that do not clash with a full name. */
  function ColumnIndex(names: seq<string>): Index {
    BareNames(names, names, 0) + FullNames(names, 0)
  }

  /** b is what follows the last dot of the name, or the whole of a name without one. */
  predicate IsBare(name: string, b: string) {
    '.' !in b && (name == b || (|b| < |name| && name[|name| - |b| - 1..] == "." + b))
  }

  lemma {:induction false} BareIff(name: string, b: string)
    ensures Bare(name) == b <==> IsBare(name, b)
    decreases |name|
  {
    var k := |name| - |b| - 1;
    if 0 <= k && name[k..] == "." + b { assert name[k] == name[k..][0] == '.'; }
    if '.' in name {
      BareIff(name[FirstDot(name) + 1..], b);
      BareBehind(name, FirstDot(name), b);
    }
  }

  lemma {:induction false} BareBehind(name: string, i: nat, b: string)
    requires '.' in name && i == FirstDot(name)
    ensures IsBare(name, b) <==> IsBare(name[i + 1..], b)
  {
    var (rest, k) := (name[i + 1..], |name| - |b| - 1);
    FirstDotFirst(name);
    if 0 <= k && name[k..] == "." + b {
      assert name[k] == name[k..][0] == '.';
      Behind(name, i, k);
    }
    if i < k { Behind(name, i, k); }
    assert name[i..] == "." + rest;
  }

  lemma {:induction false} Behind(name: string, i: nat, k: nat)
    requires i < |name| && i <= k <= |name|
    ensures i < k ==> name[i + 1..][k - i - 1..] == name[k..]
    ensures i == k ==> name[i + 1..] == name[k..][1..]
  {
  }

  lemma {:induction false} FirstDotFirst(name: string)
    requires '.' in name
    ensures forall k :: 0 <= k < FirstDot(name) ==> name[k] != '.'
  {
    if name[0] != '.' { FirstDotFirst(name[1..]); }
  }

  /** Column i is the last one of this name. */
  predicate LastNamed(names: seq<string>, name: string, i: nat) {
    i < |names| && names[i] == name && name !in names[i + 1..]
  }

  /** Column i is the only one of this bare name. */
  predicate OnlyBare(names: seq<string>, b: string, i: nat) {
    i < |names| && Bare(names[i]) == b && forall j :: 0 <= j < |names| && j != i ==> Bare(names[j]) != b
  }

  lemma {:induction false} FullNamesIff(names: seq<string>, from: nat, name: string, i: nat)
    ensures name in FullNames(names, from) <==> name in names
    ensures name in FullNames(names, from) ==> FullNames(names, from)[name] >= from
    ensures name in FullNames(names, from) && FullNames(names, from)[name] == from + i <==> LastNamed(names, name, i)
  {
    if names != [] {
      var rest := names[1..];
      FullNamesIff(rest, from + 1, name, if i == 0 then 0 else i - 1);
      if i == 0 { assert names[0 + 1..] == rest; } else if i < |names| { assert names[i + 1..] == rest[i..]; }
    }
  }

  lemma {:induction false} CountNone(names: seq<string>, b: string)
    ensures BareCount(names, b) == 0 <==> forall j :: 0 <= j < |names| ==> Bare(names[j]) != b
  {
    if names != [] {
      CountNone(names[1..], b);
      assert names == [names[0]] + names[1..];
    }
  }

  lemma {:induction false} CountOne(names: seq<string>, b: string, i: nat)
    requires i < |names| && Bare(names[i]) == b
    ensures BareCount(names, b) == 1 <==> OnlyBare(names, b, i)
  {
    var rest := names[1..];
    assert names == [names[0]] + rest;
    CountNone(rest, b);
    if i > 0 {
      CountOne(rest, b, i - 1);
      if OnlyBare(rest, b, i - 1) && Bare(names[0]) != b { assert OnlyBare(names, b, i); }
    }
  }

  lemma {:induction false} BareNamesIff(all: seq<string>, from: nat, b: string, i: nat)
    requires from <= |all|
    ensures var m := BareNames(all, all[from..], from);
      b in m && m[b] == i <==> from <= i && OnlyBare(all, b, i)
    decreases |all| - from
  {
    if from < |all| {
      assert all[from..][1..] == all[from + 1..];
      BareNamesIff(all, from + 1, b, i);
      CountOne(all, Bare(all[from]), from);
    }
  }

  /** What a name of a query refers to: the last column of that full name if there is one, and
      otherwise the only column of that bare name. */
  lemma {:induction false} ColumnIndexIff(names: seq<string>, name: string, i: nat)
    ensures name in ColumnIndex(names) && ColumnIndex(names)[name] == i <==>
      if name in names then LastNamed(names, name, i) else OnlyBare(names, name, i)
  {
    FullNamesIff(names, 0, name, i);
    assert names[0..] == names;
    BareNamesIff(names, 0, name, i);
  }

  /** A column's full name is found at its position. */
  lemma {:induction false} ColumnAt(names: seq<string>, i: nat)
    requires NoRepeats(names) && i < |names|
    ensures names[i] in ColumnIndex(names) && ColumnIndex(names)[names[i]] == i
  {
    ColumnIndexIff(names, names[i], i);
  }

  // -- what the joins compute ------------------------------------------------

  /** One left row against every right row. */
  function Pairs(l: Row, rights: seq<Row>, on: Expr, idx: Index): seq<Row> {
    if rights == [] then []
    else (if Passes(on, l + rights[0], idx) then [l + rights[0]] else []) + Pairs(l, rights[1..], on, idx)
  }

  function NestedLoop(lefts: seq<Row>, rights: seq<Row>, on: Expr, idx: Index): seq<Row> {
    if lefts == [] then [] else Pairs(lefts[0], rights, on, idx) + NestedLoop(lefts[1..], rights, on, idx)
  }

  predicate Increasing(js: seq<nat>, from: nat, to: nat) {
    (forall k :: 0 <= k < |js| ==> from <= js[k] < to) && forall k, m :: 0 <= k < m < |js| ==> js[k] < js[m]
  }

  /** These are the right rows, from one on, that join with a left row, and what they join to. */
  ghost predicate Joining(l: Row, rights: seq<Row>, from: nat, on: Expr, idx: Index, js: seq<nat>, rows: seq<Row>) {
    && |js| == |rows| && Increasing(js, from, |rights|)
    && (forall k :: 0 <= k < |js| ==> rows[k] == l + rights[js[k]])
    && forall j :: from <= j < |rights| ==> (j in js <==> Passes(on, l + rights[j], idx))
  }

  lemma {:induction false} PairsAre(l: Row, rights: seq<Row>, from: nat, on: Expr, idx: Index) returns (js: seq<nat>)
    requires from <= |rights|
    ensures Joining(l, rights, from, on, idx, js, Pairs(l, rights[from..], on, idx))
    decreases |rights| - from
  {
    if from == |rights| {
      js := [];
    } else {
      PairsStep(l, rights, from, on, idx);
      var more := PairsAre(l, rights, from + 1, on, idx);
      var rows := Pairs(l, rights[from + 1..], on, idx);
      if Passes(on, l + rights[from], idx) {
        js := [from] + more;
        JoiningTake(l, rights, from, on, idx, more, rows);
      } else {
        js := more;
        assert [] + rows == rows && from !in more;
      }
    }
  }

  lemma {:induction false} JoiningTake(
      l: Row, rights: seq<Row>, from: nat, on: Expr, idx: Index, more: seq<nat>, rows: seq<Row>)
    requires from < |rights| && Joining(l, rights, from + 1, on, idx, more, rows) && Passes(on, l + rights[from], idx)
    ensures Joining(l, rights, from, on, idx, [from] + more, [l + rights[from]] + rows)
  {
    var (js, all) := ([from] + more, [l + rights[from]] + rows);
    forall k | 0 <= k < |js| ensures js[k] < |rights| && all[k] == l + rights[js[k]] {
      if k > 0 { assert js[k] == more[k - 1] && all[k] == rows[k - 1]; }
    }
    forall j | from <= j < |rights| ensures j in js <==> Passes(on, l + rights[j], idx) {
      assert j in js <==> j == from || j in more;
    }
  }

  /** In the order of the left rows and, for each, of the right ones. */
  ghost predicate InTurn(ps: seq<(nat, nat)>) {
    forall k, m :: 0 <= k < m < |ps| ==> ps[k].0 < ps[m].0 || (ps[k].0 == ps[m].0 && ps[k].1 < ps[m].1)
  }

  /** These are the pairs of rows, left ones from one on, of which the predicate holds, each once and in
      turn, and what they join to. */
  ghost predicate AllJoined(
      lefts: seq<Row>, from: nat, rights: seq<Row>, on: Expr, idx: Index, ps: seq<(nat, nat)>, rows: seq<Row>)
  {
    && |ps| == |rows| && InTurn(ps)
    && (forall k :: 0 <= k < |ps| ==> from <= ps[k].0 < |lefts| && ps[k].1 < |rights|)
    && (forall k :: 0 <= k < |ps| ==> rows[k] == lefts[ps[k].0] + rights[ps[k].1])
    && (forall i, j :: from <= i < |lefts| && 0 <= j < |rights| ==>
          ((i, j) in ps <==> Passes(on, lefts[i] + rights[j], idx)))
  }

  /** The nested loop joins every pair of rows that the predicate holds of, each once, in the order of the
      left rows and, for each, of the right ones. */
  lemma {:induction false} NestedLoopAre(lefts: seq<Row>, rights: seq<Row>, on: Expr, idx: Index)
    returns (ps: seq<(nat, nat)>)
    ensures AllJoined(lefts, 0, rights, on, idx, ps, NestedLoop(lefts, rights, on, idx))
  {
    assert lefts[0..] == lefts;
    ps := NestedLoopFrom(lefts, 0, rights, on, idx);
  }

  lemma {:induction false} NestedLoopFrom(lefts: seq<Row>, from: nat, rights: seq<Row>, on: Expr, idx: Index)
    returns (ps: seq<(nat, nat)>)
    requires from <= |lefts|
    ensures AllJoined(lefts, from, rights, on, idx, ps, NestedLoop(lefts[from..], rights, on, idx))
    decreases |lefts| - from
  {
    if from == |lefts| {
      ps := [];
    } else {
      var l := lefts[from];
      assert rights[0..] == rights && lefts[from..][0] == l && lefts[from..][1..] == lefts[from + 1..];
      var js := PairsAre(l, rights, 0, on, idx);
      var more := NestedLoopFrom(lefts, from + 1, rights, on, idx);
      var first := seq(|js|, k requires 0 <= k < |js| => (from, js[k]));
      ps := first + more;
      FirstHas(js, from, first);
      JoinedTurn(lefts, from, rights, js, first, more);
      JoinedMore(lefts, from, rights, on, idx, js, Pairs(l, rights, on, idx), first, more,
        NestedLoop(lefts[from + 1..], rights, on, idx));
    }
  }

  lemma {:induction false} FirstHas(js: seq<nat>, from: nat, first: seq<(nat, nat)>)
    requires |first| == |js| && forall k :: 0 <= k < |js| ==> first[k] == (from, js[k])
    ensures forall i, j :: (i, j) in first <==> i == from && j in js
  {
    forall j | j in js ensures (from, j) in first {
      var k :| 0 <= k < |js| && js[k] == j;
      assert first[k] == (from, j);
    }
  }

  lemma {:induction false} JoinedTurn(
      lefts: seq<Row>, from: nat, rights: seq<Row>, js: seq<nat>, first: seq<(nat, nat)>, more: seq<(nat, nat)>)
    requires Increasing(js, 0, |rights|) && InTurn(more) && from < |lefts|
    requires |first| == |js| && forall k :: 0 <= k < |js| ==> first[k] == (from, js[k])
    requires forall k :: 0 <= k < |more| ==> from < more[k].0
    ensures InTurn(first + more)
  {
  }

  lemma {:induction false} JoinedMore(
      lefts: seq<Row>, from: nat, rights: seq<Row>, on: Expr, idx: Index, js: seq<nat>, row: seq<Row>,
      first: seq<(nat, nat)>, more: seq<(nat, nat)>, rows: seq<Row>)
    requires from < |lefts| && Joining(lefts[from], rights, 0, on, idx, js, row)
    requires AllJoined(lefts, from + 1, rights, on, idx, more, rows)
    requires |first| == |js| && forall k :: 0 <= k < |js| ==> first[k] == (from, js[k])
    requires (forall i, j :: (i, j) in first <==> i == from && j in js) && InTurn(first + more)
    ensures AllJoined(lefts, from, rights, on, idx, first + more, row + rows)
  {
    var (ps, all) := (first + more, row + rows);
    forall k | 0 <= k < |ps|
      ensures from <= ps[k].0 < |lefts| && ps[k].1 < |rights| && all[k] == lefts[ps[k].0] + rights[ps[k].1]
    {
      if k < |first| {
        assert ps[k] == first[k] && all[k] == row[k];
      } else {
        assert ps[k] == more[k - |first|] && all[k] == rows[k - |first|];
      }
    }
    JoinedHas(from, first, more);
  }

  lemma {:induction false} JoinedHas(from: nat, first: seq<(nat, nat)>, more: seq<(nat, nat)>)
    requires forall k :: 0 <= k < |more| ==> from < more[k].0
    ensures forall p :: p in more ==> from < p.0
    ensures forall p :: p in first + more <==> p in first || p in more
  {
  }

  /** One left row with the rows at the given addresses. */
  function Fetched(l: Row, heap: seq<Stored>, rids: seq<B.RowId>): seq<Row> {
    if rids == [] then []
    else
      var found := Lookup(heap, rids[0]);
      (if found == [] then [] else [l + found[0].row]) + Fetched(l, heap, rids[1..])
  }

  /** One left row with the rows that the index's search finds under its key. */
  function Probe(l: Row, keyPos: nat, heap: seq<Stored>, index: Held): seq<Row>
    requires keyPos < |l| && l[keyPos].IntV? && Searchable(index)
  {
    Fetched(l, heap, Found(index, l[keyPos].i))
  }

  /** Left rows carry an integer in the join column. */
  predicate Keyed(lefts: seq<Row>, keyPos: nat) {
    forall l: Row :: l in lefts ==> keyPos < |l| && l[keyPos].IntV?
  }

  function IndexLoop(lefts: seq<Row>, keyPos: nat, heap: seq<Stored>, index: Held): seq<Row>
    requires Keyed(lefts, keyPos) && Searchable(index)
  {
    if lefts == [] then [] else Probe(lefts[0], keyPos, heap, index) + IndexLoop(lefts[1..], keyPos, heap, index)
  }

  // -- the operators ---------------------------------------------------------

  class NestedLoopJoin {
    var left: seq<Row>           // what the left scan has yet to yield
    const rights: seq<Row>       // the right scan, read once at open
    const on: Expr
    const idx: Index
    var leftRow: Option<Row>
    var ri: nat

    ghost predicate Valid()
      reads this
    {
      ri <= |rights|
    }

    /** The rows the operator has yet to yield. */
    ghost function Remaining(): seq<Row>
      requires Valid()
      reads this
    {
      (if leftRow.Some? then Pairs(leftRow.value, rights[ri..], on, idx) else []) + NestedLoop(left, rights, on, idx)
    }

    constructor (left: seq<Row>, rights: seq<Row>, on: Expr, idx: Index)
      ensures Valid() && Remaining() == NestedLoop(left, rights, on, idx)
    {
      this.left, this.rights, this.on, this.idx := left, rights, on, idx;
      leftRow, ri := None, 0;
    }

    /** Start on the next left row. */
    method TakeLeft()
      requires Valid() && leftRow.None? && left != []
      modifies `left, `leftRow, `ri
      ensures Valid() && leftRow.Some? && |left| < |old(left)| && Remaining() == old(Remaining())
    {
      leftRow, left, ri := Some(left[0]), left[1..], 0;
      assert rights[0..] == rights;
    }

    /** Walk the right rows for the current left row up to the next match; drop the left row when
        there is none. */
    method Advance() returns (row: Option<Row>)
      requires Valid() && leftRow.Some?
      modifies `leftRow, `ri
      ensures Valid()
      ensures row.None? ==> leftRow.None? && Remaining() == old(Remaining())
      ensures row.Some? ==> old(Remaining()) == [row.value] + Remaining()
    {
      ghost var l, tail := leftRow.value, NestedLoop(left, rights, on, idx);
      ghost var all := Pairs(l, rights[ri..], on, idx);
      while ri < |rights|
        invariant ri <= |rights| && leftRow == Some(l)
        invariant Pairs(l, rights[ri..], on, idx) == all
      {
        var combined := leftRow.value + rights[ri];
        PairsStep(l, rights, ri, on, idx);
        ri := ri + 1;
        if Passes(on, combined, idx) {
          Regroup(combined, Pairs(l, rights[ri..], on, idx), tail);
          return Some(combined);
        }
      }
      assert rights[ri..] == [] && [] + tail == tail;
      leftRow := None;
      row := None;
    }

    /** The next joined row, if any. */
    method Next() returns (row: Option<Row>)
      requires Valid()
      modifies `left, `leftRow, `ri
      ensures Valid()
      ensures row.None? ==> old(Remaining()) == [] && Remaining() == []
      ensures row.Some? ==> old(Remaining()) == [row.value] + Remaining()
    {
      while true
        invariant Valid() && Remaining() == old(Remaining())
        decreases |left|, leftRow.Some?
      {
        if leftRow.None? {
          if left == [] {
            return None;
          }
          TakeLeft();
        }
        row := Advance();
        if row.Some? {
          return;
        }
      }
    }
  }

  lemma {:induction false} Regroup(x: Row, a: seq<Row>, b: seq<Row>)
    ensures ([x] + a) + b == [x] + (a + b)
  {
  }

  lemma {:induction false} PairsStep(l: Row, rights: seq<Row>, i: nat, on: Expr, idx: Index)
    requires i < |rights|
    ensures Pairs(l, rights[i..], on, idx) ==
      (if Passes(on, l + rights[i], idx) then [l + rights[i]] else []) + Pairs(l, rights[i + 1..], on, idx)
  {
    assert rights[i..][0] == rights[i] && rights[i..][1..] == rights[i + 1..];
  }

  class IndexNestedLoopJoin {
    var left: seq<Row>
    const heap: seq<Stored>         // the right table
    const index: Held               // the index on its join column
    const keyPos: nat
    var leftRow: Option<Row>
    var pending: seq<B.RowId>

    ghost predicate Valid()
      reads this
    {
      Searchable(index) && Keyed(left, keyPos) && (pending != [] ==> leftRow.Some?)
    }

    ghost function Remaining(): seq<Row>
      requires Valid()
      reads this
    {
      (if leftRow.Some? then Fetched(leftRow.value, heap, pending) else []) + IndexLoop(left, keyPos, heap, index)
    }

    constructor (left: seq<Row>, heap: seq<Stored>, index: Held, keyPos: nat)
      requires Keyed(left, keyPos) && Searchable(index)
      ensures Valid() && Remaining() == IndexLoop(left, keyPos, heap, index)
    {
      this.left, this.heap, this.index, this.keyPos := left, heap, index, keyPos;
      leftRow, pending := None, [];
    }

    /** Probe the index with the next left row. */
    method TakeLeft()
      requires Valid() && pending == [] && left != []
      modifies `left, `leftRow, `pending
      ensures Valid() && |left| < |old(left)| && Remaining() == old(Remaining())
    {
      var l := left[0];
      assert l in left;
      leftRow, left := Some(l), left[1..];
      pending := Found(index, l[keyPos].i);
    }

    /** Fetch the listed rows up to the next live one. */
    method Advance() returns (row: Option<Row>)
      requires Valid()
      modifies `pending
      ensures Valid()
      ensures row.None? ==> pending == [] && Remaining() == old(Remaining())
      ensures row.Some? ==> old(Remaining()) == [row.value] + Remaining()
    {
      if pending == [] {
        return None;
      }
      ghost var l, tail := leftRow.value, IndexLoop(left, keyPos, heap, index);
      ghost var all := Fetched(l, heap, pending);
      while pending != []
        invariant Fetched(l, heap, pending) == all
        decreases |pending|
      {
        var found := Lookup(heap, pending[0]);
        pending := pending[1..];
        if found != [] {
          Regroup(l + found[0].row, Fetched(l, heap, pending), tail);
          return Some(leftRow.value + found[0].row);
        }
      }
      row := None;
    }

    /** The next joined row, if any. */
    method Next() returns (row: Option<Row>)
      requires Valid()
      modifies `left, `leftRow, `pending
      ensures Valid()
      ensures row.None? ==> old(Remaining()) == [] && Remaining() == []
      ensures row.Some? ==> old(Remaining()) == [row.value] + Remaining()
    {
      while true
        invariant Valid() && Remaining() == old(Remaining())
        decreases |left|
      {
        row := Advance();
        if row.Some? {
          return;
        }
        if left == [] {
          leftRow := None;
          return;
        }
        TakeLeft();
      }
    }
  }

  // -- equivalence -----------------------------------------------------------

  /** `left.x = right.y`, written either way: the column references, left one first. */
  function Equijoin(on: Expr, leftAlias: string, rightAlias: string): Option<(Expr, Expr)> {
    if !on.Comparison? || on.op != EQ || !on.left.Column? || !on.right.Column? then None
    else if on.left.table == Some(leftAlias) && on.right.table == Some(rightAlias) && leftAlias != rightAlias then
      Some((on.left, on.right))
    else if on.left.table == Some(rightAlias) && on.right.table == Some(leftAlias) && leftAlias != rightAlias then
      Some((on.right, on.left))
    else None
  }

  /** Just the equalities between a column of the one table and a column of the other are recognised. */
  lemma {:induction false} EquijoinIff(on: Expr, la: string, ra: string, lc: Expr, rc: Expr)
    ensures Equijoin(on, la, ra) == Some((lc, rc)) <==>
      && la != ra && (on == Comparison(EQ, lc, rc) || on == Comparison(EQ, rc, lc))
      && lc.Column? && lc.table == Some(la) && rc.Column? && rc.table == Some(ra)
  {
  }

  /** On a pair of rows, the join predicate says that the two columns are the same. */
  lemma {:induction false} EquijoinPasses(
      on: Expr, la: string, ra: string, leftNames: seq<string>, rightNames: seq<string>, lp: nat, rp: nat,
      l: Row, r: Row)
    requires Equijoin(on, la, ra).Some? && NoRepeats(leftNames + rightNames)
    requires lp < |leftNames| && rp < |rightNames| && |l| == |leftNames| && |r| == |rightNames|
    requires Key(Equijoin(on, la, ra).value.0) == leftNames[lp] && Key(Equijoin(on, la, ra).value.1) == rightNames[rp]
    ensures Passes(on, l + r, ColumnIndex(leftNames + rightNames)) <==> Same(l[lp], r[rp])
  {
    var names := leftNames + rightNames;
    var idx, row := ColumnIndex(names), l + r;
    var (lc, rc) := Equijoin(on, la, ra).value;
    ColumnAt(names, lp);
    ColumnAt(names, |leftNames| + rp);
    assert Evaluate(lc, row, idx) == Some(l[lp]) && Evaluate(rc, row, idx) == Some(r[rp]);
    assert Same(l[lp], r[rp]) == Same(r[rp], l[lp]);
  }

  /** The joined rows a left row yields, as stored right rows. */
  function Partners(l: Row, heap: seq<Stored>, on: Expr, idx: Index): seq<Stored> {
    if heap == [] then []
    else (if Passes(on, l + heap[0].row, idx) then [heap[0]] else []) + Partners(l, heap[1..], on, idx)
  }

  function Joined(l: Row, s: seq<Stored>): (r: seq<Row>)
    ensures |r| == |s|
  {
    seq(|s|, i requires 0 <= i < |s| => l + s[i].row)
  }

  lemma {:induction false} PairsPartners(l: Row, heap: seq<Stored>, on: Expr, idx: Index)
    ensures Pairs(l, Rows(heap), on, idx) == Joined(l, Partners(l, heap, on, idx))
  {
    if heap != [] {
      assert Rows(heap)[1..] == Rows(heap[1..]);
      PairsPartners(l, heap[1..], on, idx);
    }
  }

  lemma {:induction false} FetchedScan(l: Row, heap: seq<Stored>, rids: seq<B.RowId>)
    requires DistinctRids(heap)
    ensures Fetched(l, heap, rids) == Joined(l, IndexScan(heap, rids))
  {
    if rids != [] {
      var found := Lookup(heap, rids[0]);
      LookupIs(heap, rids[0]);
      assert Joined(l, found) == if found == [] then [] else [l + found[0].row];
      FetchedScan(l, heap, rids[1..]);
      JoinedAppend(l, Lookup(heap, rids[0]), IndexScan(heap, rids[1..]));
    }
  }

  lemma {:induction false} JoinedAppend(l: Row, a: seq<Stored>, b: seq<Stored>)
    ensures Joined(l, a + b) == Joined(l, a) + Joined(l, b)
  {
  }

  lemma {:induction false} PartnersHas(l: Row, heap: seq<Stored>, on: Expr, idx: Index)
    ensures forall s :: s in Partners(l, heap, on, idx) <==> s in heap && Passes(on, l + s.row, idx)
    ensures NoRepeats(heap) ==> NoRepeats(Partners(l, heap, on, idx))
  {
    if heap != [] {
      PartnersHas(l, heap[1..], on, idx);
      assert heap == [heap[0]] + heap[1..];
      if NoRepeats(heap) { TailNoRepeats(heap); }
    }
  }

  lemma {:induction false} JoinedBag(l: Row, a: seq<Stored>, b: seq<Stored>)
    requires multiset(a) == multiset(b)
    ensures multiset(Joined(l, a)) == multiset(Joined(l, b))
  {
    if a == [] {
      assert |multiset(b)| == |b|;
    } else {
      assert a[0] in multiset(b);
      var i :| 0 <= i < |b| && b[i] == a[0];
      ExceptBag(a, 0);
      ExceptBag(b, i);
      assert multiset(Except(a, 0)) == multiset(a) - multiset{a[0]};
      assert multiset(Except(b, i)) == multiset(b) - multiset{b[i]};
      JoinedBag(l, Except(a, 0), Except(b, i));
      ExceptJoined(l, a, 0);
      ExceptJoined(l, b, i);
    }
  }

  lemma {:induction false} ExceptJoined(l: Row, s: seq<Stored>, i: nat)
    requires i < |s|
    ensures multiset(Joined(l, s)) == multiset(Joined(l, Except(s, i))) + multiset{l + s[i].row}
  {
    ExceptBag(Joined(l, s), i);
    assert Joined(l, Except(s, i)) == Except(Joined(l, s), i);
  }

  /** Both joins are set up for the same equijoin, and the index agrees with the right table. */
  ghost predicate SameJoin(
      on: Expr, la: string, ra: string, leftNames: seq<string>, rightNames: seq<string>, lp: nat, rp: nat,
      heap: seq<Stored>, index: Held)
  {
    && Equijoin(on, la, ra).Some? && NoRepeats(leftNames + rightNames)
    && lp < |leftNames| && rp < |rightNames|
    && Key(Equijoin(on, la, ra).value.0) == leftNames[lp] && Key(Equijoin(on, la, ra).value.1) == rightNames[rp]
    && DistinctRids(heap) && Sane(index) && Agrees(Bag(index), heap, rp)
    && forall s :: s in heap ==> |s.row| == |rightNames|
  }

  /** The search for the left row's key overlooks no right row with that key. */
  predicate AllSeen(key: Value, rp: nat, heap: seq<Stored>, index: Held)
    requires key.IntV? && Searchable(index)
  {
    forall s :: s in heap && rp < |s.row| && s.row[rp] == key ==> !Overlooks(index, EQ, key.i, s.rid)
  }

  /** The rows a probe fetches, among those that scanning would join. */
  lemma {:induction false} ProbeFetches(
      on: Expr, la: string, ra: string, leftNames: seq<string>, rightNames: seq<string>, lp: nat, rp: nat,
      heap: seq<Stored>, index: Held, l: Row, s: Stored)
    requires SameJoin(on, la, ra, leftNames, rightNames, lp, rp, heap, index)
    requires |l| == |leftNames| && l[lp].IntV? && s in heap
    ensures Passes(on, l + s.row, ColumnIndex(leftNames + rightNames)) <==> s.row[rp] == l[lp]
    ensures s.rid in Found(index, l[lp].i) <==> s.row[rp] == l[lp] && !Overlooks(index, EQ, l[lp].i, s.rid)
  {
    EquijoinPasses(on, la, ra, leftNames, rightNames, lp, rp, l, s.row);
    ListedIff(index, heap, Sarg("", EQ, l[lp]), l[lp].i, s, map["" := rp]);
    assert RowIds(index, EQ, l[lp].i) == Some(Found(index, l[lp].i));
  }

  /** For each left row, probing the index yields no more than comparing it with every right row, and
      the same bag of joined rows exactly when the search overlooks no right row with its key. */
  lemma {:induction false} ProbeIff(
      on: Expr, la: string, ra: string, leftNames: seq<string>, rightNames: seq<string>, lp: nat, rp: nat,
      heap: seq<Stored>, index: Held, l: Row)
    requires SameJoin(on, la, ra, leftNames, rightNames, lp, rp, heap, index)
    requires |l| == |leftNames| && l[lp].IntV?
    ensures var probed := multiset(Probe(l, lp, heap, index));
      var scanned := multiset(Pairs(l, Rows(heap), on, ColumnIndex(leftNames + rightNames)));
      probed <= scanned && (probed == scanned <==> AllSeen(l[lp], rp, heap, index))
  {
    var idx := ColumnIndex(leftNames + rightNames);
    var rids := Found(index, l[lp].i);
    var viaIndex, viaScan := IndexScan(heap, rids), Partners(l, heap, on, idx);
    assert RowIds(index, EQ, l[lp].i) == Some(rids);
    RowIdsOnce(index, EQ, l[lp].i, heap, rp);
    ScanNoRepeats(heap, rids);
    assert NoRepeats(heap);
    PartnersHas(l, heap, on, idx);
    ScanHas(heap, rids);
    forall s | s in heap
      ensures s in viaScan <==> s.row[rp] == l[lp]
      ensures s in viaIndex <==> s.row[rp] == l[lp] && !Overlooks(index, EQ, l[lp].i, s.rid)
    {
      ProbeFetches(on, la, ra, leftNames, rightNames, lp, rp, heap, index, l, s);
    }
    PairsPartners(l, heap, on, idx);
    FetchedScan(l, heap, rids);
    SameJoinedIff(l, viaIndex, viaScan);
    assert AllSeen(l[lp], rp, heap, index) <==> forall s :: s in viaScan ==> s in viaIndex;
  }

  /** A list of stored rows inside another joins to a part of what the other joins to, and to the same
      bag exactly when nothing is missing. */
  lemma {:induction false} SameJoinedIff(l: Row, a: seq<Stored>, b: seq<Stored>)
    requires NoRepeats(a) && NoRepeats(b) && forall x :: x in a ==> x in b
    ensures multiset(Joined(l, a)) <= multiset(Joined(l, b))
    ensures multiset(Joined(l, a)) == multiset(Joined(l, b)) <==> forall x :: x in b ==> x in a
  {
    JoinedPart(l, a, b);
    if multiset(Joined(l, a)) == multiset(Joined(l, b)) {
      assert |multiset(Joined(l, a))| == |a| && |multiset(Joined(l, b))| == |b|;
      SameSize(a, b);
    }
    if forall x :: x in b ==> x in a {
      SameBag(a, b);
      JoinedBag(l, a, b);
    }
  }

  lemma {:induction false} JoinedPart(l: Row, a: seq<Stored>, b: seq<Stored>)
    requires NoRepeats(a) && forall x :: x in a ==> x in b
    ensures multiset(Joined(l, a)) <= multiset(Joined(l, b))
    decreases |a|
  {
    if a != [] {
      assert a[0] in a && a == [a[0]] + a[1..];
      var i :| 0 <= i < |b| && b[i] == a[0];
      TailNoRepeats(a);
      forall x | x in a[1..] ensures x in Except(b, i) {
        assert x in a;
        var k :| 0 <= k < |b| && b[k] == x;
        assert Except(b, i)[if k < i then k else k - 1] == x;
      }
      JoinedPart(l, a[1..], Except(b, i));
      assert Except(a, 0) == a[1..];
      ExceptJoined(l, a, 0);
      ExceptJoined(l, b, i);
    }
  }

  /** In particular always on a hash index, and on a tree without empty leaves. */
  lemma {:induction false} ProbeEquivalent(
      on: Expr, la: string, ra: string, leftNames: seq<string>, rightNames: seq<string>, lp: nat, rp: nat,
      heap: seq<Stored>, index: Held, l: Row)
    requires SameJoin(on, la, ra, leftNames, rightNames, lp, rp, heap, index) && Whole(index, EQ)
    requires |l| == |leftNames| && l[lp].IntV?
    ensures multiset(Probe(l, lp, heap, index))
         == multiset(Pairs(l, Rows(heap), on, ColumnIndex(leftNames + rightNames)))
  {
    ProbeIff(on, la, ra, leftNames, rightNames, lp, rp, heap, index, l);
    WholeSees(index, EQ, l[lp].i);
  }

  /** Parts of two bags that add up to the same are the same. */
  lemma {:induction false} PartsIff<T>(a: multiset<T>, a': multiset<T>, b: multiset<T>, b': multiset<T>)
    requires a <= a' && b <= b'
    ensures a + b <= a' + b'
    ensures a + b == a' + b' <==> a == a' && b == b'
  {
    if a + b == a' + b' {
      forall x ensures a[x] == a'[x] && b[x] == b'[x] {
        assert (a + b)[x] == (a' + b')[x];
      }
    }
  }

  /** The two joins agree on any left input, as a whole, exactly when the search for no left row's
      key overlooks a right row with that key. */
  lemma {:induction false} JoinIff(
      on: Expr, la: string, ra: string, leftNames: seq<string>, rightNames: seq<string>, lp: nat, rp: nat,
      heap: seq<Stored>, index: Held, lefts: seq<Row>)
    requires SameJoin(on, la, ra, leftNames, rightNames, lp, rp, heap, index)
    requires Keyed(lefts, lp) && forall l: Row :: l in lefts ==> |l| == |leftNames|
    ensures var probed := multiset(IndexLoop(lefts, lp, heap, index));
      var scanned := multiset(NestedLoop(lefts, Rows(heap), on, ColumnIndex(leftNames + rightNames)));
      && probed <= scanned
      && (probed == scanned <==> forall l: Row :: l in lefts ==> AllSeen(l[lp], rp, heap, index))
  {
    if lefts != [] {
      var l, idx := lefts[0], ColumnIndex(leftNames + rightNames);
      assert l in lefts && lefts == [l] + lefts[1..];
      ProbeIff(on, la, ra, leftNames, rightNames, lp, rp, heap, index, l);
      JoinIff(on, la, ra, leftNames, rightNames, lp, rp, heap, index, lefts[1..]);
      PartsIff(
        multiset(Probe(l, lp, heap, index)), multiset(Pairs(l, Rows(heap), on, idx)),
        multiset(IndexLoop(lefts[1..], lp, heap, index)), multiset(NestedLoop(lefts[1..], Rows(heap), on, idx)));
    }
  }

  /** In particular always on a hash index, and on a tree without empty leaves. */
  lemma {:induction false} JoinEquivalent(
      on: Expr, la: string, ra: string, leftNames: seq<string>, rightNames: seq<string>, lp: nat, rp: nat,
      heap: seq<Stored>, index: Held, lefts: seq<Row>)
    requires SameJoin(on, la, ra, leftNames, rightNames, lp, rp, heap, index) && Whole(index, EQ)
    requires Keyed(lefts, lp) && forall l: Row :: l in lefts ==> |l| == |leftNames|
    ensures multiset(IndexLoop(lefts, lp, heap, index))
         == multiset(NestedLoop(lefts, Rows(heap), on, ColumnIndex(leftNames + rightNames)))
  {
    JoinIff(on, la, ra, leftNames, rightNames, lp, rp, heap, index, lefts);
    forall l: Row | l in lefts ensures AllSeen(l[lp], rp, heap, index) {
      WholeSees(index, EQ, l[lp].i);
    }
  }
}
