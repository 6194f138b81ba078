/** Which pages the buffer pool holds: the LRU stack property. */
module BufferLru {
  import opened Bytes
  import opened Sequences
  import opened BufferModel

  datatype Access = Fetch(page: nat) | Make

  /** A pool that has just been opened on a file. */
  function Opened(disk: Memory, next: nat): Pool {
    Pool(disk, [], map[], {}, next, 0, 0)
  }

  function AccessStep(s: Pool, access: Access, empty: Data, capacity: nat): (r: Pool)
    requires Consistent(s, capacity) && capacity >= 1
    ensures Consistent(r, capacity)
  {
    match access
    case Fetch(p) => GetKeeps(s, p, capacity); Get(s, p, capacity)
    case Make => NewKeeps(s, empty, capacity); New(s, empty, capacity)
  }

  /** A run of `get_page` and `new_page` calls; the last access comes last. */
  function Run(s: Pool, accesses: seq<Access>, empty: Data, capacity: nat): (r: Pool)
    requires Consistent(s, capacity) && capacity >= 1
    ensures Consistent(r, capacity)
  {
    if accesses == [] then s
    else AccessStep(Run(s, accesses[..|accesses| - 1], empty, capacity), accesses[|accesses| - 1], empty, capacity)
  }

  /** What does not depend on the capacity: the pages there are, the next page number, and the
      distinct pages accessed so far, from least to most recently. */
  datatype Trace = Trace(pages: set<nat>, next: nat, recent: seq<nat>)

  function TraceStep(t: Trace, access: Access): Trace {
    match access
    case Fetch(p) => if p in t.pages then t.(recent := Without(t.recent, p) + [p]) else t
    case Make => Trace(t.pages + {t.next}, t.next + 1, Without(t.recent, t.next) + [t.next])
  }

  function TraceOf(t: Trace, accesses: seq<Access>): Trace {
    if accesses == [] then t else TraceStep(TraceOf(t, accesses[..|accesses| - 1]), accesses[|accesses| - 1])
  }

  /** The last n elements. */
  function Last(s: seq<nat>, n: nat): (r: seq<nat>)
    ensures |r| <= n && |r| <= |s|
  {
    if |s| <= n then s else s[|s| - n..]
  }

  lemma {:induction false} WithoutAppend(a: seq<nat>, b: seq<nat>, p: nat)
    ensures Without(a + b, p) == Without(a, p) + Without(b, p)
  {
    if a == [] {
      assert a + b == b;
    } else {
      assert (a + b)[0] == a[0] && (a + b)[1..] == a[1..] + b;
      WithoutAppend(a[1..], b, p);
      var h := if a[0] == p then [] else [a[0]];
      assert h + (Without(a[1..], p) + Without(b, p)) == (h + Without(a[1..], p)) + Without(b, p);
    }
  }

  lemma {:induction false} WithoutOne(s: seq<nat>, p: nat)
    requires NoRepeats(s) && p in s
    ensures |Without(s, p)| == |s| - 1
  {
    if s[0] == p {
      assert p !in s[1..];
      WithoutHas(s[1..], p);
    } else {
      assert s == [s[0]] + s[1..];
      WithoutOne(s[1..], p);
    }
  }

  lemma {:induction false} LastAppend(a: seq<nat>, b: seq<nat>, n: nat)
    requires |b| <= n && (a == [] || |b| == n)
    ensures Last(a + b, n) == b
  {
  }

  /** The sequence as what comes before its last n elements, and those. */
  lemma {:induction false} SplitLast(s: seq<nat>, n: nat) returns (a: seq<nat>, b: seq<nat>)
    requires NoRepeats(s)
    ensures s == a + b && b == Last(s, n) && (a == [] || |b| == n)
    ensures NoRepeats(b) && forall p :: p in a ==> p !in b
  {
    a, b := s[..|s| - |Last(s, n)|], Last(s, n);
    forall i, j | 0 <= i < j < |b| ensures b[i] != b[j] {
      assert s[|a| + i] == b[i] && s[|a| + j] == b[j];
    }
    forall p | p in a ensures p !in b {
      var i :| 0 <= i < |a| && a[i] == p;
      assert s[i] == p;
      assert forall j :: 0 <= j < |b| ==> s[|a| + j] == b[j];
    }
  }

  /** Accessing a page that the last n pages include moves it to their end. */
  lemma {:induction false} LastHit(s: seq<nat>, p: nat, n: nat)
    requires NoRepeats(s) && p in Last(s, n)
    ensures Last(Without(s, p) + [p], n) == Without(Last(s, n), p) + [p]
  {
    var a, b := SplitLast(s, n);
    WithoutAppend(a, b, p);
    WithoutHas(a, p);
    WithoutOne(b, p);
    assert (a + Without(b, p)) + [p] == a + (Without(b, p) + [p]);
    LastAppend(a, Without(b, p) + [p], n);
  }

  /** Accessing any other page pushes the least recent of them out, if there are n already. */
  lemma {:induction false} LastMiss(s: seq<nat>, p: nat, n: nat)
    requires NoRepeats(s) && p !in Last(s, n) && n >= 1
    ensures Last(Without(s, p) + [p], n) == (if |Last(s, n)| >= n then Last(s, n)[1..] else Last(s, n)) + [p]
  {
    var a, b := SplitLast(s, n);
    WithoutAppend(a, b, p);
    WithoutHas(b, p);
    if |b| >= n {
      Regroup(Without(a, p), b, p);
      LastAppend(Without(a, p) + [b[0]], b[1..] + [p], n);
    } else {
      assert Without(s, p) + [p] == [] + (b + [p]);
      LastAppend([], b + [p], n);
    }
  }

  lemma {:induction false} Regroup(a: seq<nat>, b: seq<nat>, p: nat)
    requires b != []
    ensures (a + b) + [p] == (a + [b[0]]) + (b[1..] + [p])
  {
  }

  /** The pool holds the most recently accessed distinct pages, up to its capacity, in the order
      they were last accessed. */
  predicate Holds(s: Pool, t: Trace, capacity: nat) {
    s.disk.Keys == t.pages && s.next == t.next && NoRepeats(t.recent) && s.order == Last(t.recent, capacity)
  }

  lemma {:induction false} HoldsStep(s: Pool, t: Trace, access: Access, empty: Data, capacity: nat)
    requires Consistent(s, capacity) && capacity >= 1 && Holds(s, t, capacity)
    ensures Holds(AccessStep(s, access, empty, capacity), TraceStep(t, access), capacity)
  {
    match access
    case Fetch(p) => FetchHolds(s, t, p, empty, capacity);
    case Make =>
      WithoutHas(t.recent, t.next);
      MakeOrder(s, t.recent, empty, capacity);
  }

  lemma {:induction false} FetchHolds(s: Pool, t: Trace, p: nat, empty: Data, capacity: nat)
    requires Consistent(s, capacity) && capacity >= 1 && Holds(s, t, capacity)
    ensures Holds(AccessStep(s, Fetch(p), empty, capacity), TraceStep(t, Fetch(p)), capacity)
  {
    if p in s.disk { FetchOrder(s, t.recent, p, capacity); WithoutHas(t.recent, p); }
    FetchPages(s, p, capacity);
  }

  lemma {:induction false} FetchPages(s: Pool, p: nat, capacity: nat)
    requires Consistent(s, capacity) && capacity >= 1
    ensures Get(s, p, capacity).disk.Keys == s.disk.Keys && Get(s, p, capacity).next == s.next
    ensures p !in s.disk ==> Get(s, p, capacity).order == s.order
  {
  }

  lemma {:induction false} FetchOrder(s: Pool, recent: seq<nat>, p: nat, capacity: nat)
    requires Consistent(s, capacity) && capacity >= 1 && p in s.disk
    requires NoRepeats(recent) && s.order == Last(recent, capacity)
    ensures Get(s, p, capacity).order == Last(Without(recent, p) + [p], capacity)
  {
    if p in s.frames {
      LastHit(recent, p, capacity);
    } else {
      LastMiss(recent, p, capacity);
    }
  }

  lemma {:induction false} MakeOrder(s: Pool, recent: seq<nat>, empty: Data, capacity: nat)
    requires Consistent(s, capacity) && capacity >= 1
    requires NoRepeats(recent) && s.order == Last(recent, capacity)
    ensures var s' := New(s, empty, capacity);
      && s'.disk.Keys == s.disk.Keys + {s.next} && s'.next == s.next + 1
      && s'.order == Last(Without(recent, s.next) + [s.next], capacity)
  {
    ExtendKeeps(s, empty, capacity);
    assert s.next !in s.order;
    LastMiss(recent, s.next, capacity);
  }

  /** The LRU stack property: after any run, the cache is the end of the list of pages accessed,
      whatever the capacity. */
  lemma {:induction false} LruStack(disk: Memory, next: nat, accesses: seq<Access>, empty: Data, capacity: nat)
    requires capacity >= 1 && forall p :: p in disk ==> p < next
    ensures Holds(Run(Opened(disk, next), accesses, empty, capacity),
                  TraceOf(Trace(disk.Keys, next, []), accesses), capacity)
  {
    if accesses != [] {
      var before := accesses[..|accesses| - 1];
      LruStack(disk, next, before, empty, capacity);
      HoldsStep(Run(Opened(disk, next), before, empty, capacity),
                TraceOf(Trace(disk.Keys, next, []), before), accesses[|accesses| - 1], empty, capacity);
    }
  }

  lemma {:induction false} LastMore(s: seq<nat>, m: nat, n: nat)
    requires m <= n
    ensures forall p :: p in Last(s, m) ==> p in Last(s, n)
  {
  }

  /** On the same run, a larger pool holds every page a smaller one does and never misses more. */
  lemma {:induction false} LargerPoolsHoldMore(
      disk: Memory, next: nat, accesses: seq<Access>, empty: Data, small: nat, large: nat)
    requires 1 <= small <= large && forall p :: p in disk ==> p < next
    ensures var a := Run(Opened(disk, next), accesses, empty, small);
      var b := Run(Opened(disk, next), accesses, empty, large);
      && (forall p :: p in a.frames ==> p in b.frames)
      && b.misses <= a.misses && a.hits + a.misses == b.hits + b.misses
  {
    LruStack(disk, next, accesses, empty, small);
    LruStack(disk, next, accesses, empty, large);
    LastMore(TraceOf(Trace(disk.Keys, next, []), accesses).recent, small, large);
    if accesses != [] {
      var before := accesses[..|accesses| - 1];
      LargerPoolsHoldMore(disk, next, before, empty, small, large);
      if accesses[|accesses| - 1].Fetch? {
        var a, b := Run(Opened(disk, next), before, empty, small), Run(Opened(disk, next), before, empty, large);
        Counted(a, accesses[|accesses| - 1].page, small);
        Counted(b, accesses[|accesses| - 1].page, large);
      }
    }
  }

  lemma {:induction false} Counted(s: Pool, p: nat, capacity: nat)
    requires Consistent(s, capacity) && capacity >= 1
    ensures var s' := Get(s, p, capacity);
      && s'.hits == s.hits + (if p in s.frames then 1 else 0)
      && s'.misses == s.misses + (if p in s.frames then 0 else 1)
  {
  }
}
