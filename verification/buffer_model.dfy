/** What the buffer pool does, as functions on its state (queryx/storage/buffer_pool.py). */
module BufferModel {
  import opened Bytes
  import opened Sequences

  type Memory = map<nat, Data>

  /** The pager's pages, the cached page numbers from least to most recently used, the cached
      contents, the dirty pages, the next page number, and the counters. */
  datatype Pool = Pool(
    disk: Memory, order: seq<nat>, frames: Memory, dirty: set<nat>, next: nat, hits: nat, misses: nat)

  /** The cached pages are those in the order, each once, and no more than the capacity. */
  ghost predicate Tracked(s: Pool, capacity: nat) {
    && NoRepeats(s.order)
    && |s.order| <= capacity
    && (forall p :: p in s.frames <==> p in s.order)
  }

  /** Dirty pages are cached, and clean cached pages equal their copy on disk. */
  ghost predicate Synced(s: Pool) {
    && (forall p :: p in s.frames ==> p in s.disk)
    && (forall p :: p in s.dirty ==> p in s.frames)
    && (forall p :: p in s.frames && p !in s.dirty ==> s.frames[p] == s.disk[p])
    && (forall p :: p in s.disk ==> p < s.next)
  }

  ghost predicate Consistent(s: Pool, capacity: nat) {
    Tracked(s, capacity) && Synced(s)
  }

  /** The memory the pool presents: the cached copy of a page if there is one. */
  function View(s: Pool): Memory {
    map p | p in s.disk :: if p in s.frames then s.frames[p] else s.disk[p]
  }

  function Without(s: seq<nat>, p: nat): seq<nat> {
    if s == [] then [] else (if s[0] == p then [] else [s[0]]) + Without(s[1..], p)
  }

  // -- operations ------------------------------------------------------------

  function EvictOne(s: Pool): Pool
    requires s.order != [] && s.order[0] in s.frames
  {
    var v := s.order[0];
    s.(order := s.order[1..], frames := s.frames - {v}, dirty := s.dirty - {v},
       disk := if v in s.dirty then s.disk[v := s.frames[v]] else s.disk)
  }

  function Admit(s: Pool, p: nat, d: Data, capacity: nat): Pool
    requires capacity >= 1 && (s.order != [] ==> s.order[0] in s.frames)
  {
    var s' := if |s.order| >= capacity then EvictOne(s) else s;
    s'.(order := s'.order + [p], frames := s'.frames[p := d])
  }

  /** `get_page`; asking for a page that does not exist only counts as a miss. */
  function Get(s: Pool, p: nat, capacity: nat): Pool
    requires Consistent(s, capacity) && capacity >= 1
  {
    if p in s.frames then s.(order := Without(s.order, p) + [p], hits := s.hits + 1)
    else
      var s' := s.(misses := s.misses + 1);
      if p in s.disk then Admit(s', p, s.disk[p], capacity) else s'
  }

  /** Fetch a page, change it and mark it dirty. */
  function Put(s: Pool, p: nat, d: Data, capacity: nat): Pool
    requires Consistent(s, capacity) && capacity >= 1
  {
    var s' := Get(s, p, capacity);
    if p in s'.frames then s'.(frames := s'.frames[p := d], dirty := s'.dirty + {p}) else s'
  }

  /** `new_page`, on a pager that extends its file. */
  function New(s: Pool, empty: Data, capacity: nat): Pool
    requires Consistent(s, capacity) && capacity >= 1
  {
    Admit(s.(disk := s.disk[s.next := empty], next := s.next + 1), s.next, empty, capacity)
  }

  function FlushAll(s: Pool): Pool {
    s.(disk := map p | p in s.disk :: if p in s.dirty && p in s.frames then s.frames[p] else s.disk[p], dirty := {})
  }

  function FlushPage(s: Pool, p: nat): Pool {
    if p in s.dirty && p in s.frames then s.(disk := s.disk[p := s.frames[p]], dirty := s.dirty - {p}) else s
  }

  // -- transparency ----------------------------------------------------------

  lemma {:induction false} WithoutHas(s: seq<nat>, p: nat)
    ensures forall q :: q in Without(s, p) <==> q in s && q != p
    ensures |Without(s, p)| <= |s|
    ensures p in s ==> |Without(s, p)| < |s|
    ensures p !in s ==> Without(s, p) == s
    ensures NoRepeats(s) ==> NoRepeats(Without(s, p))
  {
    if s != [] {
      WithoutHas(s[1..], p);
      assert s == [s[0]] + s[1..];
      if NoRepeats(s) {
        assert s[0] !in s[1..];
      }
    }
  }

  lemma {:induction false} EvictSynced(s: Pool)
    requires Synced(s) && s.order != [] && s.order[0] in s.frames
    ensures Synced(EvictOne(s)) && View(EvictOne(s)) == View(s)
  {
  }

  lemma {:induction false} AdmitTracked(s: Pool, p: nat, d: Data, capacity: nat)
    requires Consistent(s, capacity) && capacity >= 1 && p !in s.frames
    ensures Tracked(Admit(s, p, d, capacity), capacity)
  {
  }

  lemma {:induction false} AdmitSynced(s: Pool, p: nat, d: Data, capacity: nat)
    requires Consistent(s, capacity) && capacity >= 1 && p !in s.frames && p in s.disk && s.disk[p] == d
    ensures Synced(Admit(s, p, d, capacity)) && View(Admit(s, p, d, capacity)) == View(s)
  {
    var s1 := s;
    if |s.order| >= capacity {
      EvictSynced(s);
      s1 := EvictOne(s);
    }
    CacheSynced(s1, p, d);
  }

  lemma {:induction false} CacheSynced(s: Pool, p: nat, d: Data)
    requires Synced(s) && p !in s.frames && p in s.disk && s.disk[p] == d
    ensures var s' := s.(order := s.order + [p], frames := s.frames[p := d]); Synced(s') && View(s') == View(s)
  {
  }

  lemma {:induction false} AdmitKeeps(s: Pool, p: nat, d: Data, capacity: nat)
    requires Consistent(s, capacity) && capacity >= 1 && p !in s.frames && p in s.disk && s.disk[p] == d
    ensures Consistent(Admit(s, p, d, capacity), capacity) && View(Admit(s, p, d, capacity)) == View(s)
  {
    AdmitTracked(s, p, d, capacity);
    AdmitSynced(s, p, d, capacity);
  }

  /** Fetching a page, whether it evicts another or not, leaves the memory as it was. */
  lemma {:induction false} GetKeeps(s: Pool, p: nat, capacity: nat)
    requires Consistent(s, capacity) && capacity >= 1
    ensures var s' := Get(s, p, capacity);
      Consistent(s', capacity) && View(s') == View(s) && (p in s'.frames <==> p in s.disk)
  {
    if p in s.frames {
      WithoutHas(s.order, p);
    } else if p in s.disk {
      AdmitKeeps(s.(misses := s.misses + 1), p, s.disk[p], capacity);
    }
  }

  lemma {:induction false} PutKeeps(s: Pool, p: nat, d: Data, capacity: nat)
    requires Consistent(s, capacity) && capacity >= 1
    ensures var s' := Put(s, p, d, capacity);
      Consistent(s', capacity) && View(s') == if p in s.disk then View(s)[p := d] else View(s)
  {
    GetKeeps(s, p, capacity);
    var s1 := Get(s, p, capacity);
    if p in s1.frames { ChangeKeeps(s1, p, d, capacity); }
  }

  /** A cached page that is changed and marked dirty changes in the memory, and nothing else does. */
  lemma {:induction false} ChangeKeeps(s: Pool, p: nat, d: Data, capacity: nat)
    requires Consistent(s, capacity) && p in s.frames
    ensures var s' := s.(frames := s.frames[p := d], dirty := s.dirty + {p});
      Consistent(s', capacity) && View(s') == View(s)[p := d]
  {
  }

  lemma {:induction false} ExtendKeeps(s: Pool, empty: Data, capacity: nat)
    requires Consistent(s, capacity)
    ensures var s' := s.(disk := s.disk[s.next := empty], next := s.next + 1);
      Consistent(s', capacity) && View(s') == View(s)[s.next := empty] && s.next !in s'.frames
  {
  }

  lemma {:induction false} NewKeeps(s: Pool, empty: Data, capacity: nat)
    requires Consistent(s, capacity) && capacity >= 1
    ensures var s' := New(s, empty, capacity);
      Consistent(s', capacity) && View(s') == View(s)[s.next := empty]
  {
    ExtendKeeps(s, empty, capacity);
    AdmitKeeps(s.(disk := s.disk[s.next := empty], next := s.next + 1), s.next, empty, capacity);
  }

  /** Flushing writes the whole view to disk. */
  lemma {:induction false} FlushKeeps(s: Pool, capacity: nat)
    requires Consistent(s, capacity)
    ensures var s' := FlushAll(s);
      Consistent(s', capacity) && View(s') == View(s) && s'.disk == View(s)
  {
  }

  lemma {:induction false} FlushPageKeeps(s: Pool, p: nat, capacity: nat)
    requires Consistent(s, capacity)
    ensures var s' := FlushPage(s, p);
      Consistent(s', capacity) && View(s') == View(s) && p !in s'.dirty
      && (p in s.disk ==> s'.disk[p] == View(s)[p])
  {
  }

  datatype Op = Read(page: nat) | Write(page: nat, data: Data) | Alloc(empty: Data) | Flush | FlushOne(page: nat)

  /** What the client sees of an operation: the bytes read, or the number of the new page. */
  datatype Reply = Bytes(data: Data) | Missing | Number(page: nat) | Done

  function Step(s: Pool, op: Op, capacity: nat): (r: (Pool, Reply))
    requires Consistent(s, capacity) && capacity >= 1
    ensures Consistent(r.0, capacity)
  {
    match op
    case Read(p) =>
      GetKeeps(s, p, capacity);
      var s' := Get(s, p, capacity);
      (s', if p in s'.frames then Bytes(s'.frames[p]) else Missing)
    case Write(p, d) =>
      PutKeeps(s, p, d, capacity);
      var s' := Put(s, p, d, capacity);
      (s', if p in s'.frames then Done else Missing)
    case Alloc(empty) => NewKeeps(s, empty, capacity); (New(s, empty, capacity), Number(s.next))
    case Flush => FlushKeeps(s, capacity); (FlushAll(s), Done)
    case FlushOne(p) => FlushPageKeeps(s, p, capacity); (FlushPage(s, p), Done)
  }

  /** The same client on plain page memory. */
  function MemoryStep(m: Memory, next: nat, op: Op): (Memory, nat, Reply) {
    match op
    case Read(p) => (m, next, if p in m then Bytes(m[p]) else Missing)
    case Write(p, d) => if p in m then (m[p := d], next, Done) else (m, next, Missing)
    case Alloc(empty) => (m[next := empty], next + 1, Number(next))
    case Flush => (m, next, Done)
    case FlushOne(_) => (m, next, Done)
  }

  /** A client: it chooses each operation from the replies it has had. */
  type Client = seq<Reply> -> Op

  /** n operations of a client on the pool, and the replies it got. */
  function PoolRun(s: Pool, client: Client, n: nat, capacity: nat): (r: (Pool, seq<Reply>))
    requires Consistent(s, capacity) && capacity >= 1
    ensures Consistent(r.0, capacity)
  {
    if n == 0 then (s, [])
    else
      var (s1, replies) := PoolRun(s, client, n - 1, capacity);
      var (s2, reply) := Step(s1, client(replies), capacity);
      (s2, replies + [reply])
  }

  function MemoryRun(m: Memory, next: nat, client: Client, n: nat): (Memory, nat, seq<Reply>) {
    if n == 0 then (m, next, [])
    else
      var (m1, next1, replies) := MemoryRun(m, next, client, n - 1);
      var (m2, next2, reply) := MemoryStep(m1, next1, client(replies));
      (m2, next2, replies + [reply])
  }

  lemma {:induction false} StepTransparent(s: Pool, op: Op, capacity: nat)
    requires Consistent(s, capacity) && capacity >= 1
    ensures var (s', reply) := Step(s, op, capacity);
      MemoryStep(View(s), s.next, op) == (View(s'), s'.next, reply)
  {
    match op
    case Read(p) => GetKeeps(s, p, capacity); NextKept(s, p, capacity);
    case Write(p, d) =>
      GetKeeps(s, p, capacity);
      PutKeeps(s, p, d, capacity);
      NextKept(s, p, capacity);
    case Alloc(empty) => NewKeeps(s, empty, capacity);
    case Flush => FlushKeeps(s, capacity);
    case FlushOne(p) => FlushPageKeeps(s, p, capacity);
  }

  lemma {:induction false} NextKept(s: Pool, p: nat, capacity: nat)
    requires Consistent(s, capacity) && capacity >= 1
    ensures Get(s, p, capacity).next == s.next
    ensures forall q :: q in Get(s, p, capacity).disk <==> q in s.disk
  {
  }

  /** For every client and every capacity, the pool answers as plain memory does, and what it
      would flush is what plain memory holds. */
  lemma {:induction false} Transparent(s: Pool, client: Client, n: nat, capacity: nat)
    requires Consistent(s, capacity) && capacity >= 1
    ensures var (s', replies) := PoolRun(s, client, n, capacity);
      MemoryRun(View(s), s.next, client, n) == (View(s'), s'.next, replies) && FlushAll(s').disk == View(s')
  {
    if n > 0 {
      Transparent(s, client, n - 1, capacity);
      var (s1, replies) := PoolRun(s, client, n - 1, capacity);
      StepTransparent(s1, client(replies), capacity);
    }
    FlushKeeps(PoolRun(s, client, n, capacity).0, capacity);
  }
}
