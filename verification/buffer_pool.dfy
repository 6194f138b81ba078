/** The buffer pool object: page objects with identity, an LRU order and dirty tracking
    (queryx/storage/buffer_pool.py). */
module BufferPool {
  import opened Bytes
  import opened BufferModel

  /** A cached page, as callers hold and change it in place. */
  class Page {
    var data: Data

    constructor (data: Data)
      ensures this.data == data
    {
      this.data := data;
    }

    method Overwrite(raw: Data)
      modifies this
      ensures data == raw
    {
      data := raw;
    }
  }

  class BufferPool {
    var disk: Memory
    var next: nat
    var order: seq<nat>
    var frames: map<nat, Page>
    var dirty: set<nat>
    var hits: nat
    var misses: nat
    const capacity: nat
    const empty: Data

    /** The cached contents. */
    ghost function Frames(): Memory
      reads `frames, frames.Values
    {
      map p | p in frames :: frames[p].data
    }

    /** The state of the pool as a value. */
    ghost function Abs(): Pool
      reads this, frames.Values
    {
      Pool(disk, order, Frames(), dirty, next, hits, misses)
    }

    /** Every cached page has an object of its own. */
    ghost predicate Separate()
      reads this
    {
      capacity >= 1 && forall p, q :: p in frames && q in frames && p != q ==> frames[p] != frames[q]
    }

    ghost predicate Valid()
      reads this, frames.Values
    {
      Separate() && Consistent(Abs(), capacity)
    }

    constructor (disk: Memory, next: nat, capacity: nat, empty: Data)
      requires capacity >= 1 && forall p :: p in disk ==> p < next
      ensures Valid() && Abs() == Pool(disk, [], map[], {}, next, 0, 0) && this.capacity == capacity
    {
      this.disk, this.next, this.capacity, this.empty := disk, next, capacity, empty;
      order, frames, dirty, hits, misses := [], map[], {}, 0, 0;
    }

    /** Write the least recently used page back if it is dirty, and drop it. */
    method EvictOneFrame()
      requires Separate() && order != [] && order[0] in frames
      modifies `order, `frames, `dirty, `disk
      ensures Separate() && Abs() == EvictOne(old(Abs()))
      ensures forall p :: p in frames ==> p in old(frames) && frames[p] == old(frames[p])
    {
      var victim := order[0];
      var page := frames[victim];
      order, frames := order[1..], frames - {victim};
      assert Frames() == old(Frames()) - {victim};
      if victim in dirty {
        disk := disk[victim := page.data];
        dirty := dirty - {victim};
      }
    }

    /** Put a page at the most recent end, evicting another if the pool is full. */
    method AdmitFrame(p: nat, page: Page)
      requires Separate() && (order != [] ==> order[0] in frames) && page !in frames.Values
      modifies `order, `frames, `dirty, `disk
      ensures Separate() && Abs() == Admit(old(Abs()), p, page.data, capacity)
      ensures p in frames && frames[p] == page
      ensures forall q :: q in frames && q != p ==> q in old(frames) && frames[q] == old(frames[q])
    {
      if |order| >= capacity {
        EvictOneFrame();
      }
      ghost var before := Frames();
      order, frames := order + [p], frames[p := page];
      assert Frames() == before[p := page.data];
    }

    /** Page p, from the cache or else from disk; null if there is no such page. */
    method GetPage(p: nat) returns (page: Page?)
      requires Valid()
      modifies this
      ensures Abs() == Get(old(Abs()), p, capacity)
      ensures Valid()
      ensures page != null <==> p in frames
      ensures page != null ==> page == frames[p] && (page in old(frames).Values || fresh(page))
    {
      GetKeeps(Abs(), p, capacity);
      VictimCached(this);
      page := Look(p);
    }

    method Look(p: nat) returns (page: Page?)
      requires Separate() && Consistent(Abs(), capacity) && (order != [] ==> order[0] in frames)
      modifies this
      ensures Separate() && Abs() == Get(old(Abs()), p, capacity)
      ensures page != null <==> p in old(frames) || p in old(disk)
      ensures page != null ==> p in frames && page == frames[p] && (page in old(frames).Values || fresh(page))
    {
      if p in frames {
        page := Hit(p);
      } else {
        page := Miss(p);
      }
    }

    method Miss(p: nat) returns (page: Page?)
      requires Separate() && Consistent(Abs(), capacity) && (order != [] ==> order[0] in frames) && p !in frames
      modifies this
      ensures Separate() && Abs() == Get(old(Abs()), p, capacity)
      ensures page != null <==> p in old(disk)
      ensures page != null ==> p in frames && page == frames[p] && fresh(page)
    {
      misses := misses + 1;
      if p in disk {
        page := Fetch(p);
      } else {
        page := null;
      }
    }

    method Hit(p: nat) returns (page: Page)
      requires capacity >= 1 && Consistent(Abs(), capacity) && p in frames
      modifies `hits, `order
      ensures page == frames[p] && Abs() == Get(old(Abs()), p, capacity)
    {
      hits := hits + 1;
      order := Without(order, p) + [p];
      page := frames[p];
    }

    /** Read p from disk into the cache. */
    method Fetch(p: nat) returns (page: Page)
      requires Separate() && (order != [] ==> order[0] in frames) && p in disk
      modifies `order, `frames, `dirty, `disk
      ensures Separate() && Abs() == Admit(old(Abs()), p, old(disk)[p], capacity)
      ensures p in frames && page == frames[p] && fresh(page)
      ensures forall q :: q in frames && q != p ==> q in old(frames) && frames[q] == old(frames[q])
    {
      page := new Page(disk[p]);
      assert Frames() == old(Frames());
      AdmitFrame(p, page);
    }

    /** A fresh empty page at the end of the file. */
    method NewPage() returns (p: nat, page: Page)
      requires Valid()
      modifies this
      ensures p == old(next) && Abs() == New(old(Abs()), empty, capacity)
      ensures Valid()
      ensures p in frames && page == frames[p] && fresh(page)
    {
      NewKeeps(Abs(), empty, capacity);
      VictimCached(this);
      p := next;
      next, disk := next + 1, disk[next := empty];
      page := new Page(empty);
      assert Frames() == old(Frames());
      AdmitFrame(p, page);
    }

    /** Note that the cached copy of p has changed; false if p is not cached. */
    method MarkDirty(p: nat) returns (ok: bool)
      modifies `dirty
      ensures ok <==> p in frames
      ensures dirty == if ok then old(dirty) + {p} else old(dirty)
    {
      ok := p in frames;
      if ok {
        dirty := dirty + {p};
      }
    }

    /** What every structure above the pool does to change a page: fetch it, change it, mark it. */
    method Change(p: nat, data: Data) returns (ok: bool)
      requires Valid()
      modifies this, frames.Values
      ensures Abs() == Put(old(Abs()), p, data, capacity)
      ensures Valid()
      ensures ok <==> p in old(disk)
    {
      PutKeeps(Abs(), p, data, capacity);
      GetKeeps(Abs(), p, capacity);
      var page := GetPage(p);
      if page == null {
        ok := false;
      } else {
        Replace(p, page, data);
        ok := true;
      }
    }

    /** Overwrite a cached page and mark it dirty. */
    method Replace(p: nat, page: Page, data: Data)
      requires Valid() && p in frames && frames[p] == page
      modifies `dirty, page
      ensures Abs() == old(Abs()).(frames := old(Frames())[p := data], dirty := old(dirty) + {p})
      ensures Separate()
    {
      page.Overwrite(data);
      assert Frames() == old(Frames())[p := data];
      var ok := MarkDirty(p);
    }

    method FlushPageFrame(p: nat)
      requires Valid()
      modifies `disk, `dirty
      ensures Abs() == FlushPage(old(Abs()), p)
      ensures Valid()
    {
      FlushPageKeeps(Abs(), p, capacity);
      if p in dirty && p in frames {
        disk := disk[p := frames[p].data];
        dirty := dirty - {p};
      }
    }

    /** Write every dirty page back. */
    method FlushAllFrames()
      requires Valid()
      modifies `disk, `dirty
      ensures Abs() == FlushAll(old(Abs()))
      ensures Valid()
      ensures disk == View(old(Abs())) && View(Abs()) == View(old(Abs()))
    {
      FlushKeeps(Abs(), capacity);
      WriteBack();
      dirty := {};
    }

    method WriteBack()
      requires Valid()
      modifies `disk
      ensures disk == FlushAll(old(Abs())).disk
    {
      ghost var data := Frames();
      var todo := dirty;
      FlushingStart(Abs(), capacity);
      while todo != {}
        invariant Flushing(old(disk), disk, data, dirty, todo)
        decreases |todo|
      {
        var p :| p in todo;
        FlushingStep(old(disk), disk, data, dirty, todo, p);
        disk := disk[p := frames[p].data];
        todo := todo - {p};
      }
      FlushingEnds(old(Abs()), disk);
    }
  }

  /** The dirty pages not in `todo` have been written. */
  ghost predicate Flushing(start: Memory, now: Memory, frames: Memory, dirty: set<nat>, todo: set<nat>) {
    && todo <= dirty <= frames.Keys && dirty <= start.Keys && now.Keys == start.Keys
    && forall p :: p in start ==> now[p] == if p in dirty && p !in todo then frames[p] else start[p]
  }

  lemma {:induction false} FlushingStart(s: Pool, capacity: nat)
    requires Consistent(s, capacity)
    ensures Flushing(s.disk, s.disk, s.frames, s.dirty, s.dirty)
  {
  }

  lemma {:induction false} FlushingStep(
      start: Memory, now: Memory, frames: Memory, dirty: set<nat>, todo: set<nat>, p: nat)
    requires Flushing(start, now, frames, dirty, todo) && p in todo
    ensures p in frames && Flushing(start, now[p := frames[p]], frames, dirty, todo - {p})
  {
  }

  lemma {:induction false} FlushingEnds(s: Pool, now: Memory)
    requires Flushing(s.disk, now, s.frames, s.dirty, {})
    ensures now == FlushAll(s).disk
  {
  }

  lemma {:induction false} VictimCached(pool: BufferPool)
    requires pool.Valid()
    ensures pool.order != [] ==> pool.order[0] in pool.frames
  {
    if pool.order != [] {
      assert pool.order[0] in pool.Abs().order;
      assert pool.order[0] in pool.Abs().frames;
    }
  }
}
