/** The free list across crashes: every operation of the pager as steps of the crash machine, cut
    anywhere, with recovery from the log (queryx/storage/pager.py). */
module PagerRuns {
  import opened Wrappers
  import opened Bytes
  import opened Wal
  import opened Crash
  import opened Pager

  // -- operations as steps -------------------------------------------------------

  /** The steps of some page writes: each is logged, written, and followed by a checkpoint if the
      log has become long. */
  function EventsOf(ws: seq<Rec>): (evs: seq<Event>)
    ensures |evs| == 3 * |ws|
  {
    if ws == [] then []
    else
      var last := ws[|ws| - 1];
      EventsOf(ws[..|ws| - 1]) + [Append(last.page, last.data)] + [Write] + [MaybeCheckpoint]
  }

  lemma {:induction false} StepsAppend(s: State, a: seq<Event>, b: seq<Event>, crc: Checksum)
    ensures Steps(s, a + b, crc) == Steps(Steps(s, a, crc), b, crc)
  {
    if b == [] {
      assert a + b == a;
    } else {
      var front, ev := b[..|b| - 1], b[|b| - 1];
      assert a + b == (a + front) + [ev];
      StepsLast(s, a + front, ev, crc);
      StepsAppend(s, a, front, crc);
    }
  }

  lemma {:induction false} NeverStuckPrefix(s: State, a: seq<Event>, b: seq<Event>, crc: Checksum)
    requires NeverStuck(s, a + b, crc)
    ensures NeverStuck(s, a, crc)
  {
    if b == [] {
      assert a + b == a;
    } else {
      assert a + b == (a + b[..|b| - 1]) + [b[|b| - 1]];
      NeverStuckLast(s, a + b[..|b| - 1], b[|b| - 1], crc);
      NeverStuckPrefix(s, a, b[..|b| - 1], crc);
    }
  }

  /** Between page writes, with the disk as committed. */
  predicate Settled(s: State, disk: Disk) {
    s.mode == Up && s.disk == disk && s.committed == disk
  }

  lemma {:induction false} WriteRuns(s: State, disk: Disk, r: Rec, crc: Checksum)
    requires Settled(s, disk) && Loggable(r)
    ensures var s' := Step(Step(Step(s, Append(r.page, r.data), crc), Write, crc), MaybeCheckpoint, crc);
      Settled(s', disk[r.page := r.data])
    ensures Step(s, Append(r.page, r.data), crc).committed == disk[r.page := r.data]
    ensures Step(Step(s, Append(r.page, r.data), crc), Write, crc).committed == disk[r.page := r.data]
  {
  }

  /** The first n + 1 page writes, seen from the first n. */
  lemma {:induction false} ImagesUpTo(disk: Disk, ws: seq<Rec>)
    requires ws != []
    ensures var last := ws[|ws| - 1];
      disk + Images(ws) == (disk + Images(ws[..|ws| - 1]))[last.page := last.data]
  {
    var last := ws[|ws| - 1];
    assert ws == ws[..|ws| - 1] + [last];
    ImagesAppend(ws[..|ws| - 1], last);
  }

  /** Page writes that run to their end are all committed and all on disk. */
  lemma {:induction false} WritesRun(s: State, ws: seq<Rec>, crc: Checksum)
    requires Settled(s, s.disk) && AllLoggable(ws)
    ensures Settled(Steps(s, EventsOf(ws), crc), s.disk + Images(ws))
  {
    if ws != [] {
      var front, last := ws[..|ws| - 1], ws[|ws| - 1];
      WritesRun(s, front, crc);
      ImagesUpTo(s.disk, ws);
      WriteRuns(Steps(s, EventsOf(front), crc), s.disk + Images(front), last, crc);
      WriteSteps(s, ws, crc);
    }
  }

  /** The last page write's three steps. */
  lemma {:induction false} WriteSteps(s: State, ws: seq<Rec>, crc: Checksum)
    requires ws != []
    ensures var E, last := EventsOf(ws), ws[|ws| - 1];
      var s0 := Steps(s, EventsOf(ws[..|ws| - 1]), crc);
      && Steps(s, E[..3 * |ws| - 2], crc) == Step(s0, Append(last.page, last.data), crc)
      && Steps(s, E[..3 * |ws| - 1], crc) == Step(Step(s0, Append(last.page, last.data), crc), Write, crc)
      && Steps(s, E, crc) == Step(Step(Step(s0, Append(last.page, last.data), crc), Write, crc), MaybeCheckpoint, crc)
  {
    var front, E, last := EventsOf(ws[..|ws| - 1]), EventsOf(ws), ws[|ws| - 1];
    assert E[..3 * |ws| - 2] == front + [Append(last.page, last.data)];
    assert E[..3 * |ws| - 1] == front + [Append(last.page, last.data)] + [Write];
    StepsLast(s, front, Append(last.page, last.data), crc);
    StepsLast(s, front + [Append(last.page, last.data)], Write, crc);
    StepsLast(s, front + [Append(last.page, last.data)] + [Write], MaybeCheckpoint, crc);
  }

  /** Once its append is among the steps, the last page write is committed, too. */
  lemma {:induction false} CutLast(s: State, ws: seq<Rec>, k: nat, crc: Checksum)
    requires Settled(s, s.disk) && AllLoggable(ws) && ws != [] && 3 * (|ws| - 1) < k <= 3 * |ws|
    ensures Steps(s, EventsOf(ws)[..k], crc).committed == s.disk + Images(ws)
  {
    if k == 3 * |ws| {
      CutNone(s, ws, crc);
    } else if k == 3 * |ws| - 1 {
      CutInside(s, ws, crc);
    } else {
      assert k == 3 * |ws| - 2;
      CutInside(s, ws, crc);
    }
  }

  lemma {:induction false} CutNone(s: State, ws: seq<Rec>, crc: Checksum)
    requires Settled(s, s.disk) && AllLoggable(ws)
    ensures Steps(s, EventsOf(ws)[..3 * |ws|], crc).committed == s.disk + Images(ws)
  {
    WritesRun(s, ws, crc);
    assert EventsOf(ws)[..3 * |ws|] == EventsOf(ws);
  }

  lemma {:induction false} CutInside(s: State, ws: seq<Rec>, crc: Checksum)
    requires Settled(s, s.disk) && AllLoggable(ws) && ws != []
    ensures Steps(s, EventsOf(ws)[..3 * |ws| - 2], crc).committed == s.disk + Images(ws)
    ensures Steps(s, EventsOf(ws)[..3 * |ws| - 1], crc).committed == s.disk + Images(ws)
  {
    var front, last := ws[..|ws| - 1], ws[|ws| - 1];
    WriteSteps(s, ws, crc);
    WritesRun(s, front, crc);
    WriteRuns(Steps(s, EventsOf(front), crc), s.disk + Images(front), last, crc);
    ImagesUpTo(s.disk, ws);
  }

  lemma {:induction false} FrontSlices(ws: seq<Rec>, k: nat)
    requires ws != [] && k <= 3 * (|ws| - 1)
    ensures EventsOf(ws)[..k] == EventsOf(ws[..|ws| - 1])[..k]
    ensures ws[..(k + 2) / 3] == ws[..|ws| - 1][..(k + 2) / 3]
  {
  }

  /** Page writes cut off after k steps: those whose append is among the steps are committed. */
  lemma {:induction false} CutWrites(s: State, ws: seq<Rec>, k: nat, crc: Checksum)
    requires Settled(s, s.disk) && AllLoggable(ws) && k <= |EventsOf(ws)|
    ensures (k + 2) / 3 <= |ws|
    ensures Steps(s, EventsOf(ws)[..k], crc).committed == s.disk + Images(ws[..(k + 2) / 3])
  {
    if ws == [] {
      assert EventsOf(ws)[..k] == [] && ws[..0] == [];
    } else if k <= 3 * (|ws| - 1) {
      FrontSlices(ws, k);
      CutWrites(s, ws[..|ws| - 1], k, crc);
    } else {
      CutLast(s, ws, k, crc);
      assert (k + 2) / 3 == |ws| && ws[..|ws|] == ws;
    }
  }

  /** Page writes by themselves do not recover anything. */
  lemma {:induction false} EventsNeverStuck(s: State, ws: seq<Rec>, crc: Checksum)
    ensures NeverStuck(s, EventsOf(ws), crc)
  {
    if ws != [] {
      var front, last := EventsOf(ws[..|ws| - 1]), ws[|ws| - 1];
      EventsNeverStuck(s, ws[..|ws| - 1], crc);
      NeverStuckLast(s, front, Append(last.page, last.data), crc);
      NeverStuckLast(s, front + [Append(last.page, last.data)], Write, crc);
      NeverStuckLast(s, front + [Append(last.page, last.data)] + [Write], MaybeCheckpoint, crc);
    }
  }

  lemma {:induction false} EventsPageSized(ws: seq<Rec>)
    requires forall r :: r in ws ==> |r.data| == PAGE_SIZE
    ensures PageSized(EventsOf(ws))
  {
    if ws != [] {
      EventsPageSized(ws[..|ws| - 1]);
      assert ws[|ws| - 1] in ws;
    }
  }

  lemma {:induction false} WritesLoggable(f: Files, op: PageOp)
    requires FilesOk(f) && Allowed(f, op)
    ensures AllLoggable(Writes(f, op))
  {
  }

  // -- runs with crashes -----------------------------------------------------------

  /** An operation that returns; or one that is cut off after `steps` of its steps by a crash, or in
      the middle of the next step, and openings of the file that are cut off, too. */
  datatype PagerEvent = Complete(op: PageOp) | CutOff(op: PageOp, steps: nat, fault: Event, retries: seq<Event>)

  /** A crash between two steps or inside the append or the page write that is next. */
  predicate Faulty(evs: seq<Event>, k: nat, fault: Event) {
    match fault
    case Crash => true
    case AppendTorn(p, d, _) => k < |evs| && evs[k] == Append(p, d)
    case WriteTorn(_) => k < |evs| && evs[k] == Write
    case _ => false
  }

  predicate Opening(evs: seq<Event>) {
    forall ev :: ev in evs ==> ev.Open? || ev.Redo? || ev.RedoTorn? || ev.Crash?
  }

  predicate Possible(f: Files, ev: PagerEvent) {
    && FilesOk(f) && Allowed(f, ev.op)
    && (ev.CutOff? ==>
          && ev.steps <= |EventsOf(Writes(f, ev.op))|
          && Faulty(EventsOf(Writes(f, ev.op)), ev.steps, ev.fault) && Opening(ev.retries))
  }

  /** What a pager that opens the file finds: the pages, their number from the length of the file,
      and the list in page 0. A page being given back counts as given back. */
  function Loaded(f: Files, op: PageOp, disk: Disk): Files {
    var free := if 0 in disk && LoadHeader(disk[0]).Ok? then LoadHeader(disk[0]).value else [];
    Files(disk, if f.numPages in disk then f.numPages + 1 else f.numPages, free,
          if op.Free? then f.out - {op.page} else f.out)
  }

  /** The pager's files, and the steps that led there. */
  datatype Machine = Machine(files: Files, trace: seq<Event>)

  /** The steps up to the crash. */
  function Broken(f: Files, ev: PagerEvent, trace: seq<Event>): seq<Event>
    requires ev.CutOff? && Possible(f, ev)
  {
    trace + EventsOf(Writes(f, ev.op))[..ev.steps] + [ev.fault] + ev.retries
  }

  /** And those of the opening that follows. */
  function Restarted(start: State, trace: seq<Event>, crc: Checksum): seq<Event> {
    var down := Step(Steps(start, trace, crc), Crash, crc);
    trace + [Crash] + Reopen(|Parse(down.log, crc)|)
  }

  function After(start: State, f: Files, evs: seq<PagerEvent>, crc: Checksum): Machine {
    if evs == [] then Machine(f, [])
    else
      var m, ev := After(start, f, evs[..|evs| - 1], crc), evs[|evs| - 1];
      if !Possible(m.files, ev) then m
      else if ev.Complete? then
        Machine(Done(m.files, ev.op), m.trace + EventsOf(Writes(m.files, ev.op)))
      else
        var trace := Restarted(start, Broken(m.files, ev, m.trace), crc);
        Machine(Loaded(m.files, ev.op, Steps(start, trace, crc).disk), trace)
  }

  lemma {:induction false} KeepCommitted(s: State, evs: seq<Event>, crc: Checksum)
    requires forall ev :: ev in evs ==> !ev.Append?
    ensures Steps(s, evs, crc).committed == s.committed
  {
    if evs != [] {
      var front, ev := evs[..|evs| - 1], evs[|evs| - 1];
      assert ev in evs && forall e :: e in front ==> e in evs;
      KeepCommitted(s, front, crc);
    }
  }

  /** A restart brings back exactly the writes that were committed. */
  lemma {:induction false} RestartSettles(start: State, trace: seq<Event>, crc: Checksum)
    requires Safe(start, crc) && NeverStuck(start, Restarted(start, trace, crc), crc)
    ensures Settled(Steps(start, Restarted(start, trace, crc), crc), Steps(start, trace, crc).committed)
  {
    var s := Steps(start, trace, crc);
    var down := Step(s, Crash, crc);
    var tail := Reopen(|Parse(down.log, crc)|);
    assert trace + [Crash] + tail == trace + ([Crash] + tail);
    NeverStuckPrefix(start, trace, [Crash] + tail, crc);
    CrashSafety(start, trace, crc);
    StepsLast(start, trace, Crash, crc);
    StepsAppend(start, trace + [Crash], tail, crc);
  }

  /** Cut off at any step, the operation has committed some of its page writes. */
  lemma {:induction false} BrokenCommitted(start: State, f: Files, ev: PagerEvent, trace: seq<Event>, crc: Checksum)
    requires ev.CutOff? && Possible(f, ev) && Settled(Steps(start, trace, crc), f.disk)
    ensures (ev.steps + 2) / 3 <= |Writes(f, ev.op)|
    ensures Steps(start, Broken(f, ev, trace), crc).committed
         == f.disk + Images(Writes(f, ev.op)[..(ev.steps + 2) / 3])
  {
    var s, ws := Steps(start, trace, crc), Writes(f, ev.op);
    var begun := EventsOf(ws)[..ev.steps];
    WritesLoggable(f, ev.op);
    CutWrites(s, ws, ev.steps, crc);
    StepsAppend(start, trace, begun, crc);
    StepsLast(start, trace + begun, ev.fault, crc);
    StepsAppend(start, trace + begun + [ev.fault], ev.retries, crc);
    KeepCommitted(Steps(start, trace + begun + [ev.fault], crc), ev.retries, crc);
  }

  lemma {:induction false} LoadedIs(f: Files, op: PageOp, n: nat)
    requires FilesOk(f) && Allowed(f, op) && n <= |Writes(f, op)|
    ensures Loaded(f, op, f.disk + Images(Writes(f, op)[..n])) == Reloaded(f, op, n)
  {
    ReloadedList(f, op, n);
    FileLength(f, op, n);
  }

  lemma {:induction false} FileLength(f: Files, op: PageOp, n: nat)
    requires FilesOk(f) && Allowed(f, op) && n <= |Writes(f, op)|
    ensures f.numPages in f.disk + Images(Writes(f, op)[..n]) <==> op.Allocate? && f.free == [] && n > 0
  {
    WritesSoFar(f, op, n);
  }

  lemma {:induction false} RestartOk(start: State, f: Files, ev: PagerEvent, trace: seq<Event>, crc: Checksum)
    requires ev.CutOff? && Possible(f, ev) && Settled(Steps(start, trace, crc), f.disk)
    requires Safe(start, crc) && NeverStuck(start, Restarted(start, Broken(f, ev, trace), crc), crc)
    ensures var s := Steps(start, Restarted(start, Broken(f, ev, trace), crc), crc);
      Settled(s, s.disk) && FilesOk(Loaded(f, ev.op, s.disk))
  {
    var n := (ev.steps + 2) / 3;
    BrokenCommitted(start, f, ev, trace, crc);
    RestartSettles(start, Broken(f, ev, trace), crc);
    LoadedIs(f, ev.op, n);
    ReloadedOk(f, ev.op, n);
  }

  /** Over any run of operations and crashes, cut anywhere and recovered from the log, in which no
      recovery ended on a stuck log: the free list that is loaded is duplicate-free, within the
      file, and holds no page that was handed out and not freed since. The run starts from any good
      file, with whatever the log holds. */
  lemma {:induction false} FreeListSafe(start: State, f: Files, evs: seq<PagerEvent>, crc: Checksum)
    requires Safe(start, crc) && Settled(start, f.disk) && FilesOk(f)
    requires NeverStuck(start, After(start, f, evs, crc).trace, crc)
    ensures var m := After(start, f, evs, crc);
      FilesOk(m.files) && Settled(Steps(start, m.trace, crc), m.files.disk)
  {
    if evs != [] {
      var m, ev := After(start, f, evs[..|evs| - 1], crc), evs[|evs| - 1];
      if Possible(m.files, ev) && ev.Complete? {
        var ws := Writes(m.files, ev.op);
        NeverStuckPrefix(start, m.trace, EventsOf(ws), crc);
        FreeListSafe(start, f, evs[..|evs| - 1], crc);
        CompleteOk(start, m.files, ev.op, m.trace, crc);
      } else if Possible(m.files, ev) {
        TraceContinues(start, m.files, ev, m.trace, crc);
        FreeListSafe(start, f, evs[..|evs| - 1], crc);
        RestartOk(start, m.files, ev, m.trace, crc);
      } else {
        FreeListSafe(start, f, evs[..|evs| - 1], crc);
      }
    }
  }

  // -- a new file --------------------------------------------------------------------

  /** Creating a file writes page 0, through the log. */
  function Created(crc: Checksum): State {
    Steps(Opened(map[]), EventsOf([Rec(0, HeaderPage([]))]), crc)
  }

  const NEW_FILES: Files := Files(map[0 := HeaderPage([])], 1, [], {})

  lemma {:induction false} NewFilesOk()
    ensures FilesOk(NEW_FILES) && Loggable(Rec(0, HeaderPage([])))
  {
  }

  lemma {:induction false} NewFileSettled(crc: Checksum)
    ensures Settled(Created(crc), NEW_FILES.disk)
  {
    var r := Rec(0, HeaderPage([]));
    NewFilesOk();
    WritesRun(Opened(map[]), [r], crc);
    ImagesOne(r);
    assert map[] + Images([r]) == NEW_FILES.disk;
  }

  lemma {:induction false} NewFileOk(crc: Checksum)
    ensures Safe(Created(crc), crc) && Settled(Created(crc), NEW_FILES.disk) && FilesOk(NEW_FILES)
    ensures LogShort(Created(crc), crc)
  {
    NewFilesOk();
    NewFileSettled(crc);
    WritesSafe(map[], [Rec(0, HeaderPage([]))], crc);
  }

  lemma {:induction false} WritesSafe(disk: Disk, ws: seq<Rec>, crc: Checksum)
    requires forall r :: r in ws ==> |r.data| == PAGE_SIZE
    ensures var s := Steps(Opened(disk), EventsOf(ws), crc); Safe(s, crc) && LogShort(s, crc)
  {
    OpenedShort(disk, crc);
    EventsNeverStuck(Opened(disk), ws, crc);
    EventsPageSized(ws);
    RunSafe(Opened(disk), EventsOf(ws), crc);
    RunLogShort(Opened(disk), EventsOf(ws), crc);
  }

  /** So the free list is safe from a file's first session on. */
  lemma {:induction false} NewFileSafe(evs: seq<PagerEvent>, crc: Checksum)
    requires NeverStuck(Created(crc), After(Created(crc), NEW_FILES, evs, crc).trace, crc)
    ensures FilesOk(After(Created(crc), NEW_FILES, evs, crc).files)
  {
    NewFileOk(crc);
    FreeListSafe(Created(crc), NEW_FILES, evs, crc);
  }

  lemma {:induction false} CompleteOk(start: State, f: Files, op: PageOp, trace: seq<Event>, crc: Checksum)
    requires FilesOk(f) && Allowed(f, op) && Settled(Steps(start, trace, crc), f.disk)
    ensures FilesOk(Done(f, op))
    ensures Settled(Steps(start, trace + EventsOf(Writes(f, op)), crc), Done(f, op).disk)
  {
    WritesLoggable(f, op);
    StepsAppend(start, trace, EventsOf(Writes(f, op)), crc);
    WritesRun(Steps(start, trace, crc), Writes(f, op), crc);
    DoneOk(f, op);
  }

  lemma {:induction false} TraceContinues(start: State, f: Files, ev: PagerEvent, trace: seq<Event>, crc: Checksum)
    requires ev.CutOff? && Possible(f, ev)
    requires NeverStuck(start, Restarted(start, Broken(f, ev, trace), crc), crc)
    ensures NeverStuck(start, trace, crc)
  {
    var all := Restarted(start, Broken(f, ev, trace), crc);
    assert all == trace + all[|trace|..];
    NeverStuckPrefix(start, trace, all[|trace|..], crc);
  }

  // -- the stuck log again -----------------------------------------------------------

  /** Without the condition the list is not safe. On a stuck log, page q is given back, and the write
      of page 0 is logged but torn, so that page 0 lists page p. Recovery does not repair it, and
      the pager loads a list with a page that is in use. */
  lemma {:induction false} StuckListUnsafe(f: Files, torn: Data, p: nat, q: nat, crc: Checksum)
    requires FilesOk(f) && 1 <= |torn| <= 3 && p in f.out && p != q
    requires Allowed(f, Free(q)) && q !in f.free
    ensures var write := EventsOf(Writes(f, Free(q)))[..1] + [WriteTorn(HeaderPage([p]))];
      var s := Steps(State(f.disk, torn, Up, f.disk), write + [Open] + [Recovered], crc);
      s.mode == Up && p in Loaded(f, Free(q), s.disk).free && p in Loaded(f, Free(q), s.disk).out
  {
    var s0, r := State(f.disk, torn, Up, f.disk), Rec(0, HeaderPage(f.free + [q]));
    var write := [Append(0, r.data)] + [WriteTorn(HeaderPage([p]))];
    assert Writes(f, Free(q)) == [r] && EventsOf([r])[..1] == [Append(0, r.data)] by { WriteSteps(s0, [r], crc); }
    LoggedThenTorn(s0, 0, r.data, HeaderPage([p]), crc);
    var log := torn + Encode(r, crc);
    assert log + [] == log;
    ShortTailHides(torn, r, [], crc);
    OpenedStuck(s0, write, State(f.disk[0 := HeaderPage([p])], log, Down, f.disk[0 := r.data]), crc);
    HeaderRoundTrip([p]);
  }

  /** The same for a torn tail of any length that another page's record left, when the list was empty. */
  lemma {:induction false} TornListUnsafe(f: Files, r: Rec, cut: nat, p: nat, q: nat, crc: Checksum)
    requires FilesOk(f) && f.free == [] && p in f.out && p != q && Allowed(f, Free(q))
    requires Loggable(r) && 1 <= cut < |Encode(r, crc)| && r.page != 0
    ensures var write := EventsOf(Writes(f, Free(q)))[..1] + [WriteTorn(HeaderPage([p]))];
      var down := Steps(State(f.disk, Encode(r, crc)[..cut], Up, f.disk), write, crc);
      var s := Steps(down, Reopen(|Parse(down.log, crc)|), crc);
      s.mode == Up && p in Loaded(f, Free(q), s.disk).free && p in Loaded(f, Free(q), s.disk).out
  {
    var next := Rec(0, HeaderPage([q]));
    assert Writes(f, Free(q)) == [next] by { assert f.free + [q] == [q]; }
    WriteSteps(Opened(f.disk), [next], crc);
    assert EventsOf([next])[..1] == [Append(0, next.data)];
    OneListQuiet(q, crc);
    OneListDiffers(p, q);
    QuietWriteLost(f.disk, r, cut, next, HeaderPage([p]), crc);
    HeaderRoundTrip([p]);
  }

  lemma {:induction false} OneListDiffers(p: nat, q: nat)
    requires p < 0x1_0000_0000 && q < 0x1_0000_0000 && p != q
    ensures HeaderPage([p]) != HeaderPage([q])
  {
    HeaderRoundTrip([p]);
    HeaderRoundTrip([q]);
  }

  /** The bytes of page 0 that lists one page. */
  lemma {:induction false} OneListBytes(q: nat)
    requires q < 0x1_0000_0000
    ensures HeaderPage([q])[..10] == [81, 82, 89, 88, 1, 0, 1, 0, 0, 0]
    ensures forall i :: 14 <= i < PAGE_SIZE ==> HeaderPage([q])[i] == 0
  {
    PackByte(1);
    assert Pack(1, 2) == [1, 0] by { assert Pack(0, 1) == [0] + Pack(0, 0); }
    assert PackList([q]) == Pack(q, 4) + PackList([]);
  }

  /** Such a page is quiet, whatever page it lists and whatever its checksum. */
  lemma {:induction false} OneListQuiet(q: nat, crc: Checksum)
    requires q < 0x1_0000_0000
    ensures Loggable(Rec(0, HeaderPage([q]))) && Quiet(Rec(0, HeaderPage([q])), crc)
  {
    var r := Rec(0, HeaderPage([q]));
    var b := Encode(r, crc);
    OneListEncoded(q, crc);
    forall k | 1 <= k <= |b| ensures Parse(b[k..], crc) == [] {
      if k < 12 {
        HeaderQuiet(r, k, crc);
      } else if k < 30 {
        OneListInside(b, k, crc);
      } else {
        NoMagic(b, k, 0, crc);
      }
    }
  }

  lemma {:induction false} OneListEncoded(q: nat, crc: Checksum)
    requires q < 0x1_0000_0000
    ensures Loggable(Rec(0, HeaderPage([q]))) && |Encode(Rec(0, HeaderPage([q])), crc)| == 16 + PAGE_SIZE
    ensures OneListLog(Encode(Rec(0, HeaderPage([q])), crc))
  {
    var b, d := Encode(Rec(0, HeaderPage([q])), crc), HeaderPage([q]);
    assert b[16..] == d;
    OneListBytes(q);
    var ten := d[..10];
    assert d[0] == ten[0] && d[1] == ten[1] && d[2] == ten[2] && d[3] == ten[3] && d[4] == ten[4];
    assert d[5] == ten[5] && d[6] == ten[6] && d[7] == ten[7] && d[8] == ten[8] && d[9] == ten[9];
    OneListShifted(b, d);
  }

  lemma {:induction false} OneListShifted(b: Data, d: Data)
    requires |b| == 16 + |d| && b[16..] == d && |d| == PAGE_SIZE
    requires d[0] == 81 && d[1] == 82 && d[2] == 89 && d[3] == 88
    requires d[4] == 1 && d[5] == 0 && d[6] == 1 && d[7] == 0 && d[8] == 0 && d[9] == 0
    requires forall i :: 14 <= i < |d| ==> d[i] == 0
    ensures OneListLog(b)
  {
    assert forall i :: 0 <= i < |d| ==> b[16..][i] == b[16 + i];
    forall i | 30 <= i < |b| ensures b[i] == 0 {
      assert b[16..][i - 16] == b[i];
    }
  }

  /** The bytes of such a record behind its header: the page starts with its magic, version and count,
      and ends in zeros. */
  predicate OneListLog(b: Data) {
    && |b| == 16 + PAGE_SIZE
    && b[16] == 81 && b[17] == 82 && b[18] == 89 && b[19] == 88
    && b[20] == 1 && b[21] == 0 && b[22] == 1 && b[23] == 0 && b[24] == 0 && b[25] == 0
    && forall i :: 30 <= i < |b| ==> b[i] == 0
  }

  lemma {:induction false} OneListInside(b: Data, k: nat, crc: Checksum)
    requires 12 <= k < 30 && OneListLog(b)
    ensures Parse(b[k..], crc) == []
  {
    if k == 12 {
      assert b[12..][8..12] == [b[20], b[21], b[22], b[23]];
      LengthTooLong(b[12..], crc);
    } else if k < 16 {
      NoMagic(b, k, 16 - k, crc);
    } else if k < 26 {
      NoMagic(b, k, 0, crc);
    } else if k == 26 {
      assert forall i :: 8 <= i < 12 ==> b[26..][i] == 0;
      UnpackZeros(b[26..][8..12]);
    } else {
      NoMagic(b, k, 3, crc);
    }
  }

  /** A length field of 65537 asks for more than is there. */
  lemma {:induction false} LengthTooLong(log: Data, crc: Checksum)
    requires 16 <= |log| < 0x1_0000 && log[8..12] == [1, 0, 1, 0]
    ensures Parse(log, crc) == []
  {
    assert Unpack([0]) == 0 + 256 * Unpack([]);
    assert [1, 0][1..] == [0] && [0, 1, 0][1..] == [1, 0] && [1, 0, 1, 0][1..] == [0, 1, 0];
    assert Unpack([1, 0]) == 1;
    assert Unpack([0, 1, 0]) == 256;
    assert Unpack([1, 0, 1, 0]) == 65537;
  }
}
