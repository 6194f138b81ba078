/** Write-ahead logging as a step machine: what survives a process crash at any point
    (queryx/storage/pager.py, queryx/wal/recovery.py).

    The crash model is the one the log's own documentation states (queryx/wal/log.py): bytes that
    were flushed survive, an append in flight leaves a strict prefix of its record, and a page
    write in flight leaves arbitrary bytes in that page. */
module Crash {
  import opened Bytes
  import opened Wal

  type Disk = map<nat, Data>

  /** Auto-checkpoint once the log reaches this many bytes. */
  const CHECKPOINT_BYTES := 0x10_0000

  datatype Mode =
    | Down                         // not running
    | Recovering(next: nat)        // opening: the first `next` intact records are reapplied
    | Up                           // between page writes
    | Logged(page: nat, data: Data) // the record is in the log, the page is not written yet
    | Written                      // the page is written, the log not yet considered for truncation

  /** `committed` is the state of all writes whose log append completed; the pager does not store
      it, and no step reads it. */
  datatype State = State(disk: Disk, log: Data, mode: Mode, committed: Disk)

  datatype Event =
    | Append(page: nat, data: Data)
    | AppendTorn(page: nat, data: Data, cut: nat)
    | Write
    | WriteTorn(garbage: Data)
    | MaybeCheckpoint
    | Crash
    | Open
    | Redo
    | RedoTorn(garbage: Data)
    | Recovered

  predicate Enabled(s: State, ev: Event, crc: Checksum) {
    match ev
    case Append(p, d) => s.mode.Up? && Loggable(Rec(p, d))
    case AppendTorn(p, d, cut) => s.mode.Up? && Loggable(Rec(p, d)) && cut < |Encode(Rec(p, d), crc)|
    case Write | WriteTorn(_) => s.mode.Logged?
    case MaybeCheckpoint => s.mode.Written?
    case Crash => true
    case Open => s.mode.Down?
    case Redo | RedoTorn(_) => s.mode.Recovering? && s.mode.next < |Parse(s.log, crc)|
    case Recovered => s.mode.Recovering? && s.mode.next == |Parse(s.log, crc)|
  }

  /** One step. An event that is not enabled does nothing. */
  function Step(s: State, ev: Event, crc: Checksum): State {
    if !Enabled(s, ev, crc) then s
    else
      match ev
      case Append(p, d) =>
        s.(log := s.log + Encode(Rec(p, d), crc), mode := Logged(p, d), committed := s.committed[p := d])
      case AppendTorn(p, d, cut) => s.(log := s.log + Encode(Rec(p, d), crc)[..cut], mode := Down)
      case Write => s.(disk := s.disk[s.mode.page := s.mode.data], mode := Written)
      case WriteTorn(g) => s.(disk := s.disk[s.mode.page := g], mode := Down)
      case MaybeCheckpoint => s.(log := if |s.log| >= CHECKPOINT_BYTES then [] else s.log, mode := Up)
      case Crash => s.(mode := Down)
      case Open => s.(mode := Recovering(0))
      case Redo =>
        var r := Parse(s.log, crc)[s.mode.next];
        s.(disk := s.disk[r.page := r.data], mode := Recovering(s.mode.next + 1))
      case RedoTorn(g) =>
        var r := Parse(s.log, crc)[s.mode.next];
        s.(disk := s.disk[r.page := g], mode := Down)
      case Recovered => s.(log := if s.mode.next > 0 then [] else s.log, mode := Up)
  }

  /** The state after a run of events; the last event comes last. */
  function Steps(s: State, evs: seq<Event>, crc: Checksum): State {
    if evs == [] then s else Step(Steps(s, evs[..|evs| - 1], crc), evs[|evs| - 1], crc)
  }

  lemma {:induction false} StepsLast(s: State, evs: seq<Event>, ev: Event, crc: Checksum)
    ensures Steps(s, evs + [ev], crc) == Step(Steps(s, evs, crc), ev, crc)
  {
    assert (evs + [ev])[..|evs|] == evs;
  }

  /** The page images a list of records leaves behind: the last one for each page. */
  function Images(rs: seq<Rec>): Disk {
    if rs == [] then map[] else map[rs[0].page := rs[0].data] + Images(rs[1..])
  }

  lemma {:induction false} ImagesAppend(rs: seq<Rec>, r: Rec)
    ensures Images(rs + [r]) == Images(rs)[r.page := r.data]
  {
    if rs == [] {
      assert [] + [r] == [r];
      assert Images([r]) == map[r.page := r.data] + Images([]);
    } else {
      assert (rs + [r])[0] == rs[0] && (rs + [r])[1..] == rs[1..] + [r];
      ImagesAppend(rs[1..], r);
    }
  }

  /** Every logged page has an image, and it is the last one logged. */
  lemma {:induction false} ImagesHas(rs: seq<Rec>, i: nat)
    requires i < |rs|
    ensures rs[i].page in Images(rs)
    ensures (forall j :: i < j < |rs| ==> rs[j].page != rs[i].page) ==> Images(rs)[rs[i].page] == rs[i].data
  {
    if i > 0 {
      ImagesHas(rs[1..], i - 1);
    } else if rs[0].page in Images(rs[1..]) {
      var j := ImagesFrom(rs[1..], rs[0].page);
    }
  }

  /** And only logged pages have one. */
  lemma {:induction false} ImagesFrom(rs: seq<Rec>, p: nat) returns (i: nat)
    requires p in Images(rs)
    ensures i < |rs| && rs[i].page == p
  {
    if rs[0].page == p {
      i := 0;
    } else {
      i := ImagesFrom(rs[1..], p);
      i := i + 1;
    }
  }

  lemma {:induction false} ImagesDrop(rs: seq<Rec>, k: nat)
    requires k <= |rs|
    ensures forall p :: p in Images(rs[k..]) ==> p in Images(rs)
    decreases k
  {
    if k > 0 {
      ImagesDrop(rs[1..], k - 1);
      assert rs[1..][k - 1..] == rs[k..];
    } else {
      assert rs[0..] == rs;
    }
  }

  /** The log is what completed appends leave, and perhaps the beginning of one more record. */
  ghost predicate LogIs(log: Data, rs: seq<Rec>, tail: Data, crc: Checksum) {
    AllLoggable(rs) && Torn(tail, crc) && log == EncodeAll(rs, crc) + tail
  }

  /** Applying the records to a disk gives the committed state, and so does applying them to the
      committed state itself. */
  predicate Covers(disk: Disk, rs: seq<Rec>, committed: Disk) {
    disk + Images(rs) == committed && committed + Images(rs) == committed
  }

  ghost predicate Inv(s: State, rs: seq<Rec>, tail: Data, crc: Checksum) {
    && LogIs(s.log, rs, tail, crc)
    && Covers(s.disk, rs, s.committed)
    && match s.mode
       case Down => true
       case Recovering(n) => n <= |rs| && s.disk + Images(rs[n..]) == s.committed
       case Up => tail == [] && s.disk == s.committed
       case Logged(p, d) => tail == [] && s.disk[p := d] == s.committed && rs != [] && rs[|rs| - 1] == Rec(p, d)
       case Written => tail == [] && s.disk == s.committed
  }

  ghost predicate Safe(s: State, crc: Checksum) {
    exists rs, tail :: Inv(s, rs, tail, crc)
  }

  /** Opening has found a log with no intact record in it, but not an empty one; the pager leaves
      such a log as it is. */
  predicate Stuck(s: State, crc: Checksum) {
    s.mode == Recovering(0) && Parse(s.log, crc) == [] && s.log != []
  }

  lemma {:induction false} LogParses(log: Data, rs: seq<Rec>, tail: Data, crc: Checksum)
    requires LogIs(log, rs, tail, crc)
    ensures Parse(log, crc) == rs
  {
    ParseEncoded(rs, tail, crc);
  }

  lemma {:induction false} CoversTorn(disk: Disk, rs: seq<Rec>, committed: Disk, i: nat, g: Data)
    requires Covers(disk, rs, committed) && i < |rs|
    ensures Covers(disk[rs[i].page := g], rs, committed)
  {
    ImagesHas(rs, i);
  }

  lemma {:induction false} InvAppend(s: State, rs: seq<Rec>, p: nat, d: Data, crc: Checksum)
    requires Inv(s, rs, [], crc) && s.mode.Up? && Loggable(Rec(p, d))
    ensures Inv(Step(s, Append(p, d), crc), rs + [Rec(p, d)], [], crc)
  {
    LogAppended(s.log, rs, Rec(p, d), crc);
    CoversAppended(s.disk, rs, s.committed, Rec(p, d));
  }

  lemma {:induction false} LogAppended(log: Data, rs: seq<Rec>, r: Rec, crc: Checksum)
    requires LogIs(log, rs, [], crc) && Loggable(r)
    ensures LogIs(log + Encode(r, crc), rs + [r], [], crc)
  {
    EncodeAllAppend(rs, r, crc);
    EmptyTorn(crc);
    assert EncodeAll(rs, crc) + [] == EncodeAll(rs, crc);
    assert EncodeAll(rs + [r], crc) + [] == log + Encode(r, crc);
  }

  lemma {:induction false} CoversAppended(disk: Disk, rs: seq<Rec>, committed: Disk, r: Rec)
    requires Covers(disk, rs, committed)
    ensures Covers(disk, rs + [r], committed[r.page := r.data])
  {
    ImagesOver(disk, rs, r);
    ImagesOver(committed[r.page := r.data], rs, r);
    Overwritten(committed, Images(rs), r.page, r.data);
  }

  lemma {:induction false} ImagesOver(disk: Disk, rs: seq<Rec>, r: Rec)
    ensures disk + Images(rs + [r]) == (disk + Images(rs))[r.page := r.data]
  {
    ImagesAppend(rs, r);
  }

  lemma {:induction false} Overwritten(m: Disk, images: Disk, p: nat, d: Data)
    requires m + images == m
    ensures (m[p := d] + images)[p := d] == m[p := d]
  {
    assert forall q :: q in images ==> q in m && images[q] == (m + images)[q];
  }

  lemma {:induction false} InvAppendTorn(s: State, rs: seq<Rec>, p: nat, d: Data, cut: nat, crc: Checksum)
    requires Inv(s, rs, [], crc) && s.mode.Up? && Loggable(Rec(p, d)) && cut < |Encode(Rec(p, d), crc)|
    ensures Inv(Step(s, AppendTorn(p, d, cut), crc), rs, Encode(Rec(p, d), crc)[..cut], crc)
  {
    assert s.log == EncodeAll(rs, crc);
  }

  lemma {:induction false} InvWrite(s: State, rs: seq<Rec>, crc: Checksum)
    requires Inv(s, rs, [], crc) && s.mode.Logged?
    ensures Inv(Step(s, Write, crc), rs, [], crc)
  {
  }

  lemma {:induction false} InvCheckpoint(s: State, rs: seq<Rec>, crc: Checksum)
    requires Inv(s, rs, [], crc) && s.mode.Written?
    ensures Safe(Step(s, MaybeCheckpoint, crc), crc)
  {
    EmptyTorn(crc);
    var s' := Step(s, MaybeCheckpoint, crc);
    if |s.log| >= CHECKPOINT_BYTES {
      assert Inv(s', [], [], crc);
    } else {
      assert Inv(s', rs, [], crc);
    }
  }

  lemma {:induction false} ImagesStep(disk: Disk, rs: seq<Rec>, k: nat)
    requires k < |rs|
    ensures disk + Images(rs[k..]) == disk[rs[k].page := rs[k].data] + Images(rs[k + 1..])
  {
    assert rs[k..][0] == rs[k] && rs[k..][1..] == rs[k + 1..];
  }

  /** What reapplying record k makes of the state. */
  function Redone(s: State, r: Rec, k: nat): State {
    s.(disk := s.disk[r.page := r.data], mode := Recovering(k + 1))
  }

  lemma {:induction false} InvRedone(s: State, rs: seq<Rec>, tail: Data, k: nat, crc: Checksum)
    requires Inv(s, rs, tail, crc) && s.mode == Recovering(k) && k < |rs|
    ensures Inv(Redone(s, rs[k], k), rs, tail, crc)
  {
    CoversTorn(s.disk, rs, s.committed, k, rs[k].data);
    ImagesStep(s.disk, rs, k);
  }

  lemma {:induction false} InvRedo(s: State, rs: seq<Rec>, tail: Data, crc: Checksum)
    requires Inv(s, rs, tail, crc) && s.mode.Recovering? && s.mode.next < |rs|
    ensures Step(s, Redo, crc) == Redone(s, rs[s.mode.next], s.mode.next)
    ensures Inv(Step(s, Redo, crc), rs, tail, crc)
  {
    LogParses(s.log, rs, tail, crc);
    InvRedone(s, rs, tail, s.mode.next, crc);
  }

  /** An open pager whose log is empty. */
  function Opened(disk: Disk): State {
    State(disk, [], Up, disk)
  }

  lemma {:induction false} InvOpened(disk: Disk, crc: Checksum)
    ensures Inv(Opened(disk), [], [], crc)
  {
    EmptyTorn(crc);
  }

  lemma {:induction false} OpenedSafe(disk: Disk, crc: Checksum)
    ensures Safe(Opened(disk), crc)
  {
    InvOpened(disk, crc);
  }

  lemma {:induction false} RecoveredIs(s: State, rs: seq<Rec>, tail: Data, crc: Checksum)
    requires Inv(s, rs, tail, crc) && s.mode == Recovering(|rs|)
    ensures Step(s, Recovered, crc) == State(s.committed, if rs == [] then s.log else [], Up, s.committed)
  {
    LogParses(s.log, rs, tail, crc);
    assert rs[|rs|..] == [];
  }

  lemma {:induction false} InvRecovered(s: State, rs: seq<Rec>, tail: Data, crc: Checksum)
    requires Inv(s, rs, tail, crc) && s.mode == Recovering(|rs|)
    requires rs == [] ==> tail == []
    ensures Inv(Step(s, Recovered, crc), [], [], crc)
  {
    RecoveredIs(s, rs, tail, crc);
    assert Step(s, Recovered, crc) == Opened(s.committed);
    InvOpened(s.committed, crc);
  }

  lemma {:induction false} InvWriteTorn(s: State, rs: seq<Rec>, g: Data, crc: Checksum)
    requires Inv(s, rs, [], crc) && s.mode.Logged?
    ensures Inv(Step(s, WriteTorn(g), crc), rs, [], crc)
  {
    CoversTorn(s.disk, rs, s.committed, |rs| - 1, g);
  }

  lemma {:induction false} InvOpen(s: State, rs: seq<Rec>, tail: Data, crc: Checksum)
    requires Inv(s, rs, tail, crc) && s.mode.Down?
    ensures Inv(Step(s, Open, crc), rs, tail, crc)
    ensures Step(s, Open, crc) == s.(mode := Recovering(0))
  {
    assert rs[0..] == rs;
  }

  lemma {:induction false} InvRedoTorn(s: State, rs: seq<Rec>, tail: Data, g: Data, crc: Checksum)
    requires Inv(s, rs, tail, crc) && s.mode.Recovering? && s.mode.next < |rs|
    ensures var s' := Step(s, RedoTorn(g), crc);
      Inv(s', rs, tail, crc) && s'.mode == Down && s'.log == s.log && s'.committed == s.committed
  {
    LogParses(s.log, rs, tail, crc);
    CoversTorn(s.disk, rs, s.committed, s.mode.next, g);
  }

  lemma {:induction false} InvCrash(s: State, rs: seq<Rec>, tail: Data, crc: Checksum)
    requires Inv(s, rs, tail, crc)
    ensures Inv(Step(s, Crash, crc), rs, tail, crc)
  {
  }

  /** The steps of a running pager. */
  lemma {:induction false} UpStepSafe(s: State, rs: seq<Rec>, tail: Data, ev: Event, crc: Checksum)
    requires Inv(s, rs, tail, crc) && Enabled(s, ev, crc)
    requires ev.Append? || ev.AppendTorn? || ev.Write? || ev.WriteTorn? || ev.MaybeCheckpoint?
    ensures Safe(Step(s, ev, crc), crc)
  {
    match ev
    case Append(p, d) => InvAppend(s, rs, p, d, crc);
    case AppendTorn(p, d, cut) => InvAppendTorn(s, rs, p, d, cut, crc);
    case Write => InvWrite(s, rs, crc);
    case WriteTorn(g) => InvWriteTorn(s, rs, g, crc);
    case MaybeCheckpoint => InvCheckpoint(s, rs, crc);
  }

  /** Crashing, and the steps of recovery. */
  lemma {:induction false} DownStepSafe(s: State, rs: seq<Rec>, tail: Data, ev: Event, crc: Checksum)
    requires Inv(s, rs, tail, crc) && Enabled(s, ev, crc) && !(ev.Recovered? && Stuck(s, crc))
    requires ev.Crash? || ev.Open? || ev.Redo? || ev.RedoTorn? || ev.Recovered?
    ensures Safe(Step(s, ev, crc), crc)
  {
    LogParses(s.log, rs, tail, crc);
    match ev
    case Crash => InvCrash(s, rs, tail, crc);
    case Open => InvOpen(s, rs, tail, crc);
    case Redo => InvRedo(s, rs, tail, crc);
    case RedoTorn(g) => InvRedoTorn(s, rs, tail, g, crc);
    case Recovered =>
      assert rs == [] ==> s.log == tail;
      InvRecovered(s, rs, tail, crc);
  }

  /** Every step keeps the invariant, unless recovery ends on a stuck log. */
  lemma {:induction false} StepSafe(s: State, ev: Event, crc: Checksum)
    requires Safe(s, crc) && !(ev.Recovered? && Stuck(s, crc))
    ensures Safe(Step(s, ev, crc), crc)
  {
    var rs, tail :| Inv(s, rs, tail, crc);
    if Enabled(s, ev, crc) {
      if ev.Append? || ev.AppendTorn? || ev.Write? || ev.WriteTorn? || ev.MaybeCheckpoint? {
        UpStepSafe(s, rs, tail, ev, crc);
      } else {
        DownStepSafe(s, rs, tail, ev, crc);
      }
    }
  }

  /** No recovery of the run ends on a stuck log. */
  predicate NeverStuck(s: State, evs: seq<Event>, crc: Checksum) {
    evs == [] ||
    (var before, ev := evs[..|evs| - 1], evs[|evs| - 1];
     NeverStuck(s, before, crc) && !(ev.Recovered? && Stuck(Steps(s, before, crc), crc)))
  }

  lemma {:induction false} RunSafe(s: State, evs: seq<Event>, crc: Checksum)
    requires Safe(s, crc) && NeverStuck(s, evs, crc)
    ensures Safe(Steps(s, evs, crc), crc)
  {
    if evs != [] {
      RunSafe(s, evs[..|evs| - 1], crc);
      StepSafe(Steps(s, evs[..|evs| - 1], crc), evs[|evs| - 1], crc);
    }
  }

  // -- recovery --------------------------------------------------------------

  /** Opening, as far as reapplying the first n records. */
  function Reapply(n: nat): seq<Event> {
    if n == 0 then [Open] else Reapply(n - 1) + [Redo]
  }

  lemma {:induction false} ReapplyStep(s: State, n: nat, crc: Checksum)
    requires n > 0
    ensures Steps(s, Reapply(n), crc) == Step(Steps(s, Reapply(n - 1), crc), Redo, crc)
  {
    StepsLast(s, Reapply(n - 1), Redo, crc);
  }

  /** Opening without a crash, when the log holds n intact records. */
  function Reopen(n: nat): seq<Event> {
    Reapply(n) + [Recovered]
  }

  lemma {:induction false} ReapplyRuns(s: State, n: nat, rs: seq<Rec>, tail: Data, crc: Checksum)
    requires Inv(s, rs, tail, crc) && s.mode.Down? && n <= |rs|
    ensures var s' := Steps(s, Reapply(n), crc);
      && Inv(s', rs, tail, crc) && s'.mode == Recovering(n)
      && s'.committed == s.committed && s'.log == s.log
  {
    if n == 0 {
      StepsOne(s, Open, crc);
      InvOpen(s, rs, tail, crc);
    } else {
      ReapplyRuns(s, n - 1, rs, tail, crc);
      ReapplyStep(s, n, crc);
      InvRedo(Steps(s, Reapply(n - 1), crc), rs, tail, crc);
    }
  }

  /** Whatever point a run crashed at, opening the file again gives exactly the writes whose log
      append completed, and empties the log if it held an intact record. */
  lemma {:induction false} ReopenRestores(s: State, rs: seq<Rec>, tail: Data, crc: Checksum)
    requires Inv(s, rs, tail, crc) && s.mode.Down?
    ensures Parse(s.log, crc) == rs
    ensures Steps(s, Reopen(|rs|), crc)
         == State(s.committed, if rs == [] then s.log else [], Up, s.committed)
  {
    LogParses(s.log, rs, tail, crc);
    ReapplyRuns(s, |rs|, rs, tail, crc);
    StepsLast(s, Reapply(|rs|), Recovered, crc);
    RecoveredIs(Steps(s, Reapply(|rs|), crc), rs, tail, crc);
  }

  /** Opening the file again after that gives the same state once more. */
  lemma {:induction false} ReopenTwice(s: State, rs: seq<Rec>, tail: Data, crc: Checksum)
    requires Inv(s, rs, tail, crc) && s.mode.Down?
    ensures var s' := Steps(s, Reopen(|rs|), crc);
      var down := Step(s', Crash, crc);
      Steps(down, Reopen(|Parse(down.log, crc)|), crc) == s'
  {
    ReopenRestores(s, rs, tail, crc);
    if rs == [] {
      ReopenRestores(State(s.committed, s.log, Down, s.committed), [], tail, crc);
    } else {
      InvOpened(s.committed, crc);
      InvCrash(Opened(s.committed), [], [], crc);
      ReopenRestores(State(s.committed, [], Down, s.committed), [], [], crc);
    }
  }

  /** The main theorem. Take any run from a safe state, for one from an empty log or from a file just
      created, with crashes anywhere, in which no recovery ended on a stuck log. Crash it where it
      stands and open it again: the disk is exactly the writes whose log append completed. Replaying
      the log once more changes nothing, and neither does another crash and opening. */
  lemma {:induction false} CrashSafety(start: State, evs: seq<Event>, crc: Checksum)
    requires Safe(start, crc) && NeverStuck(start, evs, crc)
    ensures var s := Step(Steps(start, evs, crc), Crash, crc);
      var s' := Steps(s, Reopen(|Parse(s.log, crc)|), crc);
      var down := Step(s', Crash, crc);
      && s'.mode == Up && s'.disk == s.committed && s'.committed == s.committed
      && s.committed + Images(Parse(s.log, crc)) == s.committed
      && Steps(down, Reopen(|Parse(down.log, crc)|), crc) == s'
  {
    RunSafe(start, evs, crc);
    var s := Steps(start, evs, crc);
    StepSafe(s, Crash, crc);
    var rs, tail :| Inv(Step(s, Crash, crc), rs, tail, crc);
    ReopenRestores(Step(s, Crash, crc), rs, tail, crc);
    ReopenTwice(Step(s, Crash, crc), rs, tail, crc);
  }

  /** Between page writes of such a run, the disk holds every committed write. */
  lemma {:induction false} UpMeansCommitted(start: State, evs: seq<Event>, crc: Checksum)
    requires Safe(start, crc) && NeverStuck(start, evs, crc) && Steps(start, evs, crc).mode.Up?
    ensures var s := Steps(start, evs, crc); s.disk == s.committed
  {
    RunSafe(start, evs, crc);
    var rs, tail :| Inv(Steps(start, evs, crc), rs, tail, crc);
  }

  // -- how long the log gets ---------------------------------------------------

  /** The run writes whole pages. */
  predicate PageSized(evs: seq<Event>) {
    forall ev :: ev in evs && ev.Append? ==> |ev.data| == PAGE_SIZE
  }

  /** The log holds whole page images, and between page writes it is below the threshold. */
  predicate LogShort(s: State, crc: Checksum) {
    (forall r :: r in Parse(s.log, crc) ==> |r.data| == PAGE_SIZE) && (s.mode.Up? ==> |s.log| < CHECKPOINT_BYTES)
  }

  lemma {:induction false} StepLogShort(s: State, ev: Event, crc: Checksum)
    requires Safe(s, crc) && LogShort(s, crc) && !(ev.Recovered? && Stuck(s, crc))
    requires ev.Append? ==> |ev.data| == PAGE_SIZE
    ensures LogShort(Step(s, ev, crc), crc)
  {
    var rs, tail :| Inv(s, rs, tail, crc);
    LogParses(s.log, rs, tail, crc);
    if Enabled(s, ev, crc) && ev.Append? {
      InvAppend(s, rs, ev.page, ev.data, crc);
      LogParses(Step(s, ev, crc).log, rs + [Rec(ev.page, ev.data)], [], crc);
    } else if Enabled(s, ev, crc) && ev.AppendTorn? {
      InvAppendTorn(s, rs, ev.page, ev.data, ev.cut, crc);
      LogParses(Step(s, ev, crc).log, rs, Encode(Rec(ev.page, ev.data), crc)[..ev.cut], crc);
    } else {
      ShortTornIsEmpty([], crc);
      assert Step(s, ev, crc).log == s.log || Step(s, ev, crc).log == [];
    }
  }

  lemma {:induction false} RunLogShort(start: State, evs: seq<Event>, crc: Checksum)
    requires Safe(start, crc) && LogShort(start, crc) && NeverStuck(start, evs, crc) && PageSized(evs)
    ensures LogShort(Steps(start, evs, crc), crc)
  {
    if evs != [] {
      var before, ev := evs[..|evs| - 1], evs[|evs| - 1];
      assert ev in evs && forall e :: e in before ==> e in evs;
      RunLogShort(start, before, crc);
      RunSafe(start, before, crc);
      StepLogShort(Steps(start, before, crc), ev, crc);
    }
  }

  lemma {:induction false} OpenedShort(disk: Disk, crc: Checksum)
    ensures Safe(Opened(disk), crc) && LogShort(Opened(disk), crc)
  {
    OpenedSafe(disk, crc);
    ShortTornIsEmpty([], crc);
  }

  /** Between the page writes of such a run, the log holds at most 255 records. */
  lemma {:induction false} LogBound(start: State, evs: seq<Event>, crc: Checksum)
    requires Safe(start, crc) && LogShort(start, crc)
    requires NeverStuck(start, evs, crc) && PageSized(evs) && Steps(start, evs, crc).mode.Up?
    ensures |Steps(start, evs, crc).log| < CHECKPOINT_BYTES
    ensures |Parse(Steps(start, evs, crc).log, crc)| <= 255
  {
    RunSafe(start, evs, crc);
    RunLogShort(start, evs, crc);
    var s := Steps(start, evs, crc);
    var rs, tail :| Inv(s, rs, tail, crc);
    LogParses(s.log, rs, tail, crc);
    assert forall i :: 0 <= i < |rs| ==> rs[i] in rs;
    assert s.log == EncodeAll(rs, crc);
    EncodeAllSize(rs, PAGE_SIZE, crc);
  }

  // -- recovery that is itself cut short -----------------------------------------

  /** What recovery leaves when it is cut short after k records, between two of them or, given
      some garbage, inside the page write of the next one. */
  function CutShort(s: State, k: nat, garbage: seq<Data>, crc: Checksum): State {
    Step(Steps(s, Reapply(k), crc), if garbage == [] then Crash else RedoTorn(garbage[0]), crc)
  }

  lemma {:induction false} CutInv(s: State, rs: seq<Rec>, tail: Data, k: nat, garbage: seq<Data>, crc: Checksum)
    requires Inv(s, rs, tail, crc) && s.mode == Recovering(k) && (garbage != [] ==> k < |rs|)
    ensures var s' := Step(s, if garbage == [] then Crash else RedoTorn(garbage[0]), crc);
      Inv(s', rs, tail, crc) && s'.mode == Down && s'.log == s.log && s'.committed == s.committed
  {
    if garbage == [] { InvCrash(s, rs, tail, crc); } else { InvRedoTorn(s, rs, tail, garbage[0], crc); }
  }

  /** Starting recovery over after it was cut short gives what an undisturbed one gives. */
  lemma {:induction false} RecoveryRestarts(
      s: State, rs: seq<Rec>, tail: Data, k: nat, garbage: seq<Data>, crc: Checksum)
    requires Inv(s, rs, tail, crc) && s.mode.Down? && k <= |rs| && (garbage != [] ==> k < |rs|)
    ensures Steps(CutShort(s, k, garbage, crc), Reopen(|rs|), crc) == Steps(s, Reopen(|rs|), crc)
  {
    ReapplyRuns(s, k, rs, tail, crc);
    CutInv(Steps(s, Reapply(k), crc), rs, tail, k, garbage, crc);
    ReopenRestores(s, rs, tail, crc);
    ReopenRestores(CutShort(s, k, garbage, crc), rs, tail, crc);
  }

  // -- the stuck log ---------------------------------------------------------

  /** Opening leaves an empty log exactly when it found one, or found an intact record. */
  lemma {:induction false} LogEmptyAfterOpen(s: State, rs: seq<Rec>, tail: Data, crc: Checksum)
    requires Inv(s, rs, tail, crc) && s.mode.Down?
    ensures Steps(s, Reopen(|rs|), crc).log == [] <==> s.log == [] || Parse(s.log, crc) != []
  {
    ReopenRestores(s, rs, tail, crc);
  }

  /** Crashing after these events and opening the file again gives exactly the committed writes. */
  predicate Restores(s: State, evs: seq<Event>, crc: Checksum) {
    var down := Step(Steps(s, evs, crc), Crash, crc);
    var up := Steps(down, Reopen(|Parse(down.log, crc)|), crc);
    up.disk == down.committed && up.committed == down.committed
  }

  /** However the run goes on with writes of whole pages, as long as none of its recoveries ends on a
      stuck log, every committed write survives. */
  ghost predicate Durable(s: State, crc: Checksum) {
    forall evs :: PageSized(evs) && NeverStuck(s, evs, crc) ==> Restores(s, evs, crc)
  }

  /** The exact condition: what opening leaves keeps every later write safe if and only if the log
      it found was empty or held an intact record. */
  lemma {:induction false} DurableIff(s: State, rs: seq<Rec>, tail: Data, crc: Checksum)
    requires Inv(s, rs, tail, crc) && s.mode.Down?
    ensures Durable(Steps(s, Reopen(|rs|), crc), crc) <==> s.log == [] || Parse(s.log, crc) != []
  {
    ReopenRestores(s, rs, tail, crc);
    if s.log == [] || rs != [] {
      assert Steps(s, Reopen(|rs|), crc) == Opened(s.committed);
      EmptyLogDurable(s.committed, crc);
    } else {
      assert s.log == EncodeAll([], crc) + tail == tail;
      assert Steps(s, Reopen(|rs|), crc) == State(s.committed, tail, Up, s.committed);
      TornLogNotDurable(s.committed, tail, crc);
    }
  }

  lemma {:induction false} EmptyLogDurable(disk: Disk, crc: Checksum)
    ensures Durable(Opened(disk), crc)
  {
    OpenedSafe(disk, crc);
    forall evs | NeverStuck(Opened(disk), evs, crc) ensures Restores(Opened(disk), evs, crc) {
      CrashSafety(Opened(disk), evs, crc);
    }
  }

  lemma {:induction false} TornLogNotDurable(disk: Disk, tail: Data, crc: Checksum)
    requires Torn(tail, crc) && tail != []
    ensures !Durable(State(disk, tail, Up, disk), crc)
  {
    var r, cut: nat :| Loggable(r) && cut < |Encode(r, crc)| && tail == Encode(r, crc)[..cut];
    var q := if r.page == 0 then 1 else 0;
    StuckLosesWrite(disk, r, cut, q, [], crc);
  }

  /** After opening on a stuck log, a write of a page of zeros to a page of a low number that is logged
      in full and then torn on disk is lost. */
  lemma {:induction false} StuckLosesWrite(disk: Disk, r: Rec, cut: nat, q: nat, garbage: Data, crc: Checksum)
    requires Loggable(r) && 1 <= cut < |Encode(r, crc)| && q < 87 && q != r.page && garbage != Zeros(PAGE_SIZE)
    ensures var s := State(disk, Encode(r, crc)[..cut], Up, disk);
      var evs := [Append(q, Zeros(PAGE_SIZE))] + [WriteTorn(garbage)];
      PageSized(evs) && NeverStuck(s, evs, crc) && !Restores(s, evs, crc)
  {
    ZerosQuiet(q, crc);
    QuietWriteLost(disk, r, cut, Rec(q, Zeros(PAGE_SIZE)), garbage, crc);
  }

  /** So is every quiet record. */
  lemma {:induction false} QuietWriteLost(disk: Disk, r: Rec, cut: nat, next: Rec, garbage: Data, crc: Checksum)
    requires Loggable(r) && 1 <= cut < |Encode(r, crc)| && garbage != next.data
    requires Loggable(next) && Quiet(next, crc) && next.page < 87 && next.page != r.page
    ensures var s := State(disk, Encode(r, crc)[..cut], Up, disk);
      var evs := [Append(next.page, next.data)] + [WriteTorn(garbage)];
      var down := Steps(s, evs, crc);
      var up := Steps(down, Reopen(|Parse(down.log, crc)|), crc);
      && NeverStuck(s, evs, crc) && !Restores(s, evs, crc)
      && up.mode == Up && next.page in up.disk && up.disk[next.page] == garbage
  {
    var torn := Encode(r, crc)[..cut];
    LoggedThenTorn(State(disk, torn, Up, disk), next.page, next.data, garbage, crc);
    var down := State(disk[next.page := garbage], torn + Encode(next, crc), Down, disk[next.page := next.data]);
    assert Step(down, Crash, crc) == down;
    TornTailHides(r, cut, next, crc);
    ReopenKeepsPage(down, Parse(down.log, crc), next.page, crc);
  }

  /** A page write that is logged in full and torn on disk, on any log. */
  lemma {:induction false} LoggedThenTorn(s: State, q: nat, d: Data, garbage: Data, crc: Checksum)
    requires s.mode.Up? && Loggable(Rec(q, d))
    ensures NeverStuck(s, [Append(q, d)] + [WriteTorn(garbage)], crc)
    ensures Steps(s, [Append(q, d)] + [WriteTorn(garbage)], crc)
         == State(s.disk[q := garbage], s.log + Encode(Rec(q, d), crc), Down, s.committed[q := d])
  {
    StepsOne(s, Append(q, d), crc);
    StepsLast(s, [Append(q, d)], WriteTorn(garbage), crc);
    NeverStuckOne(s, Append(q, d), crc);
    NeverStuckLast(s, [Append(q, d)], WriteTorn(garbage), crc);
  }

  lemma {:induction false} StepsOne(s: State, ev: Event, crc: Checksum)
    ensures Steps(s, [ev], crc) == Step(s, ev, crc)
  {
    StepsLast(s, [], ev, crc);
    assert [] + [ev] == [ev];
  }

  lemma {:induction false} NeverStuckOne(s: State, ev: Event, crc: Checksum)
    ensures NeverStuck(s, [ev], crc) <==> !(ev.Recovered? && Stuck(s, crc))
  {
    NeverStuckLast(s, [], ev, crc);
    assert [] + [ev] == [ev];
  }

  lemma {:induction false} NeverStuckLast(s: State, evs: seq<Event>, ev: Event, crc: Checksum)
    ensures NeverStuck(s, evs + [ev], crc) <==>
      NeverStuck(s, evs, crc) && !(ev.Recovered? && Stuck(Steps(s, evs, crc), crc))
  {
    assert (evs + [ev])[..|evs|] == evs;
  }

  /** Recovery has reapplied k records, and page q is as it was. */
  predicate Kept(s: State, s': State, k: nat, q: nat) {
    && q in s.disk && q in s'.disk && s'.disk[q] == s.disk[q]
    && s'.committed == s.committed && s'.log == s.log && s'.mode == Recovering(k)
  }

  predicate Elsewhere(rs: seq<Rec>, q: nat) {
    forall i :: 0 <= i < |rs| ==> rs[i].page != q
  }

  /** Recovery leaves a page alone that no record read back is about. */
  lemma {:induction false} ReopenKeepsPage(s: State, rs: seq<Rec>, q: nat, crc: Checksum)
    requires s.mode.Down? && q in s.disk && Parse(s.log, crc) == rs && Elsewhere(rs, q)
    ensures var s' := Steps(s, Reopen(|rs|), crc);
      s'.mode == Up && q in s'.disk && s'.disk[q] == s.disk[q] && s'.committed == s.committed
  {
    ReapplyKeepsPage(s, rs, |rs|, q, crc);
    StepsLast(s, Reapply(|rs|), Recovered, crc);
    RecoveredKeepsPage(s, Steps(s, Reapply(|rs|), crc), |rs|, q, crc);
  }

  lemma {:induction false} ReapplyKeepsPage(s: State, rs: seq<Rec>, n: nat, q: nat, crc: Checksum)
    requires s.mode.Down? && q in s.disk && Parse(s.log, crc) == rs && n <= |rs| && Elsewhere(rs, q)
    ensures Kept(s, Steps(s, Reapply(n), crc), n, q)
  {
    if n == 0 {
      StepsOne(s, Open, crc);
    } else {
      ReapplyKeepsPage(s, rs, n - 1, q, crc);
      ReapplyMoreKeepsPage(s, rs, n, q, crc);
    }
  }

  lemma {:induction false} ReapplyMoreKeepsPage(s: State, rs: seq<Rec>, n: nat, q: nat, crc: Checksum)
    requires 0 < n <= |rs| && Parse(s.log, crc) == rs && rs[n - 1].page != q
    requires Kept(s, Steps(s, Reapply(n - 1), crc), n - 1, q)
    ensures Kept(s, Steps(s, Reapply(n), crc), n, q)
  {
    ReapplyStep(s, n, crc);
    RedoKeepsPage(s, Steps(s, Reapply(n - 1), crc), rs, n - 1, q, crc);
  }

  lemma {:induction false} RedoKeepsPage(s: State, s1: State, rs: seq<Rec>, k: nat, q: nat, crc: Checksum)
    requires Kept(s, s1, k, q) && Parse(s.log, crc) == rs && k < |rs| && rs[k].page != q
    ensures Kept(s, Step(s1, Redo, crc), k + 1, q)
  {
  }

  lemma {:induction false} RecoveredKeepsPage(s: State, s1: State, k: nat, q: nat, crc: Checksum)
    requires Kept(s, s1, k, q) && k == |Parse(s.log, crc)|
    ensures var s' := Step(s1, Recovered, crc);
      s'.mode == Up && s'.disk == s1.disk && s'.committed == s.committed
  {
  }

  /** A run of that kind from the start. An append on an empty log is cut off after one to three bytes;
      the file is opened again; then a page write is logged in full but torn on disk. The next
      recovery does not see the record and leaves the torn page. */
  lemma {:induction false} StuckLogLosesWrite(
      disk: Disk, p: nat, d: Data, cut: nat, q: nat, d': Data, garbage: Data, crc: Checksum)
    requires Loggable(Rec(p, d)) && Loggable(Rec(q, d')) && 1 <= cut <= 3 && garbage != d'
    ensures var first := [AppendTorn(p, d, cut)] + [Open] + [Recovered];
      var s := Steps(Opened(disk), first + [Append(q, d')] + [WriteTorn(garbage)] + [Open] + [Recovered], crc);
      s.mode == Up && s.committed[q := d'] == s.committed && q in s.disk && s.disk[q] != s.committed[q]
  {
    var torn := Encode(Rec(p, d), crc)[..cut];
    var first := [AppendTorn(p, d, cut)] + [Open] + [Recovered];
    TornThenOpened(disk, p, d, cut, crc);
    var s2 := State(disk, torn, Up, disk);
    var log := torn + Encode(Rec(q, d'), crc);
    var s3 := State(disk[q := garbage], log, Down, disk[q := d']);
    StepsLast(Opened(disk), first, Append(q, d'), crc);
    StepsLast(Opened(disk), first + [Append(q, d')], WriteTorn(garbage), crc);
    assert Step(Step(s2, Append(q, d'), crc), WriteTorn(garbage), crc) == s3;
    assert log + [] == log;
    ShortTailHides(torn, Rec(q, d'), [], crc);
    OpenedStuck(Opened(disk), first + [Append(q, d')] + [WriteTorn(garbage)], s3, crc);
  }

  lemma {:induction false} TornThenOpened(disk: Disk, p: nat, d: Data, cut: nat, crc: Checksum)
    requires Loggable(Rec(p, d)) && 1 <= cut <= 3
    ensures Steps(Opened(disk), [AppendTorn(p, d, cut)] + [Open] + [Recovered], crc)
         == State(disk, Encode(Rec(p, d), crc)[..cut], Up, disk)
  {
    var torn := Encode(Rec(p, d), crc)[..cut];
    var ev := AppendTorn(p, d, cut);
    assert [] + torn == torn;
    StepsLast(Opened(disk), [], ev, crc);
    assert [] + [ev] == [ev];
    ShortTornIsEmpty(torn, crc);
    OpenedStuck(Opened(disk), [ev], State(disk, torn, Down, disk), crc);
  }

  /** Opening on a log without an intact record changes nothing. */
  lemma {:induction false} OpenedStuck(s: State, evs: seq<Event>, s1: State, crc: Checksum)
    requires Steps(s, evs, crc) == s1 && s1.mode.Down? && Parse(s1.log, crc) == []
    ensures Steps(s, evs + [Open] + [Recovered], crc) == s1.(mode := Up)
  {
    StepsLast(s, evs, Open, crc);
    StepsLast(s, evs + [Open], Recovered, crc);
    NothingToRedo(s1, crc);
  }

  lemma {:induction false} NothingToRedo(s: State, crc: Checksum)
    requires s.mode.Down? && Parse(s.log, crc) == []
    ensures Step(Step(s, Open, crc), Recovered, crc) == s.(mode := Up)
  {
    assert Step(s, Open, crc) == s.(mode := Recovering(0));
  }

  lemma {:induction false} ShortTornIsEmpty(torn: Data, crc: Checksum)
    requires |torn| < 16
    ensures Parse(torn, crc) == []
  {
  }
}
