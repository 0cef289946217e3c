/**
 * The crash-recovery protocol as a state machine.
 *
 * The locks fix the atomic steps. `insert` holds `maintenance` shared and the WAL mutex from the
 * store append to the end of the log write, so at most one insert is in that section; linking and
 * encoding happen after it, in any order. `checkpoint` and the publish step of `train_pq` hold
 * `maintenance` exclusively. For the durable state a batch is a set of such inserts whose rows are
 * all logged before the first is linked, so its steps are steps of this machine too. A crash may
 * come between any two steps and after any byte of a frame.
 */
module Protocol {
  import opened Common
  import opened Bytes
  import opened Graph
  import opened Recovery
  import L = Log
  import P = Persist
  import Cb = Codebook

  /** The WAL-mutex section: row pushed; `k` bytes of its frame written; or the write has failed. */
  datatype Slot = Free | Pushed(v: Vector) | Writing(v: Vector, k: nat) | Broken(v: Vector)

  /** How far `checkpoint` has got. */
  datatype Stage = Idle | Held | Flushed | BookSaved | SnapSaved

  /** Volatile state. `logged`: in the log, not yet in the index; `linked`: in the index, not yet encoded. */
  datatype Memory =
    | Down
    | Up(graph: Graph, nextLsn: nat, poisoned: bool, slot: Slot, logged: set<nat>, linked: set<nat>, stage: Stage,
         pq: Option<(Cb.Book, map<nat, Code>)>)

  /**
   * `disk.rows` holds the rows below the in-memory count while up. `synced` is how many log bytes no
   * crash can take away. `hist` says what the bytes mean; `acked` maps every id an insert returned to
   * its caller to the vector inserted.
   */
  datatype State = State(disk: Disk, mem: Memory, synced: nat, hist: History, acked: map<nat, Vector>)

  datatype Step =
    | Begin(v: Vector)                                   // ensure_healthy, store.append
    | Refuse                                             // the record is too large for a frame
    | Write(k: nat)                                      // more bytes of the frame reach the file
    | Sync                                               // fdatasync returns: durable
    | FailWrite                                          // write or sync fails: poisoned
    | Rollback                                           // rollback_last, error to the caller
    | LinkRow(id: nat, graph: Graph)                     // index.insert
    | Finish(id: nat, ack: bool)                         // encode the row, return
    | Lock | Flush | SaveBook | SaveSnap | Reset         // checkpoint
    | ResetFails(emptied: bool) | Abort
    | Train(book: Cb.Book)                               // encode_all and publish
    | Crash(keep: nat)
    | Open                                               // a successful open
    | OpenFails(rows: seq<Vector>, truncated: bool)      // refused, or cut short by another crash

  ghost function FrameOf(env: Env, s: State, v: Vector): seq<Byte> {
    L.Frame(env.crc, L.Record(|s.hist.vs|, |s.hist.vs|, v))
  }

  predicate Quiet(m: Memory) {
    m.Up? && m.slot.Free? && m.logged == {} && m.linked == {} && m.stage.Idle?
  }

  predicate InSection(m: Memory) {
    m.Up? && m.stage.Idle?
  }

  /** The vectors the log would give back if the file ended after `wal`. */
  ghost function Surviving(env: Env, h: History, wal: seq<Byte>): History
    requires h.base <= |h.vs|
  {
    var log := L.LogBytes(env.crc, Records(h.vs, h.base));
    if h.pending.None? || |wal| <= |log| then h.(pending := None)
    else if |wal| == |log| + |L.Frame(env.crc, L.Record(|h.vs|, |h.vs|, h.pending.value))|
      then h.(vs := h.vs + [h.pending.value], pending := None)
    else h
  }

  ghost predicate Enabled(env: Env, s: State, step: Step) {
    match step
    case Begin(v) =>
      InSection(s.mem) && s.mem.slot.Free? && !s.mem.poisoned && |v| == env.dim && |s.disk.rows| < env.capacity
    case Refuse => InSection(s.mem) && s.mem.slot.Pushed? && 21 + 4 * |s.mem.slot.v| >= U32_LIMIT
    case Write(k) =>
      && InSection(s.mem) && (s.mem.slot.Pushed? || s.mem.slot.Writing?)
      && 21 + 4 * |s.mem.slot.v| < U32_LIMIT
      && (if s.mem.slot.Writing? then s.mem.slot.k else 0) <= k <= |FrameOf(env, s, s.mem.slot.v)|
    case Sync => InSection(s.mem) && s.mem.slot.Writing? && s.mem.slot.k == |FrameOf(env, s, s.mem.slot.v)|
    case FailWrite =>
      InSection(s.mem) && (s.mem.slot.Pushed? || s.mem.slot.Writing?) && 21 + 4 * |s.mem.slot.v| < U32_LIMIT
    case Rollback => InSection(s.mem) && s.mem.slot.Broken?
    case LinkRow(id, graph) =>  // what the last of any racing inserts leaves: see Racing.ConcurrentRunAdmitted
      && InSection(s.mem) && id in s.mem.logged
      && (s.mem.logged == {id} ==> IndexOk(env, graph, |s.hist.vs|))
    case Finish(id, ack) => InSection(s.mem) && id in s.mem.linked
    case Lock => Quiet(s.mem)
    case Flush => s.mem.Up? && s.mem.stage.Held?
    case SaveBook => s.mem.Up? && s.mem.stage.Flushed?
    case SaveSnap => s.mem.Up? && s.mem.stage.BookSaved? && !s.mem.poisoned
    case Reset => s.mem.Up? && s.mem.stage.SnapSaved? && !s.mem.poisoned
    case ResetFails(_) => s.mem.Up? && s.mem.stage.SnapSaved? && !s.mem.poisoned
    case Abort => s.mem.Up? && !s.mem.stage.Idle?
    case Train(book) => Quiet(s.mem) && Cb.BookOk(book) && book.dim == env.dim
    case Crash(keep) => s.mem.Up? && s.synced <= keep <= |s.disk.wal| && s.hist.base <= |s.hist.vs|
    case Open => s.mem.Down? && Recover(env, s.disk).Opened?
    case OpenFails(rows, truncated) =>
      && s.mem.Down? && s.disk.header <= |s.disk.rows| && s.disk.header <= |rows|
      && rows[..s.disk.header] == s.disk.rows[..s.disk.header]
      && s.hist.base <= |s.hist.vs|
  }

  /** Codes for a set of rows. */
  ghost function Encoded(env: Env, book: Cb.Book, rows: seq<Vector>): map<nat, Code> {
    map i: nat | i < |rows| :: env.encode(book, rows[i])
  }

  /** A linked row gets its code; its caller may be answered. */
  ghost function Finished(env: Env, s: State, id: nat, ack: bool): State
    requires s.mem.Up?
  {
    s.(mem := s.mem.(linked := s.mem.linked - {id},
         pq := if s.mem.pq.None? || id >= |s.hist.vs| then s.mem.pq
               else Some((s.mem.pq.value.0, s.mem.pq.value.1[id := env.encode(s.mem.pq.value.0, s.hist.vs[id])]))),
       acked := if ack && id < |s.hist.vs| then s.acked[id := s.hist.vs[id]] else s.acked)
  }

  ghost function Apply(env: Env, s: State, step: Step): State
    requires Enabled(env, s, step)
  {
    var n := |s.disk.rows|;
    match step
    case Begin(v) =>
      s.(disk := s.disk.(rows := s.disk.rows + [v]), mem := s.mem.(slot := Pushed(v)))
    case Refuse =>
      s.(disk := s.disk.(rows := s.disk.rows[..Max(n - 1, 0)]), mem := s.mem.(slot := Free))
    case Write(k) =>
      var v := s.mem.slot.v;
      var from := if s.mem.slot.Writing? then s.mem.slot.k else 0;
      s.(disk := s.disk.(wal := s.disk.wal + FrameOf(env, s, v)[from..k]),
         mem := s.mem.(slot := Writing(v, k)), hist := s.hist.(pending := Some(v)))
    case Sync =>
      var v := s.mem.slot.v;
      s.(mem := s.mem.(slot := Free, nextLsn := s.mem.nextLsn + 1, logged := s.mem.logged + {|s.hist.vs|}),
         synced := |s.disk.wal|, hist := s.hist.(vs := s.hist.vs + [v], pending := None))
    case FailWrite => s.(mem := s.mem.(slot := Broken(s.mem.slot.v), poisoned := true))
    case Rollback =>
      s.(disk := s.disk.(rows := s.disk.rows[..Max(n - 1, 0)]), mem := s.mem.(slot := Free))
    case LinkRow(id, graph) =>
      s.(mem := s.mem.(graph := graph, logged := s.mem.logged - {id}, linked := s.mem.linked + {id}))
    case Finish(id, ack) => Finished(env, s, id, ack)
    case Lock => s.(mem := s.mem.(stage := Held))
    case Flush => s.(disk := s.disk.(header := n), mem := s.mem.(stage := Flushed))
    case SaveBook =>
      if s.mem.pq.None? then s.(mem := s.mem.(stage := BookSaved))
      else s.(disk := s.disk.(book := Some(Cb.FileBytes(env.crc, s.mem.pq.value.0))),
              hist := s.hist.(book := Some(s.mem.pq.value.0)), mem := s.mem.(stage := BookSaved))
    case SaveSnap =>
      s.(disk := s.disk.(snap := Some(P.SaveBytes(env.crc, P.SnapshotOf(env.cfg, s.mem.graph, s.mem.nextLsn)))),
         hist := s.hist.(mark := s.mem.nextLsn, snap := s.mem.graph), mem := s.mem.(stage := SnapSaved))
    case Reset =>
      s.(disk := s.disk.(wal := []), synced := 0, hist := s.hist.(base := |s.hist.vs|), mem := s.mem.(stage := Idle))
    case ResetFails(emptied) =>
      if emptied
      then s.(disk := s.disk.(wal := []), synced := 0, hist := s.hist.(base := |s.hist.vs|, pending := None),
              mem := s.mem.(stage := Idle, poisoned := true))
      else s.(mem := s.mem.(stage := Idle, poisoned := true))
    case Abort => s.(mem := s.mem.(stage := Idle))
    case Train(book) => s.(mem := s.mem.(pq := Some((book, Encoded(env, book, s.hist.vs)))))
    case Crash(keep) =>
      var wal := s.disk.wal[..keep];
      s.(disk := s.disk.(wal := wal), mem := Down, hist := Surviving(env, s.hist, wal))
    case Open =>
      var db := Recover(env, s.disk).db;
      State(s.disk.(rows := db.rows, wal := db.wal),
            Up(db.graph, db.nextLsn, false, Free, {}, {}, Idle,
               if db.pq.None? then None else Some((db.pq.value.book, Encoded(env, db.pq.value.book, db.rows)))),
            |db.wal|, s.hist.(pending := None), s.acked)
    case OpenFails(rows, truncated) =>
      if truncated
      then s.(disk := s.disk.(rows := rows, wal := L.LogBytes(env.crc, Records(s.hist.vs, s.hist.base))),
              hist := s.hist.(pending := None))
      else s.(disk := s.disk.(rows := rows))
  }

  ghost predicate Next(env: Env, a: State, b: State) {
    exists step :: Enabled(env, a, step) && b == Apply(env, a, step)
  }

  /** A store file with no rows, and nothing else. */
  const START: State := State(Disk(0, [], [], None, None), Down, 0, History([], 0, 0, EMPTY, None, None), map[])

  ghost predicate Run(env: Env, states: seq<State>) {
    && states != [] && states[0] == START
    && forall i | 0 < i < |states| :: Next(env, states[i - 1], states[i])
  }

  // --- the invariant ------------------------------------------------------------------------------

  ghost predicate AckedOk(s: State) {
    forall id | id in s.acked :: id < |s.hist.vs| && s.hist.vs[id] == s.acked[id]
  }

  ghost function LogSize(env: Env, h: History): nat
    requires h.base <= |h.vs|
  {
    |L.LogBytes(env.crc, Records(h.vs, h.base))|
  }

  /** Who is in the WAL-mutex section, and what the file and the rows look like meanwhile. */
  ghost predicate SlotOk(env: Env, s: State)
    requires s.mem.Up? && s.hist.base <= |s.hist.vs|
  {
    match s.mem.slot
    case Free => s.disk.rows == s.hist.vs && (!s.mem.poisoned ==> s.hist.pending.None?)
    case Pushed(v) =>
      s.disk.rows == s.hist.vs + [v] && s.hist.pending.None? && !s.mem.poisoned && |v| == env.dim
      && |s.disk.rows| <= env.capacity
    case Writing(v, k) =>
      s.disk.rows == s.hist.vs + [v] && s.hist.pending == Some(v) && !s.mem.poisoned && |v| == env.dim
      && |s.disk.rows| <= env.capacity
      && |s.disk.wal| == LogSize(env, s.hist) + k
    case Broken(v) => s.disk.rows == s.hist.vs + [v] && s.mem.poisoned
  }

  ghost predicate TasksOk(env: Env, s: State)
    requires s.mem.Up?
  {
    && (forall id | id in s.mem.logged + s.mem.linked :: id < |s.hist.vs|)
    && s.mem.logged !! s.mem.linked
    && (s.mem.logged == {} ==> IndexOk(env, s.mem.graph, |s.hist.vs|))
  }

  /** Every row that is not in flight has exactly its own code. */
  ghost predicate CodesOk(env: Env, s: State)
    requires s.mem.Up?
  {
    s.mem.pq.Some? ==>
      && Cb.BookOk(s.mem.pq.value.0) && s.mem.pq.value.0.dim == env.dim
      && forall id | 0 <= id < |s.hist.vs| && id !in s.mem.logged + s.mem.linked ::
           id in s.mem.pq.value.1 && s.mem.pq.value.1[id] == env.encode(s.mem.pq.value.0, s.hist.vs[id])
  }

  /** The windows of a checkpoint. */
  ghost predicate StageOk(s: State)
    requires s.mem.Up?
  {
    && (!s.mem.stage.Idle? ==> s.mem.slot.Free? && s.mem.logged == {} && s.mem.linked == {})
    && (s.mem.stage.Flushed? || s.mem.stage.BookSaved? || s.mem.stage.SnapSaved? ==> s.disk.header == |s.hist.vs|)
    && (s.mem.stage.SnapSaved? ==> s.hist.mark == |s.hist.vs| && s.disk.snap.Some?)
  }

  ghost predicate UpOk(env: Env, s: State)
    requires s.mem.Up? && s.hist.base <= |s.hist.vs|
  {
    && s.mem.nextLsn == |s.hist.vs| && s.synced == LogSize(env, s.hist)
    && SlotOk(env, s) && TasksOk(env, s) && CodesOk(env, s) && StageOk(s)
  }

  ghost predicate Torn(env: Env, disk: Disk, h: History)
    requires h.base <= |h.vs|
  {
    h.pending.Some? ==>
      |disk.wal| < LogSize(env, h) + |L.Frame(env.crc, L.Record(|h.vs|, |h.vs|, h.pending.value))|
  }

  ghost predicate Inv(env: Env, s: State) {
    && DiskOk(env, s.disk, s.hist)
    && AckedOk(s)
    && (if s.mem.Up? then UpOk(env, s) else Torn(env, s.disk, s.hist))
  }
}
