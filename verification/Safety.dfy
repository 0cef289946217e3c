/** Safety of the crash-recovery protocol over every run. */
module Safety {
  import opened Common
  import opened Bytes
  import opened Graph
  import opened Recovery
  import opened Protocol
  import L = Log
  import P = Persist
  import Cb = Codebook

  // --- one lemma per kind of step -------------------------------------------------------------

  lemma StartInv(env: Env)
    ensures Inv(env, START)
  {
    assert Records([], 0) == [];
  }

  /** Steps that move only volatile state, apart from pushing or popping an unpublished row. */
  lemma RowStepKeeps(env: Env, s: State, step: Step)
    requires Inv(env, s) && Enabled(env, s, step)
    requires step.Begin? || step.Refuse? || step.FailWrite? || step.Rollback?
    ensures Inv(env, Apply(env, s, step))
  {
    hide LogOk, SnapOk, BookOk, LogSize, CodesOk, TasksOk, VectorsOk;
    var r := Apply(env, s, step);
    assert CodesOk(env, s) && TasksOk(env, s);
    SameTasks(env, s, r);
    match step {
      case Begin(v) => assert r.disk.rows[..s.disk.header] == s.disk.rows[..s.disk.header];
      case Refuse => assert (s.hist.vs + [s.mem.slot.v])[..|s.hist.vs|] == s.hist.vs;
      case Rollback => assert (s.hist.vs + [s.mem.slot.v])[..|s.hist.vs|] == s.hist.vs;
      case FailWrite =>
    }
    assert SnapOk(env, r.disk, r.hist) && BookOk(env, r.disk, r.hist) by { SameFiles(env, s.disk, r.disk, s.hist, r.hist); }
  }

  lemma SameFiles(env: Env, a: Disk, b: Disk, g: History, h: History)
    requires a.snap == b.snap && a.book == b.book && g.mark == h.mark && g.snap == h.snap && g.book == h.book
    ensures SnapOk(env, a, g) == SnapOk(env, b, h) && BookOk(env, a, g) == BookOk(env, b, h)
  {
  }

  lemma SameTasks(env: Env, a: State, b: State)
    requires a.mem.Up? && b.mem.Up? && a.hist.vs == b.hist.vs
    requires a.mem.logged == b.mem.logged && a.mem.linked == b.mem.linked
    requires a.mem.graph == b.mem.graph && a.mem.pq == b.mem.pq
    ensures TasksOk(env, a) == TasksOk(env, b) && CodesOk(env, a) == CodesOk(env, b)
  {
  }

  /** The bytes of a frame up to `k`, after those up to `from`, leave a beginning of the frame. */
  lemma WriteBytes(env: Env, wal: seq<Byte>, h: History, v: Vector, from: nat, k: nat)
    requires h.base <= |h.vs| && LogOk(env, wal, h) && VectorsOk(env, h.vs + [v])
    requires var f := L.Frame(env.crc, L.Record(|h.vs|, |h.vs|, v));
             && from <= k <= |f| && |wal| == LogSize(env, h) + from
             && (from > 0 ==> h.pending == Some(v)) && (h.pending.Some? ==> h.pending == Some(v))
    ensures var f := L.Frame(env.crc, L.Record(|h.vs|, |h.vs|, v));
            && LogOk(env, wal + f[from..k], h.(pending := Some(v)))
            && |wal + f[from..k]| == LogSize(env, h) + k
  {
    hide L.Frame, L.LogBytes;
    var f := L.Frame(env.crc, L.Record(|h.vs|, |h.vs|, v));
    var log := L.LogBytes(env.crc, Records(h.vs, h.base));
    var tail := wal[|log|..];
    assert tail == f[..from];
    assert wal == log + tail;
    var more := wal + f[from..k];
    assert more[|log|..] == f[..from] + f[from..k] == f[..k];
    assert more[..|log|] == log;
  }

  /** More of the frame reaches the file. */
  lemma WriteKeeps(env: Env, s: State, k: nat)
    requires Inv(env, s) && Enabled(env, s, Write(k))
    ensures Inv(env, Apply(env, s, Write(k)))
  {
    hide L.Frame, L.LogBytes, Records, LogOk, LogSize, SnapOk, BookOk, CodesOk, TasksOk;
    var v := s.mem.slot.v;
    var r := Apply(env, s, Write(k));
    var from := if s.mem.slot.Writing? then s.mem.slot.k else 0;
    assert CodesOk(env, s) && TasksOk(env, s);
    SameTasks(env, s, r);
    SameFiles(env, s.disk, r.disk, s.hist, r.hist);
    if s.mem.slot.Pushed? { NothingPending(env, s.disk.wal, s.hist); }
    WriteBytes(env, s.disk.wal, s.hist, v, from, k);
    SizeSame(env, s.hist, r.hist);
  }

  lemma NothingPending(env: Env, wal: seq<Byte>, h: History)
    requires h.base <= |h.vs| && LogOk(env, wal, h) && h.pending.None?
    ensures |wal| == LogSize(env, h)
  {
  }

  lemma SizeSame(env: Env, g: History, h: History)
    requires g.base <= |g.vs| && g.vs == h.vs && g.base == h.base
    ensures LogSize(env, g) == LogSize(env, h)
  {
  }

  /** `fdatasync` returns: the insert is durable and the log has one more record. */
  lemma SyncKeeps(env: Env, s: State)
    requires Inv(env, s) && Enabled(env, s, Sync)
    ensures Inv(env, Apply(env, s, Sync))
  {
    hide L.Frame, L.LogBytes, SnapOk, BookOk;
    var v, n := s.mem.slot.v, |s.hist.vs|;
    var r := Apply(env, s, Sync);
    var f := FrameOf(env, s, v);
    var log := L.LogBytes(env.crc, Records(s.hist.vs, s.hist.base));
    assert s.disk.wal[|log|..] == f;
    assert s.disk.wal == log + f;
    LogGrows(env, s.hist, v);
    SameFiles(env, s.disk, r.disk, s.hist, r.hist);
    assert r.disk.rows[..r.disk.header] == r.hist.vs[..r.disk.header];
    forall id | id in r.acked ensures id < |r.hist.vs| && r.hist.vs[id] == r.acked[id] {
      assert s.hist.vs[id] == s.acked[id];
    }
    assert r.disk.wal == L.LogBytes(env.crc, Records(r.hist.vs, r.hist.base));
    SyncCodes(env, s);
  }

  lemma SyncCodes(env: Env, s: State)
    requires s.mem.Up? && CodesOk(env, s) && TasksOk(env, s) && Enabled(env, s, Sync)
    ensures CodesOk(env, Apply(env, s, Sync)) && TasksOk(env, Apply(env, s, Sync))
  {
    hide L.Frame, IndexOk;
    var r := Apply(env, s, Sync);
    assert |s.hist.vs| !in s.mem.linked;
    assert r.mem.logged != {} by { assert |s.hist.vs| in r.mem.logged; }
  }

  /** The log of one more vector is the log with one more frame. */
  lemma LogGrows(env: Env, h: History, v: Vector)
    requires h.base <= |h.vs|
    ensures L.LogBytes(env.crc, Records(h.vs + [v], h.base))
            == L.LogBytes(env.crc, Records(h.vs, h.base)) + L.Frame(env.crc, L.Record(|h.vs|, |h.vs|, v))
  {
    hide L.LogBytes, L.Frame;
    var n := |h.vs|;
    assert Records(h.vs + [v], h.base) == Records(h.vs, h.base) + [L.Record(n, n, v)];
    L.LogBytesSnoc(env.crc, Records(h.vs, h.base), L.Record(n, n, v));
  }

  lemma LinkKeeps(env: Env, s: State, id: nat, graph: Graph)
    requires Inv(env, s) && Enabled(env, s, LinkRow(id, graph))
    ensures Inv(env, Apply(env, s, LinkRow(id, graph)))
  {
    hide LogOk, SnapOk, BookOk, IndexOk, LogSize;
    var r := Apply(env, s, LinkRow(id, graph));
    SameFiles(env, s.disk, r.disk, s.hist, r.hist);
    assert r.mem.logged + r.mem.linked == s.mem.logged + s.mem.linked;
    if r.mem.logged == {} { assert s.mem.logged == {id}; }
  }

  lemma FinishKeeps(env: Env, s: State, id: nat, ack: bool)
    requires Inv(env, s) && Enabled(env, s, Finish(id, ack))
    ensures Inv(env, Apply(env, s, Finish(id, ack)))
  {
    hide LogOk, SnapOk, BookOk, IndexOk, LogSize;
    var r := Apply(env, s, Finish(id, ack));
    SameFiles(env, s.disk, r.disk, s.hist, r.hist);
    assert id in s.mem.logged + s.mem.linked;
  }

  /** `checkpoint` up to the snapshot. */
  lemma CheckpointKeeps(env: Env, s: State, step: Step)
    requires Inv(env, s) && Enabled(env, s, step)
    requires step.Lock? || step.Flush? || step.SaveBook? || step.SaveSnap? || step.Abort?
    ensures Inv(env, Apply(env, s, step))
  {
    hide LogOk, IndexOk, LogSize, Cb.FileBytes, Cb.BookOk, P.SaveBytes, VectorsOk, CodesOk;
    var r := Apply(env, s, step);
    assert r.hist.vs == s.hist.vs && r.hist.base == s.hist.base && r.hist.pending == s.hist.pending;
    LogSame(env, s.disk.wal, s.hist, r.hist);
    assert CodesOk(env, s);
    SameTasks(env, s, r);
    assert r.disk.rows[..r.disk.header] == r.hist.vs[..r.disk.header];
    if step.SaveBook? && s.mem.pq.Some? { TrainedBook(env, s); }
  }

  /** The codebook in memory is one that can be saved. */
  lemma TrainedBook(env: Env, s: State)
    requires s.mem.Up? && CodesOk(env, s) && s.mem.pq.Some?
    ensures Cb.BookOk(s.mem.pq.value.0) && s.mem.pq.value.0.dim == env.dim
  {
    hide Cb.BookOk;
  }

  /** The publish step of `train_pq`. */
  lemma TrainKeeps(env: Env, s: State, book: Cb.Book)
    requires Inv(env, s) && Enabled(env, s, Train(book))
    ensures Inv(env, Apply(env, s, Train(book)))
  {
    hide DiskOk, IndexOk, LogSize, Cb.BookOk;
    var r := Apply(env, s, Train(book));
    assert r.mem.logged + r.mem.linked == {};
  }

  lemma LogSame(env: Env, wal: seq<Byte>, g: History, h: History)
    requires g.vs == h.vs && g.base == h.base && g.pending == h.pending && g.base <= |g.vs|
    ensures LogOk(env, wal, g) == LogOk(env, wal, h) && LogSize(env, g) == LogSize(env, h)
  {
  }

  lemma EmptyLog(env: Env, h: History)
    requires h.base == |h.vs| && h.pending.None?
    ensures LogOk(env, [], h) && LogSize(env, h) == 0
  {
    assert Records(h.vs, h.base) == [];
  }

  /** Emptying the log after a snapshot that covers it all. */
  lemma ResetKeeps(env: Env, s: State, step: Step)
    requires Inv(env, s) && Enabled(env, s, step) && (step.Reset? || step.ResetFails?)
    ensures Inv(env, Apply(env, s, step))
  {
    hide LogOk, SnapOk, BookOk, IndexOk, LogSize, CodesOk, TasksOk, VectorsOk;
    var r := Apply(env, s, step);
    assert CodesOk(env, s) && TasksOk(env, s);
    SameTasks(env, s, r);
    SameFiles(env, s.disk, r.disk, s.hist, r.hist);
    if r.disk.wal == [] && r.hist.base == |r.hist.vs| && r.hist.pending.None? { EmptyLog(env, r.hist); }
  }

  /** The log after a crash that keeps at least the durable part. */
  lemma CutBytes(env: Env, wal: seq<Byte>, h: History, keep: nat)
    requires h.base <= |h.vs| && VectorsOk(env, h.vs) && LogOk(env, wal, h) && LogSize(env, h) <= keep <= |wal|
    ensures var c := Surviving(env, h, wal[..keep]);
            && VectorsOk(env, c.vs) && h.vs <= c.vs && c == h.(vs := c.vs, pending := c.pending)
            && LogOk(env, wal[..keep], c) && Torn(env, Disk(0, [], wal[..keep], None, None), c)
  {
    hide L.Frame, L.LogBytes;
    var cut := wal[..keep];
    var log := L.LogBytes(env.crc, Records(h.vs, h.base));
    assert cut[..|log|] == log;
    if h.pending.Some? {
      var v := h.pending.value;
      var f := L.Frame(env.crc, L.Record(|h.vs|, |h.vs|, v));
      var tail := wal[|log|..];
      assert cut[|log|..] == tail[..keep - |log|] <= tail;
      if keep == |log| + |f| {
        assert cut[|log|..] == f;
        assert cut == log + f;
        LogGrows(env, h, v);
      } else if keep == |log| {
        assert cut == log;
      }
    }
  }

  /** A crash, after any byte the log may keep. */
  lemma CrashKeeps(env: Env, s: State, keep: nat)
    requires Inv(env, s) && Enabled(env, s, Crash(keep))
    ensures Inv(env, Apply(env, s, Crash(keep)))
    ensures s.hist.vs <= Apply(env, s, Crash(keep)).hist.vs
  {
    hide LogOk, LogSize, VectorsOk, Surviving, SnapOk, BookOk, UpOk;
    var r := Apply(env, s, Crash(keep));
    SyncedIsLog(env, s);
    CutBytes(env, s.disk.wal, s.hist, keep);
    SameFiles(env, s.disk, r.disk, s.hist, r.hist);
    assert r.disk.rows[..r.disk.header] == r.hist.vs[..r.disk.header];
  }

  lemma SyncedIsLog(env: Env, s: State)
    requires s.mem.Up? && s.hist.base <= |s.hist.vs| && UpOk(env, s)
    ensures s.synced == LogSize(env, s.hist)
  {
  }

  /** Reopening: the recovered database is a good running state over the same history. */
  lemma OpenKeeps(env: Env, s: State)
    requires EnvOk(env) && Inv(env, s) && Enabled(env, s, Open)
    ensures Inv(env, Apply(env, s, Open))
  {
    hide L.Frame, L.LogBytes, SnapOk, BookOk, IndexOk, Recover, UpOk, EnvOk, VectorsOk, SnapshotLoads, LinkUpTo;
    RecoverGood(env, s.disk, s.hist);
    var r := Apply(env, s, Open);
    assert Recover(env, s.disk) == Opened(Restored(env, s.hist));
    SameFiles(env, s.disk, r.disk, s.hist, r.hist);
    assert r.disk.rows[..r.disk.header] == r.hist.vs[..r.disk.header];
    var log := L.LogBytes(env.crc, Records(s.hist.vs, s.hist.base));
    assert log[..|log|] == log;
    RestoredIsUp(env, s, r);
  }

  /** The database a successful open returns satisfies the running-state part of the invariant. */
  lemma RestoredIsUp(env: Env, s: State, r: State)
    requires EnvOk(env) && DiskOk(env, s.disk, s.hist)
    requires Sane(s.hist.snap) && |s.hist.snap.nodes| == s.hist.mark
    requires var db := Restored(env, s.hist);
             && r.hist == s.hist.(pending := None) && r.disk.rows == db.rows
             && r.synced == |db.wal|
             && r.mem == Up(db.graph, db.nextLsn, false, Free, {}, {}, Idle,
                            if db.pq.None? then None
                            else Some((db.pq.value.book, Encoded(env, db.pq.value.book, db.rows))))
    ensures UpOk(env, r)
  {
    hide L.Frame, L.LogBytes, SnapOk, BookOk, LogOk, IndexOk, EnvOk, Cb.BookOk, LinkUpTo, VectorsOk, CodesOk;
    SnapIndex(env, s.disk, s.hist);
    LinkUpToKeepsIndex(env, s.hist.vs, s.hist.snap, |s.hist.vs|);
    RestoredCodes(env, s, r);
  }

  lemma RestoredCodes(env: Env, s: State, r: State)
    requires BookOk(env, s.disk, s.hist) && r.hist.vs == s.hist.vs
    requires r.mem.Up? && r.mem.logged == {} && r.mem.linked == {}
    requires r.mem.pq == if s.hist.book.None? then None
                         else Some((s.hist.book.value, Encoded(env, s.hist.book.value, s.hist.vs)))
    ensures CodesOk(env, r)
  {
    hide Cb.BookOk;
    BookDim(env, s.disk, s.hist);
  }

  lemma SnapIndex(env: Env, disk: Disk, h: History)
    requires EnvOk(env) && SnapOk(env, disk, h)
    ensures IndexOk(env, h.snap, |h.snap.nodes|)
  {
    hide P.SaveBytes;
  }

  lemma BookDim(env: Env, disk: Disk, h: History)
    requires BookOk(env, disk, h)
    ensures h.book.Some? ==> Cb.BookOk(h.book.value) && h.book.value.dim == env.dim
  {
    hide Cb.BookOk, Cb.FileBytes;
  }

  /** A failed or interrupted recovery loses nothing. */
  lemma OpenFailsKeeps(env: Env, s: State, rows: seq<Vector>, truncated: bool)
    requires Inv(env, s) && Enabled(env, s, OpenFails(rows, truncated))
    ensures Inv(env, Apply(env, s, OpenFails(rows, truncated)))
  {
    hide L.Frame, L.LogBytes, SnapOk, BookOk;
    var r := Apply(env, s, OpenFails(rows, truncated));
    SameFiles(env, s.disk, r.disk, s.hist, r.hist);
    var log := L.LogBytes(env.crc, Records(s.hist.vs, s.hist.base));
    assert log[..|log|] == log;
  }

  /** Every step of every interleaving keeps the invariant. */
  lemma NextKeepsInv(env: Env, a: State, b: State)
    requires EnvOk(env) && Inv(env, a) && Next(env, a, b)
    ensures Inv(env, b)
  {
    hide Inv, Enabled, Apply;
    var step :| Enabled(env, a, step) && b == Apply(env, a, step);
    match step {
      case Write(k) => WriteKeeps(env, a, k);
      case Sync => SyncKeeps(env, a);
      case LinkRow(id, graph) => LinkKeeps(env, a, id, graph);
      case Finish(id, ack) => FinishKeeps(env, a, id, ack);
      case Reset => ResetKeeps(env, a, step);
      case ResetFails(_) => ResetKeeps(env, a, step);
      case Crash(keep) => CrashKeeps(env, a, keep);
      case Open => OpenKeeps(env, a);
      case OpenFails(rows, truncated) => OpenFailsKeeps(env, a, rows, truncated);
      case Begin(_) => RowStepKeeps(env, a, step);
      case Refuse => RowStepKeeps(env, a, step);
      case FailWrite => RowStepKeeps(env, a, step);
      case Rollback => RowStepKeeps(env, a, step);
      case Train(book) => TrainKeeps(env, a, book);
      case _ => CheckpointKeeps(env, a, step);
    }
  }

  /** No step takes back a logged vector or an acknowledgement. */
  lemma NextKeepsHistory(env: Env, a: State, b: State)
    requires Next(env, a, b) && a.hist.base <= |a.hist.vs|
    ensures a.hist.vs <= b.hist.vs
    ensures forall id | id in a.acked && id < |a.hist.vs| && a.acked[id] == a.hist.vs[id] ::
              id in b.acked && b.acked[id] == a.acked[id]
  {
    hide Recover, L.Frame, L.LogBytes, IndexOk;
  }

  /** The invariant holds in every state of every run. */
  lemma {:induction false} EveryRunSafe(env: Env, states: seq<State>, i: nat)
    requires EnvOk(env) && Run(env, states) && i < |states|
    ensures Inv(env, states[i])
    decreases i
  {
    hide Inv, Next, EnvOk;
    if i == 0 {
      StartInv(env);
    } else {
      EveryRunSafe(env, states, i - 1);
      assert Next(env, states[i - 1], states[i]);
      NextKeepsInv(env, states[i - 1], states[i]);
    }
  }

  /** Over a run the logged vectors only grow, and an acknowledged insert stays acknowledged. */
  lemma {:induction false} HistoryGrows(env: Env, states: seq<State>, i: nat, j: nat)
    requires EnvOk(env) && Run(env, states) && i <= j < |states|
    ensures states[i].hist.vs <= states[j].hist.vs
    ensures forall id | id in states[i].acked :: id in states[j].acked && states[j].acked[id] == states[i].acked[id]
    decreases j
  {
    hide Next, EnvOk, DiskOk, UpOk, Torn;
    if i < j {
      HistoryGrows(env, states, i, j - 1);
      EveryRunSafe(env, states, j - 1);
      assert Next(env, states[j - 1], states[j]);
      InvBase(env, states[j - 1]);
      NextKeepsHistory(env, states[j - 1], states[j]);
    }
  }

  lemma InvBase(env: Env, s: State)
    requires Inv(env, s)
    ensures s.hist.base <= |s.hist.vs|
  {
  }

  // --- what recovery returns ------------------------------------------------------------------

  /** What the caller of a successful `open` gets, given the state the crash left behind. */
  ghost predicate Recovered(env: Env, s: State, db: Database) {
    && db.rows == s.hist.vs
    && |db.graph.nodes| == |db.rows| && Sane(db.graph)
    && db.nextLsn == |db.rows|
    && (forall id | id in s.acked :: id < |db.rows| && db.rows[id] == s.acked[id])
    && (db.pq.Some? ==> db.pq.value.codes == EncodeAll(env, db.pq.value.book, db.rows))
  }

  /** When the durable state can be reopened at all: two conditions on what the last steps wrote. */
  ghost predicate Reopens(env: Env, s: State)
    requires s.disk.header <= |s.hist.vs|
  {
    SnapshotLoads(env, s.disk, s.hist) && NoNanInWindow(s.disk, s.hist)
  }

  lemma DownRecovers(env: Env, s: State)
    requires EnvOk(env) && Inv(env, s) && s.mem.Down?
    ensures s.disk.header <= |s.hist.vs|
    ensures Recover(env, s.disk).Opened? <==> Reopens(env, s)
    ensures !Recover(env, s.disk).Crashed?
    ensures Recover(env, s.disk).Opened? ==> Recovered(env, s, Recover(env, s.disk).db)
  {
    hide L.Frame, L.LogBytes, LogOk, SnapOk, BookOk, SnapshotLoads, Recover, VectorsOk, EnvOk;
    RecoverGood(env, s.disk, s.hist);
  }

  /**
   * Crash recovery. Take any run of inserts, batches, failed log writes, training, checkpoints,
   * crashes and reopenings, in any interleaving; any state of it; and a crash there that keeps any
   * number of bytes of the frame in flight. Reopening never panics, and it succeeds exactly when the
   * saved snapshot is within its degree bounds and no flushed row past the watermark holds a NaN.
   * When it succeeds, store and index have the same length, every acknowledged id reads back the
   * exact vector inserted, and nothing but the one insert in flight can appear beyond the vectors
   * already logged.
   */
  lemma CrashAnywhereRecovers(env: Env, states: seq<State>, i: nat, keep: nat)
    requires EnvOk(env) && Run(env, states) && i < |states| && Enabled(env, states[i], Crash(keep))
    ensures var s := states[i];
            var c := Apply(env, s, Crash(keep));
            && c.disk.header <= |c.hist.vs|
            && (Recover(env, c.disk).Opened? <==> Reopens(env, c))
            && !Recover(env, c.disk).Crashed?
            && (Recover(env, c.disk).Opened? ==>
                  && Recovered(env, c, Recover(env, c.disk).db)
                  && c.acked == s.acked
                  && (c.hist.vs == s.hist.vs
                      || (s.hist.pending.Some? && c.hist.vs == s.hist.vs + [s.hist.pending.value])))
  {
    hide Inv, Recover, Recovered, Reopens, L.Frame, L.LogBytes, EnvOk;
    EveryRunSafe(env, states, i);
    CrashKeeps(env, states[i], keep);
    DownRecovers(env, Apply(env, states[i], Crash(keep)));
  }

  /** Without NaNs the second condition always holds. */
  lemma NoNanNoProblem(s: State)
    requires s.disk.header <= |s.hist.vs| && forall i | 0 <= i < |s.hist.vs| :: !HasNan(s.hist.vs[i])
    ensures NoNanInWindow(s.disk, s.hist)
  {
  }

  /** A checkpoint that saves an over-full graph leaves a database no crash of which can be reopened. */
  lemma OverfullSnapshotRefused(env: Env, states: seq<State>, i: nat, keep: nat)
    requires EnvOk(env) && Run(env, states) && i < |states|
    requires states[i].mem.Up? && !P.DegreesOk(env.cfg, states[i].mem.graph.nodes)
    requires Enabled(env, states[i], SaveSnap)
    requires Enabled(env, Apply(env, states[i], SaveSnap), Crash(keep))
    ensures Recover(env, Apply(env, Apply(env, states[i], SaveSnap), Crash(keep)).disk) == Refused
  {
    hide Inv, Recover, Recovered, L.Frame, L.LogBytes, EnvOk, P.SaveBytes, P.DegreesOk;
    EveryRunSafe(env, states, i);
    CheckpointKeeps(env, states[i], SaveSnap);
    var t := Apply(env, states[i], SaveSnap);
    CrashKeeps(env, t, keep);
    DownRecovers(env, Apply(env, t, Crash(keep)));
  }

  /** No run reaches the last LSN, which the log would accept and then refuse to read back. */
  lemma LastLsnUnreachable(env: Env, states: seq<State>, i: nat)
    requires EnvOk(env) && Run(env, states) && i < |states| && states[i].mem.Up?
    ensures states[i].mem.nextLsn == |states[i].hist.vs| <= env.capacity < U64_LIMIT - 1
  {
    hide LogOk, SnapOk, BookOk, SlotOk, TasksOk, CodesOk, StageOk, Next;
    EveryRunSafe(env, states, i);
  }
}
