/**
 * The public operations of the database as whole-state functions, each shown to be a sequence of the
 * protocol's atomic steps: so every state an operation passes through is a state of a protocol run,
 * and a crash between any two of its steps is covered by the theorems about runs.
 */
module Operations {
  import opened Common
  import opened Bytes
  import opened Graph
  import opened Recovery
  import opened Protocol
  import opened Safety
  import L = Log
  import P = Persist
  import Cb = Codebook
  import ER = ExactRecovery

  /** `steps`, taken one after another from `s`, end in `t`. */
  ghost predicate Leads(env: Env, s: State, steps: seq<Step>, t: State)
    decreases |steps|
  {
    if steps == [] then s == t
    else Enabled(env, s, steps[0]) && Leads(env, Apply(env, s, steps[0]), steps[1..], t)
  }

  lemma {:induction false} LeadsKeepsInv(env: Env, s: State, steps: seq<Step>, t: State)
    requires EnvOk(env) && Inv(env, s) && Leads(env, s, steps, t)
    ensures Inv(env, t)
    decreases |steps|
  {
    hide Inv, Enabled, Apply, EnvOk;
    if steps != [] {
      var u := Apply(env, s, steps[0]);
      assert Next(env, s, u);
      NextKeepsInv(env, s, u);
      LeadsKeepsInv(env, u, steps[1..], t);
    }
  }

  lemma {:induction false} LeadsAppend(env: Env, s: State, a: seq<Step>, t: State, b: seq<Step>, u: State)
    requires Leads(env, s, a, t) && Leads(env, t, b, u)
    ensures Leads(env, s, a + b, u)
    decreases |a|
  {
    hide Enabled, Apply;
    if a == [] {
      assert a + b == b;
    } else {
      LeadsAppend(env, Apply(env, s, a[0]), a[1..], t, b, u);
      assert (a + b)[1..] == a[1..] + b;
    }
  }

  lemma LeadsOne(env: Env, s: State, step: Step)
    requires Enabled(env, s, step)
    ensures Leads(env, s, [step], Apply(env, s, step))
  {
    hide Enabled, Apply;
    assert [step][1..] == [];
  }

  /** An operation taken at the end of a run extends the run by all its intermediate states. */
  lemma {:induction false} OperationExtendsRun(env: Env, run: seq<State>, steps: seq<Step>, t: State)
    returns (longer: seq<State>)
    requires Run(env, run) && Leads(env, run[|run| - 1], steps, t)
    ensures Run(env, longer) && run <= longer && |longer| == |run| + |steps| && longer[|longer| - 1] == t
    decreases |steps|
  {
    hide Enabled, Apply;
    if steps == [] {
      longer := run;
    } else {
      var b := Apply(env, run[|run| - 1], steps[0]);
      assert Next(env, run[|run| - 1], b);
      var next := run + [b];
      forall i | 0 < i < |next| ensures Next(env, next[i - 1], next[i]) {
        if i < |run| { assert Next(env, run[i - 1], run[i]); }
      }
      longer := OperationExtendsRun(env, next, steps[1..], t);
    }
  }

  // --- logging one row: the WAL-mutex section ---------------------------------------------------

  /** What `insert_row_storage_only` returns. */
  function RowOutcome(env: Env, s: State, v: Vector, fault: L.Fault): Result<nat>
    requires s.mem.Up?
  {
    if s.mem.poisoned then Err(Corrupt)
    else if |v| != env.dim then Err(DimensionMismatch(env.dim, |v|))
    else if |s.disk.rows| >= env.capacity then Err(Corrupt)
    else if 21 + 4 * |v| >= U32_LIMIT then Err(InvalidArgument)
    else if fault.NoFault? then Ok(|s.disk.rows|)
    else Err(Io)
  }

  /** How many bytes of the frame reach the file. */
  ghost function Accepted(env: Env, s: State, v: Vector, fault: L.Fault): nat {
    if fault.WriteFault? then Min(fault.accepted, |FrameOf(env, s, v)|) else |FrameOf(env, s, v)|
  }

  /** Whether a frame is written at all. */
  predicate Attempts(env: Env, s: State, v: Vector)
    requires s.mem.Up?
  {
    !s.mem.poisoned && |v| == env.dim && |s.disk.rows| < env.capacity && 21 + 4 * |v| < U32_LIMIT
  }

  /** The state after it: the row is stored and logged, or nothing but the log's tail has changed. */
  ghost function LogRow(env: Env, s: State, v: Vector, fault: L.Fault): State
    requires s.mem.Up?
  {
    if !Attempts(env, s, v) then s
    else
      var wal := s.disk.wal + FrameOf(env, s, v)[..Accepted(env, s, v, fault)];
      if fault.NoFault?
      then State(s.disk.(rows := s.disk.rows + [v], wal := wal),
                 s.mem.(nextLsn := s.mem.nextLsn + 1, logged := s.mem.logged + {|s.hist.vs|}),
                 |wal|, s.hist.(vs := s.hist.vs + [v], pending := None), s.acked)
      else s.(disk := s.disk.(wal := wal), mem := s.mem.(poisoned := true), hist := s.hist.(pending := Some(v)))
  }

  ghost function LogSteps(env: Env, s: State, v: Vector, fault: L.Fault): seq<Step>
    requires s.mem.Up?
  {
    if s.mem.poisoned || |v| != env.dim || |s.disk.rows| >= env.capacity then []
    else if 21 + 4 * |v| >= U32_LIMIT then [Begin(v), Refuse]
    else if fault.NoFault? then [Begin(v), Write(Accepted(env, s, v, fault)), Sync]
    else [Begin(v), Write(Accepted(env, s, v, fault)), FailWrite, Rollback]
  }

  lemma LogRowIsSteps(env: Env, s: State, v: Vector, fault: L.Fault)
    requires s.mem.Up? && s.mem.slot.Free? && s.mem.stage.Idle?
    ensures Leads(env, s, LogSteps(env, s, v, fault), LogRow(env, s, v, fault))
  {
    hide L.Frame, Recover;
    if s.mem.poisoned || |v| != env.dim || |s.disk.rows| >= env.capacity {
    } else {
      var s1 := Apply(env, s, Begin(v));
      assert (s.disk.rows + [v])[..|s.disk.rows|] == s.disk.rows;
      if 21 + 4 * |v| >= U32_LIMIT {
        RefuseLeads(env, s, v);
      } else {
        var k := Accepted(env, s, v, fault);
        var s2 := Apply(env, s1, Write(k));
        assert FrameOf(env, s, v)[0..k] == FrameOf(env, s, v)[..k];
        if fault.NoFault? { SyncLeads(env, s, v, k); } else { FailLeads(env, s, v, k, fault); }
      }
    }
  }

  lemma RefuseLeads(env: Env, s: State, v: Vector)
    requires Enabled(env, s, Begin(v)) && 21 + 4 * |v| >= U32_LIMIT
    ensures Leads(env, s, [Begin(v), Refuse], s)
  {
    hide L.Frame, Recover;
    var s1 := Apply(env, s, Begin(v));
    assert (s.disk.rows + [v])[..|s.disk.rows|] == s.disk.rows;
    assert Apply(env, s1, Refuse) == s;
    LeadsOne(env, s, Begin(v));
    LeadsOne(env, s1, Refuse);
    LeadsAppend(env, s, [Begin(v)], s1, [Refuse], s);
    assert [Begin(v)] + [Refuse] == [Begin(v), Refuse];
  }

  lemma WriteLeads(env: Env, s: State, v: Vector, k: nat) returns (t: State)
    requires Enabled(env, s, Begin(v)) && 21 + 4 * |v| < U32_LIMIT && k <= |FrameOf(env, s, v)|
    ensures Leads(env, s, [Begin(v), Write(k)], t)
    ensures t == State(s.disk.(rows := s.disk.rows + [v], wal := s.disk.wal + FrameOf(env, s, v)[..k]),
                       s.mem.(slot := Writing(v, k)), s.synced, s.hist.(pending := Some(v)), s.acked)
  {
    hide L.Frame, Recover;
    var s1 := Apply(env, s, Begin(v));
    assert FrameOf(env, s, v)[0..k] == FrameOf(env, s, v)[..k];
    t := Apply(env, s1, Write(k));
    LeadsOne(env, s, Begin(v));
    LeadsOne(env, s1, Write(k));
    LeadsAppend(env, s, [Begin(v)], s1, [Write(k)], t);
    assert [Begin(v)] + [Write(k)] == [Begin(v), Write(k)];
  }

  lemma SyncLeads(env: Env, s: State, v: Vector, k: nat)
    requires Enabled(env, s, Begin(v)) && 21 + 4 * |v| < U32_LIMIT && k == |FrameOf(env, s, v)|
    ensures Leads(env, s, [Begin(v), Write(k), Sync], LogRow(env, s, v, L.NoFault))
  {
    hide L.Frame, Recover, Leads;
    var t := WriteLeads(env, s, v, k);
    assert Apply(env, t, Sync) == LogRow(env, s, v, L.NoFault);
    LeadsOne(env, t, Sync);
    LeadsAppend(env, s, [Begin(v), Write(k)], t, [Sync], Apply(env, t, Sync));
    assert [Begin(v), Write(k)] + [Sync] == [Begin(v), Write(k), Sync];
  }

  lemma FailLeads(env: Env, s: State, v: Vector, k: nat, fault: L.Fault)
    requires Enabled(env, s, Begin(v)) && 21 + 4 * |v| < U32_LIMIT && k == Accepted(env, s, v, fault) && !fault.NoFault?
    ensures Leads(env, s, [Begin(v), Write(k), FailWrite, Rollback], LogRow(env, s, v, fault))
  {
    hide L.Frame, Recover, Leads;
    var t := WriteLeads(env, s, v, k);
    var u := Apply(env, t, FailWrite);
    assert (s.disk.rows + [v])[..|s.disk.rows|] == s.disk.rows;
    assert Apply(env, u, Rollback) == LogRow(env, s, v, fault);
    LeadsOne(env, t, FailWrite);
    LeadsOne(env, u, Rollback);
    LeadsAppend(env, t, [FailWrite], u, [Rollback], Apply(env, u, Rollback));
    LeadsAppend(env, s, [Begin(v), Write(k)], t, [FailWrite] + [Rollback], Apply(env, u, Rollback));
    assert [Begin(v), Write(k)] + ([FailWrite] + [Rollback]) == [Begin(v), Write(k), FailWrite, Rollback];
  }

  // --- linking and finishing ------------------------------------------------------------------------

  /** Ids `lo, lo + 1, .., hi - 1`. */
  ghost function Range(lo: nat, hi: nat): (r: set<nat>)
    ensures forall i: nat :: i in r <==> lo <= i < hi
    decreases hi
  {
    if lo >= hi then {} else Range(lo, hi - 1) + {hi - 1}
  }

  /**
   * Between operations and inside a batch: ids below `done` are finished, those below the index's
   * length are linked, the rest up to the log's length are logged.
   */
  ghost predicate InOrder(s: State, done: nat) {
    && s.mem.Up? && s.mem.slot.Free? && s.mem.stage.Idle?
    && done <= |s.mem.graph.nodes| <= |s.hist.vs|
    && s.mem.logged == Range(|s.mem.graph.nodes|, |s.hist.vs|)
    && s.mem.linked == Range(done, |s.mem.graph.nodes|)
  }

  /** The next logged id enters the index. */
  ghost function LinkNext(env: Env, s: State): State
    requires s.mem.Up? && Sane(s.mem.graph) && |s.mem.graph.nodes| < |s.hist.vs|
  {
    var id := |s.mem.graph.nodes|;
    s.(mem := s.mem.(graph := Link(env, env.cfg, s.hist.vs, s.mem.graph),
                     logged := s.mem.logged - {id}, linked := s.mem.linked + {id}))
  }

  lemma LinkNextIsStep(env: Env, s: State, done: nat)
    requires EnvOk(env) && InOrder(s, done) && |s.mem.graph.nodes| < |s.hist.vs|
    requires IndexOk(env, s.mem.graph, |s.mem.graph.nodes|)
    ensures Sane(s.mem.graph)
    ensures var t := LinkNext(env, s);
            && Enabled(env, s, LinkRow(|s.mem.graph.nodes|, t.mem.graph))
            && t == Apply(env, s, LinkRow(|s.mem.graph.nodes|, t.mem.graph))
            && InOrder(t, done) && IndexOk(env, t.mem.graph, |t.mem.graph.nodes|)
            && |t.mem.graph.nodes| == |s.mem.graph.nodes| + 1
  {
    hide IndexOk, EnvOk, Link;
    IndexIsSane(env, s.mem.graph);
    LinkKeepsIndex(env, s.hist.vs, s.mem.graph);
    var id, n := |s.mem.graph.nodes|, |s.hist.vs|;
    assert Range(id, n) - {id} == Range(id + 1, n);
    assert Range(done, id) + {id} == Range(done, id + 1);
    assert id + 1 in s.mem.logged <==> id + 1 < n;
  }

  lemma FinishNextIsStep(env: Env, s: State, done: nat, ack: bool)
    requires InOrder(s, done) && done < |s.mem.graph.nodes|
    ensures done in s.mem.linked
    ensures Enabled(env, s, Finish(done, ack))
    ensures InOrder(Apply(env, s, Finish(done, ack)), done + 1)
  {
    assert Range(done, |s.mem.graph.nodes|) - {done} == Range(done + 1, |s.mem.graph.nodes|);
  }

  /** `insert`: log the row, link it, encode it, answer the caller. */
  ghost function Inserted(env: Env, s: State, v: Vector, fault: L.Fault): State
    requires s.mem.Up?
  {
    var t := LogRow(env, s, v, fault);
    if RowOutcome(env, s, v, fault).Err? || !Sane(t.mem.graph) || |t.mem.graph.nodes| >= |t.hist.vs| then t
    else
      var u, id := LinkNext(env, t), |t.mem.graph.nodes|;
      Finished(env, u, id, true)
  }

  // --- checkpoint -----------------------------------------------------------------------------------

  /** What the environment does to one checkpoint. */
  datatype CheckpointFault =
    | NoFault
    | FlushFails
    | BookFails(published: bool)
    | SaveFails(published: bool)
    | ResetFails(emptied: bool)

  ghost function AfterFlush(s: State): State
    requires s.mem.Up?
  {
    s.(disk := s.disk.(header := |s.disk.rows|))
  }

  ghost function AfterBook(env: Env, s: State): State
    requires s.mem.Up?
  {
    if s.mem.pq.None? then AfterFlush(s)
    else AfterFlush(s).(disk := AfterFlush(s).disk.(book := Some(Cb.FileBytes(env.crc, s.mem.pq.value.0))),
                        hist := s.hist.(book := Some(s.mem.pq.value.0)))
  }

  ghost function AfterSave(env: Env, s: State): State
    requires s.mem.Up?
  {
    var t := AfterBook(env, s);
    t.(disk := t.disk.(snap := Some(P.SaveBytes(env.crc, P.SnapshotOf(env.cfg, s.mem.graph, s.mem.nextLsn)))),
       hist := t.hist.(mark := s.mem.nextLsn, snap := s.mem.graph))
  }

  ghost function AfterReset(t: State, poison: bool): State
    requires t.mem.Up?
  {
    t.(disk := t.disk.(wal := []), synced := 0, hist := t.hist.(base := |t.hist.vs|, pending := None),
       mem := t.mem.(poisoned := poison))
  }

  /** Whether saving the codebook fails, and whether before its rename. */
  predicate BookLost(trained: bool, fault: CheckpointFault) {
    trained && fault.BookFails? && !fault.published
  }

  /** `checkpoint`. */
  ghost function Checkpointed(env: Env, s: State, fault: CheckpointFault): State
    requires s.mem.Up?
  {
    if fault.FlushFails? || BookLost(s.mem.pq.Some?, fault) then AfterFlush(s)
    else if (fault.BookFails? && s.mem.pq.Some?) || s.mem.poisoned then AfterBook(env, s)
    else if fault.SaveFails? then (if fault.published then AfterSave(env, s) else AfterBook(env, s))
    else if fault.ResetFails? then
      (if fault.emptied then AfterReset(AfterSave(env, s), true)
       else AfterSave(env, s).(mem := AfterSave(env, s).mem.(poisoned := true)))
    else AfterReset(AfterSave(env, s), false)
  }

  /** What it returns; `trained` says whether there is a codebook to save. */
  function CheckpointOutcome(poisoned: bool, trained: bool, fault: CheckpointFault): Result<()> {
    if fault.FlushFails? || (fault.BookFails? && trained) then Err(Io)
    else if poisoned then Err(Corrupt)
    else if fault.SaveFails? || fault.ResetFails? then Err(Io)
    else Ok(())
  }

  /**
   * A checkpoint under any fault, in terms of the files: what success means, that the snapshot is
   * replaced only after rows and codebook are safe, and the log emptied only behind the new snapshot.
   */
  lemma CheckpointIs(env: Env, s: State, fault: CheckpointFault)
    requires s.mem.Up?
    ensures var t, r := Checkpointed(env, s, fault), CheckpointOutcome(s.mem.poisoned, s.mem.pq.Some?, fault);
            var snap := Some(P.SaveBytes(env.crc, P.SnapshotOf(env.cfg, s.mem.graph, s.mem.nextLsn)));
            var book := if s.mem.pq.None? then s.disk.book else Some(Cb.FileBytes(env.crc, s.mem.pq.value.0));
            && t.mem.Up? && t.disk.rows == s.disk.rows && t.acked == s.acked
            && t.mem == s.mem.(poisoned := t.mem.poisoned)
            && (r.Ok? <==> && !s.mem.poisoned && !fault.FlushFails? && !(fault.BookFails? && s.mem.pq.Some?)
                           && !fault.SaveFails? && !fault.ResetFails?)
            && (r.Ok? ==> t.disk == Disk(|s.disk.rows|, s.disk.rows, [], snap, book) && !t.mem.poisoned)
            && (t.disk.book == s.disk.book || (t.disk.book == book && t.disk.header == |s.disk.rows|))
            && (t.disk.snap == s.disk.snap
                || (t.disk.snap == snap && t.disk.book == book && t.disk.header == |s.disk.rows|))
            && (t.disk.wal == s.disk.wal || (t.disk.wal == [] && t.disk.snap == snap))
            && (s.mem.poisoned ==> t.mem.poisoned && t.disk.snap == s.disk.snap && t.disk.wal == s.disk.wal)
  {
    hide P.SaveBytes, Cb.FileBytes;
  }

  ghost function CheckpointSteps(s: State, fault: CheckpointFault): seq<Step>
    requires s.mem.Up?
  {
    if fault.FlushFails? || BookLost(s.mem.pq.Some?, fault) then [Lock, Flush] + [Abort]
    else if (fault.BookFails? && s.mem.pq.Some?) || s.mem.poisoned then [Lock, Flush] + [SaveBook] + [Abort]
    else if fault.SaveFails? then
      (if fault.published then [Lock, Flush] + [SaveBook] + [SaveSnap] + [Abort]
       else [Lock, Flush] + [SaveBook] + [Abort])
    else if fault.ResetFails? then [Lock, Flush] + [SaveBook] + [SaveSnap] + [Step.ResetFails(fault.emptied)]
    else [Lock, Flush] + [SaveBook] + [SaveSnap] + [Reset]
  }

  /** The state inside a checkpoint. */
  ghost function At(t: State, stage: Stage): State
    requires t.mem.Up?
  {
    t.(mem := t.mem.(stage := stage))
  }

  lemma FlushLeads(env: Env, s: State)
    requires Quiet(s.mem)
    ensures Leads(env, s, [Lock, Flush], At(AfterFlush(s), Flushed))
  {
    hide Recover;
    var a := Apply(env, s, Lock);
    LeadsOne(env, s, Lock);
    LeadsOne(env, a, Flush);
    LeadsAppend(env, s, [Lock], a, [Flush], Apply(env, a, Flush));
    assert [Lock] + [Flush] == [Lock, Flush];
    assert Apply(env, a, Flush) == At(AfterFlush(s), Flushed);
  }

  /** One more step of a checkpoint. */
  lemma Then(env: Env, s: State, steps: seq<Step>, t: State, step: Step)
    requires Leads(env, s, steps, t) && Enabled(env, t, step)
    ensures Leads(env, s, steps + [step], Apply(env, t, step))
  {
    LeadsOne(env, t, step);
    LeadsAppend(env, s, steps, t, [step], Apply(env, t, step));
  }

  lemma CheckpointIsSteps(env: Env, s: State, fault: CheckpointFault)
    requires Quiet(s.mem) && (!s.mem.poisoned ==> s.hist.pending.None?)
    ensures Leads(env, s, CheckpointSteps(s, fault), Checkpointed(env, s, fault))
  {
    hide Recover, Leads, P.SaveBytes, Cb.FileBytes;
    FlushLeads(env, s);
    var t1 := At(AfterFlush(s), Flushed);
    if fault.FlushFails? || BookLost(s.mem.pq.Some?, fault) {
      Then(env, s, [Lock, Flush], t1, Abort);
    } else {
      Then(env, s, [Lock, Flush], t1, SaveBook);
      var t2 := At(AfterBook(env, s), BookSaved);
      assert Apply(env, t1, SaveBook) == t2;
      var steps := [Lock, Flush] + [SaveBook];
      if (fault.BookFails? && s.mem.pq.Some?) || s.mem.poisoned || (fault.SaveFails? && !fault.published) {
        Then(env, s, steps, t2, Abort);
      } else {
        Then(env, s, steps, t2, SaveSnap);
        var t3 := At(AfterSave(env, s), SnapSaved);
        assert Apply(env, t2, SaveSnap) == t3;
        EndCheckpoint(env, s, steps + [SaveSnap], t3, fault);
      }
    }
  }

  lemma EndCheckpoint(env: Env, s: State, steps: seq<Step>, t3: State, fault: CheckpointFault)
    requires Quiet(s.mem) && !s.mem.poisoned && s.hist.pending.None?
    requires t3 == At(AfterSave(env, s), SnapSaved) && Leads(env, s, steps, t3)
    requires !fault.FlushFails? && !(fault.BookFails? && s.mem.pq.Some?) && !(fault.SaveFails? && !fault.published)
    ensures Leads(env, s, steps + [if fault.SaveFails? then Abort
                                   else if fault.ResetFails? then Step.ResetFails(fault.emptied) else Reset],
                  Checkpointed(env, s, fault))
  {
    hide Recover, Leads, P.SaveBytes, Cb.FileBytes;
    if fault.SaveFails? {
      Then(env, s, steps, t3, Abort);
    } else if fault.ResetFails? {
      Then(env, s, steps, t3, Step.ResetFails(fault.emptied));
    } else {
      Then(env, s, steps, t3, Reset);
    }
  }

  // --- exactness ------------------------------------------------------------------------------------

  /** Logging a row leaves index and snapshot exact for the rows they cover. */
  lemma LogRowExact(env: Env, s: State, v: Vector, fault: L.Fault)
    requires s.mem.Up? && ER.Exact(env, s)
    ensures ER.Exact(env, LogRow(env, s, v, fault))
  {
    hide Built, L.Frame;
    var t, n := LogRow(env, s, v, fault), |s.mem.graph.nodes|;
    assert t.hist.vs == s.hist.vs || t.hist.vs == s.hist.vs + [v];
    assert t.hist.vs[..n] == s.hist.vs[..n] && t.hist.vs[..s.hist.mark] == s.hist.vs[..s.hist.mark];
  }

  /** Linking in id order extends the exact index by one row. */
  lemma LinkNextExact(env: Env, s: State)
    requires s.mem.Up? && ER.Exact(env, s) && Sane(s.mem.graph) && |s.mem.graph.nodes| < |s.hist.vs|
    ensures ER.Exact(env, LinkNext(env, s))
  {
    hide Built, Link;
    var n, vs := |s.mem.graph.nodes|, s.hist.vs;
    BuiltStep(env, vs[..n + 1]);
    assert vs[..n + 1][..n] == vs[..n];
    assert vs[..n + 1][..n + 1] == vs[..n + 1];
    LinkPrefix(env, env.cfg, vs[..n + 1], vs, s.mem.graph);
  }

  lemma FinishedExact(env: Env, s: State, id: nat, ack: bool)
    requires s.mem.Up? && ER.Exact(env, s)
    ensures ER.Exact(env, Finished(env, s, id, ack))
  {
    hide Built;
  }

  /** A checkpoint saves an exact snapshot. */
  lemma CheckpointedExact(env: Env, s: State, fault: CheckpointFault)
    requires s.mem.Up? && ER.Exact(env, s) && s.mem.nextLsn == |s.mem.graph.nodes|
    ensures ER.Exact(env, Checkpointed(env, s, fault))
  {
    hide Built, P.SaveBytes, Cb.FileBytes;
  }
}
