/**
 * Exact recovery: when inserts run one after another, the index a reopening rebuilds is the graph
 * that inserting ids 0, 1, .., n - 1 into an empty index gives, whatever the snapshot watermark and
 * wherever the crashes fell.
 */
module ExactRecovery {
  import opened Common
  import opened Bytes
  import opened Graph
  import opened Recovery
  import opened Protocol
  import opened Safety
  import L = Log
  import P = Persist
  import I = Insertion
  import St = Structure

  /** Sequential use: an insert starts only when the last has been linked, and linking is `Hnsw::insert`. */
  ghost predicate OneAtATime(env: Env, s: State, step: Step) {
    && (step.Begin? && s.mem.Up? ==> s.mem.logged == {})
    && (step.LinkRow? && s.mem.Up? ==>
          && Sane(s.mem.graph) && |s.mem.graph.nodes| < |s.hist.vs|
          && step.graph == Link(env, env.cfg, s.hist.vs, s.mem.graph))
  }

  ghost predicate SeqNext(env: Env, a: State, b: State) {
    exists step :: Enabled(env, a, step) && OneAtATime(env, a, step) && b == Apply(env, a, step)
  }

  ghost predicate SeqRun(env: Env, states: seq<State>) {
    && states != [] && states[0] == START
    && forall i | 0 < i < |states| :: SeqNext(env, states[i - 1], states[i])
  }

  /** The snapshot and the index are the graphs of the rows they cover. */
  ghost predicate Exact(env: Env, s: State) {
    && s.hist.mark <= |s.hist.vs| && s.hist.snap == Built(env, s.hist.vs[..s.hist.mark])
    && (s.mem.Up? ==>
          |s.mem.graph.nodes| <= |s.hist.vs| && s.mem.graph == Built(env, s.hist.vs[..|s.mem.graph.nodes|]))
  }

  /** And the index covers all rows but the one in flight. */
  ghost predicate ExactInv(env: Env, s: State) {
    && Exact(env, s)
    && (s.mem.Up? ==>
          && (s.mem.logged == {} ==> |s.mem.graph.nodes| == |s.hist.vs|)
          && (s.mem.logged != {} ==>
                && s.mem.slot.Free? && s.hist.vs != [] && s.mem.logged == {|s.hist.vs| - 1}
                && |s.mem.graph.nodes| == |s.hist.vs| - 1))
  }

  lemma StartExact(env: Env)
    ensures ExactInv(env, START)
  {
  }

  lemma SyncExact(env: Env, s: State)
    requires ExactInv(env, s) && Enabled(env, s, Sync)
    ensures ExactInv(env, Apply(env, s, Sync))
  {
    hide Built, L.Frame;
    var r := Apply(env, s, Sync);
    var n := |s.mem.graph.nodes|;
    assert r.hist.vs[..n] == s.hist.vs[..n];
    assert r.hist.vs[..s.hist.mark] == s.hist.vs[..s.hist.mark];
  }

  lemma LinkExact(env: Env, s: State, id: nat, graph: Graph)
    requires ExactInv(env, s) && Enabled(env, s, LinkRow(id, graph)) && OneAtATime(env, s, LinkRow(id, graph))
    ensures ExactInv(env, Apply(env, s, LinkRow(id, graph)))
  {
    hide Built, Link, IndexOk;
    BuiltStep(env, s.hist.vs);
    assert s.hist.vs[..|s.hist.vs|] == s.hist.vs;
  }

  lemma CrashExact(env: Env, s: State, keep: nat)
    requires ExactInv(env, s) && Inv(env, s) && Enabled(env, s, Crash(keep))
    ensures ExactInv(env, Apply(env, s, Crash(keep)))
  {
    hide Built, Inv, L.Frame, L.LogBytes;
    CrashKeeps(env, s, keep);
    var r := Apply(env, s, Crash(keep));
    assert r.hist.vs[..s.hist.mark] == s.hist.vs[..s.hist.mark];
  }

  lemma OpenExact(env: Env, s: State)
    requires EnvOk(env) && ExactInv(env, s) && Inv(env, s) && Enabled(env, s, Open)
    ensures ExactInv(env, Apply(env, s, Open))
  {
    hide Built, L.Frame, L.LogBytes, LogOk, SnapOk, BookOk, Recover, VectorsOk, EnvOk, SnapshotLoads, LinkUpTo;
    RecoverGood(env, s.disk, s.hist);
    LinkFromBuilt(env, s.hist.vs, s.hist.mark, |s.hist.vs|);
    assert s.hist.vs[..|s.hist.vs|] == s.hist.vs;
  }

  /** Steps that touch neither the rows logged, nor the index, nor the snapshot. */
  lemma OtherExact(env: Env, s: State, step: Step)
    requires ExactInv(env, s) && Inv(env, s) && Enabled(env, s, step) && OneAtATime(env, s, step)
    requires !step.Sync? && !step.LinkRow? && !step.Crash? && !step.Open?
    ensures ExactInv(env, Apply(env, s, step))
  {
    hide Built, L.Frame, L.LogBytes, Recover, DiskOk, SlotOk, CodesOk, P.SaveBytes, IndexOk;
    if step.SaveSnap? {
      assert s.mem.logged == {} && s.mem.nextLsn == |s.hist.vs|;
      assert s.hist.vs[..|s.hist.vs|] == s.hist.vs;
    }
  }

  lemma SeqNextKeeps(env: Env, a: State, b: State)
    requires EnvOk(env) && Inv(env, a) && ExactInv(env, a) && SeqNext(env, a, b)
    ensures Inv(env, b) && ExactInv(env, b)
  {
    hide Inv, ExactInv, Enabled, Apply, OneAtATime, EnvOk;
    var step :| Enabled(env, a, step) && OneAtATime(env, a, step) && b == Apply(env, a, step);
    assert Next(env, a, b);
    NextKeepsInv(env, a, b);
    match step {
      case Sync => SyncExact(env, a);
      case LinkRow(id, graph) => LinkExact(env, a, id, graph);
      case Crash(keep) => CrashExact(env, a, keep);
      case Open => OpenExact(env, a);
      case _ => OtherExact(env, a, step);
    }
  }

  lemma {:induction false} SeqRunSafe(env: Env, states: seq<State>, i: nat)
    requires EnvOk(env) && SeqRun(env, states) && i < |states|
    ensures Inv(env, states[i]) && ExactInv(env, states[i])
    decreases i
  {
    hide Inv, ExactInv, SeqNext, EnvOk;
    if i == 0 {
      StartInv(env);
      StartExact(env);
    } else {
      SeqRunSafe(env, states, i - 1);
      assert SeqNext(env, states[i - 1], states[i]);
      SeqNextKeeps(env, states[i - 1], states[i]);
    }
  }

  /** Under sequential use every snapshot is within its degree bounds. */
  lemma SeqSnapshotLoads(env: Env, s: State)
    requires EnvOk(env) && ExactInv(env, s)
    ensures SnapshotLoads(env, s.disk, s.hist)
  {
    hide I.Build;
    var vs := s.hist.vs[..s.hist.mark];
    St.BuildInvariants(env.cfg, env.kernel, env.levelOf, vs);
    var g := Built(env, vs);
    forall i, l | 0 <= i < |g.nodes| && 0 <= l < |g.nodes[i]| ensures |g.nodes[i][l]| <= I.MaxDegree(env.cfg, l) {
      assert St.CleanList(i, g.nodes[i][l], St.Bound(env.cfg, l, true), true);
    }
  }

  /**
   * In any run of sequential inserts, failed writes, checkpoints, crashes at any step and reopenings
   * under one configuration: reopening succeeds exactly when no flushed row past the watermark holds
   * a NaN, and the index it rebuilds (levels, ordered adjacency, entry) equals the graph from
   * inserting ids 0, .., n - 1 into an empty index.
   */
  lemma RecoveryIsExact(env: Env, states: seq<State>, i: nat, keep: nat)
    requires EnvOk(env) && SeqRun(env, states) && i < |states| && Enabled(env, states[i], Crash(keep))
    ensures var c := Apply(env, states[i], Crash(keep));
            && c.disk.header <= |c.hist.vs|
            && (Recover(env, c.disk).Opened? <==> NoNanInWindow(c.disk, c.hist))
            && (Recover(env, c.disk).Opened? ==>
                  var db := Recover(env, c.disk).db;
                  db.graph == Built(env, db.rows) && states[i].hist.vs <= db.rows)
  {
    hide Inv, ExactInv, Built, Recover, L.Frame, L.LogBytes, SnapshotLoads, LinkUpTo;
    hide LogOk, SnapOk, BookOk, VectorsOk, EnvOk;
    SeqRunSafe(env, states, i);
    var s := states[i];
    CrashKeeps(env, s, keep);
    CrashExact(env, s, keep);
    var c := Apply(env, s, Crash(keep));
    DownRecovers(env, c);
    SeqSnapshotLoads(env, c);
    ExactDatabase(env, c);
  }

  lemma ExactDatabase(env: Env, c: State)
    requires EnvOk(env) && Inv(env, c) && ExactInv(env, c) && c.mem.Down?
    ensures Recover(env, c.disk).Opened? ==>
              var db := Recover(env, c.disk).db;
              db.graph == Built(env, db.rows) && db.rows == c.hist.vs
  {
    hide Built, L.Frame, L.LogBytes, LogOk, SnapOk, BookOk, Recover, VectorsOk, EnvOk, SnapshotLoads, LinkUpTo;
    RecoverGood(env, c.disk, c.hist);
    LinkFromBuilt(env, c.hist.vs, c.hist.mark, |c.hist.vs|);
    assert c.hist.vs[..|c.hist.vs|] == c.hist.vs;
  }

  // --- the NaN window ---------------------------------------------------------------------------

  lemma Extend(env: Env, run: seq<State>, step: Step) returns (longer: seq<State>)
    requires SeqRun(env, run) && Enabled(env, run[|run| - 1], step) && OneAtATime(env, run[|run| - 1], step)
    ensures SeqRun(env, longer) && longer[|longer| - 1] == Apply(env, run[|run| - 1], step)
  {
    hide Enabled, Apply, OneAtATime;
    var b := Apply(env, run[|run| - 1], step);
    longer := run + [b];
    assert SeqNext(env, run[|run| - 1], b);
    forall i | 0 < i < |longer| ensures SeqNext(env, longer[i - 1], longer[i]) {
      if i < |run| { assert SeqNext(env, run[i - 1], run[i]); }
    }
  }

  /** The first insert into an empty database, up to the durable log record. */
  lemma FirstInsertLogged(env: Env, v: Vector) returns (run: seq<State>)
    requires EnvOk(env) && |v| == env.dim && env.capacity > 0 && 21 + 4 * env.dim < U32_LIMIT
    ensures SeqRun(env, run) && run != []
    ensures var s := run[|run| - 1];
            && s.hist == History([v], 0, 0, EMPTY, None, None) && s.disk.header == 0 && s.disk.rows == [v]
            && s.disk.snap == None && s.synced == |s.disk.wal| && s.acked == map[]
            && s.mem == Up(EMPTY, 1, false, Free, {0}, {}, Idle, None)
  {
    hide L.Frame, L.LogBytes, EnvOk, Recover;
    run := [START];
    StartOpens(env);
    run := Extend(env, run, Open);
    var s1 := run[|run| - 1];
    run := Extend(env, run, Begin(v));
    run := Extend(env, run, Write(|FrameOf(env, s1, v)|));
    run := Extend(env, run, Sync);
  }

  lemma StartOpens(env: Env)
    requires EnvOk(env)
    ensures Recover(env, START.disk) == Opened(Database([], EMPTY, env.cfg, 0, [], None))
  {
    hide L.Frame, EnvOk, Recover, LinkUpTo;
    StartInv(env);
    RecoverGood(env, START.disk, START.hist);
    assert Records([], 0) == [];
    assert LinkUpTo(env, [], EMPTY, 0) == EMPTY by { LinkNothing(env); }
  }

  lemma LinkNothing(env: Env)
    ensures Sane(EMPTY) && LinkUpTo(env, [], EMPTY, 0) == EMPTY
  {
  }

  /**
   * The promise that an acknowledged insert survives a crash fails for a vector with a NaN component:
   * insert it, start a checkpoint, and crash after the store's flush and before the snapshot. The
   * header then covers the row, the log still holds it, the two compare unequal, and `open` refuses.
   */
  lemma NanBreaksRecovery(env: Env, v: Vector) returns (run: seq<State>, keep: nat)
    requires EnvOk(env) && |v| == env.dim && env.capacity > 0 && 21 + 4 * env.dim < U32_LIMIT
    requires HasNan(v)
    ensures SeqRun(env, run) && run != [] && run[|run| - 1].acked == map[0 := v]
    ensures Enabled(env, run[|run| - 1], Crash(keep))
    ensures Recover(env, Apply(env, run[|run| - 1], Crash(keep)).disk) == Refused
  {
    hide L.Frame, L.LogBytes, EnvOk, Recover, HasNan, Built, Link, ExactInv, Inv;
    run := FirstInsertLogged(env, v);
    var s := run[|run| - 1];
    var g := Link(env, env.cfg, [v], EMPTY);
    LinkedFirst(env, v);
    run := Extend(env, run, LinkRow(0, g));
    run := Extend(env, run, Finish(0, true));
    assert run[|run| - 1].mem.linked == {} && run[|run| - 1].acked == map[0 := v];
    run := Extend(env, run, Lock);
    run := Extend(env, run, Flush);
    s := run[|run| - 1];
    keep := |s.disk.wal|;
    RecoveryIsExact(env, run, |run| - 1, keep);
    var c := Apply(env, s, Crash(keep));
    assert c.hist.vs[0] == v && c.hist.mark == 0 && c.disk.header == 1;
    SeqRunSafe(env, run, |run| - 1);
    CrashKeeps(env, s, keep);
    DownRecovers(env, c);
  }

  lemma LinkedFirst(env: Env, v: Vector)
    requires EnvOk(env)
    ensures Sane(EMPTY) && IndexOk(env, Link(env, env.cfg, [v], EMPTY), 1)
  {
    hide Link, EnvOk;
    EmptyIsSane();
    assert IndexOk(env, EMPTY, 0);
    LinkKeepsIndex(env, [v], EMPTY);
  }
}
