/**
 * Where the two machines meet: the index that concurrent inserts leave, as `Concurrent` derives it
 * step by step, is one that the crash-recovery protocol's linking step admits. So the protocol's runs
 * include every batch and every set of racing inserts, and what a race does to a list reaches the
 * snapshot on disk.
 */
module Racing {
  import opened Common
  import opened Bytes
  import opened Graph
  import opened Recovery
  import opened Protocol
  import opened Safety
  import opened Operations
  import Co = Concurrent
  import ER = ExactRecovery
  import I = Insertion
  import L = Log
  import P = Persist
  import Ra = Race
  import Sel = Select

  // --- levels fixed by ids ------------------------------------------------------------------------

  /** Every node has the level its id fixes. */
  ghost predicate Levelled(env: Env, s: Co.State) {
    forall id | id in s.nodes :: |s.nodes[id]| == env.levelOf(id) + 1
  }

  /** A step of a concurrent insert whose level comes from its id. */
  ghost predicate LevelNext(env: Env, d: Sel.Metric, a: Co.State, b: Co.State) {
    exists step :: && Co.Enabled(env.cfg, a, step) && b == Co.Apply(env.cfg, d, a, step)
                   && (step.SetNode? ==> step.level == env.levelOf(step.id))
  }

  ghost predicate LevelRun(env: Env, d: Sel.Metric, start: Graph, states: seq<Co.State>) {
    && states != [] && states[0] == Co.Resume(start)
    && forall i | 0 < i < |states| :: LevelNext(env, d, states[i - 1], states[i])
  }

  lemma LevelNextKeeps(env: Env, d: Sel.Metric, a: Co.State, b: Co.State)
    requires LevelNext(env, d, a, b) && Levelled(env, a)
    ensures Levelled(env, b) && Co.Next(env.cfg, d, a, b)
  {
    hide I.BackLink, I.Dedup;
    var step :| && Co.Enabled(env.cfg, a, step) && b == Co.Apply(env.cfg, d, a, step)
                && (step.SetNode? ==> step.level == env.levelOf(step.id));
  }

  /** The index invariant of `Concurrent` and the levels, in every state of every such run. */
  lemma {:induction false} LevelRunSafe(env: Env, d: Sel.Metric, start: Graph, states: seq<Co.State>, i: nat)
    requires IndexOk(env, start, |start.nodes|) && LevelRun(env, d, start, states) && i < |states|
    ensures Co.Inv(env.cfg, states[i]) && Levelled(env, states[i])
    decreases i
  {
    hide Co.Inv, Co.RacedGraph, Co.Next, LevelNext;
    if i == 0 {
      Co.ResumeInv(env.cfg, start);
    } else {
      LevelRunSafe(env, d, start, states, i - 1);
      assert LevelNext(env, d, states[i - 1], states[i]);
      LevelNextKeeps(env, d, states[i - 1], states[i]);
      Co.NextKeepsInv(env.cfg, d, states[i - 1], states[i]);
    }
  }

  /** At quiescence that is the index the protocol asks for. */
  lemma SettledIndexOk(env: Env, s: Co.State, n: nat)
    requires Co.Inv(env.cfg, s) && Levelled(env, s) && Co.Settled(s, n)
    ensures IndexOk(env, Co.Snapshot(s, n), n)
  {
    hide Co.Inv, Co.RacedGraph;
    Co.SettledGraph(env.cfg, s, n);
  }

  /**
   * Take any run of concurrent inserts from an index the protocol knows. If it ends with ids `0..n`
   * settled, the graph it leaves is one that the protocol's linking step admits as the index of `n`
   * logged rows.
   */
  lemma ConcurrentRunAdmitted(env: Env, d: Sel.Metric, start: Graph, states: seq<Co.State>, n: nat)
    requires IndexOk(env, start, |start.nodes|) && LevelRun(env, d, start, states)
    requires Co.Settled(states[|states| - 1], n)
    ensures var g := Co.Snapshot(states[|states| - 1], n);
            && IndexOk(env, g, n)
            && forall s: State, id: nat | s.mem.Up? && s.mem.stage.Idle? && id in s.mem.logged && |s.hist.vs| == n ::
                 Enabled(env, s, LinkRow(id, g))
  {
    hide IndexOk;
    LevelRunSafe(env, d, start, states, |states| - 1);
    SettledIndexOk(env, states[|states| - 1], n);
  }

  /** A run that ends with the right levels had them all along: no node disappears or changes level. */
  lemma {:induction false} LevelsFromEnd(env: Env, d: Sel.Metric, start: Graph, states: seq<Co.State>)
    requires Co.Run(env.cfg, d, start, states) && Levelled(env, states[|states| - 1])
    ensures LevelRun(env, d, start, states)
    decreases |states|
  {
    hide Co.Next, LevelNext;
    if |states| > 1 {
      var k := |states| - 1;
      assert Co.Next(env.cfg, d, states[k - 1], states[k]);
      LevelsBefore(env, d, states[k - 1], states[k]);
      LevelsFromEnd(env, d, start, states[..k]);
      forall i | 0 < i < |states| ensures LevelNext(env, d, states[i - 1], states[i]) {
        if i < k { assert LevelNext(env, d, states[..k][i - 1], states[..k][i]); }
      }
    }
  }

  lemma LevelsBefore(env: Env, d: Sel.Metric, a: Co.State, b: Co.State)
    requires Co.Next(env.cfg, d, a, b) && Levelled(env, b)
    ensures Levelled(env, a) && LevelNext(env, d, a, b)
  {
    hide I.BackLink, I.Dedup;
    var step :| Co.Enabled(env.cfg, a, step) && b == Co.Apply(env.cfg, d, a, step);
    Co.NextKeepsLevels(env.cfg, d, a, b);
    if step.SetNode? { assert |b.nodes[step.id]| == step.level + 1; }
  }

  // --- a batch ------------------------------------------------------------------------------------

  lemma Extend(env: Env, run: seq<State>, step: Step) returns (longer: seq<State>)
    requires Run(env, run) && Enabled(env, run[|run| - 1], step)
    ensures Run(env, longer) && run <= longer && longer[|longer| - 1] == Apply(env, run[|run| - 1], step)
  {
    hide Enabled, Apply;
    LeadsOne(env, run[|run| - 1], step);
    longer := OperationExtendsRun(env, run, [step], Apply(env, run[|run| - 1], step));
  }

  /** Rows that can be logged: right dimension, a frame that fits, room in the store. */
  ghost predicate Loggable(env: Env, s: State, vs: seq<Vector>) {
    && (forall i | 0 <= i < |vs| :: |vs[i]| == env.dim)
    && 21 + 4 * env.dim < U32_LIMIT && |s.hist.vs| + |vs| <= env.capacity
  }

  /** Phase 1: every row is stored and logged, in order. */
  lemma {:induction false} LogAll(env: Env, run: seq<State>, vs: seq<Vector>) returns (longer: seq<State>)
    requires Run(env, run) && var s := run[|run| - 1];
                              && s.mem.Up? && s.mem.slot.Free? && s.mem.stage.Idle? && !s.mem.poisoned
                              && |s.disk.rows| == |s.hist.vs| && Loggable(env, s, vs)
    ensures Run(env, longer) && run <= longer
    ensures var s, t := run[|run| - 1], longer[|longer| - 1];
            && t.hist.vs == s.hist.vs + vs && t.acked == s.acked && |t.disk.rows| == |t.hist.vs|
            && t.mem.Up? && t.mem == s.mem.(nextLsn := t.mem.nextLsn,
                                            logged := s.mem.logged + Range(|s.hist.vs|, |s.hist.vs| + |vs|))
    decreases |vs|
  {
    hide L.Frame, LogRow;
    longer := run;
    if vs != [] {
      var k := |vs| - 1;
      longer := LogAll(env, run, vs[..k]);
      var t := longer[|longer| - 1];
      LogRowIsSteps(env, t, vs[k], L.NoFault);
      LogRowDone(env, t, vs[k]);
      longer := OperationExtendsRun(env, longer, LogSteps(env, t, vs[k], L.NoFault), LogRow(env, t, vs[k], L.NoFault));
      assert vs[..k] + [vs[k]] == vs;
    }
  }

  lemma LogRowDone(env: Env, s: State, v: Vector)
    requires s.mem.Up? && s.mem.slot.Free? && !s.mem.poisoned && |v| == env.dim
    requires 21 + 4 * env.dim < U32_LIMIT && |s.disk.rows| < env.capacity
    ensures var t := LogRow(env, s, v, L.NoFault);
            && t.hist.vs == s.hist.vs + [v] && t.acked == s.acked && t.disk.rows == s.disk.rows + [v] && t.mem.Up?
            && t.mem == s.mem.(nextLsn := t.mem.nextLsn, logged := s.mem.logged + {|s.hist.vs|})
  {
    hide L.Frame;
  }

  /** Phase 2: the rows are linked; the index they leave together is `g`. */
  lemma {:induction false} LinkAll(env: Env, run: seq<State>, base: nat, lo: nat, g: Graph) returns (longer: seq<State>)
    requires Run(env, run) && var s := run[|run| - 1];
                              && s.mem.Up? && s.mem.stage.Idle? && base <= lo < |s.hist.vs|
                              && s.mem.logged == Range(lo, |s.hist.vs|) && s.mem.linked == Range(base, lo)
                              && IndexOk(env, g, |s.hist.vs|)
    ensures Run(env, longer) && run <= longer
    ensures var s := run[|run| - 1];
            longer[|longer| - 1] == s.(mem := s.mem.(graph := g, logged := {}, linked := Range(base, |s.hist.vs|)))
    decreases |run[|run| - 1].hist.vs| - lo
  {
    hide IndexOk;
    var s := run[|run| - 1];
    longer := Extend(env, run, LinkRow(lo, g));
    assert Range(lo, |s.hist.vs|) - {lo} == Range(lo + 1, |s.hist.vs|);
    assert Range(base, lo) + {lo} == Range(base, lo + 1);
    if lo + 1 < |s.hist.vs| { longer := LinkAll(env, longer, base, lo + 1, g); }
  }

  /** The oldest row is encoded and its caller answered. */
  lemma FinishOne(env: Env, s: State, lo: nat)
    requires s.mem.Up? && s.mem.stage.Idle? && lo < |s.hist.vs| && s.mem.linked == Range(lo, |s.hist.vs|)
    ensures Enabled(env, s, Finish(lo, true))
    ensures var t := Apply(env, s, Finish(lo, true));
            && t.disk == s.disk && t.hist == s.hist && t.mem.Up?
            && t.mem == s.mem.(linked := Range(lo + 1, |s.hist.vs|), pq := t.mem.pq)
            && t.acked == s.acked[lo := s.hist.vs[lo]]
  {
    assert Range(lo, |s.hist.vs|) - {lo} == Range(lo + 1, |s.hist.vs|);
  }

  /** Every row from `lo` on, with the vector its caller stored. */
  ghost function RowsFrom(vs: seq<Vector>, lo: nat): map<nat, Vector> {
    map id: nat | lo <= id < |vs| :: vs[id]
  }

  lemma RowsFromNext(acked: map<nat, Vector>, vs: seq<Vector>, lo: nat)
    requires lo <= |vs|
    ensures if lo < |vs| then acked[lo := vs[lo]] + RowsFrom(vs, lo + 1) == acked + RowsFrom(vs, lo)
            else acked + RowsFrom(vs, lo) == acked
  {
  }

  /** Every row is encoded and its caller answered. */
  lemma {:induction false} FinishAll(env: Env, run: seq<State>, lo: nat) returns (longer: seq<State>)
    requires Run(env, run) && var s := run[|run| - 1];
                              && s.mem.Up? && s.mem.stage.Idle? && lo <= |s.hist.vs|
                              && s.mem.linked == Range(lo, |s.hist.vs|)
    ensures Run(env, longer) && run <= longer
    ensures var s, t := run[|run| - 1], longer[|longer| - 1];
            && t.disk == s.disk && t.hist == s.hist && t.mem.Up?
            && t.mem == s.mem.(linked := {}, pq := t.mem.pq)
            && t.acked == s.acked + RowsFrom(s.hist.vs, lo)
    decreases |run[|run| - 1].hist.vs| - lo
  {
    hide Enabled, Apply, Next, RowsFrom, Range;
    var s := run[|run| - 1];
    longer := run;
    RowsFromNext(s.acked, s.hist.vs, lo);
    if lo < |s.hist.vs| {
      FinishOne(env, s, lo);
      longer := Extend(env, run, Finish(lo, true));
      longer := FinishAll(env, longer, lo + 1);
    } else {
      assert s.mem.linked == {};
    }
  }

  /**
   * Racing inserts in the protocol. From a quiet state of a run, log any rows; let their inserts race
   * in the index in any interleaving. Some run of the protocol ends with exactly the index they leave,
   * and every one of the rows acknowledged.
   */
  lemma BatchRealized(env: Env, run: seq<State>, vs: seq<Vector>, race: seq<Co.State>) returns (longer: seq<State>)
    requires EnvOk(env) && Run(env, run) && vs != []
    requires var s := run[|run| - 1]; Quiet(s.mem) && !s.mem.poisoned && Loggable(env, s, vs)
    requires var s := run[|run| - 1];
             && LevelRun(env, I.Pairwise(env.kernel, s.hist.vs + vs), s.mem.graph, race)
             && Co.Settled(race[|race| - 1], |s.hist.vs| + |vs|)
    ensures Run(env, longer) && run <= longer
    ensures var s, t := run[|run| - 1], longer[|longer| - 1];
            && t.hist.vs == s.hist.vs + vs && Quiet(t.mem) && !t.mem.poisoned
            && t.mem.graph == Co.Snapshot(race[|race| - 1], |t.hist.vs|)
            && t.acked == s.acked + RowsFrom(t.hist.vs, |s.hist.vs|)
  {
    hide IndexOk, LevelNext, Inv, Enabled, Apply, EnvOk;
    var s := run[|run| - 1];
    EveryRunSafe(env, run, |run| - 1);
    QuietIndex(env, s);
    var n := |s.hist.vs| + |vs|;
    ConcurrentRunAdmitted(env, I.Pairwise(env.kernel, s.hist.vs + vs), s.mem.graph, race, n);
    longer := LogAll(env, run, vs);
    assert Range(|s.hist.vs|, |s.hist.vs|) == {};
    longer := LinkAll(env, longer, |s.hist.vs|, |s.hist.vs|, Co.Snapshot(race[|race| - 1], n));
    longer := FinishAll(env, longer, |s.hist.vs|);
  }

  lemma QuietIndex(env: Env, s: State)
    requires Inv(env, s) && Quiet(s.mem)
    ensures IndexOk(env, s.mem.graph, |s.mem.graph.nodes|) && |s.mem.graph.nodes| == |s.hist.vs| == |s.disk.rows|
  {
    hide DiskOk, CodesOk, StageOk, Co.RacedGraph;
  }

  // --- the race reaches the disk ------------------------------------------------------------------

  /** An empty database, opened. */
  lemma FreshRun(env: Env) returns (run: seq<State>)
    requires EnvOk(env)
    ensures Run(env, run)
    ensures var s := run[|run| - 1];
            && s.hist.vs == [] && s.acked == map[] && s.mem == Up(EMPTY, 0, false, Free, {}, {}, Idle, None)
  {
    hide Recover, EnvOk, L.LogBytes, L.Frame;
    ER.StartOpens(env);
    run := Extend(env, [START], Open);
  }

  /** The levels of the run in `Race`. */
  ghost predicate RaceLevels(env: Env) {
    env.levelOf(0) == 2 && env.levelOf(1) == 1 && env.levelOf(2) == 2 && env.levelOf(3) == 1
  }

  /** A checkpoint up to the snapshot. */
  lemma SaveSnapshot(env: Env, run: seq<State>) returns (longer: seq<State>)
    requires Run(env, run) && var s := run[|run| - 1]; Quiet(s.mem) && !s.mem.poisoned
    ensures Run(env, longer) && run <= longer
    ensures var s, t := run[|run| - 1], longer[|longer| - 1];
            && t.mem == s.mem.(stage := BookSaved) && t.acked == s.acked && t.hist.vs == s.hist.vs
            && Enabled(env, t, SaveSnap)
  {
    hide Recover, L.LogBytes, L.Frame, P.SaveBytes;
    longer := Extend(env, run, Lock);
    longer := Extend(env, longer, Flush);
    longer := Extend(env, longer, SaveBook);
  }

  /**
   * The promise that acknowledged inserts survive a crash fails for racing inserts. Four rows are
   * logged, race as in `Race`, and are acknowledged; a checkpoint saves the over-full index. From then
   * on no crash leaves a database that `open` accepts. No vector need hold a NaN.
   */
  lemma RaceBreaksRecovery(env: Env, vs: seq<Vector>, keep: nat) returns (run: seq<State>)
    requires EnvOk(env) && env.cfg == Ra.CFG && RaceLevels(env)
    requires |vs| == 4 <= env.capacity && 21 + 4 * env.dim < U32_LIMIT
    requires forall i | 0 <= i < 4 :: |vs[i]| == env.dim
    ensures Run(env, run) && run[|run| - 1].acked == (map id: nat | id < 4 :: vs[id])
    ensures Enabled(env, run[|run| - 1], SaveSnap)
    ensures var t := Apply(env, run[|run| - 1], SaveSnap);
            && Enabled(env, t, Crash(|t.disk.wal|))
            && (Enabled(env, t, Crash(keep)) ==> Recover(env, Apply(env, t, Crash(keep)).disk) == Refused)
  {
    hide IndexOk, LevelRun, Inv, Enabled, Apply, EnvOk, Recover, Co.Run, Co.Inv, P.DegreesOk;
    var d := I.Pairwise(env.kernel, [] + vs);
    run := FreshRun(env);
    var race := RaceRun(env, d);
    run := BatchRealized(env, run, vs, race);
    run := SaveSnapshot(env, run);
    var t := Apply(env, run[|run| - 1], SaveSnap);
    if Enabled(env, t, Crash(keep)) { OverfullSnapshotRefused(env, run, |run| - 1, keep); }
    CrashPossible(env, run);
  }

  /** The process can die right after the snapshot. */
  lemma CrashPossible(env: Env, run: seq<State>)
    requires EnvOk(env) && Run(env, run) && Enabled(env, run[|run| - 1], SaveSnap)
    ensures var t := Apply(env, run[|run| - 1], SaveSnap); Enabled(env, t, Crash(|t.disk.wal|))
  {
    hide SnapOk, BookOk, VectorsOk, L.LogBytes, L.Frame, P.SaveBytes, EnvOk, Next, Recover;
    EveryRunSafe(env, run, |run| - 1);
  }

  /** The run of `Race` takes its levels from the ids and ends over-full. */
  lemma RaceRun(env: Env, d: Sel.Metric) returns (race: seq<Co.State>)
    requires env.cfg == Ra.CFG && RaceLevels(env)
    ensures race != [] && LevelRun(env, d, EMPTY, race) && Co.Settled(race[|race| - 1], 4)
    ensures !P.DegreesOk(env.cfg, Co.Snapshot(race[|race| - 1], 4).nodes)
  {
    hide Co.Run, LevelRun;
    race := Ra.AllFour(d);
    Ra.RunNonEmpty(d, race);
    LevelsFromEnd(env, d, EMPTY, race);
    assert |Ra.FOUR[2][1]| > I.MaxDegree(env.cfg, 1);
  }
}
