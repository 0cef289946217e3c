/**
 * The database object: vector store, index, log and codebook wired together over the files of one
 * directory. Each method is proved to end in the state that `Operations` gives for it, and so to pass
 * only through states of the crash-recovery protocol.
 */
module Database {
  import opened Common
  import opened Bytes
  import opened Graph
  import opened Recovery
  import opened Protocol
  import opened Safety
  import opened Operations
  import opened Segments
  import opened Store
  import L = Log
  import P = Persist
  import I = Insertion
  import H = HnswIndex
  import Cb = Codebook
  import S = Search
  import N = Neighbors
  import SF = SnapshotFile
  import ER = ExactRecovery
  import Pq
  import Kernels

  /** One database directory. Snapshot and codebook are replaced whole, by rename. */
  class Files {
    const store: StoreFile
    const wal: L.File
    var snap: Option<seq<Byte>>
    var book: Option<seq<Byte>>

    constructor (store: StoreFile, wal: L.File)
      ensures this.store == store && this.wal == wal && snap == None && book == None
    {
      this.store, this.wal, snap, book := store, wal, None, None;
    }
  }

  /** The codes of rows `0, 1, ..` as a map from ids. */
  ghost function CodesMap(codes: seq<Code>): map<nat, Code> {
    map i: nat | i < |codes| :: codes[i]
  }

  lemma CodesAgree(env: Env, book: Cb.Book, rows: seq<Vector>)
    ensures CodesMap(EncodeAll(env, book, rows)) == Encoded(env, book, rows)
  {
  }

  /** Appending to the log as `Wal` does it is logging a row as the protocol does it. */
  lemma AppendIsLogRow(env: Env, s: State, v: Vector, fault: L.Fault)
    requires s.mem.Up? && |s.disk.rows| == s.mem.nextLsn == |s.hist.vs| && |s.hist.vs| + 1 < U64_LIMIT
    ensures var (w, out) := L.AppendRecord(env.crc, L.Always, L.WalState(s.disk.wal, s.mem.nextLsn, s.mem.poisoned),
                                           |s.disk.rows|, v, fault);
            var t := LogRow(env, s, v, fault);
            && (Attempts(env, s, v) ==> w == L.WalState(t.disk.wal, t.mem.nextLsn, t.mem.poisoned))
            && (!Attempts(env, s, v) && |v| == env.dim && |s.disk.rows| < env.capacity ==>
                  w == L.WalState(s.disk.wal, s.mem.nextLsn, s.mem.poisoned) && out.Err?)
            && (|v| == env.dim && |s.disk.rows| < env.capacity ==>
                  RowOutcome(env, s, v, fault) == if out.Ok? then Ok(|s.disk.rows|) else Err(out.error))
  {
    hide L.Frame;
    var f := FrameOf(env, s, v);
    assert f[..|f|] == f;
  }

  /** Which fields logging a row touches. */
  lemma LogRowFields(env: Env, s: State, v: Vector, fault: L.Fault)
    requires s.mem.Up? && |s.disk.rows| == |s.hist.vs|
    ensures var t := LogRow(env, s, v, fault);
            var ok := RowOutcome(env, s, v, fault).Ok?;
            && (!Attempts(env, s, v) ==> t == s)
            && t.mem.Up? && t.acked == s.acked
            && t.disk == s.disk.(rows := if ok then s.disk.rows + [v] else s.disk.rows, wal := t.disk.wal)
            && t.mem == s.mem.(nextLsn := t.mem.nextLsn, poisoned := t.mem.poisoned,
                               logged := if ok then s.mem.logged + {|s.hist.vs|} else s.mem.logged)
            && t.hist.vs == (if ok then s.hist.vs + [v] else s.hist.vs)
  {
    hide L.Frame;
  }

  /** `encode_all`: the code of every stored row. */
  method EncodeStore(env: Env, store: VectorStore, book: Cb.Book) returns (codes: seq<Code>)
    requires store.Valid()
    ensures codes == EncodeAll(env, book, store.Rows())
  {
    codes := [];
    for id := 0 to store.count
      invariant codes == EncodeAll(env, book, store.Rows()[..id])
    {
      var row := store.Get(id);
      codes := codes + [env.encode(book, row.value)];
    }
    assert store.Rows()[..store.count] == store.Rows();
  }

  class Db {
    const env: Env
    const files: Files
    const store: VectorStore
    const index: H.Hnsw
    const wal: L.Wal
    var pq: Option<PqState>
    /** What the protocol's history variables hold. */
    ghost var synced: nat
    ghost var hist: History
    ghost var acked: map<nat, Vector>
    /** Rows below this are linked and encoded. */
    ghost var finished: nat

    constructor (env: Env, files: Files, store: VectorStore, index: H.Hnsw, wal: L.Wal, pq: Option<PqState>,
                 ghost s: State)
      requires s.mem.Up?
      ensures this.env == env && this.files == files && this.store == store && this.index == index && this.wal == wal
      ensures this.pq == pq && synced == s.synced && hist == s.hist && acked == s.acked && finished == |s.hist.vs|
    {
      this.env, this.files, this.store, this.index, this.wal, this.pq := env, files, store, index, wal, pq;
      synced, hist, acked, finished := s.synced, s.hist, s.acked, |s.hist.vs|;
    }

    /** The parts belong together. */
    ghost predicate Wired()
      reads this, files, store, store.file, store.file.segments, wal, wal.file, index, index.visited
    {
      && EnvOk(env) && StoreWired() && WalWired() && IndexWired()
      && (pq.Some? ==> |pq.value.codes| == finished)
    }

    ghost predicate StoreWired()
      reads store, store.file, store.file.segments
    {
      store.Valid() && store.file == files.store && store.dim == env.dim
      && env.capacity == Capacity(4 * store.strideWords)
    }

    ghost predicate WalWired()
      reads wal, wal.file
    {
      wal.Valid() && wal.file == files.wal && wal.crc == env.crc && wal.policy.Always?
    }

    ghost predicate IndexWired()
      reads index, index.visited
    {
      index.Valid() && index.cfg == env.cfg && index.kernel == env.kernel
    }

    /** This object and its files as a state of the protocol. */
    ghost function View(): State
      requires Wired()
      reads this, files, store, store.file, store.file.segments, wal, wal.file, index, index.visited
    {
      State(Disk(files.store.count, store.Rows(), wal.file.bytes, files.snap, files.book),
            Up(index.G(), wal.nextLsn, wal.poisoned, Free, Range(|index.nodes|, |hist.vs|),
               Range(finished, |index.nodes|), Idle,
               if pq.None? then None else Some((pq.value.book, CodesMap(pq.value.codes)))),
            synced, hist, acked)
    }

    /** Between the phases of an operation. */
    ghost predicate Consistent()
      reads this, files, store, store.file, store.file.segments, wal, wal.file, index, index.visited
    {
      && Wired() && Inv(env, View())
      && finished <= |index.nodes| <= |hist.vs|
      && IndexOk(env, index.G(), |index.nodes|)
    }

    /** Between operations: every row is linked and encoded. */
    ghost predicate Valid()
      reads this, files, store, store.file, store.file.segments, wal, wal.file, index, index.visited
    {
      Consistent() && finished == |index.nodes| == |hist.vs|
    }

    /** Store length, index length and the codes agree, and the codes are those of the rows. */
    lemma Quiescent()
      requires Valid()
      ensures |store.Rows()| == |index.nodes|
      ensures store.Rows() == hist.vs
      ensures Quiet(View().mem)
      ensures pq.Some? ==> pq.value.codes == EncodeAll(env, pq.value.book, store.Rows())
      ensures pq.Some? ==>
                && |pq.value.codes| == |store.Rows()|
                && forall i | 0 <= i < |store.Rows()| :: pq.value.codes[i] == env.encode(pq.value.book, store.Rows()[i])
    {
      hide DiskOk, IndexOk, EnvOk, Cb.BookOk;
      var s := View();
      assert s.mem.logged == {} && s.mem.linked == {};
      if pq.Some? {
        forall i: nat | i < |pq.value.codes| ensures pq.value.codes[i] == env.encode(pq.value.book, hist.vs[i]) {
          assert i !in s.mem.logged + s.mem.linked;
          assert CodesMap(pq.value.codes)[i] == pq.value.codes[i];
        }
      }
    }

    /** After sequential use the index is the graph that inserting the stored rows, in order, builds. */
    lemma ExactIndex()
      requires Valid() && ER.Exact(env, View())
      ensures index.G() == Built(env, store.Rows())
    {
      hide Built, Inv, EnvOk, IndexOk;
      InvParts(View());
      assert hist.vs[..|hist.vs|] == hist.vs;
    }

    /** The locked section on the objects: push the row, log it, and pop it again if logging fails. */
    method PushAndLog(vector: Vector, fault: L.Fault) returns (r: Result<nat>)
      requires Wired()
      modifies store, store.file`segments, store.file.segments, wal, wal.file
      ensures Wired() && files.store.count == old(files.store.count)
      ensures forall k | |old(store.file.segments)| <= k < |store.file.segments| :: fresh(store.file.segments[k])
      ensures old(store.file.segments) <= store.file.segments
      ensures var n := old(store.count);
              if old(wal.poisoned) then
                r == Err(Corrupt) && store.Rows() == old(store.Rows()) && wal.View() == old(wal.View())
              else if |vector| != env.dim then
                r == Err(DimensionMismatch(env.dim, |vector|))
                && store.Rows() == old(store.Rows()) && wal.View() == old(wal.View())
              else if n >= env.capacity then
                r == Err(Corrupt) && store.Rows() == old(store.Rows()) && wal.View() == old(wal.View())
              else
                var (w, out) := L.AppendRecord(env.crc, L.Always, old(wal.View()), n, vector, fault);
                && wal.View() == w
                && store.Rows() == (if out.Ok? then old(store.Rows()) + [vector] else old(store.Rows()))
                && r == (if out.Ok? then Ok(n) else Err(out.error))
    {
      hide L.Frame, EnvOk, L.AppendRecord, CodesMap;
      if wal.poisoned { return Err(Corrupt); }
      store.RoomIsCapacity(store.count);
      var id := store.Append(vector);
      if id.Err? { return if |vector| != env.dim then Err(DimensionMismatch(env.dim, |vector|)) else Err(Corrupt); }
      assert store.Rows()[..id.value] == old(store.Rows());
      r := LogPushed(id.value, vector, fault);
    }

    /** Log the row just pushed, or pop it. */
    method LogPushed(id: nat, vector: Vector, fault: L.Fault) returns (r: Result<nat>)
      requires store.Valid() && WalWired() && store.count == id + 1
      modifies store`count, wal, wal.file
      ensures store.Valid() && WalWired()
      ensures var (w, out) := L.AppendRecord(env.crc, L.Always, old(wal.View()), id, vector, fault);
              && wal.View() == w
              && store.Rows() == (if out.Ok? then old(store.Rows()) else old(store.Rows())[..id])
              && r == (if out.Ok? then Ok(id) else Err(out.error))
    {
      hide L.AppendRecord;
      var lsn := wal.Append(id, vector, fault);
      if lsn.Err? {
        var back := store.RollbackLast(id);
        return Err(lsn.error);
      }
      r := Ok(id);
    }

    /** `insert_row_storage_only`, and the locked section of `insert`: append to store and log together. */
    method InsertRowStorageOnly(vector: Vector, fault: L.Fault) returns (r: Result<nat>)
      requires Consistent()
      modifies this`hist, this`synced, store, store.file`segments, store.file.segments, wal, wal.file
      ensures Consistent()
      ensures r == RowOutcome(env, old(View()), vector, fault)
      ensures View() == LogRow(env, old(View()), vector, fault)
      ensures ER.Exact(env, old(View())) ==> ER.Exact(env, View())
      ensures forall k | |old(store.file.segments)| <= k < |store.file.segments| :: fresh(store.file.segments[k])
      ensures old(store.file.segments) <= store.file.segments
    {
      hide Inv, IndexOk, EnvOk, StoreWired, WalWired, IndexWired, CodesMap;
      hide L.Frame, L.AppendRecord, LogRow, RowOutcome, Attempts, ER.Exact;
      ghost var s := View();
      ghost var t := LogRow(env, s, vector, fault);
      PlanRow(s, vector, fault);
      r := PushAndLog(vector, fault);
      hist := t.hist;
      synced := t.synced;
      Reassemble(t);
      if ER.Exact(env, s) { LogRowExact(env, s, vector, fault); }
    }

    /** What the protocol says logging a row will do, in terms of the parts. */
    lemma PlanRow(s: State, v: Vector, fault: L.Fault)
      requires Consistent() && s == View()
      ensures |s.disk.rows| == store.count
      ensures var t := LogRow(env, s, v, fault);
              var (w, out) := L.AppendRecord(env.crc, L.Always, wal.View(), store.count, v, fault);
              && Inv(env, t) && t.mem.Up? && t.acked == s.acked
              && t.disk.header == s.disk.header && t.disk.snap == s.disk.snap && t.disk.book == s.disk.book
              && t.mem.graph == s.mem.graph && t.mem.pq == s.mem.pq && t.mem.slot.Free? && t.mem.stage.Idle?
              && t.mem.linked == s.mem.linked && t.mem.logged == Range(|index.nodes|, |t.hist.vs|)
              && |hist.vs| <= |t.hist.vs|
              && (if s.mem.poisoned then
                    t == s && RowOutcome(env, s, v, fault) == Err(Corrupt)
                  else if |v| != env.dim then
                    t == s && RowOutcome(env, s, v, fault) == Err(DimensionMismatch(env.dim, |v|))
                  else if store.count >= env.capacity then
                    t == s && RowOutcome(env, s, v, fault) == Err(Corrupt)
                  else
                    && w == L.WalState(t.disk.wal, t.mem.nextLsn, t.mem.poisoned)
                    && t.disk.rows == (if out.Ok? then s.disk.rows + [v] else s.disk.rows)
                    && RowOutcome(env, s, v, fault) == (if out.Ok? then Ok(store.count) else Err(out.error)))
    {
      hide Inv, IndexOk, L.Frame, EnvOk, L.AppendRecord, LogRow, RowOutcome;
      var t := LogRow(env, s, v, fault);
      LogRowIsSteps(env, s, v, fault);
      LeadsKeepsInv(env, s, LogSteps(env, s, v, fault), t);
      RowsAndLsn(s);
      AppendIsLogRow(env, s, v, fault);
      LogRowFields(env, s, v, fault);
      OutcomeCases(s, v, fault);
      assert Range(|index.nodes|, |t.hist.vs|) == t.mem.logged;
    }

    /** The parts make up the whole. */
    lemma Reassemble(t: State)
      requires Wired() && t.mem.Up? && Inv(env, t) && IndexOk(env, index.G(), |index.nodes|)
      requires files.store.count == t.disk.header && store.Rows() == t.disk.rows
      requires wal.View() == L.WalState(t.disk.wal, t.mem.nextLsn, t.mem.poisoned)
      requires files.snap == t.disk.snap && files.book == t.disk.book
      requires index.G() == t.mem.graph && t.mem.slot.Free? && t.mem.stage.Idle?
      requires t.mem.logged == Range(|index.nodes|, |t.hist.vs|) && t.mem.linked == Range(finished, |index.nodes|)
      requires t.mem.pq == if pq.None? then None else Some((pq.value.book, CodesMap(pq.value.codes)))
      requires synced == t.synced && hist == t.hist && acked == t.acked
      requires finished <= |index.nodes| <= |hist.vs|
      ensures View() == t && Consistent()
    {
      hide Inv, IndexOk, EnvOk;
      assert View().disk == t.disk;
      assert View().mem == t.mem;
    }

    lemma OutcomeCases(s: State, v: Vector, fault: L.Fault)
      requires s.mem.Up?
      ensures s.mem.poisoned ==> RowOutcome(env, s, v, fault) == Err(Corrupt) && !Attempts(env, s, v)
      ensures !s.mem.poisoned && |v| != env.dim ==>
                RowOutcome(env, s, v, fault) == Err(DimensionMismatch(env.dim, |v|)) && !Attempts(env, s, v)
      ensures !s.mem.poisoned && |v| == env.dim && |s.disk.rows| >= env.capacity ==>
                RowOutcome(env, s, v, fault) == Err(Corrupt) && !Attempts(env, s, v)
    {
    }

    /** At rest the count, the LSN counter and the number of logged vectors are one number. */
    lemma RowsAndLsn(s: State)
      requires Consistent() && s == View()
      ensures |s.disk.rows| == wal.nextLsn == |hist.vs| && store.count == |hist.vs|
      ensures |hist.vs| <= env.capacity < H.ID_LIMIT
    {
      hide IndexOk;
    }

    /** Link the next logged row (`index.insert`). */
    method LinkOne()
      requires Consistent() && |index.nodes| < |hist.vs|
      modifies index, index.visited
      ensures Consistent()
      ensures Sane(old(View()).mem.graph)
      ensures View() == LinkNext(env, old(View()))
      ensures ER.Exact(env, old(View())) ==> ER.Exact(env, View())
      ensures |index.nodes| == |old(index.nodes)| + 1
    {
      hide Inv, IndexOk, EnvOk, Link, I.Insert, WalWired, CodesMap, ER.Exact;
      ghost var s := View();
      PlanLink(s);
      LevelOk(env, |index.nodes|);
      index.Insert(store.Rows(), env.levelOf(|index.nodes|));
      ghost var t := LinkNext(env, s);
      LinkedGraph(env, s);
      Reassemble(t);
      if ER.Exact(env, s) { LinkNextExact(env, s); }
    }

    static lemma LevelOk(env: Env, id: nat)
      requires EnvOk(env)
      ensures env.levelOf(id) <= H.MAX_LEVEL
    {
    }

    static lemma LinkedGraph(env: Env, s: State)
      requires s.mem.Up? && Sane(s.mem.graph) && |s.mem.graph.nodes| < |s.hist.vs|
      ensures Link(env, env.cfg, s.hist.vs, s.mem.graph)
              == I.Insert(env.cfg, I.Pairwise(env.kernel, s.hist.vs[..|s.mem.graph.nodes| + 1]), s.mem.graph,
                          env.levelOf(|s.mem.graph.nodes|))
    {
      hide I.Insert;
    }

    lemma PlanLink(s: State)
      requires Consistent() && s == View() && |index.nodes| < |hist.vs|
      ensures Sane(index.G()) && store.Rows() == hist.vs && |hist.vs| < H.ID_LIMIT
      ensures var t := LinkNext(env, s);
              && Inv(env, t) && IndexOk(env, t.mem.graph, |index.nodes| + 1)
              && t.mem.logged == Range(|index.nodes| + 1, |hist.vs|)
              && t.mem.linked == Range(finished, |index.nodes| + 1)
              && |t.mem.graph.nodes| == |index.nodes| + 1
    {
      hide Inv, IndexOk, EnvOk, Link, StoreWired, WalWired, IndexWired, CodesMap;
      InvParts(s);
      LinkNextIsStep(env, s, finished);
      var t := LinkNext(env, s);
      assert Next(env, s, t);
      NextKeepsInv(env, s, t);
    }

    lemma InvParts(s: State)
      requires Consistent() && s == View()
      ensures store.Rows() == hist.vs && |hist.vs| <= env.capacity < H.ID_LIMIT
      ensures !wal.poisoned ==> hist.pending.None?
      ensures wal.nextLsn == |hist.vs|
    {
      hide IndexOk;
    }

    /** Encode the oldest unfinished row; `ack` says whether its caller gets an answer. */
    method EncodeOne(ghost ack: bool)
      requires Consistent() && finished < |index.nodes|
      modifies this`pq, this`acked, this`finished
      ensures Consistent() && finished == old(finished) + 1
      ensures old(finished) in old(View()).mem.linked
      ensures View() == Finished(env, old(View()), old(finished), ack)
      ensures old(finished) < |hist.vs|
      ensures acked == if ack then old(acked)[old(finished) := hist.vs[old(finished)]] else old(acked)
      ensures ER.Exact(env, old(View())) ==> ER.Exact(env, View())
    {
      hide Inv, IndexOk, EnvOk, Finished, CodesMap, StoreWired, WalWired, IndexWired, ER.Exact;
      ghost var s := View();
      ghost var id := finished;
      PlanFinish(s, ack);
      ghost var t := Finished(env, s, id, ack);
      var next := NextCodes();
      finished, pq := id + 1, next;
      acked := t.acked;
      Reassemble(t);
      if ER.Exact(env, s) { FinishedExact(env, s, id, ack); }
    }

    /** The codes once the next row has its own: grow the buffer, encode into the new slot. */
    method NextCodes() returns (next: Option<PqState>)
      requires Wired() && finished < |store.Rows()|
      ensures pq.None? ==> next.None?
      ensures pq.Some? ==>
                && next.Some? && next.value.book == pq.value.book && |next.value.codes| == finished + 1
                && CodesMap(next.value.codes)
                   == CodesMap(pq.value.codes)[finished := env.encode(pq.value.book, store.Rows()[finished])]
    {
      hide EnvOk;
      if pq.None? { return None; }
      var id := |pq.value.codes|;
      var vector := store.Get(id);
      var codes := pq.value.codes + [[]];
      codes := codes[id := env.encode(pq.value.book, vector.value)];
      next := Some(PqState(pq.value.book, codes));
    }

    lemma PlanFinish(s: State, ack: bool)
      requires Consistent() && s == View() && finished < |index.nodes|
      ensures finished in s.mem.linked
      ensures var t := Finished(env, s, finished, ack);
              && Inv(env, t) && t.mem.Up? && t.mem.slot.Free? && t.mem.stage.Idle?
              && t.disk == s.disk && t.synced == s.synced && t.hist == s.hist
              && t.acked == (if ack then acked[finished := hist.vs[finished]] else acked)
              && t.mem == s.mem.(linked := Range(finished + 1, |index.nodes|), pq := t.mem.pq)
              && t.mem.pq == (if s.mem.pq.None? then None
                              else Some((s.mem.pq.value.0,
                                         s.mem.pq.value.1[finished := env.encode(s.mem.pq.value.0, hist.vs[finished])])))
              && store.Rows() == hist.vs
    {
      hide Inv, IndexOk, EnvOk;
      InvParts(s);
      FinishNextIsStep(env, s, finished, ack);
      var t := Finished(env, s, finished, ack);
      assert Next(env, s, t);
      NextKeepsInv(env, s, t);
    }

    /**
     * `insert`. On success the row is stored, durable, linked, encoded and acknowledged under the id
     * returned; on failure nothing in memory has changed except that the log may be poisoned.
     */
    method Insert(vector: Vector, fault: L.Fault) returns (r: Result<nat>)
      requires Valid()
      modifies this`hist, this`synced, this`pq, this`acked, this`finished
      modifies store, store.file`segments, store.file.segments, wal, wal.file, index, index.visited
      ensures Valid()
      ensures r == RowOutcome(env, old(View()), vector, fault)
      ensures View() == Inserted(env, old(View()), vector, fault)
      ensures |vector| != env.dim ==> r.Err?
      ensures |vector| == env.dim ==> RefusedFor(WhyRefused(env, old(wal.poisoned), |old(store.Rows())|, fault), r)
      ensures r.Ok? ==> && r.value == |old(store.Rows())| && store.Rows() == old(store.Rows()) + [vector]
                        && acked == old(acked)[r.value := vector]
      ensures r.Err? ==> store.Rows() == old(store.Rows()) && index.G() == old(index.G()) && pq == old(pq)
                         && acked == old(acked)
      ensures ER.Exact(env, old(View())) ==> ER.Exact(env, View())
      ensures old(store.file.segments) <= store.file.segments
      ensures forall k | |old(store.file.segments)| <= k < |store.file.segments| :: fresh(store.file.segments[k])
    {
      hide Inv, IndexOk, EnvOk, Link, LogRow, RowOutcome, StoreWired, WalWired, IndexWired, CodesMap, ER.Exact;
      hide WhyRefused;
      ghost var s := View();
      RowsAndLsn(s);
      LogRowFields(env, s, vector, fault);
      r := InsertRowStorageOnly(vector, fault);
      OutcomeValue(s, vector, fault);
      OutcomePlain(env, s, vector, fault);
      if r.Err? { return; }
      LinkOne();
      EncodeOne(true);
    }

    lemma OutcomeValue(s: State, v: Vector, fault: L.Fault)
      requires s.mem.Up?
      ensures RowOutcome(env, s, v, fault).Ok? ==> RowOutcome(env, s, v, fault).value == |s.disk.rows|
      ensures |v| != env.dim ==> RowOutcome(env, s, v, fault).Err?
    {
    }

    /** Ids `lo..hi` answered with their rows. */
    static ghost function Answered(acked: map<nat, Vector>, lo: nat, hi: nat, rows: seq<Vector>): map<nat, Vector>
      requires hi <= |rows|
    {
      acked + map id: nat | lo <= id < hi :: rows[id]
    }

    static lemma AnsweredNext(acked: map<nat, Vector>, lo: nat, hi: nat, rows: seq<Vector>)
      requires lo <= hi < |rows|
      ensures Answered(acked, lo, hi, rows)[hi := rows[hi]] == Answered(acked, lo, hi + 1, rows)
    {
    }

    static lemma AnsweredNone(acked: map<nat, Vector>, lo: nat, rows: seq<Vector>)
      requires lo <= |rows|
      ensures Answered(acked, lo, lo, rows) == acked
    {
    }

    /** `finish_batch`: link every logged row, then encode every linked one. */
    method FinishBatch(ghost ack: bool) returns (ghost steps: seq<Step>)
      requires Consistent() && finished == |index.nodes|
      modifies this`pq, this`acked, this`finished, index, index.visited
      ensures Valid() && hist == old(hist) && store.Rows() == old(store.Rows())
      ensures Leads(env, old(View()), steps, View())
      ensures |old(index.nodes)| <= |hist.vs|
              && acked == if ack then Answered(old(acked), |old(index.nodes)|, |hist.vs|, hist.vs) else old(acked)
      ensures ER.Exact(env, old(View())) ==> ER.Exact(env, View())
    {
      hide Inv, IndexOk, EnvOk, View, Leads, StoreWired, WalWired, IndexWired, CodesMap, ER.Exact, Answered;
      ghost var s := View();
      var base := |index.nodes|;
      steps := LinkBatch();
      ghost var t := View();
      ghost var more := EncodeBatch(base, ack);
      LeadsAppend(env, s, steps, t, more, View());
      steps := steps + more;
    }

    /** Phase 2 of a batch. */
    method LinkBatch() returns (ghost steps: seq<Step>)
      requires Consistent()
      modifies index, index.visited
      ensures Consistent() && |index.nodes| == |hist.vs| && Leads(env, old(View()), steps, View())
      ensures ER.Exact(env, old(View())) ==> ER.Exact(env, View())
    {
      hide Inv, IndexOk, EnvOk, LinkNext, Enabled, Apply, Leads, ER.Exact, StoreWired, WalWired, IndexWired, CodesMap;
      ghost var s := View();
      steps := [];
      NoSteps(env, s);
      RowsAndLsn(s);
      var base, end := |index.nodes|, store.count;
      for id := base to end
        invariant Consistent() && end == |hist.vs| && |index.nodes| == id
        invariant Leads(env, s, steps, View())
        invariant ER.Exact(env, s) ==> ER.Exact(env, View())
      {
        ghost var t := View();
        LinkIsStep(t);
        LinkOne();
        ghost var step := LinkRow(id, LinkNext(env, t).mem.graph);
        LeadsOne(env, t, step);
        LeadsAppend(env, s, steps, t, [step], View());
        steps := steps + [step];
      }
    }

    /** The codes of a linked batch. */
    method EncodeBatch(base: nat, ghost ack: bool) returns (ghost steps: seq<Step>)
      requires Consistent() && finished == base && |index.nodes| == |hist.vs|
      modifies this`pq, this`acked, this`finished
      ensures Valid() && hist == old(hist) && Leads(env, old(View()), steps, View())
      ensures base <= |hist.vs| && acked == if ack then Answered(old(acked), base, |hist.vs|, hist.vs) else old(acked)
      ensures ER.Exact(env, old(View())) ==> ER.Exact(env, View())
    {
      hide Inv, IndexOk, EnvOk, Finished, Enabled, Apply, Leads, ER.Exact, StoreWired, WalWired, IndexWired, CodesMap;
      hide Answered;
      ghost var s := View();
      steps := [];
      NoSteps(env, s);
      RowsAndLsn(s);
      AnsweredNone(acked, base, hist.vs);
      var end := store.count;
      for id := base to end
        invariant Consistent() && hist == old(hist) && end == |hist.vs| == |index.nodes| && finished == id
        invariant Leads(env, s, steps, View())
        invariant acked == if ack then Answered(old(acked), base, id, hist.vs) else old(acked)
        invariant ER.Exact(env, s) ==> ER.Exact(env, View())
      {
        ghost var t := View();
        FinishIsStep(t, ack);
        AnsweredNext(old(acked), base, id, hist.vs);
        EncodeOne(ack);
        LeadsOne(env, t, Finish(id, ack));
        LeadsAppend(env, s, steps, t, [Finish(id, ack)], View());
        steps := steps + [Finish(id, ack)];
      }
    }

    lemma LinkIsStep(t: State)
      requires Consistent() && t == View() && |index.nodes| < |hist.vs|
      ensures Sane(t.mem.graph)
      ensures var u := LinkNext(env, t);
              && u.mem.Up? && Enabled(env, t, LinkRow(|index.nodes|, u.mem.graph))
              && u == Apply(env, t, LinkRow(|index.nodes|, u.mem.graph))
    {
      hide Inv, IndexOk, EnvOk, LinkNext, Enabled, Apply;
      PlanLink(t);
      LinkNextIsStep(env, t, finished);
    }

    lemma FinishIsStep(t: State, ack: bool)
      requires Consistent() && t == View() && finished < |index.nodes|
      ensures finished in t.mem.linked && Enabled(env, t, Finish(finished, ack))
      ensures Finished(env, t, finished, ack) == Apply(env, t, Finish(finished, ack))
    {
      hide Inv, IndexOk, EnvOk;
      FinishNextIsStep(env, t, finished, ack);
    }

    /** Row `i` of a flat batch. */
    static function Chunk(batch: Vector, dim: nat, i: nat): Vector
      requires (i + 1) * dim <= |batch|
    {
      RowInside(i, i + 1, dim, dim);
      batch[i * dim..i * dim + dim]
    }

    /** `row` is row `i` of the flat batch, number by number. */
    static ghost predicate IsRow(row: Vector, batch: Vector, dim: nat, i: nat) {
      |row| == dim && forall j | 0 <= j < dim :: i * dim + j < |batch| && row[j] == batch[i * dim + j]
    }

    /** From `base` on, `rows` holds the first `k` rows of the flat batch. */
    static ghost predicate HoldsBatch(rows: seq<Vector>, base: nat, batch: Vector, dim: nat, k: nat) {
      |rows| == base + k && forall id | base <= id < |rows| :: IsRow(rows[id], batch, dim, id - base)
    }

    static lemma HoldsNext(rows: seq<Vector>, base: nat, batch: Vector, dim: nat, k: nat)
      requires HoldsBatch(rows, base, batch, dim, k) && (k + 1) * dim <= |batch|
      ensures HoldsBatch(rows + [Chunk(batch, dim, k)], base, batch, dim, k + 1)
    {
      hide IsRow;
      ChunkIsRow(batch, dim, k);
      var more := rows + [Chunk(batch, dim, k)];
      forall id | base <= id < |more| ensures IsRow(more[id], batch, dim, id - base) {
        if id < |rows| { assert more[id] == rows[id]; }
      }
    }

    static lemma ChunkIsRow(batch: Vector, dim: nat, i: nat)
      requires (i + 1) * dim <= |batch|
      ensures IsRow(Chunk(batch, dim, i), batch, dim, i)
    {
      RowInside(i, i + 1, dim, dim);
    }

    static lemma HoldsNone(rows: seq<Vector>, batch: Vector, dim: nat)
      ensures HoldsBatch(rows, |rows|, batch, dim, 0)
    {
    }

    /** Why a row of the right dimension cannot be logged, if it cannot. */
    static ghost function WhyRefused(env: Env, poisoned: bool, rows: nat, fault: L.Fault): Option<Error> {
      if poisoned || rows >= env.capacity then Some(Corrupt)
      else if 21 + 4 * env.dim >= 0x1_0000_0000 then Some(InvalidArgument)
      else if fault.NoFault? then None
      else Some(Io)
    }

    /** What rest means for the parts. */
    lemma AtRest()
      requires Valid()
      ensures Wired() && Consistent() && store.Valid() && env.dim > 0
      ensures store.Rows() == hist.vs && store.count == |hist.vs| && finished == |index.nodes| == |hist.vs|
    {
      hide Inv, IndexOk, EnvOk;
      InvParts(View());
      RowsAndLsn(View());
    }

    static ghost predicate RefusedFor(why: Option<Error>, r: Result<nat>) {
      if why.None? then r.Ok? else r == Err(why.value)
    }

    static lemma OutcomePlain(env: Env, s: State, row: Vector, fault: L.Fault)
      requires s.mem.Up?
      ensures |row| == env.dim ==>
                RefusedFor(WhyRefused(env, s.mem.poisoned, |s.disk.rows|, fault), RowOutcome(env, s, row, fault))
      ensures var t := LogRow(env, s, row, fault);
              t.mem.Up? && (RowOutcome(env, s, row, fault).Ok? ==> t.mem.poisoned == s.mem.poisoned)
    {
      hide L.Frame;
    }

    /** Log the next row of a batch, keeping track of the protocol's steps since `s`. */
    method LogBatchRow(ghost s: State, ghost steps: seq<Step>, row: Vector, fault: L.Fault)
      returns (r: Result<nat>, ghost more: seq<Step>)
      requires Consistent() && Wired() && Leads(env, s, steps, View())
      modifies this`hist, this`synced, store, store.file`segments, store.file.segments, wal, wal.file
      ensures Consistent() && Wired() && Leads(env, s, more, View())
      ensures ER.Exact(env, old(View())) ==> ER.Exact(env, View())
      ensures hist.vs == if r.Ok? then old(hist.vs) + [row] else old(hist.vs)
      ensures |row| == env.dim ==> RefusedFor(WhyRefused(env, old(wal.poisoned), |old(hist.vs)|, fault), r)
      ensures r.Ok? ==> wal.poisoned == old(wal.poisoned)
      ensures forall k | |old(store.file.segments)| <= k < |store.file.segments| :: fresh(store.file.segments[k])
      ensures old(store.file.segments) <= store.file.segments
    {
      hide Inv, IndexOk, EnvOk, LogRow, RowOutcome, LogSteps, Leads, ER.Exact, StoreWired, WalWired, IndexWired, CodesMap;
      ghost var t := View();
      LogRowIsSteps(env, t, row, fault);
      RowsAndLsn(t);
      LogRowFields(env, t, row, fault);
      OutcomePlain(env, t, row, fault);
      r := InsertRowStorageOnly(row, fault);
      LeadsAppend(env, s, steps, t, LogSteps(env, t, row, fault), View());
      more := steps + LogSteps(env, t, row, fault);
    }

    /** How far a batch has come: `rows` is `was` and then the first `i` rows, none of which was refused. */
    ghost predicate Logged(was: seq<Vector>, rows: seq<Vector>, batch: Vector, poisoned: bool, faults: nat -> L.Fault,
                           i: nat) {
      && was <= rows && HoldsBatch(rows, |was|, batch, env.dim, i)
      && forall k | 0 <= k < i :: WhyRefused(env, poisoned, |was| + k, faults(k)).None?
    }

    lemma LoggedNext(was: seq<Vector>, rows: seq<Vector>, batch: Vector, poisoned: bool, faults: nat -> L.Fault, i: nat)
      requires Logged(was, rows, batch, poisoned, faults, i) && (i + 1) * env.dim <= |batch|
      ensures |rows| == |was| + i
      ensures WhyRefused(env, poisoned, |was| + i, faults(i)).None? ==>
                Logged(was, rows + [Chunk(batch, env.dim, i)], batch, poisoned, faults, i + 1)
    {
      hide WhyRefused, Chunk, IsRow;
      HoldsNext(rows, |was|, batch, env.dim, i);
    }

    /** Phase 1 of `add_batch`: append rows and log them, in order, until one fails. */
    method LogBatch(batch: Vector, n: nat, faults: nat -> L.Fault)
      returns (r: Result<nat>, ghost steps: seq<Step>, ghost done: nat)
      requires Valid() && env.dim > 0 && n * env.dim == |batch|
      modifies this`hist, this`synced, store, store.file`segments, store.file.segments, wal, wal.file
      ensures Consistent() && Wired() && Leads(env, old(View()), steps, View())
      ensures ER.Exact(env, old(View())) ==> ER.Exact(env, View())
      ensures Logged(old(store.Rows()), store.Rows(), batch, old(wal.poisoned), faults, done)
      ensures done <= n && (r.Ok? ==> done == n)
      ensures r.Err? ==> WhyRefused(env, old(wal.poisoned), |old(store.Rows())| + done, faults(done)) == Some(r.error)
    {
      hide Valid, Consistent, Wired, View, Leads, ER.Exact, Chunk, Logged, WhyRefused;
      AtRest();
      ghost var s, was, poisoned := View(), hist.vs, wal.poisoned;
      steps, done := [], 0;
      NoSteps(env, s);
      LoggedNone(was, batch, poisoned, faults);
      for i := 0 to n
        invariant Consistent() && Wired() && Leads(env, s, steps, View())
        invariant ER.Exact(env, s) ==> ER.Exact(env, View())
        invariant done == i && wal.poisoned == poisoned
        invariant Logged(was, hist.vs, batch, poisoned, faults, i)
        invariant old(store.file.segments) <= store.file.segments
        invariant forall k | |old(store.file.segments)| <= k < |store.file.segments| :: fresh(store.file.segments[k])
      {
        r, steps := LogNext(s, steps, was, batch, n, faults, i);
        if r.Err? {
          InvParts(View());
          return;
        }
        done := i + 1;
      }
      InvParts(View());
      r := Ok(n);
    }

    /** Log row `i` of a batch. */
    method LogNext(ghost s: State, ghost steps: seq<Step>, ghost was: seq<Vector>, batch: Vector, ghost n: nat,
                   faults: nat -> L.Fault, i: nat)
      returns (r: Result<nat>, ghost more: seq<Step>)
      requires Consistent() && Wired() && Leads(env, s, steps, View())
      requires i < n && n * env.dim == |batch| && Logged(was, hist.vs, batch, wal.poisoned, faults, i)
      modifies this`hist, this`synced, store, store.file`segments, store.file.segments, wal, wal.file
      ensures Consistent() && Wired() && Leads(env, s, more, View())
      ensures ER.Exact(env, old(View())) ==> ER.Exact(env, View())
      ensures r.Ok? ==> wal.poisoned == old(wal.poisoned)
      ensures Logged(was, hist.vs, batch, old(wal.poisoned), faults, if r.Ok? then i + 1 else i)
      ensures r.Err? ==> WhyRefused(env, old(wal.poisoned), |was| + i, faults(i)) == Some(r.error)
      ensures forall k | |old(store.file.segments)| <= k < |store.file.segments| :: fresh(store.file.segments[k])
      ensures old(store.file.segments) <= store.file.segments
    {
      hide Valid, Consistent, Wired, View, Leads, ER.Exact, Chunk, Logged, WhyRefused;
      NextChunk(batch, env.dim, i, n);
      LoggedNext(was, hist.vs, batch, wal.poisoned, faults, i);
      r, more := LogBatchRow(s, steps, Chunk(batch, env.dim, i), faults(i));
    }

    lemma LoggedNone(was: seq<Vector>, batch: Vector, poisoned: bool, faults: nat -> L.Fault)
      ensures Logged(was, was, batch, poisoned, faults, 0)
    {
      HoldsNone(was, batch, env.dim);
    }

    /** The rows before `done` could be logged; if the batch failed, row `done` could not, and `r` says why. */
    ghost predicate BatchFails(poisoned: bool, base: nat, done: nat, faults: nat -> L.Fault, r: Result<nat>) {
      && (forall i | 0 <= i < done :: WhyRefused(env, poisoned, base + i, faults(i)).None?)
      && (r.Err? ==> WhyRefused(env, poisoned, base + done, faults(done)) == Some(r.error))
    }

    /**
     * `add_batch`: log all rows, then link and encode them. If a row fails, the rows before it stay,
     * linked and encoded, and the caller gets the error. Either way the database ends at rest and has
     * passed only through states of the protocol.
     */
    method AddBatch(batch: Vector, faults: nat -> L.Fault)
      returns (r: Result<nat>, ghost steps: seq<Step>, ghost done: nat)
      requires Valid()
      modifies this`hist, this`synced, this`pq, this`acked, this`finished
      modifies store, store.file`segments, store.file.segments, wal, wal.file, index, index.visited
      ensures env.dim > 0
      ensures Valid() && Leads(env, old(View()), steps, View())
      ensures |batch| % env.dim != 0 ==> r == Err(InvalidArgument) && done == 0
      ensures |batch| % env.dim == 0 ==> BatchFails(old(wal.poisoned), |old(store.Rows())|, done, faults, r)
      ensures done <= |batch| / env.dim && (r.Ok? ==> done == |batch| / env.dim && r.value == |old(store.Rows())|)
      // the old rows, then the rows of the batch, number by number
      ensures old(store.Rows()) <= store.Rows()
      ensures HoldsBatch(store.Rows(), |old(store.Rows())|, batch, env.dim, done)
      ensures BatchAnswers(old(acked), acked, |old(store.Rows())|, store.Rows(), r)
      ensures ER.Exact(env, old(View())) ==> ER.Exact(env, View())
    {
      hide Valid, Consistent, Wired, View, Leads, ER.Exact, Answered, HoldsBatch, WhyRefused;
      AtRest();
      if |batch| % env.dim != 0 {
        NoSteps(env, View());
        HoldsNone(store.Rows(), batch, env.dim);
        return Err(InvalidArgument), [], 0;
      }
      WholeRows(|batch|, env.dim);
      r, steps, done := BothPhases(batch, |batch| / env.dim, faults);
    }

    /** Log the rows, then link and encode those that were logged. */
    method BothPhases(batch: Vector, n: nat, faults: nat -> L.Fault)
      returns (r: Result<nat>, ghost steps: seq<Step>, ghost done: nat)
      requires Valid() && env.dim > 0 && n * env.dim == |batch|
      modifies this`hist, this`synced, this`pq, this`acked, this`finished
      modifies store, store.file`segments, store.file.segments, wal, wal.file, index, index.visited
      ensures Valid() && Leads(env, old(View()), steps, View())
      ensures Logged(old(store.Rows()), store.Rows(), batch, old(wal.poisoned), faults, done)
      ensures done <= n && (r.Ok? ==> done == n && r.value == |old(store.Rows())|)
      ensures r.Err? ==> WhyRefused(env, old(wal.poisoned), |old(store.Rows())| + done, faults(done)) == Some(r.error)
      ensures BatchAnswers(old(acked), acked, |old(store.Rows())|, store.Rows(), r)
      ensures ER.Exact(env, old(View())) ==> ER.Exact(env, View())
    {
      hide Valid, Consistent, Wired, View, Leads, ER.Exact, Answered, Logged, WhyRefused, BatchAnswers;
      AtRest();
      ghost var s, was := View(), store.Rows();
      var base := store.count;
      var logged;
      logged, steps, done := LogBatch(batch, n, faults);
      ghost var t := View();
      ghost var more := FinishBatch(logged.Ok?);
      AtRest();
      LeadsAppend(env, s, steps, t, more, View());
      steps := steps + more;
      r := if logged.Ok? then Ok(base) else Err(logged.error);
      LoggedGrows(was, store.Rows(), batch, old(wal.poisoned), faults, done);
      BatchAnswered(old(acked), base, store.Rows(), r);
    }

    lemma LoggedGrows(was: seq<Vector>, rows: seq<Vector>, batch: Vector, poisoned: bool, faults: nat -> L.Fault, i: nat)
      requires Logged(was, rows, batch, poisoned, faults, i)
      ensures |was| <= |rows|
    {
    }

    /** On success exactly the ids from `base` on have been acknowledged, with their rows; on failure none. */
    static ghost predicate BatchAnswers(was: map<nat, Vector>, now: map<nat, Vector>, base: nat, rows: seq<Vector>,
                                        r: Result<nat>) {
      if r.Err? then now == was
      else forall id: nat ::
             && (id in now <==> id in was || base <= id < |rows|)
             && (base <= id < |rows| ==> now[id] == rows[id])
             && (id in was && id < base ==> now[id] == was[id])
    }

    static lemma BatchAnswered(acked: map<nat, Vector>, base: nat, rows: seq<Vector>, r: Result<nat>)
      requires base <= |rows|
      ensures BatchAnswers(acked, if r.Ok? then Answered(acked, base, |rows|, rows) else acked, base, rows, r)
    {
    }

    static lemma NextChunk(batch: Vector, dim: nat, i: nat, n: nat)
      requires i < n && n * dim == |batch|
      ensures (i + 1) * dim <= |batch| && |Chunk(batch, dim, i)| == dim
    {
      RowInside(i, n, dim, dim);
    }

    static lemma WholeRows(len: nat, dim: nat)
      requires dim > 0 && len % dim == 0
      ensures (len / dim) * dim == len
    {
    }

    static lemma NoSteps(env: Env, s: State)
      ensures Leads(env, s, [], s)
    {
    }

    /** `checkpoint`: flush the store, save codebook and snapshot, empty the log. */
    method Checkpoint(fault: CheckpointFault) returns (r: Result<()>)
      requires Valid()
      modifies this`hist, this`synced, files`snap, files`book, store.file`count, wal`poisoned, wal.file
      ensures Valid() && store.Rows() == old(store.Rows()) && index.G() == old(index.G())
      ensures r == CheckpointOutcome(old(wal.poisoned), pq.Some?, fault)
      ensures View() == Checkpointed(env, old(View()), fault)
      ensures ER.Exact(env, old(View())) ==> ER.Exact(env, View())
    {
      hide Inv, IndexOk, EnvOk, StoreWired, WalWired, IndexWired, CodesMap, P.SaveBytes, Cb.FileBytes;
      hide Checkpointed, CheckpointOutcome, Saves, Resets, ER.Exact;
      ghost var s := View();
      ghost var t := Checkpointed(env, s, fault);
      PlanCheckpoint(s, fault);
      r := CheckpointFiles(fault);
      hist, synced := t.hist, t.synced;
      Reassemble(t);
      if ER.Exact(env, s) { CheckpointedExact(env, s, fault); }
    }

    /** The work of `checkpoint` on the files. */
    method CheckpointFiles(fault: CheckpointFault) returns (r: Result<()>)
      requires Wired() && forall i | 0 <= i < |index.nodes| :: |index.nodes[i]| > 0
      modifies files`snap, files`book, store.file`count, wal`poisoned, wal.file
      ensures Wired() && store.Rows() == old(store.Rows())
      ensures r == CheckpointOutcome(old(wal.poisoned), pq.Some?, fault)
      ensures files.store.count == store.count
      ensures files.book == BookAfter(env, old(files.book), pq, fault)
      ensures files.snap == SnapAfter(env, old(files.snap), index.G(), old(wal.View()), pq, fault)
      ensures wal.View() == WalAfter(old(wal.View()), pq, fault)
    {
      hide EnvOk, P.SaveBytes, Cb.FileBytes;
      store.Flush();
      if fault.FlushFails? { return Err(Io); }
      r := SaveFiles(fault);
    }

    /** `checkpoint` after the flush. */
    method SaveFiles(fault: CheckpointFault) returns (r: Result<()>)
      requires Wired() && !fault.FlushFails? && forall i | 0 <= i < |index.nodes| :: |index.nodes[i]| > 0
      modifies files`snap, files`book, wal`poisoned, wal.file
      ensures wal.Valid()
      ensures r == CheckpointOutcome(old(wal.poisoned), pq.Some?, fault)
      ensures files.book == BookAfter(env, old(files.book), pq, fault)
      ensures files.snap == SnapAfter(env, old(files.snap), index.G(), old(wal.View()), pq, fault)
      ensures wal.View() == WalAfter(old(wal.View()), pq, fault)
    {
      hide EnvOk, P.SaveBytes, Cb.FileBytes;
      if pq.Some? {
        if BookLost(true, fault) { return Err(Io); }
        files.book := Some(Cb.FileBytes(env.crc, pq.value.book));
        if fault.BookFails? { return Err(Io); }
      }
      if wal.poisoned { return Err(Corrupt); }
      if fault.SaveFails? && !fault.published { return Err(Io); }
      var bytes := SF.Save(env.crc, index, wal.nextLsn);
      H.EncodeDecoded(index.entry);
      files.snap := Some(bytes);
      if fault.SaveFails? { return Err(Io); }
      r := wal.Reset(fault.ResetFails?, fault.ResetFails? && fault.emptied);
    }

    /** Whether a checkpoint gets as far as publishing the snapshot. */
    static predicate Saves(poisoned: bool, pq: Option<PqState>, fault: CheckpointFault) {
      !fault.FlushFails? && !(fault.BookFails? && pq.Some?) && !poisoned && !(fault.SaveFails? && !fault.published)
    }

    /** And as far as emptying the log. */
    static predicate Resets(poisoned: bool, pq: Option<PqState>, fault: CheckpointFault) {
      Saves(poisoned, pq, fault) && !fault.SaveFails?
    }

    static ghost function BookAfter(env: Env, book: Option<seq<Byte>>, pq: Option<PqState>, fault: CheckpointFault)
      : Option<seq<Byte>>
    {
      if fault.FlushFails? || pq.None? || BookLost(true, fault) then book else Some(Cb.FileBytes(env.crc, pq.value.book))
    }

    static ghost function SnapAfter(env: Env, snap: Option<seq<Byte>>, g: Graph, wal: L.WalState, pq: Option<PqState>,
                                    fault: CheckpointFault): Option<seq<Byte>> {
      if Saves(wal.poisoned, pq, fault) then Some(P.SaveBytes(env.crc, P.SnapshotOf(env.cfg, g, wal.nextLsn))) else snap
    }

    static ghost function WalAfter(wal: L.WalState, pq: Option<PqState>, fault: CheckpointFault): L.WalState {
      if !Resets(wal.poisoned, pq, fault) then wal
      else if fault.ResetFails? then L.WalState(if fault.emptied then [] else wal.bytes, wal.nextLsn, true)
      else L.WalState([], wal.nextLsn, false)
    }

    /** What the protocol says a checkpoint will do, in terms of the parts. */
    lemma PlanCheckpoint(s: State, fault: CheckpointFault)
      requires Valid() && s == View()
      ensures forall i | 0 <= i < |index.nodes| :: |index.nodes[i]| > 0
      ensures s.mem.nextLsn == |s.mem.graph.nodes|
      ensures var t := Checkpointed(env, s, fault);
              && Inv(env, t) && t.mem.Up? && t.disk.header == store.count && t.disk.rows == store.Rows()
              && t.acked == acked && t.hist.vs == hist.vs
              && t.disk.book == BookAfter(env, files.book, pq, fault)
              && t.disk.snap == SnapAfter(env, files.snap, index.G(), wal.View(), pq, fault)
              && L.WalState(t.disk.wal, t.mem.nextLsn, t.mem.poisoned) == WalAfter(wal.View(), pq, fault)
              && t.mem == s.mem.(poisoned := t.mem.poisoned)
    {
      hide Inv, EnvOk, Checkpointed, P.SaveBytes, Cb.FileBytes;
      InvParts(s);
      IndexIsSane(env, index.G());
      assert s.mem.logged == {} && s.mem.linked == {};
      CheckpointIsSteps(env, s, fault);
      LeadsKeepsInv(env, s, CheckpointSteps(s, fault), Checkpointed(env, s, fault));
      CheckpointParts(env, s, pq, fault);
    }

    /** The state after a checkpoint, field by field. */
    static lemma CheckpointParts(env: Env, s: State, pq: Option<PqState>, fault: CheckpointFault)
      requires s.mem.Up? && s.mem.slot.Free? && s.mem.stage.Idle?
      requires s.mem.pq == if pq.None? then None else Some((pq.value.book, CodesMap(pq.value.codes)))
      ensures var t := Checkpointed(env, s, fault);
              var wal := L.WalState(s.disk.wal, s.mem.nextLsn, s.mem.poisoned);
              && t.mem.Up? && t.disk.header == |s.disk.rows| && t.disk.rows == s.disk.rows && t.acked == s.acked
              && t.hist.vs == s.hist.vs
              && t.disk.book == BookAfter(env, s.disk.book, pq, fault)
              && t.disk.snap == SnapAfter(env, s.disk.snap, s.mem.graph, wal, pq, fault)
              && L.WalState(t.disk.wal, t.mem.nextLsn, t.mem.poisoned) == WalAfter(wal, pq, fault)
              && t.mem == s.mem.(poisoned := t.mem.poisoned)
    {
      hide P.SaveBytes, Cb.FileBytes, CodesMap;
    }

    /** The publish step of `train_pq`: encode every stored row under the exclusive lock. */
    method PublishPq(book: Cb.Book)
      requires Valid() && Cb.BookOk(book) && book.dim == env.dim
      modifies this`pq
      ensures Valid() && store.Rows() == old(store.Rows())
      ensures pq == Some(PqState(book, EncodeAll(env, book, store.Rows())))
      ensures Enabled(env, old(View()), Train(book)) && View() == Apply(env, old(View()), Train(book))
      ensures ER.Exact(env, old(View())) ==> ER.Exact(env, View())
    {
      hide Inv, IndexOk, EnvOk, Cb.BookOk, Enabled, Apply, StoreWired, WalWired, IndexWired, CodesMap, EncodeAll;
      AtRest();
      ghost var s := View();
      PlanTrain(s, book);
      var codes := EncodeStore(env, store, book);
      pq := Some(PqState(book, codes));
      Reassemble(Apply(env, s, Train(book)));
    }

    /** What the protocol says publishing a codebook will do. */
    lemma PlanTrain(s: State, book: Cb.Book)
      requires Valid() && s == View() && Cb.BookOk(book) && book.dim == env.dim
      ensures Enabled(env, s, Train(book)) && Inv(env, Apply(env, s, Train(book)))
      ensures Apply(env, s, Train(book))
              == s.(mem := s.mem.(pq := Some((book, CodesMap(EncodeAll(env, book, store.Rows()))))))
      ensures |EncodeAll(env, book, store.Rows())| == finished
    {
      hide Inv, IndexOk, EnvOk, Cb.BookOk;
      InvParts(s);
      assert s.mem.logged == {} && s.mem.linked == {};
      var t := Apply(env, s, Train(book));
      assert Next(env, s, t);
      NextKeepsInv(env, s, t);
      CodesAgree(env, book, hist.vs);
    }

    /** `get`: an acknowledged id reads back the exact vector inserted. */
    method Get(id: nat) returns (r: Result<Vector>)
      requires Valid()
      ensures r == if id < |store.Rows()| then Ok(store.Rows()[id]) else Err(IdOutOfRange(id))
      ensures id in acked ==> r == Ok(acked[id])
    {
      hide IndexOk, EnvOk, DiskOk;
      r := store.Get(id);
    }

    /**
     * `search`: every hit is a stored row at its true distance from the query, nearest first. As soon as
     * `max(ef, k)` covers the nodes reachable on layer 0 from where the descent stops, the hits are
     * exactly the `k` nearest of those.
     */
    method Search(query: Vector, k: nat, ef: nat) returns (r: Result<seq<N.Neighbor>>, ghost dist: S.Oracle)
      requires Valid()
      modifies index.visited
      ensures Valid() && View() == old(View())
      ensures |query| != env.dim ==> r == Err(DimensionMismatch(env.dim, |query|))
      ensures forall id | 0 <= id < |store.Rows()| :: dist(id) == env.kernel(query, store.Rows()[id])
      ensures |query| == env.dim ==>
                && Sane(index.G()) && |index.nodes| == |store.Rows()|
                && r == Ok(S.SearchGraph(index.G(), dist, k, ef))
                && |r.value| <= k && N.Ascending(r.value)
                && (forall n | n in r.value ::
                      n.id < |store.Rows()| && n.distance == env.kernel(query, store.Rows()[n.id]))
                && forall reach: set<nat> | WithinReach(dist, reach) && |reach| <= Max(ef, k) ::
                     N.NearestOf(r.value, dist, reach, k)
    {
      hide Inv, EnvOk, IndexOk, S.SearchGraph, Distances, Sane, N.Ascending, N.NearestOf, WithinReach, CodesMap;
      dist := Distances(env.kernel, query, store.Rows());
      DistancesAre(env.kernel, query, store.Rows());
      IndexIsSane(env, index.G());
      if |query| != env.dim { r := Err(DimensionMismatch(env.dim, |query|)); return; }
      Quiescent();
      ghost var g := index.G();
      ReachIsExact(dist, k, ef);
      S.HitsAreNodes(g, dist, k, ef);
      var hits := FetchHits(Distances(env.kernel, query, store.Rows()), k, ef);
      r := Ok(hits);
    }

    /** `reach` is what layer-0 links reach from where the descent stops. */
    ghost predicate WithinReach(dist: S.Oracle, reach: set<nat>)
      requires Sane(index.G())
      reads this, index
    {
      if index.G().entry.None? then reach == {}
      else forall v: nat :: v in reach <==> Reachable(index.nodes, 0, S.SearchStart(index.G(), dist), v)
    }

    lemma ReachIsExact(dist: S.Oracle, k: nat, ef: nat)
      requires Sane(index.G())
      ensures forall reach: set<nat> | WithinReach(dist, reach) && |reach| <= Max(ef, k) ::
                N.NearestOf(S.SearchGraph(index.G(), dist, k, ef), dist, reach, k)
    {
      hide S.SearchGraph, S.SearchStart, N.NearestOf, Sane;
      forall reach: set<nat> | WithinReach(dist, reach) && |reach| <= Max(ef, k)
        ensures N.NearestOf(S.SearchGraph(index.G(), dist, k, ef), dist, reach, k)
      {
        if index.G().entry.None? {
          S.NothingIsNearest(index.G(), dist, k, ef);
        } else {
          S.ReachedIsNearest(index.G(), dist, k, ef, reach);
        }
      }
    }

    static function Distances(kernel: H.Kernel, query: Vector, rows: seq<Vector>): S.Oracle {
      (id: nat) => if id < |rows| then kernel(query, rows[id]) else 0.0
    }

    static lemma DistancesAre(kernel: H.Kernel, query: Vector, rows: seq<Vector>)
      ensures forall id | 0 <= id < |rows| :: Distances(kernel, query, rows)(id) == kernel(query, rows[id])
    {
    }

    /** The number each stored word stands for. */
    static function Numbers(value: Word -> real, words: seq<Word>): (v: Kernels.Vec)
      ensures |v| == |words| && forall i | 0 <= i < |words| :: v[i] == value(words[i])
    {
      seq(|words|, i requires 0 <= i < |words| => value(words[i]))
    }

    /** The quantizer a codebook stands for. */
    static function QuantizerOf(value: Word -> real, book: Cb.Book): (q: Pq.Quantizer)
      requires Cb.BookOk(book)
      ensures q.Valid() && q.dim == book.dim && q.m == book.m && q.subDim == book.subDim
      ensures |q.centroids| == |book.words| && forall i | 0 <= i < |book.words| :: q.centroids[i] == value(book.words[i])
    {
      Pq.Quantizer(book.dim, book.m, book.subDim, Numbers(value, book.words))
    }

    /** Rows are encoded as the quantizer does it. */
    static ghost predicate EncodesBy(env: Env, value: Word -> real) {
      forall book: Cb.Book, row: Vector | Cb.BookOk(book) && |row| == book.dim ::
        env.encode(book, row) == QuantizerOf(value, book).Code(Numbers(value, row))
    }

    /** The distance from the query to what a row's code decodes to. */
    ghost function DecodedDistance(value: Word -> real, query: Vector, id: nat): real
      requires pq.Some? && Cb.BookOk(pq.value.book) && |query| == pq.value.book.dim
      requires id < |pq.value.codes| && QuantizerOf(value, pq.value.book).IsCode(pq.value.codes[id])
      reads this
    {
      var q := QuantizerOf(value, pq.value.book);
      Kernels.L2(Numbers(value, query), q.DecodePrefix(pq.value.codes[id], q.m))
    }

    /** The same, number by number: the sum over subspaces of the distances to the centroids picked. */
    ghost function FlatDistance(value: Word -> real, query: Vector, id: nat): real
      requires pq.Some? && Cb.BookOk(pq.value.book) && |query| == pq.value.book.dim
      requires id < |pq.value.codes| && QuantizerOf(value, pq.value.book).IsCode(pq.value.codes[id])
      reads this
    {
      var q := QuantizerOf(value, pq.value.book);
      q.FlatSum(Numbers(value, query), pq.value.codes[id], q.m)
    }

    lemma DecodedIsFlat(value: Word -> real, query: Vector, id: nat)
      requires pq.Some? && Cb.BookOk(pq.value.book) && |query| == pq.value.book.dim
      requires id < |pq.value.codes| && QuantizerOf(value, pq.value.book).IsCode(pq.value.codes[id])
      ensures DecodedDistance(value, query, id) == FlatDistance(value, query, id)
    {
      QuantizerOf(value, pq.value.book).DecodedIsFlat(Numbers(value, query), pq.value.codes[id]);
    }

    /** At rest every row has a code of the trained quantizer. */
    lemma CodesAreCodes(value: Word -> real)
      requires Valid() && pq.Some? && EncodesBy(env, value)
      ensures Cb.BookOk(pq.value.book) && pq.value.book.dim == env.dim
      ensures |pq.value.codes| == |store.Rows()| == |index.nodes|
      ensures forall id | 0 <= id < |pq.value.codes| :: QuantizerOf(value, pq.value.book).IsCode(pq.value.codes[id])
    {
      hide IndexOk, EnvOk, StoreWired, WalWired, IndexWired, LogOk, SnapOk, BookOk;
      hide Cb.BookOk, QuantizerOf, Numbers, EncodesBy;
      Quiescent();
      InvParts(View());
      forall id | 0 <= id < |pq.value.codes| ensures QuantizerOf(value, pq.value.book).IsCode(pq.value.codes[id]) {
        assert |hist.vs[id]| == env.dim;
        CodeOfRow(env, value, pq.value.book, hist.vs[id]);
      }
    }

    static lemma CodeOfRow(env: Env, value: Word -> real, book: Cb.Book, row: Vector)
      requires EncodesBy(env, value) && Cb.BookOk(book) && |row| == book.dim
      ensures QuantizerOf(value, book).IsCode(env.encode(book, row))
    {
    }

    lemma LookupsDecode(value: Word -> real, query: Vector, table: Kernels.Vec, id: nat)
      requires pq.Some? && Cb.BookOk(pq.value.book) && |query| == pq.value.book.dim
      requires id < |pq.value.codes| && QuantizerOf(value, pq.value.book).IsCode(pq.value.codes[id])
      requires QuantizerOf(value, pq.value.book).IsTable(Numbers(value, query), table)
      ensures Pq.Quantizer.Lookups(table, pq.value.codes[id], |pq.value.codes[id]|) == DecodedDistance(value, query, id)
    {
      QuantizerOf(value, pq.value.book).AdcIsExact(Numbers(value, query), table, pq.value.codes[id]);
    }

    /** What `search_pq` steers by: one table for the query, four lookups at a time per code. */
    method CodeDistances(value: Word -> real, query: Vector) returns (dist: S.Oracle)
      requires Valid() && pq.Some? && EncodesBy(env, value) && |query| == env.dim
      ensures Cb.BookOk(pq.value.book) && pq.value.book.dim == env.dim
      ensures forall id | 0 <= id < |pq.value.codes| ::
                && QuantizerOf(value, pq.value.book).IsCode(pq.value.codes[id])
                && dist(id) == DecodedDistance(value, query, id) == FlatDistance(value, query, id)
    {
      hide Valid, EncodesBy, Cb.BookOk, QuantizerOf, DecodedDistance, FlatDistance;
      CodesAreCodes(value);
      var q := QuantizerOf(value, pq.value.book);
      var table := q.AdcTable(Numbers(value, query));
      var distances: seq<real> := [];
      var codes := pq.value.codes;
      for id := 0 to |codes|
        invariant |distances| == id
        invariant forall i | 0 <= i < id ::
                    distances[i] == DecodedDistance(value, query, i) == FlatDistance(value, query, i)
      {
        var d := Pq.Quantizer.AdcDistance(table, codes[id]);
        LookupsDecode(value, query, table, id);
        DecodedIsFlat(value, query, id);
        distances := distances + [d];
      }
      dist := (id: nat) => if id < |distances| then distances[id] else 0.0;
    }

    static function Rescored(hits: seq<N.Neighbor>, dist: S.Oracle): seq<N.Neighbor> {
      seq(|hits|, i requires 0 <= i < |hits| => N.Neighbor(hits[i].id, dist(hits[i].id)))
    }

    /** Re-ranked hits are the nearest of those fetched, by the distance they were rescored with. */
    static lemma RescoredNearest(hits: seq<N.Neighbor>, dist: S.Oracle, k: nat)
      requires S.DistinctIds(hits)
      ensures N.NearestOf(N.TopK(Rescored(hits, dist), k), dist, S.IdSet(hits), k)
    {
      hide N.TopK, N.NearestOf;
      var scored := Rescored(hits, dist);
      assert S.IdSet(scored) == S.IdSet(hits) by {
        forall n | n in hits ensures n.id in S.IdSet(scored) {
          var i :| 0 <= i < |hits| && hits[i] == n;
          assert scored[i] in scored;
        }
      }
      S.TopKIsNearest(scored, dist, k);
    }

    /**
     * `search_pq`: fetch by code distance, re-rank by true distance. At rest every id the index can
     * return has a code and a row; the search is steered by `dist`, the exact distance from the query to
     * the decoded code, and fetches `k * rerank` candidates, or `k` without re-ranking. With re-ranking
     * the answer is the `k` nearest of those fetched, by `near`, the true distance.
     */
    method SearchPq(query: Vector, k: nat, ef: nat, rerank: nat, value: Word -> real)
      returns (r: Result<seq<N.Neighbor>>, ghost fetch: nat, ghost dist: S.Oracle, ghost near: S.Oracle)
      requires Valid() && EncodesBy(env, value)
      modifies index.visited
      ensures Valid() && View() == old(View())
      ensures forall id | 0 <= id < |store.Rows()| :: near(id) == env.kernel(query, store.Rows()[id])
      ensures |query| != env.dim ==> r == Err(DimensionMismatch(env.dim, |query|))
      ensures |query| == env.dim && pq.None? ==> r == Err(Corrupt)
      ensures fetch == if rerank == 0 then k else k * rerank
      ensures |query| == env.dim && pq.Some? && rerank > 0 && fetch >= 0x1_0000_0000_0000_0000 ==>
                r == Err(InvalidArgument)
      ensures |query| == env.dim && pq.Some? && (rerank == 0 || fetch < 0x1_0000_0000_0000_0000) ==>
                && Sane(index.G()) && Cb.BookOk(pq.value.book) && pq.value.book.dim == env.dim
                && |pq.value.codes| == |store.Rows()|
                && (forall id | 0 <= id < |store.Rows()| ::
                      && QuantizerOf(value, pq.value.book).IsCode(pq.value.codes[id])
                      && dist(id) == DecodedDistance(value, query, id) == FlatDistance(value, query, id))
                && var hits := S.SearchGraph(index.G(), dist, fetch, Max(ef, fetch));
                && |hits| <= fetch && N.Ascending(hits)
                && (forall n | n in hits :: n.id < |store.Rows()| && n.distance == dist(n.id))
                && (rerank == 0 ==> r == Ok(hits))
                && (rerank > 0 ==> r.Ok? && N.NearestOf(r.value, near, S.IdSet(hits), k))
    {
      hide Valid, View, EncodesBy, DecodedDistance, FlatDistance, QuantizerOf, Cb.BookOk, S.SearchGraph, Distances, Sane;
      hide N.TopK, Rescored, N.NearestOf, N.Ascending, S.DistinctIds, S.IdSet, VectorStore.Valid;
      StoreReady();
      dist := (id: nat) => 0.0;
      near := Distances(env.kernel, query, store.Rows());
      DistancesAre(env.kernel, query, store.Rows());
      var limit := if rerank == 0 then k else k * rerank;
      fetch := limit;
      if |query| != env.dim { r := Err(DimensionMismatch(env.dim, |query|)); return; }
      if pq.None? { r := Err(Corrupt); return; }
      if rerank > 0 && limit >= U64_LIMIT { r := Err(InvalidArgument); return; }
      var found, steer := CodeHits(query, limit, Max(ef, limit), value);
      dist := steer;
      r := Ok(found);
      if rerank > 0 {
        var hits := Rerank(query, found);
        r := Ok(N.TopK(hits, k));
        RescoredNearest(found, near, k);
      }
    }

    lemma StoreReady()
      requires Valid()
      ensures store.Valid()
    {
    }

    /** The candidates, by code distance. */
    method CodeHits(query: Vector, k: nat, ef: nat, value: Word -> real)
      returns (found: seq<N.Neighbor>, ghost dist: S.Oracle)
      requires Valid() && EncodesBy(env, value) && |query| == env.dim && pq.Some?
      modifies index.visited
      ensures Valid() && store.Valid() && View() == old(View())
      ensures Sane(index.G()) && Cb.BookOk(pq.value.book) && pq.value.book.dim == env.dim
      ensures |pq.value.codes| == |store.Rows()|
      ensures forall id | 0 <= id < |store.Rows()| ::
                && QuantizerOf(value, pq.value.book).IsCode(pq.value.codes[id])
                && dist(id) == DecodedDistance(value, query, id) == FlatDistance(value, query, id)
      ensures found == S.SearchGraph(index.G(), dist, k, ef)
      ensures |found| <= k && N.Ascending(found) && S.DistinctIds(found)
      ensures forall n | n in found :: n.id < |store.Rows()| && n.distance == dist(n.id)
    {
      hide Inv, EnvOk, IndexOk, StoreWired, WalWired, IndexWired, CodesMap, EncodeAll;
      hide EncodesBy, DecodedDistance, FlatDistance, QuantizerOf, Cb.BookOk, S.SearchGraph, Sane, N.Ascending;
      hide S.DistinctIds;
      var oracle := CodeDistances(value, query);
      dist := oracle;
      Quiescent();
      IndexIsSane(env, index.G());
      S.HitsAreNodes(index.G(), oracle, k, ef);
      found := FetchHits(oracle, k, ef);
    }

    /** The index's search leaves the database as it is. */
    method FetchHits(dist: S.Oracle, k: nat, ef: nat) returns (hits: seq<N.Neighbor>)
      requires Valid() && Sane(index.G())
      modifies index.visited
      ensures Valid() && View() == old(View()) && store.Valid()
      ensures hits == S.SearchGraph(index.G(), dist, k, ef)
    {
      hide Inv, EnvOk, IndexOk, S.SearchGraph, Sane, WalWired, CodesMap;
      hits := index.SearchWithOracle(dist, k, ef);
    }

    /** Replace every code distance by the true one. */
    method Rerank(query: Vector, found: seq<N.Neighbor>) returns (hits: seq<N.Neighbor>)
      requires store.Valid() && forall n | n in found :: n.id < |store.Rows()|
      ensures hits == Rescored(found, Distances(env.kernel, query, store.Rows()))
    {
      hits := [];
      for i := 0 to |found|
        invariant hits == Rescored(found, Distances(env.kernel, query, store.Rows()))[..i]
      {
        assert found[i] in found;
        var row := store.Get(found[i].id);
        hits := hits + [N.Neighbor(found[i].id, env.kernel(query, row.value))];
      }
    }
  }
}
