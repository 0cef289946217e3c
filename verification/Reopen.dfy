/**
 * `Db::open` on the objects and files: map the store, load the snapshot, scan the log, replay it,
 * restore the codebook. It succeeds exactly when `Recovery.Recover` says so, and then the database
 * object is in the state the protocol's `Open` step leads to.
 */
module Reopening {
  import opened Common
  import opened Bytes
  import opened Graph
  import opened Recovery
  import opened Protocol
  import opened Safety
  import opened Segments
  import opened Store
  import opened Database
  import L = Log
  import P = Persist
  import I = Insertion
  import H = HnswIndex
  import Cb = Codebook
  import SF = SnapshotFile
  import ER = ExactRecovery

  /** The files hold this durable state. Rows past the header's count are not part of it. */
  ghost predicate OnDisk(env: Env, files: Files, disk: Disk)
    reads files, files.store, files.store.segments, files.wal
  {
    && files.store.Sized() && files.store.count == disk.header <= |disk.rows|
    && env.capacity == Capacity(4 * files.store.strideWords)
    && (files.store.Shaped() && disk.header <= SegStart(|files.store.segments|) ==>
          files.store.Rows(disk.header) == disk.rows[..disk.header])
    && files.wal.bytes == disk.wal && files.snap == disk.snap && files.book == disk.book
  }

  /** The store's part of a record: append the row if it is missing, compare it if it is there. */
  method RestoreRow(env: Env, store: VectorStore, r: L.Record) returns (ok: bool)
    requires store.Valid() && store.dim == env.dim
    requires env.capacity == Capacity(4 * store.strideWords) && store.count <= env.capacity
    modifies store, store.file`segments, store.file.segments
    ensures store.Valid() && |store.Rows()| == store.count <= env.capacity
    ensures store.file.count == old(store.file.count)
    ensures var n := |old(store.Rows())|;
            && (ok <==> && r.id <= n
                        && (r.id == n ==> |r.vector| == env.dim && r.id < env.capacity)
                        && (r.id < n ==> SliceEq(old(store.Rows())[r.id], r.vector)))
            && store.Rows() == if ok && r.id == n then old(store.Rows()) + [r.vector] else old(store.Rows())
    ensures old(store.file.segments) <= store.file.segments
    ensures forall k | |old(store.file.segments)| <= k < |store.file.segments| :: fresh(store.file.segments[k])
  {
    hide Capacity, SliceEq, VectorStore.Room;
    if r.id == store.count {
      store.RoomIsCapacity(store.count);
      var id := store.Append(r.vector);
      ok := id.Ok?;
    } else if r.id > store.count {
      ok := false;
    } else {
      var row := store.Get(r.id);
      ok := SliceEq(row.value, r.vector);
    }
  }

  lemma Limits(env: Env, id: nat)
    requires EnvOk(env)
    ensures env.levelOf(id) <= H.MAX_LEVEL && env.capacity < H.ID_LIMIT
  {
  }

  /** `ReplayOne` once the store has had its part. */
  lemma RowRestored(env: Env, cfg: I.Config, from: nat, live: Live, r: L.Record, ok: bool, rows: seq<Vector>)
    requires r.lsn >= from
    requires var n := |live.rows|;
             && (ok <==> && r.id <= n
                         && (r.id == n ==> |r.vector| == env.dim && r.id < env.capacity)
                         && (r.id < n ==> SliceEq(live.rows[r.id], r.vector)))
             && rows == if ok && r.id == n then live.rows + [r.vector] else live.rows
    ensures var n := |live.graph.nodes|;
            ReplayOne(env, cfg, from, live, r)
            == if !ok || r.id > n then Failed
               else if r.id < n then Going(Live(rows, live.graph))
               else if !Sane(live.graph) then Panicked
               else Going(Live(rows, I.Insert(cfg, I.Pairwise(env.kernel, rows[..n + 1]), live.graph, env.levelOf(n))))
  {
    hide I.Insert, Sane, SliceEq;
  }

  lemma RowSkipped(env: Env, cfg: I.Config, from: nat, live: Live, r: L.Record)
    requires r.lsn < from
    ensures ReplayOne(env, cfg, from, live, r) == Going(live)
  {
  }

  /** One record of the log, put back into store and index. */
  method ReplayRecord(env: Env, store: VectorStore, index: H.Hnsw, from: nat, r: L.Record) returns (ok: bool)
    requires EnvOk(env) && store.Valid() && index.Valid() && index.kernel == env.kernel
    requires store.dim == env.dim && env.capacity == Capacity(4 * store.strideWords) && store.count <= env.capacity
    requires !ReplayOne(env, index.cfg, from, Live(store.Rows(), index.G()), r).Panicked?
    modifies store, store.file`segments, store.file.segments, index, index.visited
    ensures store.Valid() && index.Valid() && store.count <= env.capacity
    ensures store.file.count == old(store.file.count) && old(store.Rows()) <= store.Rows()
    ensures ReplayOne(env, index.cfg, from, Live(old(store.Rows()), old(index.G())), r)
            == if ok then Going(Live(store.Rows(), index.G())) else Failed
    ensures old(store.file.segments) <= store.file.segments
    ensures forall k | |old(store.file.segments)| <= k < |store.file.segments| :: fresh(store.file.segments[k])
  {
    hide I.Insert, I.Pairwise, Sane, Capacity, SliceEq, EnvOk, ReplayOne, VectorStore.Valid, VectorStore.Rows;
    ghost var live := Live(store.Rows(), index.G());
    if r.lsn < from {
      RowSkipped(env, index.cfg, from, live, r);
      return true;
    }
    Limits(env, r.id);
    ok := RestoreRow(env, store, r);
    RowRestored(env, index.cfg, from, live, r, ok, store.Rows());
    if !ok { return; }
    ok := LinkRecord(env, store.Rows(), index, r.id);
  }

  /** The index's part of a record: link the row if it is missing. */
  method LinkRecord(env: Env, rows: seq<Vector>, index: H.Hnsw, id: nat) returns (ok: bool)
    requires index.Valid() && index.kernel == env.kernel && id < |rows| && id < H.ID_LIMIT
    requires env.levelOf(id) <= H.MAX_LEVEL && (id == |index.nodes| ==> Sane(index.G()))
    modifies index, index.visited
    ensures index.Valid() && (ok <==> id <= |old(index.nodes)|)
    ensures if id == |old(index.nodes)|
            then Sane(old(index.G()))
                 && index.G() == I.Insert(index.cfg, I.Pairwise(env.kernel, rows[..id + 1]), old(index.G()), env.levelOf(id))
            else index.G() == old(index.G())
  {
    hide I.Insert, I.Pairwise, Sane;
    ok := id <= |index.nodes|;
    if id == |index.nodes| {
      index.Insert(rows, env.levelOf(id));
    }
  }

  /** The replay loop. */
  method Replay(env: Env, store: VectorStore, index: H.Hnsw, from: nat, records: seq<L.Record>) returns (ok: bool)
    requires EnvOk(env) && store.Valid() && index.Valid() && index.kernel == env.kernel
    requires store.dim == env.dim && env.capacity == Capacity(4 * store.strideWords) && store.count <= env.capacity
    requires !ReplayAll(env, index.cfg, from, Live(store.Rows(), index.G()), records).Panicked?
    modifies store, store.file`segments, store.file.segments, index, index.visited
    ensures store.Valid() && index.Valid() && store.count <= env.capacity
    ensures store.file.count == old(store.file.count) && old(store.Rows()) <= store.Rows()
    ensures ReplayAll(env, index.cfg, from, Live(old(store.Rows()), old(index.G())), records)
            == if ok then Going(Live(store.Rows(), index.G())) else Failed
    ensures old(store.file.segments) <= store.file.segments
  {
    hide EnvOk, ReplayOne, Capacity;
    ghost var whole := ReplayAll(env, index.cfg, from, Live(store.Rows(), index.G()), records);
    assert records[0..] == records;
    for i := 0 to |records|
      invariant store.Valid() && index.Valid() && store.count <= env.capacity
      invariant store.file.count == old(store.file.count) && old(store.Rows()) <= store.Rows()
      invariant ReplayAll(env, index.cfg, from, Live(store.Rows(), index.G()), records[i..]) == whole
      invariant old(store.file.segments) <= store.file.segments
      invariant forall k | |old(store.file.segments)| <= k < |store.file.segments| :: fresh(store.file.segments[k])
    {
      assert records[i..][1..] == records[i + 1..];
      ok := ReplayRecord(env, store, index, from, records[i]);
      if !ok { return; }
    }
    ok := true;
  }

  /** The snapshot stage: the index to replay onto and the LSN to replay from. */
  method OpenIndex(env: Env, snap: Option<seq<Byte>>, ghost disk: Disk) returns (r: Result<H.Hnsw>, from: nat)
    requires I.ConfigOk(env.cfg) && disk.snap == snap
    ensures r.Ok? <==> LoadIndex(env, disk).Ok?
    ensures r.Ok? ==>
              && fresh(r.value) && fresh(r.value.visited) && r.value.Valid() && r.value.kernel == env.kernel
              && LoadIndex(env, disk).value == (r.value.cfg, r.value.G(), from)
  {
    hide P.Load, I.ConfigOk;
    if snap.None? {
      var index := new H.Hnsw(env.cfg, env.kernel);
      return Ok(index), 0;
    }
    r, from := SF.LoadIndex(env.crc, snap.value, env.kernel);
  }

  /** The codebook stage: derive every code afresh. */
  method OpenPq(env: Env, book: Option<seq<Byte>>, store: VectorStore, ghost disk: Disk) returns (r: Result<Option<PqState>>)
    requires store.Valid() && disk.book == book
    ensures r == LoadPq(env, disk, store.Rows())
  {
    hide Cb.Load, EncodeAll;
    if book.None? { return Ok(None); }
    var loaded := Cb.Load(env.crc, book.value);
    if loaded.Err? { return Err(loaded.error); }
    if loaded.value.dim != env.dim { return Err(Corrupt); }
    var codes := EncodeStore(env, store, loaded.value);
    r := Ok(Some(PqState(loaded.value, codes)));
  }

  /** Failing to open leaves the disk as it was, but for the torn tail once the log has been scanned. */
  lemma FailKeepsDisk(env: Env, s: State)
    requires EnvOk(env) && s.mem.Down? && Inv(env, s)
    ensures s.disk.header <= |s.disk.rows|
    ensures Enabled(env, s, OpenFails(s.disk.rows, false)) && Enabled(env, s, OpenFails(s.disk.rows, true))
    ensures Apply(env, s, OpenFails(s.disk.rows, false)).disk == s.disk
    ensures var scan := L.Scan(env.crc, s.disk.wal);
            scan.Clean? ==>
              scan.end <= |s.disk.wal|
              && Apply(env, s, OpenFails(s.disk.rows, true)).disk == s.disk.(wal := s.disk.wal[..scan.end])
  {
    hide L.Scan, L.LogBytes, LogOk, SnapOk, BookOk, Records;
    assert LogOk(env, s.disk.wal, s.hist);
    ScanGood(env, s.disk.wal, s.hist);
  }

  /** `Recover`, stage by stage. */
  lemma Stages(env: Env, s: State)
    requires EnvOk(env) && s.mem.Down? && Inv(env, s)
    ensures s.disk.header <= |s.disk.rows| && s.disk.header <= env.capacity
    ensures var loaded, scan := LoadIndex(env, s.disk), L.Scan(env.crc, s.disk.wal);
            if loaded.Err? || scan.Refused? then Recover(env, s.disk) == Outcome.Refused
            else
              var (cfg, graph, from) := loaded.value;
              var out := ReplayAll(env, cfg, from, Live(s.disk.rows[..s.disk.header], graph), scan.records);
              && !out.Panicked?
              && (if out.Failed? || |out.live.graph.nodes| != |out.live.rows| then Recover(env, s.disk) == Outcome.Refused
                  else var pq := LoadPq(env, s.disk, out.live.rows);
                       if pq.Err? then Recover(env, s.disk) == Outcome.Refused
                       else scan.end <= |s.disk.wal|
                            && Recover(env, s.disk)
                               == Opened(Database(out.live.rows, out.live.graph, cfg, Max(scan.nextLsn, from),
                                                  s.disk.wal[..scan.end], pq.value)))
  {
    hide L.Scan, LoadIndex, LoadPq, ReplayAll, LogOk, SnapOk, BookOk, Reopens, Recovered;
    DownRecovers(env, s);
  }

  lemma ConfigIsOk(env: Env)
    requires EnvOk(env)
    ensures I.ConfigOk(env.cfg)
  {
  }

  /** What the protocol's `Open` step leads to. */
  lemma OpenState(env: Env, s: State)
    requires Recover(env, s.disk).Opened? && Enabled(env, s, Step.Open)
    requires EnvOk(env) && Inv(env, s)
    ensures var db := Recover(env, s.disk).db;
            var t := Apply(env, s, Step.Open);
            && Inv(env, t) && t.mem.Up? && IndexOk(env, db.graph, |db.rows|)
            && t.hist.vs == db.rows && |db.graph.nodes| == |db.rows| && db.cfg == env.cfg
            && t.disk == s.disk.(rows := db.rows, wal := db.wal)
            && t.mem == Up(db.graph, db.nextLsn, false, Free, {}, {}, Idle,
                           if db.pq.None? then None else Some((db.pq.value.book, CodesMap(db.pq.value.codes))))
            && (db.pq.Some? ==> |db.pq.value.codes| == |db.rows|)
  {
    hide Inv, EnvOk, Recover, IndexOk, EncodeAll, Encoded, CodesMap;
    var t := Apply(env, s, Step.Open);
    OpenKeeps(env, s);
    RestoredParts(env, s);
    OpenIndexOk(env, t);
    var db := Recover(env, s.disk).db;
    if db.pq.Some? { CodesAgree(env, db.pq.value.book, db.rows); }
  }

  lemma RestoredParts(env: Env, s: State)
    requires EnvOk(env) && s.mem.Down? && Inv(env, s) && Recover(env, s.disk).Opened?
    ensures var db := Recover(env, s.disk).db;
            && db.rows == s.hist.vs && |db.graph.nodes| == |db.rows| && db.cfg == env.cfg
            && (db.pq.Some? ==> db.pq.value.codes == EncodeAll(env, db.pq.value.book, db.rows))
  {
    hide EnvOk, Recover, LogOk, SnapOk, BookOk, IndexOk, SnapshotLoads, NoNanInWindow, L.LogBytes;
    RecoverGood(env, s.disk, s.hist);
  }

  lemma OpenIndexOk(env: Env, t: State)
    requires Inv(env, t) && t.mem.Up? && t.mem.logged == {}
    ensures IndexOk(env, t.mem.graph, |t.hist.vs|)
  {
    hide IndexOk, DiskOk, CodesOk, SlotOk, StageOk;
  }

  /** Put the recovered parts together. */
  method Assemble(env: Env, files: Files, store: VectorStore, index: H.Hnsw, wal: L.Wal, pq: Option<PqState>,
                  ghost s: State) returns (db: Db)
    requires EnvOk(env) && s.mem.Down? && Inv(env, s)
    requires store.Valid() && store.file == files.store && store.dim == env.dim
    requires env.capacity == Capacity(4 * store.strideWords)
    requires wal.Valid() && wal.file == files.wal && wal.crc == env.crc && wal.policy.Always? && !wal.poisoned
    requires index.Valid() && index.kernel == env.kernel
    requires files.store.count == s.disk.header && files.snap == s.disk.snap && files.book == s.disk.book
    requires Recover(env, s.disk)
             == Opened(Database(store.Rows(), index.G(), index.cfg, wal.nextLsn, files.wal.bytes, pq))
    ensures fresh(db) && db.files == files && db.Valid()
    ensures Enabled(env, s, Step.Open) && db.View() == Apply(env, s, Step.Open)
  {
    hide Inv, EnvOk, Recover, IndexOk, Capacity, CodesMap;
    ghost var t := Apply(env, s, Step.Open);
    OpenState(env, s);
    db := new Db(env, files, store, index, wal, pq, t);
    db.Reassemble(t);
  }

  /** Replay only adds rows, so what the header covers is still there. */
  lemma StillOnDisk(env: Env, files: Files, store: VectorStore, disk: Disk)
    requires store.Valid() && store.file == files.store && env.capacity == Capacity(4 * store.strideWords)
    requires files.store.count == disk.header <= |disk.rows| && disk.rows[..disk.header] <= store.Rows()
    requires files.wal.bytes == disk.wal && files.snap == disk.snap && files.book == disk.book
    ensures OnDisk(env, files, disk)
  {
    hide Capacity;
    assert files.store.Rows(disk.header) == store.Rows()[..disk.header];
  }

  /** `open` once store and snapshot are loaded: scan the log, replay it, restore the codebook. */
  method OpenLog(env: Env, files: Files, store: VectorStore, index: H.Hnsw, from: nat, ghost s: State)
    returns (r: Result<Db>, ghost truncated: bool)
    requires EnvOk(env) && s.mem.Down? && Inv(env, s)
    requires store.Valid() && store.file == files.store && store.dim == env.dim
    requires env.capacity == Capacity(4 * store.strideWords)
    requires index.Valid() && index.kernel == env.kernel && LoadIndex(env, s.disk) == Ok((index.cfg, index.G(), from))
    requires files.store.count == s.disk.header <= |s.disk.rows| && store.Rows() == s.disk.rows[..s.disk.header]
    requires files.wal.bytes == s.disk.wal && files.snap == s.disk.snap && files.book == s.disk.book
    modifies store, files.store`segments, files.store.segments, files.wal, index, index.visited
    ensures r.Ok? <==> Recover(env, s.disk).Opened?
    ensures r.Ok? ==>
              && fresh(r.value) && r.value.files == files && r.value.Valid()
              && Enabled(env, s, Step.Open) && r.value.View() == Apply(env, s, Step.Open)
    ensures r.Err? ==>
              && Enabled(env, s, OpenFails(s.disk.rows, truncated))
              && OnDisk(env, files, Apply(env, s, OpenFails(s.disk.rows, truncated)).disk)
  {
    hide Inv, EnvOk, Recover, LoadIndex, LoadPq, ReplayAll, L.Scan, Capacity, Enabled, Apply, OnDisk;
    FailKeepsDisk(env, s);
    Stages(env, s);
    var log, records := L.Wal.Open(env.crc, L.Always, files.wal);
    if log.Err? {
      StillOnDisk(env, files, store, s.disk);
      return Err(log.error), false;
    }
    log.value.EnsureLsnAtLeast(from);
    var ok := Replay(env, store, index, from, records);
    StillOnDisk(env, files, store, s.disk.(wal := files.wal.bytes));
    truncated := true;
    if !ok || |index.nodes| != store.count { return Err(Corrupt), true; }
    var pq := OpenPq(env, files.book, store, s.disk);
    if pq.Err? { return Err(pq.error), true; }
    var db := Assemble(env, files, store, index, log.value, pq.value, s);
    r := Ok(db);
  }

  /** Whatever the store's geometry, its ids fit the packed entry word. */
  lemma IdsFit(env: Env, files: Files, disk: Disk)
    requires OptionsOk(env) && OnDisk(env, files, disk)
    ensures EnvOk(env)
  {
    hide Capacity;
    CapacityBound(4 * files.store.strideWords);
  }

  /**
   * `open` of a directory that any run has left behind. It fails only if the store cannot be mapped,
   * belongs to another dimension, or recovery refuses; and then nothing durable is lost.
   */
  method Open(env: Env, files: Files, ghost s: State) returns (r: Result<Db>, ghost truncated: bool)
    requires OptionsOk(env) && s.mem.Down? && Inv(env, s) && OnDisk(env, files, s.disk)
    modifies files.store`segments, files.store.segments, files.wal
    ensures r.Ok? <==> old(VectorStore.Openable(files.store)) && files.store.dim == env.dim && Recover(env, s.disk).Opened?
    ensures r.Ok? ==>
              && fresh(r.value) && r.value.files == files && r.value.Valid()
              && Enabled(env, s, Step.Open) && r.value.View() == Apply(env, s, Step.Open)
    ensures r.Err? ==>
              && Enabled(env, s, OpenFails(s.disk.rows, truncated))
              && OnDisk(env, files, Apply(env, s, OpenFails(s.disk.rows, truncated)).disk)
  {
    hide Inv, EnvOk, OptionsOk, Recover, LoadIndex, LoadPq, ReplayAll, L.Scan, Capacity, Enabled, Apply, VectorStore.Openable;
    truncated := false;
    IdsFit(env, files, s.disk);
    FailKeepsDisk(env, s);
    Stages(env, s);
    var mapped := VectorStore.Open(files.store);
    if mapped.Err? { return Err(mapped.error), false; }
    var store := mapped.value;
    if store.dim != env.dim { return Err(DimensionMismatch(store.dim, env.dim)), false; }
    assert I.ConfigOk(env.cfg) by { ConfigIsOk(env); }
    var loaded, from := OpenIndex(env, files.snap, s.disk);
    if loaded.Err? { return Err(loaded.error), false; }
    r, truncated := OpenLog(env, files, store, loaded.value, from, s);
  }

  /** The files of a running database are the disk its state says. */
  lemma RunningOnDisk(db: Db)
    requires db.Valid()
    ensures OnDisk(db.env, db.files, db.View().disk)
  {
    hide Inv, EnvOk, Capacity;
    HeaderBelow(db.env, db.View());
    assert db.files.store.Rows(db.files.store.count) == db.store.Rows()[..db.files.store.count];
  }

  lemma AtRest(db: Db)
    requires db.Valid()
    ensures db.Wired() && EnvOk(db.env) && OptionsOk(db.env) && Inv(db.env, db.View())
    ensures db.files.store.dim == db.env.dim
    ensures var s := db.View();
            && Quiet(s.mem) && s.disk.rows == db.store.Rows() == s.hist.vs && s.acked == db.acked && s.synced == db.synced
            && s.disk.wal == db.files.wal.bytes
  {
    hide Inv, OptionsOk;
    db.Quiescent();
  }

  lemma HeaderBelow(env: Env, s: State)
    requires Inv(env, s)
    ensures s.disk.header <= |s.disk.rows| && s.disk.header <= |s.hist.vs| && s.hist.base <= |s.hist.vs|
  {
    hide LogOk, SnapOk, BookOk, VectorsOk, UpOk, Torn;
  }

  /**
   * Kill the process at rest, keep any number of the log's unsynced bytes, and open the directory
   * again. If that succeeds, the database holds every vector logged before, under the same id, and
   * every acknowledged id reads back its vector.
   */
  method CrashAndReopen(db: Db, keep: nat) returns (r: Result<Db>)
    requires db.Valid() && db.synced <= keep <= |db.files.wal.bytes|
    modifies db.files.store`segments, db.files.store.segments, db.files.wal
    ensures Enabled(db.env, old(db.View()), Crash(keep))
    ensures var c := Apply(db.env, old(db.View()), Crash(keep));
            && c.disk.header <= |c.hist.vs|
            && (r.Ok? <==> old(VectorStore.Openable(db.files.store)) && Reopens(db.env, c))
            && (r.Ok? ==>
                  && fresh(r.value) && r.value.Valid() && r.value.files == db.files
                  && Enabled(db.env, c, Step.Open) && r.value.View() == Apply(db.env, c, Step.Open))
    ensures r.Ok? ==>
              && old(db.store.Rows()) <= r.value.store.Rows() && r.value.acked == old(db.acked)
              && (forall id | id in old(db.acked) ::
                    id < |r.value.store.Rows()| && r.value.store.Rows()[id] == old(db.acked)[id])
    ensures r.Ok? && ER.Exact(db.env, old(db.View())) ==> ER.Exact(db.env, r.value.View())
  {
    hide Inv, EnvOk, Recover, Reopens, Recovered, VectorStore.Openable, OnDisk, Apply, Enabled, ER.Exact, Built;
    hide Db.Valid, Db.Wired, Db.View;
    AtRest(db);
    ghost var s := db.View();
    RunningOnDisk(db);
    Killed(db.env, s, keep);
    ghost var c := Apply(db.env, s, Crash(keep));
    CutLog(db.env, db.files, s.disk, keep);
    ghost var truncated;
    r, truncated := Open(db.env, db.files, c);
    if r.Ok? {
      ReopenedRows(db.env, c);
      AtRest(r.value);
      if ER.Exact(db.env, s) { ExactAfterwards(db.env, s, keep); }
    }
  }

  /** Killing and reopening keep an exact index exact. */
  lemma ExactAfterwards(env: Env, s: State, keep: nat)
    requires EnvOk(env) && Inv(env, s) && Quiet(s.mem) && ER.Exact(env, s) && Enabled(env, s, Crash(keep))
    requires Enabled(env, Apply(env, s, Crash(keep)), Step.Open)
    ensures ER.Exact(env, Apply(env, Apply(env, s, Crash(keep)), Step.Open))
  {
    hide Inv, EnvOk, Apply, Enabled, Built, Recover;
    QuietLength(env, s);
    ER.CrashExact(env, s, keep);
    CrashKeeps(env, s, keep);
    ER.OpenExact(env, Apply(env, s, Crash(keep)));
  }

  lemma QuietLength(env: Env, s: State)
    requires Inv(env, s) && Quiet(s.mem)
    ensures |s.mem.graph.nodes| == |s.hist.vs|
  {
    hide DiskOk, CodesOk, StageOk;
  }

  /** The kill: the log file may lose its tail. */
  method CutLog(env: Env, files: Files, ghost disk: Disk, keep: nat)
    requires OnDisk(env, files, disk) && keep <= |files.wal.bytes|
    modifies files.wal
    ensures OnDisk(env, files, disk.(wal := disk.wal[..keep]))
    ensures VectorStore.Openable(files.store) == old(VectorStore.Openable(files.store))
  {
    hide Capacity;
    files.wal.Truncate(keep);
  }

  lemma Killed(env: Env, s: State, keep: nat)
    requires EnvOk(env) && Inv(env, s) && s.mem.Up? && s.synced <= keep <= |s.disk.wal|
    ensures Enabled(env, s, Crash(keep))
    ensures var c := Apply(env, s, Crash(keep));
            && Inv(env, c) && c.mem.Down? && c.disk == s.disk.(wal := s.disk.wal[..keep])
            && c.disk.header <= |c.hist.vs| && s.hist.vs <= c.hist.vs && c.acked == s.acked
            && (Recover(env, c.disk).Opened? <==> Reopens(env, c))
  {
    hide Inv, EnvOk, Recover, Reopens, Recovered, Surviving;
    HeaderBelow(env, s);
    CrashKeeps(env, s, keep);
    DownRecovers(env, Apply(env, s, Crash(keep)));
  }

  lemma ReopenedRows(env: Env, c: State)
    requires EnvOk(env) && Inv(env, c) && c.mem.Down? && Enabled(env, c, Step.Open)
    ensures var t := Apply(env, c, Step.Open);
            && t.disk.rows == c.hist.vs && t.acked == c.acked
            && forall id | id in c.acked :: id < |t.disk.rows| && t.disk.rows[id] == c.acked[id]
  {
    hide Inv, EnvOk, Recover, Reopens;
    DownRecovers(env, c);
  }
}
