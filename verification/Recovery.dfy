/**
 * `Db::open` on the durable state: the store's header and rows, the log's bytes, the snapshot's
 * bytes and the codebook's bytes. Everything is decoded from bytes as the code decodes it.
 */
module Recovery {
  import opened Common
  import opened Bytes
  import opened Graph
  import L = Log
  import I = Insertion
  import P = Persist
  import H = HnswIndex
  import St = Structure
  import Co = Concurrent
  import Cb = Codebook

  type Code = seq<nat>

  /** What stays the same over a database's life: options, dimension, and the pure functions used. */
  datatype Env = Env(crc: L.Crc, cfg: I.Config, kernel: H.Kernel, levelOf: nat -> nat, dim: nat, capacity: nat,
                     encode: (Cb.Book, Vector) -> Code)

  /** The options fit the snapshot format, and levels fit the packed entry word. */
  ghost predicate OptionsOk(env: Env) {
    I.ConfigOk(env.cfg) && env.cfg.efConstruction < U32_LIMIT && forall id: nat :: env.levelOf(id) <= H.MAX_LEVEL
  }

  /** And so do ids: `capacity` bounds the store's rows. */
  ghost predicate EnvOk(env: Env) {
    OptionsOk(env) && env.capacity < H.ID_LIMIT
  }

  datatype Disk = Disk(header: nat, rows: seq<Vector>, wal: seq<Byte>, snap: Option<seq<Byte>>, book: Option<seq<Byte>>)

  // --- float equality, as the replay loop compares vectors ------------------------------

  /** An `f32` bit pattern with all exponent bits set and a non-zero fraction. */
  predicate IsNan(w: Word) {
    w % 0x8000_0000 > 0x7F80_0000
  }

  /** `==` on `f32`: NaN equals nothing, the two zeros equal each other. */
  predicate FloatEq(a: Word, b: Word) {
    !IsNan(a) && !IsNan(b) && (a == b || (a % 0x8000_0000 == 0 && b % 0x8000_0000 == 0))
  }

  predicate SliceEq(a: Vector, b: Vector) {
    |a| == |b| && forall i | 0 <= i < |a| :: FloatEq(a[i], b[i])
  }

  predicate HasNan(v: Vector) {
    exists i | 0 <= i < |v| :: IsNan(v[i])
  }

  /** A vector compares equal to itself exactly when no component is NaN. */
  lemma SelfEqual(v: Vector)
    ensures SliceEq(v, v) <==> !HasNan(v)
  {
    if HasNan(v) {
      var i :| 0 <= i < |v| && IsNan(v[i]);
      assert !FloatEq(v[i], v[i]);
    }
  }

  // --- replay ------------------------------------------------------------------------------

  /** The rows and the index while the log is replayed onto them. */
  datatype Live = Live(rows: seq<Vector>, graph: Graph)

  /** `Panicked`: the index would have been asked for a node or layer that does not exist. */
  datatype Replayed = Going(live: Live) | Failed | Panicked

  /** The next id enters the index, computed from the rows up to it. */
  ghost function Link(env: Env, cfg: I.Config, rows: seq<Vector>, g: Graph): (r: Graph)
    requires Sane(g) && |g.nodes| < |rows|
    ensures Sane(r) && |r.nodes| == |g.nodes| + 1
  {
    var id := |g.nodes|;
    I.Insert(cfg, I.Pairwise(env.kernel, rows[..id + 1]), g, env.levelOf(id))
  }

  /** One turn of the replay loop. */
  ghost function ReplayOne(env: Env, cfg: I.Config, from: nat, live: Live, r: L.Record): Replayed {
    if r.lsn < from then Going(live)
    else if r.id > |live.rows| then Failed
    else if r.id == |live.rows| && (|r.vector| != env.dim || r.id >= env.capacity) then Failed
    else if r.id < |live.rows| && !SliceEq(live.rows[r.id], r.vector) then Failed
    else
      var rows := if r.id == |live.rows| then live.rows + [r.vector] else live.rows;
      if r.id > |live.graph.nodes| then Failed
      else if r.id < |live.graph.nodes| then Going(Live(rows, live.graph))
      else if !Sane(live.graph) then Panicked
      else Going(Live(rows, Link(env, cfg, rows, live.graph)))
  }

  ghost function ReplayAll(env: Env, cfg: I.Config, from: nat, live: Live, rs: seq<L.Record>): Replayed
    decreases |rs|
  {
    if rs == [] then Going(live)
    else match ReplayOne(env, cfg, from, live, rs[0])
      case Going(next) => ReplayAll(env, cfg, from, next, rs[1..])
      case Failed => Failed
      case Panicked => Panicked
  }

  /** Codes for every row, in id order (`encode_all`). */
  function EncodeAll(env: Env, book: Cb.Book, rows: seq<Vector>): (codes: seq<Code>)
    ensures |codes| == |rows|
  {
    seq(|rows|, i requires 0 <= i < |rows| => env.encode(book, rows[i]))
  }

  datatype PqState = PqState(book: Cb.Book, codes: seq<Code>)

  /** The database `open` returns: rows, index, its configuration, the LSN counter, the log kept. */
  datatype Database = Database(rows: seq<Vector>, graph: Graph, cfg: I.Config, nextLsn: nat, wal: seq<Byte>,
                               pq: Option<PqState>)

  datatype Outcome = Opened(db: Database) | Refused | Crashed

  /** The snapshot step: the loaded index and the watermark replay starts from. */
  ghost function LoadIndex(env: Env, disk: Disk): Result<(I.Config, Graph, nat)> {
    match disk.snap
    case None => if I.ConfigOk(env.cfg) then Ok((env.cfg, EMPTY, 0)) else Err(InvalidArgument)
    case Some(b) =>
      var s :- P.Load(env.crc, b);
      Ok((s.cfg, P.SnapshotGraph(s), s.lsn))
  }

  /** The last step: restore the codebook and derive every code afresh. */
  ghost function LoadPq(env: Env, disk: Disk, rows: seq<Vector>): Result<Option<PqState>> {
    match disk.book
    case None => Ok(None)
    case Some(b) =>
      var book :- Cb.Load(env.crc, b);
      if book.dim != env.dim then Err(Corrupt)
      else Ok(Some(PqState(book, EncodeAll(env, book, rows))))
  }

  /** `Db::open`. */
  ghost function Recover(env: Env, disk: Disk): Outcome {
    if disk.header > |disk.rows| then Refused
    else match LoadIndex(env, disk)
      case Err(_) => Refused
      case Ok((cfg, graph, from)) =>
        match L.Scan(env.crc, disk.wal)
        case Refused => Refused
        case Clean(records, end, next) =>
          match ReplayAll(env, cfg, from, Live(disk.rows[..disk.header], graph), records)
          case Failed => Refused
          case Panicked => Crashed
          case Going(live) =>
            if |live.graph.nodes| != |live.rows| then Refused
            else match LoadPq(env, disk, live.rows)
              case Err(_) => Refused
              case Ok(pq) =>
                Opened(Database(live.rows, live.graph, cfg, Max(next, from), disk.wal[..end], pq))
  }

  // --- the disks that runs leave behind ---------------------------------------------------------

  /** The record a durable insert of id `i` logs: its LSN and its id coincide. */
  function RecordOf(vs: seq<Vector>, i: nat): L.Record
    requires i < |vs|
  {
    L.Record(i, i, vs[i])
  }

  function Records(vs: seq<Vector>, base: nat): (rs: seq<L.Record>)
    requires base <= |vs|
    ensures |rs| == |vs| - base && forall i | 0 <= i < |rs| :: rs[i] == RecordOf(vs, base + i)
  {
    seq(|vs| - base, i requires 0 <= i < |vs| - base => RecordOf(vs, base + i))
  }

  /**
   * What the durable bytes mean. `vs`: every logged vector, by id. `base`: the first LSN still in
   * the log. `mark` and `snap`: the snapshot's watermark and graph. `book`: the saved codebook.
   * `pending`: the insert whose frame the log's tail is a beginning of.
   */
  datatype History = History(vs: seq<Vector>, base: nat, mark: nat, snap: Graph, book: Option<Cb.Book>,
                             pending: Option<Vector>)

  ghost predicate VectorsOk(env: Env, vs: seq<Vector>) {
    && |vs| <= env.capacity
    && (forall i | 0 <= i < |vs| :: |vs[i]| == env.dim)
    && (vs != [] ==> 21 + 4 * env.dim < U32_LIMIT)
  }

  /** A graph of `n` nodes that racing inserts may have built, on the levels their ids fix. */
  ghost predicate IndexOk(env: Env, g: Graph, n: nat) {
    && Co.RacedGraph(env.cfg, g) && |g.nodes| == n
    && forall i | 0 <= i < n :: |g.nodes[i]| == env.levelOf(i) + 1
  }

  ghost predicate LogOk(env: Env, wal: seq<Byte>, h: History)
    requires h.base <= |h.vs|
  {
    var log := L.LogBytes(env.crc, Records(h.vs, h.base));
    && |log| <= |wal| && wal[..|log|] == log
    && (h.pending.None? ==> wal == log)
    && (h.pending.Some? ==>
          && VectorsOk(env, h.vs + [h.pending.value])
          && wal[|log|..] <= L.Frame(env.crc, L.Record(|h.vs|, |h.vs|, h.pending.value)))
  }

  ghost predicate SnapOk(env: Env, disk: Disk, h: History) {
    match disk.snap
    case None => h.mark == 0 && h.snap == EMPTY
    case Some(b) => IndexOk(env, h.snap, h.mark) && b == P.SaveBytes(env.crc, P.SnapshotOf(env.cfg, h.snap, h.mark))
  }

  ghost predicate BookOk(env: Env, disk: Disk, h: History) {
    match h.book
    case None => disk.book == None
    case Some(b) => Cb.BookOk(b) && b.dim == env.dim && disk.book == Some(Cb.FileBytes(env.crc, b))
  }

  /** The disk holds what the history says, in the windows the write order allows. */
  ghost predicate DiskOk(env: Env, disk: Disk, h: History) {
    && VectorsOk(env, h.vs)
    && h.base <= h.mark <= disk.header <= |h.vs| && disk.header <= |disk.rows|
    && disk.rows[..disk.header] == h.vs[..disk.header]
    && LogOk(env, disk.wal, h)
    && SnapOk(env, disk, h)
    && BookOk(env, disk, h)
  }

  /** The guard of the loader's "absurd degree" branch, for the snapshot on disk. */
  ghost predicate SnapshotLoads(env: Env, disk: Disk, h: History) {
    disk.snap.Some? ==> P.DegreesOk(env.cfg, h.snap.nodes)
  }

  /** No row that the header already covers, but the snapshot does not, contains a NaN. */
  ghost predicate NoNanInWindow(disk: Disk, h: History)
    requires disk.header <= |h.vs|
  {
    forall i | h.mark <= i < disk.header :: !HasNan(h.vs[i])
  }

  // --- replaying the log of a good disk -------------------------------------------------------

  /** The index over rows `0..n`, continuing from a graph over fewer. */
  ghost function LinkUpTo(env: Env, vs: seq<Vector>, g: Graph, n: nat): (r: Graph)
    requires Sane(g) && |g.nodes| <= n <= |vs|
    ensures Sane(r) && |r.nodes| == n
    decreases n
  {
    if |g.nodes| == n then g
    else Link(env, env.cfg, vs[..n], LinkUpTo(env, vs, g, n - 1))
  }

  lemma LinkPrefix(env: Env, cfg: I.Config, a: seq<Vector>, b: seq<Vector>, g: Graph)
    requires Sane(g) && |g.nodes| < |a| <= |b| && a[..|g.nodes| + 1] == b[..|g.nodes| + 1]
    ensures Link(env, cfg, a, g) == Link(env, cfg, b, g)
  {
  }

  /** Where the replay loop stands just before record `i`. */
  ghost function LiveAt(env: Env, vs: seq<Vector>, header: nat, g: Graph, i: nat): Live
    requires Sane(g) && |g.nodes| <= i <= |vs| && header <= |vs|
  {
    Live(vs[..Max(header, i)], LinkUpTo(env, vs, g, i))
  }

  /** One record at or past the watermark: it fails exactly on a flushed row that contains a NaN. */
  lemma ReplayStep(env: Env, vs: seq<Vector>, header: nat, g: Graph, i: nat)
    requires VectorsOk(env, vs) && Sane(g) && |g.nodes| <= i < |vs| && header <= |vs|
    ensures ReplayOne(env, env.cfg, |g.nodes|, LiveAt(env, vs, header, g, i), RecordOf(vs, i))
            == if i < header && HasNan(vs[i]) then Failed else Going(LiveAt(env, vs, header, g, i + 1))
  {
    hide Link, HasNan, SliceEq;
    var live := LiveAt(env, vs, header, g, i);
    SelfEqual(vs[i]);
    if i < header {
      assert live.rows[i] == vs[i];
      assert live.rows[..i + 1] == vs[..i + 1][..i + 1];
      LinkPrefix(env, env.cfg, vs[..i + 1], live.rows, live.graph);
    } else {
      assert live.rows + [vs[i]] == vs[..i + 1];
    }
  }

  /** All records from `i` on. */
  lemma {:induction false} ReplayTail(env: Env, vs: seq<Vector>, header: nat, g: Graph, i: nat)
    requires VectorsOk(env, vs) && Sane(g) && |g.nodes| <= i <= |vs| && header <= |vs|
    ensures ReplayAll(env, env.cfg, |g.nodes|, LiveAt(env, vs, header, g, i), Records(vs, i))
            == if forall j | i <= j < header :: !HasNan(vs[j]) then Going(LiveAt(env, vs, header, g, |vs|))
               else Failed
    decreases |vs| - i
  {
    hide ReplayOne, LiveAt, HasNan;
    if i < |vs| {
      ReplayStep(env, vs, header, g, i);
      ReplayTail(env, vs, header, g, i + 1);
      assert Records(vs, i)[1..] == Records(vs, i + 1);
    }
  }

  /** Records below the watermark are skipped. */
  lemma {:induction false} ReplaySkips(env: Env, vs: seq<Vector>, mark: nat, live: Live, i: nat)
    requires i <= mark <= |vs|
    ensures ReplayAll(env, env.cfg, mark, live, Records(vs, i)) == ReplayAll(env, env.cfg, mark, live, Records(vs, mark))
    decreases mark - i
  {
    if i < mark {
      ReplaySkips(env, vs, mark, live, i + 1);
      assert Records(vs, i)[1..] == Records(vs, i + 1);
    }
  }

  lemma RecordsRecoverable(env: Env, vs: seq<Vector>, base: nat)
    requires EnvOk(env) && VectorsOk(env, vs) && base <= |vs|
    ensures L.Recoverable(Records(vs, base))
  {
  }

  lemma {:induction false} NextAfterRecords(vs: seq<Vector>, base: nat)
    requires base <= |vs|
    ensures L.NextAfter(Records(vs, base)) == if base < |vs| then |vs| else 0
    decreases |vs| - base
  {
    if base < |vs| {
      NextAfterRecords(vs, base + 1);
      assert Records(vs, base)[1..] == Records(vs, base + 1);
    }
  }

  /** The log of a good disk scans to exactly the logged records; a torn tail is dropped. */
  lemma ScanGood(env: Env, wal: seq<Byte>, h: History)
    requires EnvOk(env) && VectorsOk(env, h.vs) && h.base <= |h.vs| && LogOk(env, wal, h)
    requires h.pending.Some? ==> |wal| < |L.LogBytes(env.crc, Records(h.vs, h.base))|
                                         + |L.Frame(env.crc, L.Record(|h.vs|, |h.vs|, h.pending.value))|
    ensures var rs := Records(h.vs, h.base);
            && L.Scan(env.crc, wal) == L.Clean(rs, |L.LogBytes(env.crc, rs)|, L.NextAfter(rs))
            && wal[..|L.LogBytes(env.crc, rs)|] == L.LogBytes(env.crc, rs)
  {
    hide L.Scan, L.Frame, L.LogBytes, L.Incomplete;
    var rs := Records(h.vs, h.base);
    var log := L.LogBytes(env.crc, rs);
    var tail := wal[|log|..];
    RecordsRecoverable(env, h.vs, h.base);
    if h.pending.Some? {
      var r := L.Record(|h.vs|, |h.vs|, h.pending.value);
      assert (h.vs + [h.pending.value])[|h.vs|] == h.pending.value;
      assert L.Encodable(r);
      L.CutFrameIsIncomplete(env.crc, r, |tail|);
      assert tail == L.Frame(env.crc, r)[..|tail|];
    } else {
      assert tail == [];
      L.NothingIsIncomplete(env.crc);
    }
    L.ScanLog(env.crc, rs, tail);
    assert wal == log + tail;
  }

  /** The snapshot step of a good disk: it succeeds exactly when the saved degrees are in bounds. */
  lemma LoadGood(env: Env, disk: Disk, h: History)
    requires EnvOk(env) && SnapOk(env, disk, h) && h.mark <= env.capacity
    ensures Sane(h.snap) && |h.snap.nodes| == h.mark
    ensures if SnapshotLoads(env, disk, h) then LoadIndex(env, disk) == Ok((env.cfg, h.snap, h.mark))
            else LoadIndex(env, disk).Err?
  {
    hide P.Load, P.SaveBytes, P.Storable, P.DegreesOk, Co.RacedGraph, Sane;
    if disk.snap.None? {
      EmptyIsSane();
    } else {
      IndexIsStorable(env, h.snap, h.mark);
      P.LoadSaved(env.crc, P.SnapshotOf(env.cfg, h.snap, h.mark));
      assert env.cfg.(efConstruction := env.cfg.efConstruction % U32_LIMIT) == env.cfg;
    }
  }

  lemma EmptyIsSane()
    ensures Sane(EMPTY) && EMPTY.nodes == []
  {
  }

  lemma IndexIsStorable(env: Env, g: Graph, n: nat)
    requires EnvOk(env) && IndexOk(env, g, n) && n <= env.capacity
    ensures Sane(g) && P.Storable(P.SnapshotOf(env.cfg, g, n))
    ensures P.SnapshotGraph(P.SnapshotOf(env.cfg, g, n)) == g
  {
    hide P.Storable, Sane;
    forall i | 0 <= i < |g.nodes| ensures |g.nodes[i]| <= H.MAX_LEVEL + 1 {
      assert |g.nodes[i]| == env.levelOf(i) + 1;
    }
    forall i, l | 0 <= i < |g.nodes| && 0 <= l < |g.nodes[i]| ensures |g.nodes[i][l]| < U32_LIMIT {
      assert St.CleanList(i, g.nodes[i][l], St.Bound(env.cfg, l, false), false);
    }
    P.SaneIsStorable(env.cfg, g, n);
  }

  lemma BookGood(env: Env, disk: Disk, h: History, rows: seq<Vector>)
    requires BookOk(env, disk, h)
    ensures LoadPq(env, disk, rows)
            == Ok(if h.book.None? then None else Some(PqState(h.book.value, EncodeAll(env, h.book.value, rows))))
  {
    hide Cb.Load, Cb.FileBytes, Cb.BookOk;
    if h.book.Some? { Cb.FileRoundTrip(env.crc, h.book.value); }
  }

  /** What a successful open of a good disk returns. */
  ghost function Restored(env: Env, h: History): Database
    requires h.base <= |h.vs| && Sane(h.snap) && |h.snap.nodes| == h.mark <= |h.vs|
  {
    Database(h.vs, LinkUpTo(env, h.vs, h.snap, |h.vs|), env.cfg, |h.vs|, L.LogBytes(env.crc, Records(h.vs, h.base)),
             if h.book.None? then None else Some(PqState(h.book.value, EncodeAll(env, h.book.value, h.vs))))
  }

  /**
   * Recovery of any disk a run can leave, whose torn tail is shorter than a frame. It opens exactly
   * when the saved snapshot's lists are within their degree bounds and no row between the watermark
   * and the flushed count holds a NaN; it never panics; and it returns every logged vector, an index
   * of the same length, the next LSN, and the log without its torn tail.
   */
  lemma RecoverGood(env: Env, disk: Disk, h: History)
    requires EnvOk(env) && DiskOk(env, disk, h)
    requires h.pending.Some? ==> |disk.wal| < |L.LogBytes(env.crc, Records(h.vs, h.base))|
                                             + |L.Frame(env.crc, L.Record(|h.vs|, |h.vs|, h.pending.value))|
    ensures Sane(h.snap) && |h.snap.nodes| == h.mark
    ensures Recover(env, disk) == if SnapshotLoads(env, disk, h) && NoNanInWindow(disk, h) then Opened(Restored(env, h))
                                  else Refused
  {
    hide L.Scan, L.Frame, L.LogBytes, LogOk, SnapOk, BookOk, LoadIndex, LoadPq, ReplayAll, SnapshotLoads, LinkUpTo;
    LoadGood(env, disk, h);
    if SnapshotLoads(env, disk, h) {
      ScanGood(env, disk.wal, h);
      ReplayGood(env, disk, h);
      BookGood(env, disk, h, h.vs);
      NextAfterRecords(h.vs, h.base);
    }
  }

  lemma ReplayGood(env: Env, disk: Disk, h: History)
    requires VectorsOk(env, h.vs) && Sane(h.snap) && |h.snap.nodes| == h.mark
    requires h.base <= h.mark <= disk.header <= |h.vs| && disk.header <= |disk.rows|
    requires disk.rows[..disk.header] == h.vs[..disk.header]
    ensures ReplayAll(env, env.cfg, h.mark, Live(disk.rows[..disk.header], h.snap), Records(h.vs, h.base))
            == if NoNanInWindow(disk, h) then Going(Live(h.vs, LinkUpTo(env, h.vs, h.snap, |h.vs|))) else Failed
  {
    hide ReplayAll;
    var live := Live(disk.rows[..disk.header], h.snap);
    assert LiveAt(env, h.vs, disk.header, h.snap, h.mark) == live;
    assert h.vs[..|h.vs|] == h.vs;
    ReplaySkips(env, h.vs, h.mark, live, h.base);
    ReplayTail(env, h.vs, disk.header, h.snap, h.mark);
  }

  /** Replay continues from any graph racing inserts may have left, and leaves such a graph. */
  lemma LinkKeepsIndex(env: Env, rows: seq<Vector>, g: Graph)
    requires EnvOk(env) && IndexOk(env, g, |g.nodes|) && |g.nodes| < |rows|
    ensures IndexOk(env, Link(env, env.cfg, rows, g), |g.nodes| + 1)
  {
    hide St.Clean, Sane, I.Insert;
    var id := |g.nodes|;
    var d := I.Pairwise(env.kernel, rows[..id + 1]);
    St.InsertKeepsLists(env.cfg, d, g, env.levelOf(id), false);
    var r := Link(env, env.cfg, rows, g);
    forall i | 0 <= i < id + 1 ensures |r.nodes[i]| == env.levelOf(i) + 1 {
      if i < id { assert |g.nodes[i]| == env.levelOf(i) + 1; }
    }
  }

  lemma {:induction false} LinkUpToKeepsIndex(env: Env, vs: seq<Vector>, g: Graph, n: nat)
    requires EnvOk(env) && IndexOk(env, g, |g.nodes|) && |g.nodes| <= n <= |vs|
    ensures IndexOk(env, LinkUpTo(env, vs, g, n), n)
    decreases n
  {
    hide Link, EnvOk, IndexOk;
    assert Sane(g) by { IndexIsSane(env, g); }
    if |g.nodes| < n {
      LinkUpToKeepsIndex(env, vs, g, n - 1);
      LinkKeepsIndex(env, vs[..n], LinkUpTo(env, vs, g, n - 1));
    }
  }

  lemma IndexIsSane(env: Env, g: Graph)
    requires IndexOk(env, g, |g.nodes|)
    ensures Sane(g)
  {
  }

  // --- exact recovery -------------------------------------------------------------------------

  ghost function Built(env: Env, vs: seq<Vector>): (g: Graph)
    ensures Sane(g) && |g.nodes| == |vs|
  {
    I.Build(env.cfg, env.kernel, env.levelOf, vs)
  }

  /** Linking on from the graph of a prefix gives the graph of the whole. */
  lemma {:induction false} LinkFromBuilt(env: Env, vs: seq<Vector>, mark: nat, n: nat)
    requires mark <= n <= |vs|
    ensures LinkUpTo(env, vs, Built(env, vs[..mark]), n) == Built(env, vs[..n])
    decreases n
  {
    hide Built, Link;
    if mark < n {
      LinkFromBuilt(env, vs, mark, n - 1);
      BuiltStep(env, vs[..n]);
      assert vs[..n][..n - 1] == vs[..n - 1];
    }
  }

  lemma BuiltStep(env: Env, vs: seq<Vector>)
    requires vs != []
    ensures Built(env, vs) == Link(env, env.cfg, vs, Built(env, vs[..|vs| - 1]))
  {
    assert vs[..|vs|] == vs;
  }
}
