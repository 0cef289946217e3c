/**
 * What `open` makes of any disk at all, damaged or not: exactly which disks it accepts, and what the
 * database it returns has to do with the bytes on them.
 */
module Opening {
  import opened Common
  import opened Bytes
  import opened Graph
  import opened Recovery
  import L = Log
  import I = Insertion
  import P = Persist
  import Cb = Codebook

  /** `f32` equality of two stored rows: no NaN, and the two zeros are equal. */
  ghost predicate SameNumbers(a: Vector, b: Vector) {
    && |a| == |b|
    && forall i | 0 <= i < |a| ::
         && a[i] % 0x8000_0000 <= 0x7F80_0000 && b[i] % 0x8000_0000 <= 0x7F80_0000
         && (a[i] == b[i] || (a[i] % 0x8000_0000 == 0 && b[i] % 0x8000_0000 == 0))
  }

  /**
   * The log's records fit `rows`, when the store holds the first `n` of them and the index the first `c`
   * when replay reaches `rs`: from the watermark on no record leaves a gap in either, each one below
   * `n` agrees with the row there, each one at `n` is the next row, and in the end both have `|rows|`.
   */
  ghost predicate Fits(env: Env, from: nat, rows: seq<Vector>, n: nat, c: nat, rs: seq<L.Record>)
    decreases |rs|
  {
    if rs == [] then n == c == |rows|
    else
      var r := rs[0];
      if r.lsn < from then Fits(env, from, rows, n, c, rs[1..])
      else
        && r.id <= n && r.id <= c && r.id < |rows|
        && (if r.id < n then SameNumbers(rows[r.id], r.vector)
            else rows[r.id] == r.vector && |r.vector| == env.dim && r.id < env.capacity)
        && Fits(env, from, rows, if r.id == n then n + 1 else n, if r.id == c then c + 1 else c, rs[1..])
  }

  lemma SliceIsSame(a: Vector, b: Vector)
    ensures SliceEq(a, b) <==> SameNumbers(a, b)
  {
  }

  /** A replay that goes through, and leaves index and store equally long, has met fitting records only. */
  lemma {:induction false} ReplayFits(env: Env, cfg: I.Config, from: nat, live: Live, rs: seq<L.Record>)
    requires ReplayAll(env, cfg, from, live, rs).Going?
    ensures var out := ReplayAll(env, cfg, from, live, rs).live;
            && live.rows <= out.rows && |live.graph.nodes| <= |out.graph.nodes|
            && (|out.graph.nodes| == |out.rows| ==> Fits(env, from, out.rows, |live.rows|, |live.graph.nodes|, rs))
    decreases |rs|
  {
    hide Link, SliceEq, SameNumbers, Sane;
    if rs != [] {
      var r := rs[0];
      var next := ReplayOne(env, cfg, from, live, r).live;
      ReplayFits(env, cfg, from, next, rs[1..]);
      if r.lsn >= from && r.id < |live.rows| { SliceIsSame(live.rows[r.id], r.vector); }
    }
  }

  /** And fitting records replay without refusal or panic, and give those rows. */
  lemma {:induction false} FitsReplays(env: Env, cfg: I.Config, from: nat, live: Live, rs: seq<L.Record>,
                                       rows: seq<Vector>)
    requires Sane(live.graph) && live.rows <= rows
    requires Fits(env, from, rows, |live.rows|, |live.graph.nodes|, rs)
    ensures ReplayAll(env, cfg, from, live, rs).Going?
    ensures var out := ReplayAll(env, cfg, from, live, rs).live; out.rows == rows && |out.graph.nodes| == |rows|
    decreases |rs|
  {
    hide Link, SliceEq, SameNumbers, Sane;
    if rs != [] {
      var r := rs[0];
      if r.lsn >= from && r.id < |live.rows| { SliceIsSame(live.rows[r.id], r.vector); }
      var next := ReplayOne(env, cfg, from, live, r).live;
      FitsReplays(env, cfg, from, next, rs[1..], rows);
    }
  }

  /** Where replay starts: an empty index, or the snapshot, which is a file `save` wrote. */
  ghost predicate StartsFrom(env: Env, disk: Disk, cfg: I.Config, g: Graph, from: nat) {
    match disk.snap
    case None => 2 <= env.cfg.m <= 4096 && cfg == env.cfg && g == Graph([], None) && from == 0
    case Some(b) => exists s: P.Snapshot | b == P.SaveBytes(env.crc, s) && P.Vouched(s) ::
                      cfg == s.cfg && g == P.SnapshotGraph(s) && from == s.lsn
  }

  /** The log on disk is `rs` and then a torn tail: too short for a frame. */
  ghost predicate Logs(env: Env, disk: Disk, rs: seq<L.Record>) {
    && L.Recoverable(rs)
    && var end := |L.LogBytes(env.crc, rs)|;
    && end <= |disk.wal| && disk.wal[..end] == L.LogBytes(env.crc, rs)
    && L.Incomplete(env.crc, disk.wal[end..])
  }

  /** The codebook on disk, if any, is one that was saved for this dimension. */
  ghost predicate Codes(env: Env, disk: Disk, rows: seq<Vector>, pq: Option<PqState>) {
    match disk.book
    case None => pq == None
    case Some(raw) =>
      && pq.Some? && raw == Cb.FileBytes(env.crc, pq.value.book) && Cb.BookOk(pq.value.book)
      && pq.value.book.dim == env.dim && |pq.value.codes| == |rows|
      && forall i | 0 <= i < |rows| :: pq.value.codes[i] == env.encode(pq.value.book, rows[i])
  }

  /** What the database has to do with the disk it was opened from. */
  ghost predicate Explains(env: Env, disk: Disk, db: Database, g: Graph, from: nat, rs: seq<L.Record>) {
    && StartsFrom(env, disk, db.cfg, g, from) && Logs(env, disk, rs)
    && disk.header <= |disk.rows| && disk.rows[..disk.header] <= db.rows
    && Fits(env, from, db.rows, disk.header, |g.nodes|, rs)
    && |db.graph.nodes| == |db.rows|
    && db.wal == L.LogBytes(env.crc, rs)
    && db.nextLsn >= from && (forall i | 0 <= i < |rs| :: rs[i].lsn < db.nextLsn)
    && Codes(env, disk, db.rows, db.pq)
  }

  lemma LoadIndexIs(env: Env, disk: Disk, cfg: I.Config, g: Graph, from: nat)
    ensures LoadIndex(env, disk) == Ok((cfg, g, from)) <==> StartsFrom(env, disk, cfg, g, from)
  {
    hide P.Load, P.SaveBytes, P.Vouched;
    if disk.snap.Some? {
      var b := disk.snap.value;
      if P.Load(env.crc, b).Ok? { P.LoadIff(env.crc, b, P.Load(env.crc, b).value); }
      forall s | b == P.SaveBytes(env.crc, s) && P.Vouched(s) ensures P.Load(env.crc, b) == Ok(s) {
        P.LoadIff(env.crc, b, s);
      }
    }
  }

  lemma LoadPqIs(env: Env, disk: Disk, rows: seq<Vector>, pq: Option<PqState>)
    ensures LoadPq(env, disk, rows) == Ok(pq) <==> Codes(env, disk, rows, pq)
  {
    hide Cb.Load, Cb.FileBytes;
    if disk.book.Some? {
      var raw := disk.book.value;
      if Cb.Load(env.crc, raw).Ok? { Cb.LoadIff(env.crc, raw, Cb.Load(env.crc, raw).value); }
      if Codes(env, disk, rows, pq) {
        Cb.LoadIff(env.crc, raw, pq.value.book);
        assert pq.value.codes == EncodeAll(env, pq.value.book, rows);
      }
    }
  }

  lemma ScanIs(env: Env, disk: Disk, rs: seq<L.Record>)
    requires Logs(env, disk, rs)
    ensures L.Scan(env.crc, disk.wal) == L.Clean(rs, |L.LogBytes(env.crc, rs)|, L.NextAfter(rs))
  {
    hide L.Scan, L.LogBytes, L.Incomplete;
    var end := |L.LogBytes(env.crc, rs)|;
    L.ScanLog(env.crc, rs, disk.wal[end..]);
    assert disk.wal == disk.wal[..end] + disk.wal[end..];
  }

  lemma ScannedLogs(env: Env, disk: Disk)
    requires L.Scan(env.crc, disk.wal).Clean?
    ensures var s := L.Scan(env.crc, disk.wal);
            && Logs(env, disk, s.records) && disk.wal[..s.end] == L.LogBytes(env.crc, s.records)
            && forall i | 0 <= i < |s.records| :: s.records[i].lsn < s.nextLsn
  {
    hide L.Scan, L.LogBytes, L.Incomplete;
    var s := L.Scan(env.crc, disk.wal);
    L.ScanSound(env.crc, disk.wal);
    assert |disk.wal[..s.end]| == s.end;
    L.NextAfterBounds(s.records);
  }

  /**
   * Whatever the disk holds, a database that opens is explained by it: every row the header covers is
   * there, every record from the watermark on is a row or agrees with one, nothing else is, store and
   * index are equally long, and every code is that of its row.
   */
  lemma OpenedIsExplained(env: Env, disk: Disk) returns (g: Graph, from: nat, rs: seq<L.Record>)
    requires Recover(env, disk).Opened?
    ensures Explains(env, disk, Recover(env, disk).db, g, from, rs)
  {
    hide LoadIndex, LoadPq, L.Scan, L.LogBytes, ReplayAll, StartsFrom, Logs, Codes, Fits;
    var db := Recover(env, disk).db;
    var (cfg, g0, from0) := LoadIndex(env, disk).value;
    g, from := g0, from0;
    LoadIndexIs(env, disk, cfg, g, from);
    ScannedLogs(env, disk);
    rs := L.Scan(env.crc, disk.wal).records;
    ReplayFits(env, cfg, from, Live(disk.rows[..disk.header], g), rs);
    LoadPqIs(env, disk, db.rows, db.pq);
  }

  /** And whatever can be so explained, from a graph that can be walked, opens, with exactly those rows. */
  lemma ExplainedOpens(env: Env, disk: Disk, db: Database, g: Graph, from: nat, rs: seq<L.Record>)
    requires Explains(env, disk, db, g, from, rs) && Sane(g)
    ensures Recover(env, disk).Opened?
    ensures var out := Recover(env, disk).db;
            out.rows == db.rows && out.cfg == db.cfg && out.wal == db.wal && out.pq == db.pq
  {
    hide LoadIndex, LoadPq, L.Scan, L.LogBytes, ReplayAll, StartsFrom, Codes, Fits, Sane, L.Incomplete, L.Recoverable;
    LoadIndexIs(env, disk, db.cfg, g, from);
    ScanIs(env, disk, rs);
    FitsReplays(env, db.cfg, from, Live(disk.rows[..disk.header], g), rs, db.rows);
    LoadPqIs(env, disk, db.rows, db.pq);
  }

  /** A row that disagrees with its log record in any number is never opened, NaN or not. */
  lemma DisagreementRefused(env: Env, disk: Disk, cfg: I.Config, g: Graph, from: nat, rs: seq<L.Record>, k: nat)
    requires StartsFrom(env, disk, cfg, g, from) && Logs(env, disk, rs)
    requires k < |rs| && rs[k].lsn >= from && rs[k].id < disk.header <= |disk.rows|
    requires !SameNumbers(disk.rows[rs[k].id], rs[k].vector)
    ensures !Recover(env, disk).Opened?
  {
    hide Recover, SameNumbers, StartsFrom, Logs, Fits;
    if Recover(env, disk).Opened? {
      var g2, from2, rs2 := OpenedIsExplained(env, disk);
      LoadIndexIs(env, disk, cfg, g, from);
      LoadIndexIs(env, disk, Recover(env, disk).db.cfg, g2, from2);
      ScanIs(env, disk, rs);
      ScanIs(env, disk, rs2);
      FitsAt(env, from, Recover(env, disk).db.rows, disk.header, |g.nodes|, rs, k);
    }
  }

  lemma {:induction false} FitsAt(env: Env, from: nat, rows: seq<Vector>, n: nat, c: nat, rs: seq<L.Record>, k: nat)
    requires Fits(env, from, rows, n, c, rs) && k < |rs| && rs[k].lsn >= from && rs[k].id < n <= |rows|
    ensures SameNumbers(rows[rs[k].id], rs[k].vector)
    decreases k
  {
    hide SameNumbers;
    if k > 0 {
      var r := rs[0];
      var n2 := if r.lsn >= from && r.id == n then n + 1 else n;
      var c2 := if r.lsn >= from && r.id == c then c + 1 else c;
      FitsBound(env, from, rows, n2, c2, rs[1..]);
      FitsAt(env, from, rows, n2, c2, rs[1..], k - 1);
    }
  }

  lemma {:induction false} FitsBound(env: Env, from: nat, rows: seq<Vector>, n: nat, c: nat, rs: seq<L.Record>)
    requires Fits(env, from, rows, n, c, rs)
    ensures n <= |rows| && c <= |rows|
    decreases |rs|
  {
    hide SameNumbers;
    if rs != [] {
      var r := rs[0];
      FitsBound(env, from, rows, if r.lsn >= from && r.id == n then n + 1 else n,
                if r.lsn >= from && r.id == c then c + 1 else c, rs[1..]);
    }
  }
}
