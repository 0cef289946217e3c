/**
 * The write-ahead log: record framing, the recovery scan, and the `Wal` object.
 *
 * A frame is `[len u32][crc u32][payload]`, the payload `[lsn u64][op u8][id u64][dim u32][f32...]`.
 * The checksum is a parameter everywhere: nothing below depends on what it computes.
 */
module Log {
  import opened Common
  import opened Bytes

  type Crc = seq<Byte> -> Word

  /** A logged insert together with its sequence number. */
  datatype Record = Record(lsn: nat, id: nat, vector: seq<Word>)

  const OP_INSERT: Byte := 1

  /** What every record written by `append` satisfies: each field fits its width. */
  predicate Encodable(r: Record) {
    r.lsn < U64_LIMIT && r.id < U64_LIMIT && 21 + 4 * |r.vector| < U32_LIMIT
  }

  function WordBytes(v: seq<Word>): (b: seq<Byte>)
    ensures |b| == 4 * |v|
  {
    if v == [] then [] else WordBytes(v[..|v| - 1]) + Le(v[|v| - 1], 4)
  }

  function BytesToWords(b: seq<Byte>): (v: seq<Word>)
    requires |b| % 4 == 0
    ensures |v| == |b| / 4
  {
    if b == [] then [] else BytesToWords(b[..|b| - 4]) + [FromLe4(b[|b| - 4..])]
  }

  function Payload(r: Record): seq<Byte> {
    Le(r.lsn, 8) + [OP_INSERT] + Le(r.id, 8) + Le(|r.vector|, 4) + WordBytes(r.vector)
  }

  function Frame(crc: Crc, r: Record): (f: seq<Byte>)
    ensures |f| == 29 + 4 * |r.vector|
  {
    var p := Payload(r);
    Le(|p|, 4) + Le(crc(p), 4) + p
  }

  function LogBytes(crc: Crc, rs: seq<Record>): seq<Byte> {
    if rs == [] then [] else Frame(crc, rs[0]) + LogBytes(crc, rs[1..])
  }

  /** One step of the recovery walk (`Step` and `Stop`). */
  datatype Step = Parsed(consumed: nat, record: Record) | Eof | Torn | Damaged

  /** Decode a payload whose checksum already matched; `None` is a damaged one. */
  function ParsePayload(p: seq<Byte>): Option<Record>
    requires |p| >= 9
  {
    if p[8] != OP_INSERT || |p| < 21 then None
    else
      var dim := FromLe4(p[17..21]);
      if |p| != 21 + 4 * dim then None
      else Some(Record(FromLe8(p[..8]), FromLe8(p[9..17]), BytesToWords(p[21..])))
  }

  /** `read_record` at the point of the file where `rest` begins. */
  function ParseFrame(crc: Crc, rest: seq<Byte>): (s: Step)
    ensures s.Parsed? ==> 0 < s.consumed <= |rest|
  {
    if rest == [] then Eof
    else if |rest| < 8 then Torn
    else
      var len := FromLe4(rest[..4]);
      if len < 9 then (if |rest| == 8 then Torn else Damaged)
      else if 8 + len > |rest| then Torn
      else
        var p := rest[8..8 + len];
        if crc(p) != FromLe4(rest[4..8]) then Damaged
        else match ParsePayload(p)
          case None => Damaged
          case Some(r) => Parsed(8 + len, r)
  }

  /** What follows the last whole frame is either nothing or a torn frame. */
  predicate Incomplete(crc: Crc, tail: seq<Byte>) {
    ParseFrame(crc, tail).Eof? || ParseFrame(crc, tail).Torn?
  }

  datatype Scanned = Clean(records: seq<Record>, end: nat, nextLsn: nat) | Refused

  /** The recovery walk of `Wal::open` over the rest of the file. */
  function Scan(crc: Crc, rest: seq<Byte>): (s: Scanned)
    ensures s.Clean? ==> s.end <= |rest|
    decreases |rest|
  {
    match ParseFrame(crc, rest)
    case Parsed(consumed, r) =>
      if r.lsn + 1 >= U64_LIMIT then Refused
      else (match Scan(crc, rest[consumed..])
            case Refused => Refused
            case Clean(rs, end, next) => Clean([r] + rs, consumed + end, Max(r.lsn + 1, next)))
    case Eof => Clean([], 0, 0)
    case Torn => Clean([], 0, 0)
    case Damaged => Refused
  }

  /** The least LSN above every record. */
  function NextAfter(rs: seq<Record>): nat {
    if rs == [] then 0 else Max(rs[0].lsn + 1, NextAfter(rs[1..]))
  }

  /** Records `append` can write. */
  predicate Writable(rs: seq<Record>) {
    forall i | 0 <= i < |rs| :: Encodable(rs[i])
  }

  /** No record carries the last LSN of all: the guard of the scan's overflow check. */
  predicate BelowLast(rs: seq<Record>) {
    forall i | 0 <= i < |rs| :: rs[i].lsn + 1 < U64_LIMIT
  }

  predicate Recoverable(rs: seq<Record>) {
    Writable(rs) && BelowLast(rs)
  }

  // --- framing ---------------------------------------------------------------

  lemma {:induction false} WordsRoundTrip(v: seq<Word>)
    ensures BytesToWords(WordBytes(v)) == v
  {
    hide Le, FromLe;
    if v != [] {
      var k := |v| - 1;
      WordsRoundTrip(v[..k]);
      Le4(v[k]);
      assert WordBytes(v)[..4 * k] == WordBytes(v[..k]);
      assert WordBytes(v)[4 * k..] == Le(v[k], 4);
    }
  }

  lemma {:induction false} BytesRoundTrip(b: seq<Byte>)
    requires |b| % 4 == 0
    ensures WordBytes(BytesToWords(b)) == b
  {
    hide Le, FromLe, WordBytes;
    if b == [] {
      NoWords();
    } else {
      var k := |b| - 4;
      BytesRoundTrip(b[..k]);
      LeFromLe(b[k..]);
      WordBytesSnoc(BytesToWords(b[..k]), FromLe4(b[k..]));
      assert b == b[..k] + b[k..];
    }
  }

  lemma NoWords()
    ensures WordBytes([]) == []
  {
  }

  lemma WordBytesSnoc(v: seq<Word>, w: Word)
    ensures WordBytes(v + [w]) == WordBytes(v) + Le(w, 4)
  {
    hide Le;
    assert (v + [w])[..|v|] == v;
  }

  lemma PayloadParses(r: Record)
    requires Encodable(r)
    ensures |Payload(r)| == 21 + 4 * |r.vector|
    ensures ParsePayload(Payload(r)) == Some(r)
  {
    hide Le, FromLe, WordBytes, BytesToWords;
    var p := Payload(r);
    Le8(r.lsn);
    Le8(r.id);
    Le4(|r.vector|);
    WordsRoundTrip(r.vector);
    assert p[..8] == Le(r.lsn, 8);
    assert p[9..17] == Le(r.id, 8);
    assert p[17..21] == Le(|r.vector|, 4);
    assert p[21..] == WordBytes(r.vector);
  }

  lemma ParsedPayload(p: seq<Byte>)
    requires 9 <= |p| < U32_LIMIT && ParsePayload(p).Some?
    ensures Encodable(ParsePayload(p).value) && Payload(ParsePayload(p).value) == p
  {
    hide Le, FromLe, WordBytes, BytesToWords;
    var r := ParsePayload(p).value;
    LeFromLe(p[..8]);
    LeFromLe(p[9..17]);
    LeFromLe(p[17..21]);
    BytesRoundTrip(p[21..]);
    assert p == p[..8] + [p[8]] + p[9..17] + p[17..21] + p[21..];
  }

  /** A whole frame is read back exactly, whatever follows it. */
  lemma FrameParses(crc: Crc, r: Record, more: seq<Byte>)
    requires Encodable(r)
    ensures ParseFrame(crc, Frame(crc, r) + more) == Parsed(|Frame(crc, r)|, r)
  {
    hide Le, FromLe, Payload, ParsePayload;
    var p := Payload(r);
    var rest := Frame(crc, r) + more;
    PayloadParses(r);
    Le4(|p|);
    Le4(crc(p));
    assert rest[..4] == Le(|p|, 4);
    assert rest[4..8] == Le(crc(p), 4);
    assert rest[8..8 + |p|] == p;
  }

  /** The converse: whatever parses is the frame of the record it parsed to. */
  lemma ParsedIsFrame(crc: Crc, rest: seq<Byte>)
    requires ParseFrame(crc, rest).Parsed?
    ensures var s := ParseFrame(crc, rest);
            Encodable(s.record) && rest[..s.consumed] == Frame(crc, s.record)
  {
    hide Le, FromLe, Payload, ParsePayload;
    var len := FromLe4(rest[..4]);
    var p := rest[8..8 + len];
    ParsedPayload(p);
    LeFromLe(rest[..4]);
    LeFromLe(rest[4..8]);
    assert rest[..8 + len] == rest[..4] + rest[4..8] + p;
  }

  /** A frame cut anywhere before its end is taken for a torn one, never for damage. */
  lemma CutFrameIsIncomplete(crc: Crc, r: Record, c: nat)
    requires Encodable(r) && c < |Frame(crc, r)|
    ensures Incomplete(crc, Frame(crc, r)[..c])
  {
    hide Le, FromLe, Payload, ParsePayload;
    var p := Payload(r);
    var cut := Frame(crc, r)[..c];
    if c >= 8 {
      PayloadParses(r);
      Le4(|p|);
      assert cut[..4] == Le(|p|, 4);
    }
  }

  lemma NothingIsIncomplete(crc: Crc)
    ensures Incomplete(crc, [])
  {
  }

  /** The four bytes of `b` at `i` as a number. */
  ghost function U32At(b: seq<Byte>, i: nat): int
    requires i + 4 <= |b|
  {
    Digits(b[i], b[i + 1], b[i + 2], b[i + 3])
  }

  ghost function U64At(b: seq<Byte>, i: nat): int
    requires i + 8 <= |b|
  {
    U32At(b, i) + 0x1_0000_0000 * U32At(b, i + 4)
  }

  lemma U32Field(b: seq<Byte>, i: nat, n: nat)
    requires i + 4 <= |b| && n < U32_LIMIT && b[i..i + 4] == Le(n, 4)
    ensures U32At(b, i) == n
  {
    FourBytes(b[i..i + 4]);
    Le4(n);
  }

  lemma U64Field(b: seq<Byte>, i: nat, n: nat)
    requires i + 8 <= |b| && n < U64_LIMIT && b[i..i + 8] == Le(n, 8)
    ensures U64At(b, i) == n
  {
    EightBytes(b[i..i + 8]);
    Le8(n);
  }

  /** A frame byte by byte: where each field sits, and that it is little-endian. */
  lemma FrameLayout(crc: Crc, r: Record)
    requires Encodable(r)
    ensures var f := Frame(crc, r);
            && |f| == 29 + 4 * |r.vector|
            && U32At(f, 0) == |f| - 8 && U32At(f, 4) == crc(f[8..])
            && U64At(f, 8) == r.lsn && f[16] == 1 && U64At(f, 17) == r.id && U32At(f, 25) == |r.vector|
            && forall i | 0 <= i < |r.vector| :: U32At(f, 29 + 4 * i) == r.vector[i]
  {
    hide Le, WordBytes, U32At;
    var f, p := Frame(crc, r), Payload(r);
    assert f[8..] == p;
    assert f[0..4] == Le(|p|, 4) && f[4..8] == Le(crc(p), 4) && f[8..16] == Le(r.lsn, 8);
    assert f[17..25] == Le(r.id, 8) && f[25..29] == Le(|r.vector|, 4);
    U32Field(f, 0, |p|);
    U32Field(f, 4, crc(p));
    U64Field(f, 8, r.lsn);
    U64Field(f, 17, r.id);
    U32Field(f, 25, |r.vector|);
    forall i | 0 <= i < |r.vector| ensures U32At(f, 29 + 4 * i) == r.vector[i] {
      WordAt(r.vector, i);
      assert f[29 + 4 * i..29 + 4 * i + 4] == WordBytes(r.vector)[4 * i..4 * i + 4];
      U32Field(f, 29 + 4 * i, r.vector[i]);
    }
  }

  lemma {:induction false} WordAt(v: seq<Word>, i: nat)
    requires i < |v|
    ensures WordBytes(v)[4 * i..4 * i + 4] == Le(v[i], 4)
  {
    hide Le;
    if i < |v| - 1 {
      WordAt(v[..|v| - 1], i);
      assert WordBytes(v)[4 * i..4 * i + 4] == WordBytes(v[..|v| - 1])[4 * i..4 * i + 4];
    }
  }

  /**
   * What counts as a torn tail: less than a length and a checksum, or fewer bytes than the length
   * announces. Anything longer is a frame or is damaged.
   */
  lemma IncompleteIs(crc: Crc, tail: seq<Byte>)
    ensures Incomplete(crc, tail) <==>
              |tail| < 8 || (|tail| == 8 && U32At(tail, 0) < 9) || (U32At(tail, 0) >= 9 && 8 + U32At(tail, 0) > |tail|)
  {
    hide FromLe, ParsePayload;
    if |tail| >= 8 {
      FourBytes(tail[..4]);
    }
  }

  /**
   * Damage behind the whole frames of a log is refused: a complete frame whose checksum does not
   * match, or whose payload is not that of a record.
   */
  lemma {:induction false} DamageRefused(crc: Crc, rs: seq<Record>, tail: seq<Byte>)
    requires Writable(rs) && |tail| >= 8 && 8 + U32At(tail, 0) <= |tail|
    requires forall r | Encodable(r) :: !(Frame(crc, r) <= tail)
    requires U32At(tail, 0) >= 9 || |tail| > 8
    ensures Scan(crc, LogBytes(crc, rs) + tail) == Refused
    decreases |rs|
  {
    hide Frame, ParseFrame, LogBytes, U32At;
    if rs == [] {
      LogBytesNothing(crc);
      assert LogBytes(crc, rs) + tail == tail;
      IncompleteIs(crc, tail);
      if ParseFrame(crc, tail).Parsed? { ParsedIsFrame(crc, tail); }
    } else {
      var f := Frame(crc, rs[0]);
      var more := LogBytes(crc, rs[1..]) + tail;
      DamageRefused(crc, rs[1..], tail);
      FrameParses(crc, rs[0], more);
      LogBytesHead(crc, rs);
      assert LogBytes(crc, rs) + tail == f + more;
      assert (f + more)[|f|..] == more;
    }
  }

  // --- the scan ----------------------------------------------------------------

  lemma LogBytesHead(crc: Crc, rs: seq<Record>)
    requires rs != []
    ensures LogBytes(crc, rs) == Frame(crc, rs[0]) + LogBytes(crc, rs[1..])
  {
    hide Frame;
  }

  lemma LogBytesNothing(crc: Crc)
    ensures LogBytes(crc, []) == []
  {
  }

  lemma {:induction false} LogBytesAppend(crc: Crc, a: seq<Record>, b: seq<Record>)
    ensures LogBytes(crc, a + b) == LogBytes(crc, a) + LogBytes(crc, b)
  {
    hide Frame, LogBytes;
    if a == [] {
      LogBytesNothing(crc);
      assert a + b == b;
    } else {
      LogBytesAppend(crc, a[1..], b);
      LogBytesHead(crc, a);
      LogBytesHead(crc, a + b);
      assert (a + b)[1..] == a[1..] + b;
    }
  }

  lemma LogBytesSnoc(crc: Crc, rs: seq<Record>, r: Record)
    ensures LogBytes(crc, rs + [r]) == LogBytes(crc, rs) + Frame(crc, r)
  {
    hide Frame;
    LogBytesAppend(crc, rs, [r]);
    assert LogBytes(crc, [r]) == Frame(crc, r) + LogBytes(crc, [r][1..]);
  }

  /**
   * A log followed by a torn tail scans to exactly its records, if and only if none carries the last
   * LSN; otherwise it is refused.
   */
  lemma {:induction false} ScanLog(crc: Crc, rs: seq<Record>, tail: seq<Byte>)
    requires Writable(rs) && Incomplete(crc, tail)
    ensures Scan(crc, LogBytes(crc, rs) + tail)
            == if BelowLast(rs) then Clean(rs, |LogBytes(crc, rs)|, NextAfter(rs)) else Refused
  {
    hide Frame, ParseFrame;
    if rs == [] {
      assert LogBytes(crc, rs) + tail == tail;
    } else {
      var f := Frame(crc, rs[0]);
      var more := LogBytes(crc, rs[1..]) + tail;
      ScanLog(crc, rs[1..], tail);
      FrameParses(crc, rs[0], more);
      assert LogBytes(crc, rs) + tail == f + more;
      assert (f + more)[|f|..] == more;
      assert [rs[0]] + rs[1..] == rs;
    }
  }

  /**
   * The converse: a file that scans cleanly is a log of recoverable records followed by an
   * incomplete frame, and the scan's end and LSN are those of that log. Together with `ScanLog`:
   * `Wal::open` accepts exactly the files an interrupted writer can leave.
   */
  lemma {:induction false} ScanSound(crc: Crc, file: seq<Byte>)
    requires Scan(crc, file).Clean?
    ensures SoundScan(crc, file, Scan(crc, file))
    decreases |file|
  {
    hide Frame;
    var step := ParseFrame(crc, file);
    if step.Parsed? {
      ScanSound(crc, file[step.consumed..]);
      ParsedIsFrame(crc, file);
      PrependSound(crc, file, step, Scan(crc, file[step.consumed..]));
    } else {
      assert file[0..] == file;
    }
  }

  ghost predicate SoundScan(crc: Crc, file: seq<Byte>, s: Scanned)
    requires s.Clean?
  {
    && s.end <= |file|
    && Recoverable(s.records)
    && file[..s.end] == LogBytes(crc, s.records)
    && Incomplete(crc, file[s.end..])
    && s.nextLsn == NextAfter(s.records)
  }

  lemma PrependSound(crc: Crc, file: seq<Byte>, step: Step, t: Scanned)
    requires step.Parsed? && step.consumed <= |file| && t.Clean?
    requires Encodable(step.record) && step.record.lsn + 1 < U64_LIMIT
    requires file[..step.consumed] == Frame(crc, step.record)
    requires SoundScan(crc, file[step.consumed..], t)
    ensures SoundScan(crc, file, Clean([step.record] + t.records, step.consumed + t.end,
                                       Max(step.record.lsn + 1, t.nextLsn)))
  {
    hide Frame, ParseFrame;
    var rest := file[step.consumed..];
    var rs := [step.record] + t.records;
    assert rs[1..] == t.records;
    assert file[..step.consumed + t.end] == file[..step.consumed] + rest[..t.end];
    assert file[step.consumed + t.end..] == rest[t.end..];
    forall i | 0 <= i < |rs| ensures Encodable(rs[i]) && rs[i].lsn + 1 < U64_LIMIT {
      if i > 0 { assert rs[i] == t.records[i - 1]; }
    }
  }

  /** How many frames lie wholly inside the first `c` bytes of the log. */
  function WholeFrames(crc: Crc, rs: seq<Record>, c: nat): (j: nat)
    ensures j <= |rs|
  {
    if rs == [] || c < |Frame(crc, rs[0])| then 0
    else 1 + WholeFrames(crc, rs[1..], c - |Frame(crc, rs[0])|)
  }

  /** `WholeFrames` is the greatest number of leading records whose bytes fit in the cut. */
  lemma {:induction false} WholeFramesMaximal(crc: Crc, rs: seq<Record>, c: nat)
    ensures var j := WholeFrames(crc, rs, c);
            && |LogBytes(crc, rs[..j])| <= c
            && (j < |rs| ==> c < |LogBytes(crc, rs[..j + 1])|)
  {
    hide Frame;
    var j := WholeFrames(crc, rs, c);
    if rs == [] {
    } else if c < |Frame(crc, rs[0])| {
      assert rs[..1][0] == rs[0];
    } else {
      WholeFramesMaximal(crc, rs[1..], c - |Frame(crc, rs[0])|);
      assert rs[..j][1..] == rs[1..][..j - 1];
      if j < |rs| {
        assert rs[..j + 1][1..] == rs[1..][..j];
      }
    }
  }

  /**
   * Truncation at any byte: the scan returns exactly the records whose frames lie wholly inside
   * the cut, and ends at that frame boundary; it refuses exactly if one of those has the last LSN.
   */
  lemma CutLog(crc: Crc, rs: seq<Record>, c: nat)
    requires Writable(rs) && c <= |LogBytes(crc, rs)|
    ensures var j := WholeFrames(crc, rs, c);
            && |LogBytes(crc, rs[..j])| <= c
            && LogBytes(crc, rs)[..c][..|LogBytes(crc, rs[..j])|] == LogBytes(crc, rs[..j])
            && Scan(crc, LogBytes(crc, rs)[..c])
               == if BelowLast(rs[..j]) then Clean(rs[..j], |LogBytes(crc, rs[..j])|, NextAfter(rs[..j])) else Refused
  {
    hide Frame, ParseFrame, Scan;
    var j := WholeFrames(crc, rs, c);
    var tail := CutTail(crc, rs, c);
    ScanLog(crc, rs[..j], tail);
  }

  /** A log splits at a record boundary; the rest starts with the next frame. */
  lemma SplitLog(crc: Crc, rs: seq<Record>, j: nat)
    requires j <= |rs|
    ensures LogBytes(crc, rs) == LogBytes(crc, rs[..j]) + LogBytes(crc, rs[j..])
  {
    hide LogBytes;
    LogBytesAppend(crc, rs[..j], rs[j..]);
    assert rs[..j] + rs[j..] == rs;
  }

  lemma NextFrame(crc: Crc, rs: seq<Record>, j: nat)
    requires j < |rs|
    ensures LogBytes(crc, rs[..j + 1]) == LogBytes(crc, rs[..j]) + Frame(crc, rs[j])
    ensures LogBytes(crc, rs[j..]) == Frame(crc, rs[j]) + LogBytes(crc, rs[j + 1..])
  {
    hide Frame, LogBytes;
    LogBytesSnoc(crc, rs[..j], rs[j]);
    assert rs[..j] + [rs[j]] == rs[..j + 1];
    LogBytesHead(crc, rs[j..]);
    assert rs[j..][1..] == rs[j + 1..];
  }

  /** A cut log is its whole frames followed by a torn tail. */
  lemma CutTail(crc: Crc, rs: seq<Record>, c: nat) returns (tail: seq<Byte>)
    requires Writable(rs) && c <= |LogBytes(crc, rs)|
    ensures Incomplete(crc, tail)
    ensures LogBytes(crc, rs)[..c] == LogBytes(crc, rs[..WholeFrames(crc, rs, c)]) + tail
  {
    hide Frame, ParseFrame, LogBytes, Writable, WholeFrames, Incomplete;
    var j := WholeFrames(crc, rs, c);
    WholeFramesMaximal(crc, rs, c);
    SplitLog(crc, rs, j);
    var head, more := LogBytes(crc, rs[..j]), LogBytes(crc, rs[j..]);
    tail := more[..c - |head|];
    assert (head + more)[..c] == head + tail;
    if j < |rs| {
      var f := Frame(crc, rs[j]);
      NextFrame(crc, rs, j);
      assert c - |head| < |f|;
      assert (f + LogBytes(crc, rs[j + 1..]))[..c - |head|] == f[..c - |head|];
      EncodableAt(rs, j);
      CutFrameIsIncomplete(crc, rs[j], c - |head|);
    } else {
      assert rs[..j] == rs;
      assert tail == [];
      NothingIsIncomplete(crc);
    }
  }

  lemma EncodableAt(rs: seq<Record>, j: nat)
    requires Writable(rs) && j < |rs|
    ensures Encodable(rs[j])
  {
  }

  lemma {:induction false} NextAfterBounds(rs: seq<Record>)
    ensures forall i | 0 <= i < |rs| :: rs[i].lsn < NextAfter(rs)
    ensures rs == [] || exists i :: 0 <= i < |rs| && NextAfter(rs) == rs[i].lsn + 1
  {
    if rs != [] {
      NextAfterBounds(rs[1..]);
      forall i | 0 <= i < |rs| ensures rs[i].lsn < NextAfter(rs) {
        if i > 0 { assert rs[i] == rs[1..][i - 1]; }
      }
      if NextAfter(rs) == rs[0].lsn + 1 {
      } else {
        var i :| 0 <= i < |rs[1..]| && NextAfter(rs[1..]) == rs[1..][i].lsn + 1;
        assert rs[i + 1] == rs[1..][i];
      }
    }
  }

  /**
   * Reopening a truncated log and appending: the scan of the result is the survivors followed by
   * the new record, whose LSN lies above every survivor; and a second open changes nothing. The two
   * opens fail exactly on the last LSN, among the survivors or on the new record.
   */
  lemma ReopenThenAppend(crc: Crc, rs: seq<Record>, c: nat, r: Record)
    requires Writable(rs) && c <= |LogBytes(crc, rs)| && Encodable(r)
    requires Scan(crc, LogBytes(crc, rs)[..c]).Clean? ==>
               r.lsn == Scan(crc, LogBytes(crc, rs)[..c]).nextLsn
    ensures var first := Scan(crc, LogBytes(crc, rs)[..c]);
            && (first.Clean? <==> BelowLast(rs[..WholeFrames(crc, rs, c)]))
            && (first.Clean? ==>
                  var kept := LogBytes(crc, rs)[..c][..first.end];
                  && Scan(crc, kept) == first
                  && (forall i | 0 <= i < |first.records| :: first.records[i].lsn < r.lsn)
                  && Scan(crc, kept + Frame(crc, r))
                     == if r.lsn + 1 < U64_LIMIT then Clean(first.records + [r], |kept| + |Frame(crc, r)|, r.lsn + 1)
                        else Refused)
  {
    hide Frame, ParseFrame, Scan;
    var survivors := rs[..WholeFrames(crc, rs, c)];
    CutLog(crc, rs, c);
    if BelowLast(survivors) {
      var kept := LogBytes(crc, survivors);
      NothingIsIncomplete(crc);
      ScanLog(crc, survivors, []);
      assert kept + [] == kept;
      LogBytesSnoc(crc, survivors, r);
      assert (survivors + [r])[|survivors|] == r;
      ScanLog(crc, survivors + [r], []);
      assert LogBytes(crc, survivors + [r]) + [] == LogBytes(crc, survivors + [r]);
      NextAfterSnoc(survivors, r);
      NextAfterBounds(survivors);
    }
  }

  /** The whole log, uncut: `open` accepts what `append` wrote exactly when no record has the last LSN. */
  lemma WrittenLogOpens(crc: Crc, rs: seq<Record>)
    requires Writable(rs)
    ensures Scan(crc, LogBytes(crc, rs)).Clean? <==> BelowLast(rs)
  {
    hide Frame, ParseFrame, Scan;
    NothingIsIncomplete(crc);
    ScanLog(crc, rs, []);
    assert LogBytes(crc, rs) + [] == LogBytes(crc, rs);
  }

  lemma {:induction false} NextAfterSnoc(rs: seq<Record>, r: Record)
    ensures NextAfter(rs + [r]) == Max(NextAfter(rs), r.lsn + 1)
  {
    if rs == [] {
      assert ([] + [r])[1..] == [];
    } else {
      NextAfterSnoc(rs[1..], r);
      assert (rs + [r])[1..] == rs[1..] + [r];
    }
  }

  // --- the log object ----------------------------------------------------------

  /** An open file: its contents and the position of the next write. */
  class File {
    var bytes: seq<Byte>
    var pos: nat

    constructor (contents: seq<Byte>)
      ensures bytes == contents && pos == 0
    {
      bytes, pos := contents, 0;
    }

    /** `write_all`; a fault lets only the first `k` bytes through. */
    method WriteAll(data: seq<Byte>, fault: Option<nat>) returns (ok: bool)
      requires pos <= |bytes|
      modifies this
      ensures ok == fault.None?
      ensures var n := if fault.None? then |data| else Min(fault.value, |data|);
              && pos == old(pos) + n
              && bytes == old(bytes[..pos]) + data[..n]
                          + (if pos < |old(bytes)| then old(bytes)[pos..] else [])
    {
      var n := if fault.None? then |data| else Min(fault.value, |data|);
      bytes := bytes[..pos] + data[..n] + (if pos + n < |bytes| then bytes[pos + n..] else []);
      pos := pos + n;
      ok := fault.None?;
    }

    /** `set_len` when it shortens the file. */
    method Truncate(len: nat)
      requires len <= |bytes|
      modifies this`bytes
      ensures bytes == old(bytes)[..len]
    {
      bytes := bytes[..len];
    }

    method Seek(to: nat)
      modifies this`pos
      ensures pos == to
    {
      pos := to;
    }
  }

  /** A sequential reader over bytes already in the file (`BufReader`). */
  class Reader {
    const data: seq<Byte>
    var pos: nat

    constructor (contents: seq<Byte>)
      ensures data == contents && pos == 0
    {
      data, pos := contents, 0;
    }

    predicate Valid() reads this { pos <= |data| }

    /** `read_exact`: all `n` bytes, or a failure that promises nothing about the position. */
    method ReadExact(n: nat) returns (r: Option<seq<Byte>>)
      requires Valid()
      modifies this`pos
      ensures Valid()
      ensures r.Some? <==> old(pos) + n <= |data|
      ensures r.Some? ==> pos == old(pos) + n && r.value == data[old(pos)..pos]
    {
      if pos + n <= |data| {
        r := Some(data[pos..pos + n]);
        pos := pos + n;
      } else {
        pos := |data|;
        r := None;
      }
    }
  }

  /** `read_record`: consume one record from the reader, or explain why not. */
  method ReadRecord(crc: Crc, reader: Reader, fileLen: nat, pos: nat) returns (s: Step)
    requires reader.Valid() && reader.pos == pos && fileLen == |reader.data|
    modifies reader`pos
    ensures reader.Valid()
    ensures s == ParseFrame(crc, reader.data[pos..])
    ensures s.Parsed? ==> reader.pos == pos + s.consumed
  {
    ghost var rest := reader.data[pos..];
    if pos == fileLen { return Eof; }
    if pos + 8 > fileLen { return Torn; }
    var head := reader.ReadExact(8);
    assert head.value == rest[..8];
    var len: int := FromLe4(head.value[0..4]);
    var want := FromLe4(head.value[4..8]);
    assert head.value[0..4] == rest[..4] && head.value[4..8] == rest[4..8];
    if len < 9 { return if pos + 8 == fileLen then Torn else Damaged; }
    if pos + 8 + len > fileLen { return Torn; }
    var body := reader.ReadExact(len);
    var payload := body.value;
    assert payload == rest[8..8 + len];
    if crc(payload) != want { return Damaged; }
    var lsn := FromLe8(payload[..8]);
    if payload[8] != OP_INSERT { return Damaged; }
    if |payload| < 21 { return Damaged; }
    var id := FromLe8(payload[9..17]);
    var dim: int := FromLe4(payload[17..21]);
    if |payload| != 21 + dim * 4 { return Damaged; }
    return Parsed(8 + len, Record(lsn, id, BytesToWords(payload[21..])));
  }

  datatype SyncPolicy = Always | Never

  /** What the environment does to one append: nothing, a short write, or a failed `fdatasync`. */
  datatype Fault = NoFault | WriteFault(accepted: nat) | SyncFault

  /** The log as a value: the file's bytes and the two fields of `Wal`. */
  datatype WalState = WalState(bytes: seq<Byte>, nextLsn: nat, poisoned: bool)

  /** `Wal::append` on values. */
  function AppendRecord(crc: Crc, policy: SyncPolicy, w: WalState, id: nat, v: seq<Word>, fault: Fault)
    : (WalState, Result<nat>)
  {
    if w.poisoned then (w, Err(Corrupt))
    else if 21 + 4 * |v| >= U32_LIMIT then (w, Err(InvalidArgument))
    else
      var frame := Frame(crc, Record(w.nextLsn, id, v));
      match fault
      case WriteFault(k) => (WalState(w.bytes + frame[..Min(k, |frame|)], w.nextLsn, true), Err(Io))
      case SyncFault =>
        if policy.Always? then (WalState(w.bytes + frame, w.nextLsn, true), Err(Io))
        else (WalState(w.bytes + frame, (w.nextLsn + 1) % U64_LIMIT, false), Ok(w.nextLsn))
      case NoFault => (WalState(w.bytes + frame, (w.nextLsn + 1) % U64_LIMIT, false), Ok(w.nextLsn))
  }

  /**
   * One append, case by case: it succeeds exactly if the log is healthy, the record fits and the write
   * and, if asked for, the sync go through; then the file has gained exactly the record's frame.
   * If not, the file has gained at most a beginning of the frame, the LSN is not used up, and the log is
   * poisoned by every failed write or sync and by nothing else.
   */
  lemma AppendIs(crc: Crc, policy: SyncPolicy, w: WalState, id: nat, v: seq<Word>, fault: Fault)
    requires w.nextLsn < 0x1_0000_0000_0000_0000
    ensures var (t, r) := AppendRecord(crc, policy, w, id, v, fault);
            var frame := Frame(crc, Record(w.nextLsn, id, v));
            && (r.Ok? <==> !w.poisoned && 21 + 4 * |v| < 0x1_0000_0000
                           && (fault.NoFault? || (fault.SyncFault? && policy.Never?)))
            && (r.Ok? ==> r.value == w.nextLsn && t.bytes == w.bytes + frame && !t.poisoned
                          && t.nextLsn == if w.nextLsn == 0xFFFF_FFFF_FFFF_FFFF then 0 else w.nextLsn + 1)
            && (r.Err? ==> t.nextLsn == w.nextLsn && w.bytes <= t.bytes <= w.bytes + frame
                           && (t.poisoned <==> w.poisoned || r.error == Io)
                           && (r.error != Io ==> t == w))
  {
    hide Frame;
    var frame := Frame(crc, Record(w.nextLsn, id, v));
    assert frame[..|frame|] == frame;
  }

  /** The input that separates the two: `append` reports success for the last LSN, `open` then refuses. */
  lemma LastLsnIsLost(crc: Crc, id: nat, v: seq<Word>)
    requires id < U64_LIMIT && 21 + 4 * |v| < U32_LIMIT
    ensures var (w, out) := AppendRecord(crc, Always, WalState([], U64_LIMIT - 1, false), id, v, NoFault);
            out == Ok(U64_LIMIT - 1) && Scan(crc, w.bytes) == Refused
  {
    hide Frame, ParseFrame, Scan;
    var r := Record(U64_LIMIT - 1, id, v);
    WrittenLogOpens(crc, [r]);
    LogBytesSnoc(crc, [], r);
    assert [] + [r] == [r];
    assert [r][0] == r;
  }

  /** How far the recovery walk has got: `records` before `end`, and the rest still to come. */
  ghost predicate Walked(crc: Crc, file: seq<Byte>, records: seq<Record>, end: nat, next: nat)
    requires end <= |file|
  {
    var s := Scan(crc, file[end..]);
    if s.Refused? then Scan(crc, file).Refused?
    else Scan(crc, file) == Clean(records + s.records, end + s.end, Max(next, s.nextLsn))
  }

  lemma WalkBegins(crc: Crc, file: seq<Byte>)
    ensures Walked(crc, file, [], 0, 0)
  {
    hide Scan;
    assert file[0..] == file;
  }

  /** One turn of the walk. */
  lemma WalkStep(crc: Crc, file: seq<Byte>, records: seq<Record>, end: nat, next: nat)
    requires end <= |file| && Walked(crc, file, records, end, next)
    ensures var step := ParseFrame(crc, file[end..]);
            match step
            case Parsed(consumed, r) =>
              if r.lsn + 1 >= U64_LIMIT then Scan(crc, file).Refused?
              else end + consumed <= |file|
                   && Walked(crc, file, records + [r], end + consumed, Max(next, r.lsn + 1))
            case Damaged => Scan(crc, file).Refused?
            case Eof => Scan(crc, file) == Clean(records, end, next)
            case Torn => Scan(crc, file) == Clean(records, end, next)
  {
    hide ParseFrame;
    var step := ParseFrame(crc, file[end..]);
    if step.Parsed? {
      assert file[end..][step.consumed..] == file[end + step.consumed..];
      var s := Scan(crc, file[end + step.consumed..]);
      if s.Clean? { assert records + ([step.record] + s.records) == records + [step.record] + s.records; }
    }
  }

  class Wal {
    const crc: Crc
    const policy: SyncPolicy
    const file: File
    var nextLsn: nat
    var poisoned: bool

    constructor (crc: Crc, policy: SyncPolicy, file: File, nextLsn: nat)
      ensures this.crc == crc && this.policy == policy && this.file == file
      ensures this.nextLsn == nextLsn && !poisoned
    {
      this.crc, this.policy, this.file := crc, policy, file;
      this.nextLsn, this.poisoned := nextLsn, false;
    }

    /** While the log is healthy the next write lands at the end of the file. */
    ghost predicate Valid() reads this, file {
      !poisoned ==> file.pos == |file.bytes|
    }

    function View(): WalState reads this, file {
      WalState(file.bytes, nextLsn, poisoned)
    }

    /**
     * `Wal::open`: scan, drop the torn tail, position for appending. A refused file is left
     * exactly as it was found.
     */
    static method Open(crc: Crc, policy: SyncPolicy, file: File)
      returns (r: Result<Wal>, records: seq<Record>)
      modifies file
      ensures r.Ok? <==> Scan(crc, old(file.bytes)).Clean?
      ensures r.Err? ==> file.bytes == old(file.bytes)
      ensures r.Ok? ==>
                var s := Scan(crc, old(file.bytes));
                && fresh(r.value) && r.value.Valid() && r.value.file == file
                && r.value.crc == crc && r.value.policy == policy
                && records == s.records
                && r.value.View() == WalState(old(file.bytes)[..s.end], s.nextLsn, false)
    {
      hide ParseFrame, Scan, Walked;
      records := [];
      var goodEnd: nat, nextLsn: nat := 0, 0;
      var reader := new Reader(file.bytes);
      var len := |file.bytes|;
      WalkBegins(crc, file.bytes);
      while true
        invariant file.bytes == old(file.bytes) && reader.data == file.bytes && fresh(reader)
        invariant reader.Valid() && reader.pos == goodEnd <= |file.bytes|
        invariant Walked(crc, file.bytes, records, goodEnd, nextLsn)
        decreases |file.bytes| - goodEnd
      {
        WalkStep(crc, file.bytes, records, goodEnd, nextLsn);
        var step := ReadRecord(crc, reader, len, goodEnd);
        match step {
          case Parsed(consumed, rec) =>
            goodEnd := goodEnd + consumed;
            if rec.lsn + 1 >= U64_LIMIT {
              return Err(Corrupt), [];
            }
            nextLsn := Max(nextLsn, rec.lsn + 1);
            records := records + [rec];
          case Damaged =>
            return Err(Corrupt), [];
          case Eof => break;
          case Torn => break;
        }
      }
      if |file.bytes| > goodEnd {
        file.Truncate(goodEnd);
      }
      file.Seek(goodEnd);
      var wal := new Wal(crc, policy, file, nextLsn);
      r := Ok(wal);
    }

    method EnsureLsnAtLeast(min: nat)
      requires Valid()
      modifies this`nextLsn
      ensures Valid()
      ensures View() == old(View()).(nextLsn := Max(old(nextLsn), min))
    {
      nextLsn := Max(nextLsn, min);
    }

    method Append(id: nat, vector: seq<Word>, fault: Fault) returns (r: Result<nat>)
      requires Valid()
      modifies this, file
      ensures Valid()
      ensures (View(), r) == AppendRecord(crc, policy, old(View()), id, vector, fault)
    {
      hide Le;
      if poisoned { return Err(Corrupt); }
      var lsn := nextLsn;
      var payload := Le(lsn, 8) + [OP_INSERT] + Le(id, 8);
      if |vector| >= U32_LIMIT { return Err(InvalidArgument); }
      payload := payload + Le(|vector|, 4);
      ghost var head := payload;
      for i := 0 to |vector|
        invariant payload == head + WordBytes(vector[..i])
      {
        assert vector[..i + 1][..i] == vector[..i];
        payload := payload + Le(vector[i], 4);
      }
      assert vector[..|vector|] == vector;
      assert payload == Payload(Record(lsn, id, vector));
      var sum := crc(payload);
      if |payload| >= U32_LIMIT { return Err(InvalidArgument); }
      var frame := Le(|payload|, 4) + Le(sum, 4) + payload;
      assert frame == Frame(crc, Record(lsn, id, vector));
      hide Frame, Payload, WordBytes;
      assert file.bytes[..file.pos] == file.bytes;
      var written := file.WriteAll(frame, if fault.WriteFault? then Some(fault.accepted) else None);
      assert frame[..|frame|] == frame;
      ghost var accepted := if fault.WriteFault? then Min(fault.accepted, |frame|) else |frame|;
      assert file.bytes == old(file.bytes) + frame[..accepted];
      if written && policy.Always? {
        written := !fault.SyncFault?;
      }
      if !written {
        poisoned := true;
        return Err(Io);
      }
      nextLsn := (nextLsn + 1) % U64_LIMIT;
      r := Ok(lsn);
    }

    /** `Wal::reset`; a failure may or may not have emptied the file, and poisons the log. */
    method Reset(fails: bool, emptied: bool) returns (r: Result<()>)
      requires Valid()
      modifies this`poisoned, file
      ensures Valid()
      ensures old(poisoned) ==> View() == old(View()) && r == Err(Corrupt)
      ensures !old(poisoned) && !fails ==> View() == WalState([], nextLsn, false) && r == Ok(())
      ensures !old(poisoned) && fails ==>
                View() == WalState(if emptied then [] else old(file.bytes), nextLsn, true) && r == Err(Io)
    {
      if poisoned { return Err(Corrupt); }
      if fails {
        if emptied { file.Truncate(0); }
        poisoned := true;
        return Err(Io);
      }
      file.Truncate(0);
      file.Seek(0);
      r := Ok(());
    }
  }
}
