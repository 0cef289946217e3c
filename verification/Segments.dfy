/**
 * Doubling-segment addressing, shared by the vector store and the index's node array: segment `k`
 * holds `BASE << k` slots, so a slot never moves when the array grows.
 */
module Segments {
  import opened Bytes

  const BASE: nat := 1024
  const MAX_SEGMENTS: nat := 40
  const PAGE: nat := 4096

  function Pow2(k: nat): (r: nat)
    ensures r > 0
  {
    if k == 0 then 1 else 2 * Pow2(k - 1)
  }

  /** `ilog2`. */
  function Log2(n: nat): nat
    requires n > 0
  {
    if n == 1 then 0 else 1 + Log2(n / 2)
  }

  function SegRows(seg: nat): nat { BASE * Pow2(seg) }

  function SegStart(seg: nat): nat { BASE * (Pow2(seg) - 1) }

  /** Which segment holds slot `id`, and where in it. */
  function Locate(id: nat): (nat, int) {
    var seg := Log2(id / BASE + 1);
    (seg, id - SegStart(seg))
  }

  lemma {:induction false} Log2Bounds(n: nat)
    requires n > 0
    ensures Pow2(Log2(n)) <= n < 2 * Pow2(Log2(n))
  {
    if n > 1 { Log2Bounds(n / 2); }
  }

  lemma {:induction false} Pow2Monotone(a: nat, b: nat)
    requires a < b
    ensures 2 * Pow2(a) <= Pow2(b)
    decreases b
  {
    if a + 1 < b { Pow2Monotone(a, b - 1); }
  }

  /** Every id has its slot, inside its segment. */
  lemma LocateInside(id: nat)
    ensures var (seg, off) := Locate(id);
            0 <= off < SegRows(seg) && SegStart(seg) + off == id
  {
    Log2Bounds(id / BASE + 1);
  }

  /** And every slot of every segment belongs to exactly one id: `Locate` is a bijection. */
  lemma LocateUnique(seg: nat, off: nat)
    requires off < SegRows(seg)
    ensures Locate(SegStart(seg) + off) == (seg, off)
  {
    var id := SegStart(seg) + off;
    var n := id / BASE + 1;
    assert Pow2(seg) <= n < 2 * Pow2(seg);
    Log2Bounds(n);
    var got := Log2(n);
    if got < seg { Pow2Monotone(got, seg); }
    if got > seg { Pow2Monotone(seg, got); }
  }

  lemma LocateInjective(a: nat, b: nat)
    requires Locate(a) == Locate(b)
    ensures a == b
  {
  }

  /** No intermediate of the `u64` computation overflows, for any id: the shift stays below 64 bits
      and the segment start never exceeds the id. */
  lemma LocateNoOverflow(id: nat)
    requires id < U64_LIMIT
    ensures Log2(id / BASE + 1) <= 54
    ensures Pow2(Log2(id / BASE + 1)) <= 0x40_0000_0000_0000
    ensures SegStart(Locate(id).0) <= id
  {
    var n := id / BASE + 1;
    Log2Bounds(n);
    assert n <= 0x40_0000_0000_0000;
    LocateInside(id);
    if Log2(n) > 54 {
      Pow2Monotone(54, Log2(n));
      BigPow();
    }
  }

  lemma BigPow()
    ensures Pow2(54) == 0x40_0000_0000_0000
  {
    assert Pow2(10) == 1024;
    assert Pow2(20) == 0x10_0000;
    assert Pow2(30) == 0x4000_0000;
    assert Pow2(40) == 0x100_0000_0000;
    assert Pow2(50) == 0x4_0000_0000_0000;
  }

  /** A slot is in one of the first `n` segments exactly when it precedes segment `n`. */
  lemma SegmentsBelow(id: nat, n: nat)
    ensures Locate(id).0 < n <==> id < SegStart(n)
  {
    var (seg, off) := Locate(id);
    LocateInside(id);
    if seg < n {
      Pow2Monotone(seg, n);
    } else if n < seg {
      Pow2Monotone(n, seg);
    }
  }

  // --- byte addresses ------------------------------------------------------------------

  /** Where segment `seg` begins in the file, before the overflow checks. */
  function SegOffset(seg: nat, stride: nat): nat {
    PAGE + SegStart(seg) * stride
  }

  /** `seg_byte_offset` and the length checks of `map_segment`: the whole segment fits in `u64`. */
  predicate SegFits(seg: nat, stride: nat) {
    SegOffset(seg, stride) + SegRows(seg) * stride < U64_LIMIT
  }

  /** How many leading segments, of the first `n`, can exist at all. */
  function Fitting(stride: nat, n: nat): (r: nat)
    ensures r <= n
  {
    if n == 0 then 0
    else
      var before := Fitting(stride, n - 1);
      if before == n - 1 && SegFits(n - 1, stride) then n else before
  }

  /** How many rows a store of this stride can hold. */
  function Capacity(stride: nat): nat {
    SegStart(Fitting(stride, MAX_SEGMENTS))
  }

  lemma {:induction false} FittingCorrect(stride: nat, n: nat)
    ensures forall k | 0 <= k < Fitting(stride, n) :: SegFits(k, stride)
    ensures Fitting(stride, n) < n ==> !SegFits(Fitting(stride, n), stride)
  {
    hide SegFits;
    if n > 0 { FittingCorrect(stride, n - 1); }
  }

  /** A row can be placed exactly when its id is below the capacity. */
  lemma CapacityIsRoom(stride: nat, id: nat)
    ensures id < Capacity(stride)
            <==> Locate(id).0 < MAX_SEGMENTS && forall k | 0 <= k <= Locate(id).0 :: SegFits(k, stride)
  {
    hide SegFits, SegStart;
    var seg := Locate(id).0;
    FittingCorrect(stride, MAX_SEGMENTS);
    SegmentsBelow(id, Fitting(stride, MAX_SEGMENTS));
  }

  /** No store outgrows the 56-bit ids of the packed entry word. */
  lemma CapacityBound(stride: nat)
    ensures Capacity(stride) < 0x100_0000_0000_0000
  {
    var n := Fitting(stride, MAX_SEGMENTS);
    if n < MAX_SEGMENTS { Pow2Monotone(n, MAX_SEGMENTS); }
    assert Pow2(10) == 1024;
    assert Pow2(20) == 0x10_0000;
    assert Pow2(30) == 0x4000_0000;
    assert Pow2(40) == 0x100_0000_0000;
  }

  /** Row `id` lives at `HEADER + id * stride`, wherever its segment is: rows are contiguous. */
  lemma RowAddress(id: nat, stride: nat)
    ensures var (seg, off) := Locate(id);
            off >= 0 && SegOffset(seg, stride) + off * stride == PAGE + id * stride
  {
    hide SegStart, Locate;
    LocateInside(id);
    var (seg, off) := Locate(id);
    Distribute(SegStart(seg), off, stride);
  }

  lemma Distribute(a: int, b: int, c: int)
    ensures a * c + b * c == (a + b) * c
  {
  }

  /** Segments follow one another without gap or overlap. */
  lemma SegmentsContiguous(seg: nat, stride: nat)
    ensures SegOffset(seg, stride) + SegRows(seg) * stride == SegOffset(seg + 1, stride)
  {
    var p := Pow2(seg);
    assert Pow2(seg + 1) == 2 * p;
    assert SegStart(seg + 1) == SegStart(seg) + SegRows(seg);
    Distribute(SegStart(seg), SegRows(seg), stride);
  }

  /** With a stride of whole cache lines every row is 64-byte aligned and every segment page-aligned. */
  lemma Alignment(id: nat, seg: nat, lines: nat)
    ensures (PAGE + id * (64 * lines)) % 64 == 0
    ensures SegOffset(seg, 64 * lines) % PAGE == 0
  {
    hide Pow2;
    var t := id * lines;
    assert id * (64 * lines) == 64 * t;
    Lines(64 + t);
    var p := Pow2(seg) - 1;
    var u := p * lines;
    Regroup(p, lines);
    assert SegOffset(seg, 64 * lines) == PAGE * (1 + 16 * u);
    Pages(1 + 16 * u);
  }

  lemma Regroup(p: nat, lines: nat)
    ensures (BASE * p) * (64 * lines) == 65536 * (p * lines)
  {
  }

  lemma Lines(k: nat)
    ensures (64 * k) % 64 == 0
  {
  }

  lemma Pages(k: nat)
    ensures (PAGE * k) % PAGE == 0
  {
  }
}
