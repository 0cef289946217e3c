/**
 * Distance sums: the scalar reference loops and the 32/16/8/1-wide lane loops, in exact arithmetic.
 * A vector register is a sequence of eight numbers.
 */
module Kernels {

  type Vec = seq<real>

  /** `sum over lo <= i < hi of a[i] * b[i]`. */
  ghost function SumProducts(a: Vec, b: Vec, lo: nat, hi: nat): real
    requires lo <= hi <= |a| && |a| == |b|
    decreases hi
  {
    if lo == hi then 0.0 else SumProducts(a, b, lo, hi - 1) + a[hi - 1] * b[hi - 1]
  }

  function Minus(a: Vec, b: Vec): (d: Vec)
    requires |a| == |b|
    ensures |d| == |a| && forall i | 0 <= i < |a| :: d[i] == a[i] - b[i]
  {
    seq(|a|, i requires 0 <= i < |a| => a[i] - b[i])
  }

  ghost function Dot(a: Vec, b: Vec): real
    requires |a| == |b|
  {
    SumProducts(a, b, 0, |a|)
  }

  /** Squared Euclidean distance. */
  ghost function L2(a: Vec, b: Vec): real
    requires |a| == |b|
  {
    Dot(Minus(a, b), Minus(a, b))
  }

  /** The squared distance between two stretches of `n` numbers, one at `i` in `a`, one at `j` in `b`. */
  ghost function Gap(a: Vec, i: nat, b: Vec, j: nat, n: nat): real
    requires i + n <= |a| && j + n <= |b|
  {
    if n == 0 then 0.0
    else Gap(a, i, b, j, n - 1) + (a[i + n - 1] - b[j + n - 1]) * (a[i + n - 1] - b[j + n - 1])
  }

  /** `L2`, read off the flat buffers. */
  lemma L2IsGap(a: Vec, i: nat, b: Vec, j: nat, n: nat)
    requires i + n <= |a| && j + n <= |b|
    ensures L2(a[i..i + n], b[j..j + n]) == Gap(a, i, b, j, n)
  {
    var x, y := a[i..i + n], b[j..j + n];
    GapPrefix(a, i, b, j, x, y, n);
  }

  lemma {:induction false} GapPrefix(a: Vec, i: nat, b: Vec, j: nat, x: Vec, y: Vec, n: nat)
    requires n <= |x| == |y| && i + |x| <= |a| && j + |y| <= |b| && x == a[i..i + |x|] && y == b[j..j + |y|]
    ensures SumProducts(Minus(x, y), Minus(x, y), 0, n) == Gap(a, i, b, j, n)
  {
    if n > 0 {
      GapPrefix(a, i, b, j, x, y, n - 1);
      assert x[n - 1] == a[i + n - 1] && y[n - 1] == b[j + n - 1];
    }
  }

  // --- scalar reference loops -----------------------------------------------------

  method ScalarL2(a: Vec, b: Vec) returns (acc: real)
    requires |a| == |b|
    ensures acc == L2(a, b) == Gap(a, 0, b, 0, |a|)
  {
    L2IsGap(a, 0, b, 0, |a|);
    assert a[0..|a|] == a && b[0..|a|] == b;
    acc := 0.0;
    ghost var m := Minus(a, b);
    for i := 0 to |a|
      invariant acc == SumProducts(m, m, 0, i)
    {
      var d := a[i] - b[i];
      acc := acc + d * d;
    }
  }

  method ScalarDot(a: Vec, b: Vec) returns (acc: real)
    requires |a| == |b|
    ensures acc == Dot(a, b)
  {
    acc := 0.0;
    for i := 0 to |a|
      invariant acc == SumProducts(a, b, 0, i)
    {
      acc := acc + a[i] * b[i];
    }
  }

  /** The three sums of `cosine`. */
  method ScalarCosineSums(a: Vec, b: Vec) returns (ab: real, aa: real, bb: real)
    requires |a| == |b|
    ensures ab == Dot(a, b) && aa == Dot(a, a) && bb == Dot(b, b)
  {
    ab, aa, bb := 0.0, 0.0, 0.0;
    for i := 0 to |a|
      invariant ab == SumProducts(a, b, 0, i)
      invariant aa == SumProducts(a, a, 0, i)
      invariant bb == SumProducts(b, b, 0, i)
    {
      ab := ab + a[i] * b[i];
      aa := aa + a[i] * a[i];
      bb := bb + b[i] * b[i];
    }
  }

  // --- eight lanes ------------------------------------------------------------------

  /** A 256-bit register of eight lanes. */
  type Lanes = v: seq<real> | |v| == 8 witness [0.0, 0.0, 0.0, 0.0, 0.0, 0.0, 0.0, 0.0]

  const ZERO: Lanes := [0.0, 0.0, 0.0, 0.0, 0.0, 0.0, 0.0, 0.0]

  /** An unaligned load; it may not read past the slice. */
  function Load(a: Vec, i: nat): Lanes
    requires i + 8 <= |a|
  {
    a[i..i + 8]
  }

  function Add(x: Lanes, y: Lanes): Lanes { seq(8, i requires 0 <= i < 8 => x[i] + y[i]) }

  function Sub(x: Lanes, y: Lanes): Lanes { seq(8, i requires 0 <= i < 8 => x[i] - y[i]) }

  /** `fmadd`: `x * y + acc`, lane by lane. */
  function Fma(x: Lanes, y: Lanes, acc: Lanes): Lanes { seq(8, i requires 0 <= i < 8 => x[i] * y[i] + acc[i]) }

  /** What a register contributes to the sum. */
  ghost function Total(v: Lanes): real {
    v[0] + v[1] + v[2] + v[3] + v[4] + v[5] + v[6] + v[7]
  }

  /** `hsum256`: halves, then pairs, then the last two. */
  method HSum(v: Lanes) returns (r: real)
    ensures r == Total(v)
  {
    var s: seq<real> := [v[0] + v[4], v[1] + v[5], v[2] + v[6], v[3] + v[7]];
    s := [s[0] + s[2], s[1] + s[3]];
    r := s[0] + s[1];
  }

  lemma TotalAdd(x: Lanes, y: Lanes)
    ensures Total(Add(x, y)) == Total(x) + Total(y)
  {
  }

  /** A fused multiply-add of eight loaded elements adds exactly those eight products. */
  lemma FmaLoad(a: Vec, b: Vec, i: nat, acc: Lanes)
    requires |a| == |b| && i + 8 <= |a|
    ensures Total(Fma(Load(a, i), Load(b, i), acc)) == Total(acc) + SumProducts(a, b, i, i + 8)
  {
    Grow(a, b, i, i);
    Grow(a, b, i, i + 1);
    Grow(a, b, i, i + 2);
    Grow(a, b, i, i + 3);
    Grow(a, b, i, i + 4);
    Grow(a, b, i, i + 5);
    Grow(a, b, i, i + 6);
    Grow(a, b, i, i + 7);
  }

  lemma Grow(a: Vec, b: Vec, lo: nat, hi: nat)
    requires lo <= hi < |a| && |a| == |b|
    ensures SumProducts(a, b, lo, lo) == 0.0
    ensures SumProducts(a, b, lo, hi + 1) == SumProducts(a, b, lo, hi) + a[hi] * b[hi]
  {
  }

  lemma {:induction false} SumSplit(a: Vec, b: Vec, lo: nat, mid: nat, hi: nat)
    requires lo <= mid <= hi <= |a| && |a| == |b|
    ensures SumProducts(a, b, lo, hi) == SumProducts(a, b, lo, mid) + SumProducts(a, b, mid, hi)
    decreases hi
  {
    if mid < hi { SumSplit(a, b, lo, mid, hi - 1); }
  }

  lemma SubLoad(a: Vec, b: Vec, i: nat)
    requires |a| == |b| && i + 8 <= |a|
    ensures Sub(Load(a, i), Load(b, i)) == Load(Minus(a, b), i)
  {
  }

  /** `avx2::dot`: four accumulators over 32 elements, then 8 at a time, then one at a time. */
  method Avx2Dot(a: Vec, b: Vec) returns (sum: real)
    requires |a| == |b|
    ensures sum == Dot(a, b)
  {
    hide SumProducts, Load, Fma, Total;
    var n := |a|;
    var acc0, acc1, acc2, acc3 := ZERO, ZERO, ZERO, ZERO;
    var i := 0;
    Nothing(a, b);
    while i + 32 <= n
      invariant i <= n
      invariant Total(acc0) + Total(acc1) + Total(acc2) + Total(acc3) == SumProducts(a, b, 0, i)
    {
      Block32(a, b, i, acc0, acc1, acc2, acc3);
      acc0 := Fma(Load(a, i), Load(b, i), acc0);
      acc1 := Fma(Load(a, i + 8), Load(b, i + 8), acc1);
      acc2 := Fma(Load(a, i + 16), Load(b, i + 16), acc2);
      acc3 := Fma(Load(a, i + 24), Load(b, i + 24), acc3);
      i := i + 32;
    }
    while i + 8 <= n
      invariant i <= n
      invariant Total(acc0) + Total(acc1) + Total(acc2) + Total(acc3) == SumProducts(a, b, 0, i)
    {
      FmaLoad(a, b, i, acc0);
      SumSplit(a, b, 0, i, i + 8);
      acc0 := Fma(Load(a, i), Load(b, i), acc0);
      i := i + 8;
    }
    sum := Reduce4(acc0, acc1, acc2, acc3);
    sum := Tail(a, b, i, sum);
  }

  /** The four-way reduction. */
  method Reduce4(acc0: Lanes, acc1: Lanes, acc2: Lanes, acc3: Lanes) returns (sum: real)
    ensures sum == Total(acc0) + Total(acc1) + Total(acc2) + Total(acc3)
  {
    hide Total;
    TotalAdd(acc0, acc1);
    TotalAdd(acc2, acc3);
    TotalAdd(Add(acc0, acc1), Add(acc2, acc3));
    sum := HSum(Add(Add(acc0, acc1), Add(acc2, acc3)));
  }

  /** The scalar tail. */
  method Tail(a: Vec, b: Vec, from: nat, start: real) returns (sum: real)
    requires from <= |a| && |a| == |b| && start == SumProducts(a, b, 0, from)
    ensures sum == Dot(a, b)
  {
    sum := start;
    var i := from;
    while i < |a|
      invariant i <= |a| && sum == SumProducts(a, b, 0, i)
    {
      sum := sum + a[i] * b[i];
      i := i + 1;
    }
  }

  lemma Nothing(a: Vec, b: Vec)
    requires |a| == |b|
    ensures SumProducts(a, b, 0, 0) == 0.0 && Total(ZERO) == 0.0
  {
  }

  lemma Block32(a: Vec, b: Vec, i: nat, acc0: Lanes, acc1: Lanes, acc2: Lanes, acc3: Lanes)
    requires |a| == |b| && i + 32 <= |a|
    ensures Total(Fma(Load(a, i), Load(b, i), acc0)) + Total(Fma(Load(a, i + 8), Load(b, i + 8), acc1))
            + Total(Fma(Load(a, i + 16), Load(b, i + 16), acc2)) + Total(Fma(Load(a, i + 24), Load(b, i + 24), acc3))
            == Total(acc0) + Total(acc1) + Total(acc2) + Total(acc3)
               + SumProducts(a, b, 0, i + 32) - SumProducts(a, b, 0, i)
  {
    hide SumProducts, Load, Fma, Total;
    FmaLoad(a, b, i, acc0);
    FmaLoad(a, b, i + 8, acc1);
    FmaLoad(a, b, i + 16, acc2);
    FmaLoad(a, b, i + 24, acc3);
    SumSplit(a, b, 0, i, i + 8);
    SumSplit(a, b, 0, i + 8, i + 16);
    SumSplit(a, b, 0, i + 16, i + 24);
    SumSplit(a, b, 0, i + 24, i + 32);
  }

  /** `avx2::l2_squared`: the same walk over differences. */
  method Avx2L2(a: Vec, b: Vec) returns (sum: real)
    requires |a| == |b|
    ensures sum == L2(a, b)
  {
    hide SumProducts, Load, Fma, Total, Sub;
    var n := |a|;
    ghost var m := Minus(a, b);
    var acc0, acc1, acc2, acc3 := ZERO, ZERO, ZERO, ZERO;
    var i := 0;
    Nothing(m, m);
    while i + 32 <= n
      invariant i <= n
      invariant Total(acc0) + Total(acc1) + Total(acc2) + Total(acc3) == SumProducts(m, m, 0, i)
    {
      SubLoad(a, b, i);
      SubLoad(a, b, i + 8);
      SubLoad(a, b, i + 16);
      SubLoad(a, b, i + 24);
      Block32(m, m, i, acc0, acc1, acc2, acc3);
      var d0 := Sub(Load(a, i), Load(b, i));
      var d1 := Sub(Load(a, i + 8), Load(b, i + 8));
      var d2 := Sub(Load(a, i + 16), Load(b, i + 16));
      var d3 := Sub(Load(a, i + 24), Load(b, i + 24));
      acc0 := Fma(d0, d0, acc0);
      acc1 := Fma(d1, d1, acc1);
      acc2 := Fma(d2, d2, acc2);
      acc3 := Fma(d3, d3, acc3);
      i := i + 32;
    }
    while i + 8 <= n
      invariant i <= n
      invariant Total(acc0) + Total(acc1) + Total(acc2) + Total(acc3) == SumProducts(m, m, 0, i)
    {
      SubLoad(a, b, i);
      FmaLoad(m, m, i, acc0);
      SumSplit(m, m, 0, i, i + 8);
      var d := Sub(Load(a, i), Load(b, i));
      acc0 := Fma(d, d, acc0);
      i := i + 8;
    }
    sum := Reduce4(acc0, acc1, acc2, acc3);
    sum := TailL2(a, b, i, sum);
  }

  method TailL2(a: Vec, b: Vec, from: nat, start: real) returns (sum: real)
    requires from <= |a| && |a| == |b| && start == SumProducts(Minus(a, b), Minus(a, b), 0, from)
    ensures sum == L2(a, b)
  {
    ghost var m := Minus(a, b);
    sum := start;
    var i := from;
    while i < |a|
      invariant i <= |a| && sum == SumProducts(m, m, 0, i)
    {
      var d := a[i] - b[i];
      sum := sum + d * d;
      i := i + 1;
    }
  }

  /** Two accumulators over 16 elements, for one pair of the three sums of `avx2::cosine`. */
  lemma Block16(a: Vec, b: Vec, i: nat, acc0: Lanes, acc1: Lanes)
    requires |a| == |b| && i + 16 <= |a|
    ensures Total(Fma(Load(a, i), Load(b, i), acc0)) + Total(Fma(Load(a, i + 8), Load(b, i + 8), acc1))
            == Total(acc0) + Total(acc1) + SumProducts(a, b, 0, i + 16) - SumProducts(a, b, 0, i)
  {
    hide SumProducts, Load, Fma, Total;
    FmaLoad(a, b, i, acc0);
    FmaLoad(a, b, i + 8, acc1);
    SumSplit(a, b, 0, i, i + 8);
    SumSplit(a, b, 0, i + 8, i + 16);
  }

  /** The three sums of `avx2::cosine`, accumulated in one pass. */
  method Avx2CosineSums(a: Vec, b: Vec) returns (ab: real, aa: real, bb: real)
    requires |a| == |b|
    ensures ab == Dot(a, b) && aa == Dot(a, a) && bb == Dot(b, b)
  {
    hide SumProducts, Load, Fma, Total;
    var n := |a|;
    var ab0, aa0, bb0, ab1, aa1, bb1 := ZERO, ZERO, ZERO, ZERO, ZERO, ZERO;
    var i := 0;
    Nothing(a, b);
    Nothing(a, a);
    Nothing(b, b);
    while i + 16 <= n
      invariant i <= n
      invariant Total(ab0) + Total(ab1) == SumProducts(a, b, 0, i)
      invariant Total(aa0) + Total(aa1) == SumProducts(a, a, 0, i)
      invariant Total(bb0) + Total(bb1) == SumProducts(b, b, 0, i)
    {
      Block16(a, b, i, ab0, ab1);
      Block16(a, a, i, aa0, aa1);
      Block16(b, b, i, bb0, bb1);
      var x0, y0, x1, y1 := Load(a, i), Load(b, i), Load(a, i + 8), Load(b, i + 8);
      ab0, aa0, bb0 := Fma(x0, y0, ab0), Fma(x0, x0, aa0), Fma(y0, y0, bb0);
      ab1, aa1, bb1 := Fma(x1, y1, ab1), Fma(x1, x1, aa1), Fma(y1, y1, bb1);
      i := i + 16;
    }
    while i + 8 <= n
      invariant i <= n
      invariant Total(ab0) + Total(ab1) == SumProducts(a, b, 0, i)
      invariant Total(aa0) + Total(aa1) == SumProducts(a, a, 0, i)
      invariant Total(bb0) + Total(bb1) == SumProducts(b, b, 0, i)
    {
      FmaLoad(a, b, i, ab0);
      FmaLoad(a, a, i, aa0);
      FmaLoad(b, b, i, bb0);
      SumSplit(a, b, 0, i, i + 8);
      SumSplit(a, a, 0, i, i + 8);
      SumSplit(b, b, 0, i, i + 8);
      var x, y := Load(a, i), Load(b, i);
      ab0, aa0, bb0 := Fma(x, y, ab0), Fma(x, x, aa0), Fma(y, y, bb0);
      i := i + 8;
    }
    TotalAdd(ab0, ab1);
    TotalAdd(aa0, aa1);
    TotalAdd(bb0, bb1);
    ab := HSum(Add(ab0, ab1));
    aa := HSum(Add(aa0, aa1));
    bb := HSum(Add(bb0, bb1));
    ab := Tail(a, b, i, ab);
    aa := Tail(a, a, i, aa);
    bb := Tail(b, b, i, bb);
  }
}
