/** Product quantization: encoding, decoding and asymmetric distance, in exact arithmetic. */
module Pq {
  import opened Common
  import opened Kernels

  /** Centroids per subspace; a code is one number below this per subspace. */
  const K: nat := 256

  /** `m` codebooks of `K` centroids of `subDim` numbers, in one flat buffer, subspace-major. */
  datatype Quantizer = Quantizer(dim: nat, m: nat, subDim: nat, centroids: Vec) {
    ghost predicate Valid() {
      m > 0 && subDim > 0 && dim == m * subDim && |centroids| == m * K * subDim
    }

    /** `centroid(sub, k)`. */
    function Centroid(sub: nat, k: nat): (c: Vec)
      requires Valid() && sub < m && k < K
      ensures |c| == subDim
    {
      CentroidInside(sub, k);
      var off := (sub * K + k) * subDim;
      centroids[off..off + subDim]
    }

    lemma CentroidInside(sub: nat, k: nat)
      requires Valid() && sub < m && k < K
      ensures 0 <= (sub * K + k) * subDim && (sub * K + k) * subDim + subDim <= |centroids|
    {
      SlotInside(sub * K + k, m * K, subDim);
    }

    /** Slot `i` of `n` slots of width `w` lies inside the buffer. */
    static lemma SlotInside(i: nat, n: nat, w: nat)
      requires i < n
      ensures 0 <= i * w && i * w + w <= n * w
    {
      assert i * w + w == (i + 1) * w;
      assert (i + 1) * w <= n * w;
    }

    /** Subspace `sub` of a vector. */
    function Slice(v: Vec, sub: nat): (x: Vec)
      requires Valid() && |v| == dim && sub < m
      ensures |x| == subDim
    {
      SliceInside(sub);
      v[sub * subDim..sub * subDim + subDim]
    }

    lemma SliceInside(sub: nat)
      requires Valid() && sub < m
      ensures 0 <= sub * subDim && sub * subDim + subDim <= dim
    {
      SlotInside(sub, m, subDim);
    }

    ghost predicate IsCode(code: seq<nat>) {
      |code| == m && forall i | 0 <= i < m :: code[i] < K
    }

    /** Squared distance from a subvector to centroid `k` of its subspace. */
    ghost function SubDistance(v: Vec, sub: nat, k: nat): real
      requires Valid() && |v| == dim && sub < m && k < K
    {
      L2(Slice(v, sub), Centroid(sub, k))
    }

    /** The same, number by number in the flat buffer of centroids. */
    ghost function FlatDistance(v: Vec, sub: nat, k: nat): real
      requires Valid() && |v| == dim && sub < m && k < 256
    {
      SliceInside(sub);
      CentroidInside(sub, k);
      Gap(v, sub * subDim, centroids, (sub * 256 + k) * subDim, subDim)
    }

    lemma SubDistanceIsFlat(v: Vec, sub: nat, k: nat)
      requires Valid() && |v| == dim && sub < m && k < K
      ensures SubDistance(v, sub, k) == FlatDistance(v, sub, k)
    {
      hide L2, Gap;
      SliceInside(sub);
      CentroidInside(sub, k);
      L2IsGap(v, sub * subDim, centroids, (sub * K + k) * subDim, subDim);
    }

    /** `code` picks, in every subspace, the first of the nearest centroids. */
    ghost predicate PicksNearest(v: Vec, code: seq<nat>)
      requires Valid() && |v| == dim
    {
      && |code| == m
      && forall sub | 0 <= sub < m ::
           && code[sub] < 256
           && (forall k | 0 <= k < 256 :: FlatDistance(v, sub, code[sub]) <= FlatDistance(v, sub, k))
           && (forall k | 0 <= k < code[sub] :: FlatDistance(v, sub, code[sub]) < FlatDistance(v, sub, k))
    }

    lemma SubDistanceIs(v: Vec, sub: nat, k: nat)
      requires Valid() && |v| == dim && sub < m && k < K
      ensures SubDistance(v, sub, k) == L2(Slice(v, sub), Centroid(sub, k))
    {
    }

    /** The nearest of the first `n` centroids, the earliest one on ties. */
    ghost function Nearest(v: Vec, sub: nat, n: nat): (k: nat)
      requires Valid() && |v| == dim && sub < m && 0 < n <= K
      ensures k < n
    {
      if n == 1 then 0
      else
        var best := Nearest(v, sub, n - 1);
        if SubDistance(v, sub, n - 1) < SubDistance(v, sub, best) then n - 1 else best
    }

    lemma {:induction false} NearestIsLeast(v: Vec, sub: nat, n: nat)
      requires Valid() && |v| == dim && sub < m && 0 < n <= K
      ensures forall k | 0 <= k < n :: SubDistance(v, sub, Nearest(v, sub, n)) <= SubDistance(v, sub, k)
      ensures forall k | 0 <= k < Nearest(v, sub, n) :: SubDistance(v, sub, Nearest(v, sub, n)) < SubDistance(v, sub, k)
    {
      hide SubDistance;
      if n > 1 { NearestIsLeast(v, sub, n - 1); }
    }

    /** The code of a vector. */
    ghost function Code(v: Vec): (c: seq<nat>)
      requires Valid() && |v| == dim
      ensures IsCode(c)
    {
      seq(m, sub requires 0 <= sub < m => Nearest(v, sub, K))
    }

    lemma CodePicksNearest(v: Vec)
      requires Valid() && |v| == dim
      ensures PicksNearest(v, Code(v))
    {
      hide Nearest, SubDistance, FlatDistance;
      var c := Code(v);
      forall sub | 0 <= sub < m
        ensures c[sub] < 256
        ensures forall k | 0 <= k < 256 :: FlatDistance(v, sub, c[sub]) <= FlatDistance(v, sub, k)
        ensures forall k | 0 <= k < c[sub] :: FlatDistance(v, sub, c[sub]) < FlatDistance(v, sub, k)
      {
        NearestIsLeast(v, sub, K);
        forall k | 0 <= k < K ensures SubDistance(v, sub, k) == FlatDistance(v, sub, k) {
          SubDistanceIsFlat(v, sub, k);
        }
      }
    }

    /** `encode`: write the code into `out`. */
    method Encode(v: Vec, out: array<nat>)
      requires Valid() && |v| == dim && out.Length == m
      modifies out
      ensures out[..] == Code(v) && PicksNearest(v, out[..])
    {
      hide PicksNearest;
      CodePicksNearest(v);
      for sub := 0 to m
        invariant forall s | 0 <= s < sub :: out[s] == Nearest(v, s, K)
      {
        var best := NearestTo(v, sub);
        out[sub] := best;
      }
    }

    /** The inner loop of `encode`. */
    method NearestTo(v: Vec, sub: nat) returns (best: nat)
      requires Valid() && |v| == dim && sub < m
      ensures best == Nearest(v, sub, K)
    {
      hide L2;
      var x := Slice(v, sub);
      best := 0;
      var bestD: Option<real> := None;
      for k := 0 to K
        invariant k == 0 ==> bestD.None?
        invariant k > 0 ==> bestD.Some? && best == Nearest(v, sub, k) && bestD.value == SubDistance(v, sub, best)
      {
        var d := ScalarL2(x, Centroid(sub, k));
        if bestD.None? || d < bestD.value {
          best, bestD := k, Some(d);
        }
      }
    }

    /** The first `n` subspaces of the vector a code stands for. */
    ghost function DecodePrefix(code: seq<nat>, n: nat): (v: Vec)
      requires Valid() && IsCode(code) && n <= m
      ensures |v| == n * subDim
    {
      if n == 0 then [] else
        assert n * subDim == (n - 1) * subDim + subDim;
        DecodePrefix(code, n - 1) + Centroid(n - 1, code[n - 1])
    }

    /** Subspace `sub` of `v` is a copy of centroid `k` in the flat buffer. */
    ghost predicate Copies(v: Vec, sub: nat, k: nat)
      requires Valid()
    {
      && (sub + 1) * subDim <= |v| && (sub * 256 + k + 1) * subDim <= |centroids|
      && forall p | sub * subDim <= p < sub * subDim + subDim ::
           v[p] == centroids[(sub * 256 + k) * subDim + (p - sub * subDim)]
    }

    lemma {:induction false} DecodeCopies(code: seq<nat>, n: nat)
      requires Valid() && IsCode(code) && n <= m
      ensures forall sub | 0 <= sub < n :: Copies(DecodePrefix(code, n), sub, code[sub])
    {
      hide Copies, Centroid;
      if n > 0 {
        DecodeCopies(code, n - 1);
        var v, c := DecodePrefix(code, n - 1), Centroid(n - 1, code[n - 1]);
        forall sub | 0 <= sub < n ensures Copies(v + c, sub, code[sub]) {
          if sub < n - 1 { CopiesLonger(v, c, sub, code[sub]); } else { CopiesLast(v, sub, code[sub]); }
        }
      }
    }

    lemma CopiesLonger(v: Vec, c: Vec, sub: nat, k: nat)
      requires Valid() && Copies(v, sub, k)
      ensures Copies(v + c, sub, k)
    {
      assert (sub + 1) * subDim == sub * subDim + subDim;
      assert (sub * 256 + k + 1) * subDim == (sub * 256 + k) * subDim + subDim;
    }

    lemma CopiesLast(v: Vec, sub: nat, k: nat)
      requires Valid() && sub < m && k < K && |v| == sub * subDim
      ensures Copies(v + Centroid(sub, k), sub, k)
    {
      CentroidInside(sub, k);
      assert (sub + 1) * subDim == sub * subDim + subDim;
      assert (sub * 256 + k + 1) * subDim == (sub * 256 + k) * subDim + subDim;
    }

    /** `decode`. */
    method Decode(code: seq<nat>) returns (v: Vec)
      requires Valid() && IsCode(code)
      ensures v == DecodePrefix(code, m) && |v| == dim
      ensures forall sub | 0 <= sub < m :: Copies(v, sub, code[sub])
    {
      hide Copies;
      DecodeCopies(code, m);
      v := [];
      for sub := 0 to m
        invariant v == DecodePrefix(code, sub)
      {
        v := v + Centroid(sub, code[sub]);
      }
    }

    /** The table an ADC query uses: entry `sub * K + k` is the distance to centroid `k` of `sub`. */
    ghost predicate IsTable(query: Vec, table: Vec) {
      && Valid() && |query| == dim && |table| == m * K
      && forall sub, k | 0 <= sub < m && 0 <= k < K ::
           TableIndex(sub, k) < |table| && table[TableIndex(sub, k)] == SubDistance(query, sub, k)
    }

    static function TableIndex(sub: nat, k: nat): nat { sub * K + k }

    /** `adc_table`. */
    method AdcTable(query: Vec) returns (table: Vec)
      requires Valid() && |query| == dim
      ensures IsTable(query, table)
      ensures |table| == m * 256 && forall sub, k | 0 <= sub < m && 0 <= k < 256 ::
                sub * 256 + k < m * 256 && table[sub * 256 + k] == FlatDistance(query, sub, k)
    {
      hide SubDistance, FlatDistance;
      forall sub, k | 0 <= sub < m && 0 <= k < 256 ensures SubDistance(query, sub, k) == FlatDistance(query, sub, k) {
        SubDistanceIsFlat(query, sub, k);
      }
      table := seq(m * K, _ => 0.0);
      for sub := 0 to m
        invariant |table| == m * K
        invariant forall s, k | 0 <= s < sub && 0 <= k < K :: table[TableIndex(s, k)] == SubDistance(query, s, k)
      {
        var q := Slice(query, sub);
        for k := 0 to K
          invariant |table| == m * K
          invariant forall s, j | 0 <= s < sub && 0 <= j < K :: table[TableIndex(s, j)] == SubDistance(query, s, j)
          invariant forall j | 0 <= j < k :: table[TableIndex(sub, j)] == SubDistance(query, sub, j)
        {
          var d := ScalarL2(q, Centroid(sub, k));
          assert d == SubDistance(query, sub, k) by { SubDistanceIs(query, sub, k); }
          table := table[TableIndex(sub, k) := d];
        }
      }
    }

    /** The sum of the table entries a code selects, over its first `n` subspaces. */
    static ghost function Lookups(table: Vec, code: seq<nat>, n: nat): real
      requires n <= |code| && |table| == |code| * K
      requires forall i | 0 <= i < |code| :: code[i] < K
    {
      if n == 0 then 0.0 else Lookups(table, code, n - 1) + table[(n - 1) * 256 + code[n - 1]]
    }

    /** `adc_distance`: four accumulators, then a tail. */
    static method AdcDistance(table: Vec, code: seq<nat>) returns (sum: real)
      requires |table| == |code| * K && forall i | 0 <= i < |code| :: code[i] < K
      ensures sum == Lookups(table, code, |code|)
    {
      var m := |code|;
      var acc := [0.0, 0.0, 0.0, 0.0];
      var sub := 0;
      while sub + 4 <= m
        invariant sub <= m && |acc| == 4
        invariant acc[0] + acc[1] + acc[2] + acc[3] == Lookups(table, code, sub)
      {
        FourLookups(table, code, sub);
        acc := acc[0 := acc[0] + table[TableIndex(sub, code[sub])]];
        acc := acc[1 := acc[1] + table[TableIndex(sub + 1, code[sub + 1])]];
        acc := acc[2 := acc[2] + table[TableIndex(sub + 2, code[sub + 2])]];
        acc := acc[3 := acc[3] + table[TableIndex(sub + 3, code[sub + 3])]];
        sub := sub + 4;
      }
      sum := (acc[0] + acc[1]) + (acc[2] + acc[3]);
      while sub < m
        invariant sub <= m && sum == Lookups(table, code, sub)
      {
        sum := sum + table[TableIndex(sub, code[sub])];
        sub := sub + 1;
      }
    }

    static lemma FourLookups(table: Vec, code: seq<nat>, n: nat)
      requires n + 4 <= |code| && |table| == |code| * K && forall i | 0 <= i < |code| :: code[i] < K
      ensures Lookups(table, code, n + 4)
              == Lookups(table, code, n) + table[TableIndex(n, code[n])] + table[TableIndex(n + 1, code[n + 1])]
                 + table[TableIndex(n + 2, code[n + 2])] + table[TableIndex(n + 3, code[n + 3])]
    {
      assert Lookups(table, code, n + 1) == Lookups(table, code, n) + table[TableIndex(n, code[n])];
      assert Lookups(table, code, n + 2) == Lookups(table, code, n + 1) + table[TableIndex(n + 1, code[n + 1])];
      assert Lookups(table, code, n + 3) == Lookups(table, code, n + 2) + table[TableIndex(n + 2, code[n + 2])];
    }

    // --- squared L2 decomposes over subspaces ------------------------------------------

    /** The sum over one stretch depends only on that stretch. */
    static lemma {:induction false} SumShift(a: Vec, b: Vec, lo: nat, hi: nat, c: Vec, d: Vec)
      requires lo <= hi <= |a| && |a| == |b| && |c| == |d| == hi - lo
      requires c == a[lo..hi] && d == b[lo..hi]
      ensures SumProducts(a, b, lo, hi) == Dot(c, d)
      decreases hi - lo
    {
      if lo < hi {
        var k := hi - lo - 1;
        SumShift(a, b, lo, hi - 1, c[..k], d[..k]);
        SumShift(c, d, 0, k, c[..k], d[..k]);
        assert c[k] == a[hi - 1] && d[k] == b[hi - 1];
      }
    }

    static lemma L2Concat(a: Vec, b: Vec, x: Vec, y: Vec)
      requires |a| == |b| && |x| == |y|
      ensures L2(a + x, b + y) == L2(a, b) + L2(x, y)
    {
      hide SumProducts;
      var s, t := Minus(a, b), Minus(x, y);
      var u := Minus(a + x, b + y);
      assert u == s + t;
      SumSplit(u, u, 0, |s|, |u|);
      assert u[0..|s|] == s && u[|s|..|u|] == t;
      SumShift(u, u, 0, |s|, s, s);
      SumShift(u, u, |s|, |u|, t, t);
    }

    lemma {:induction false} PrefixDistance(query: Vec, table: Vec, code: seq<nat>, n: nat)
      requires Valid() && |query| == dim && |table| == m * K
      requires IsTable(query, table) && IsCode(code) && n <= m
      ensures 0 <= n * subDim <= dim
      ensures Lookups(table, code, n) == L2(query[..n * subDim], DecodePrefix(code, n))
      decreases n
    {
      hide L2, SubDistance, IsTable, Centroid;
      if n == 0 {
        EmptyL2(query[..0], DecodePrefix(code, 0));
      } else {
        var p, q := (n - 1) * subDim, n * subDim;
        PrefixDistance(query, table, code, n - 1);
        SliceInside(n - 1);
        assert q == p + subDim;
        assert query[..q] == query[..p] + Slice(query, n - 1);
        L2Concat(query[..p], DecodePrefix(code, n - 1), Slice(query, n - 1), Centroid(n - 1, code[n - 1]));
        TableEntry(query, table, n - 1, code[n - 1]);
      }
    }

    lemma TableEntry(query: Vec, table: Vec, sub: nat, k: nat)
      requires Valid() && |query| == dim && |table| == m * K
      requires IsTable(query, table) && sub < m && k < K
      ensures TableIndex(sub, k) < |table|
      ensures table[TableIndex(sub, k)] == L2(Slice(query, sub), Centroid(sub, k))
    {
      hide L2;
      assert table[TableIndex(sub, k)] == SubDistance(query, sub, k);
    }

    static lemma EmptyL2(a: Vec, b: Vec)
      requires |a| == |b| == 0
      ensures L2(a, b) == 0.0
    {
    }

    /** ADC is exact: the table distance of a code is the distance to the vector the code decodes to. */
    lemma AdcIsExact(query: Vec, table: Vec, code: seq<nat>)
      requires IsTable(query, table) && IsCode(code)
      ensures Lookups(table, code, m) == L2(query, DecodePrefix(code, m)) == FlatSum(query, code, m)
    {
      LookupsAreFlat(query, table, code, m);
      PrefixDistance(query, table, code, m);
      assert query[..m * subDim] == query;
    }

    /** The squared distance to a code, read off the flat buffer, over its first `n` subspaces. */
    ghost function FlatSum(v: Vec, code: seq<nat>, n: nat): real
      requires Valid() && |v| == dim && IsCode(code) && n <= m
    {
      if n == 0 then 0.0 else FlatSum(v, code, n - 1) + FlatDistance(v, n - 1, code[n - 1])
    }

    lemma {:induction false} LookupsAreFlat(query: Vec, table: Vec, code: seq<nat>, n: nat)
      requires Valid() && IsCode(code) && n <= m && |query| == dim && |table| == m * K && IsTable(query, table)
      ensures Lookups(table, code, n) == FlatSum(query, code, n)
    {
      hide SubDistance, FlatDistance;
      if n > 0 {
        LookupsAreFlat(query, table, code, n - 1);
        SubDistanceIsFlat(query, n - 1, code[n - 1]);
        assert table[TableIndex(n - 1, code[n - 1])] == SubDistance(query, n - 1, code[n - 1]);
      }
    }

    /** The distance to a decoded code is the sum over its subspaces of the distances to their centroids. */
    lemma DecodedIsFlat(v: Vec, code: seq<nat>)
      requires Valid() && |v| == dim && IsCode(code)
      ensures L2(v, DecodePrefix(code, m)) == FlatSum(v, code, m)
    {
      hide L2, SubDistance, FlatDistance, IsTable;
      var table := HasTable(v);
      AdcIsExact(v, table, code);
    }

    lemma {:induction false} FewerLookups(table: Vec, a: seq<nat>, b: seq<nat>, n: nat)
      requires IsCode(a) && IsCode(b) && n <= m && |table| == m * K
      requires forall i | 0 <= i < m :: table[TableIndex(i, a[i])] <= table[TableIndex(i, b[i])]
      ensures Lookups(table, a, n) <= Lookups(table, b, n)
      decreases n
    {
      if n > 0 { FewerLookups(table, a, b, n - 1); }
    }

    /** The table `adc_table` would build. */
    lemma HasTable(v: Vec) returns (table: Vec)
      requires Valid() && |v| == dim
      ensures IsTable(v, table)
    {
      hide SubDistance;
      table := seq(m * K, i requires 0 <= i < m * K => SubDistance(v, i / K, i % K));
      forall sub, k | 0 <= sub < m && 0 <= k < K
        ensures TableIndex(sub, k) < |table| && table[TableIndex(sub, k)] == SubDistance(v, sub, k)
      {
        assert (sub * K + k) / K == sub && (sub * K + k) % K == k;
      }
    }

    /** Encoding is globally optimal: no code decodes to anything closer to `v`. */
    lemma EncodeIsOptimal(v: Vec, code: seq<nat>)
      requires Valid() && |v| == dim && IsCode(code)
      ensures L2(v, DecodePrefix(Code(v), m)) <= L2(v, DecodePrefix(code, m))
      ensures FlatSum(v, Code(v), m) <= FlatSum(v, code, m)
    {
      hide SubDistance, L2, Nearest, FlatDistance;
      DecodedIsFlat(v, code);
      DecodedIsFlat(v, Code(v));
      var table := HasTable(v);
      var best := Code(v);
      AdcIsExact(v, table, code);
      AdcIsExact(v, table, best);
      forall i | 0 <= i < m ensures table[TableIndex(i, best[i])] <= table[TableIndex(i, code[i])] {
        NearestIsLeast(v, i, K);
      }
      FewerLookups(table, best, code, m);
    }
  }
}
