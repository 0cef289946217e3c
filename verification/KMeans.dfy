/**
 * Codebook training for one subspace: k-means++ seeding and Lloyd iterations, in exact arithmetic.
 * The flat row-major buffers of the original are sequences of rows here.
 */
module KMeans {
  import opened Common
  import opened Kernels
  import opened Pq

  type Points = seq<Vec>

  ghost predicate Shaped(points: Points, d: nat) {
    forall i | 0 <= i < |points| :: |points[i]| == d
  }

  /** Squared distance to the nearest of the first `n` centroids. */
  ghost function MinDist(x: Vec, centroids: Points, n: nat): real
    requires 0 < n <= |centroids| && Shaped(centroids, |x|)
  {
    var last := L2(x, centroids[n - 1]);
    if n == 1 then last
    else
      var best := MinDist(x, centroids, n - 1);
      if last < best then last else best
  }

  /** Total squared distance of the first `n` points to their nearest centroids. */
  ghost function Distortion(points: Points, centroids: Points, d: nat, n: nat): real
    requires Shaped(points, d) && Shaped(centroids, d) && centroids != [] && n <= |points|
  {
    if n == 0 then 0.0
    else Distortion(points, centroids, d, n - 1) + MinDist(points[n - 1], centroids, |centroids|)
  }

  /** The random source: any draw within the stated range. */
  class Rng {
    constructor () {}

    method Below(n: nat) returns (r: nat)
      requires n > 0
      ensures r < n
    {
      r := 0;
    }

    method RealBelow(total: real) returns (r: real)
      requires total > 0.0
      ensures 0.0 <= r < total
    {
      r := 0.0;
    }
  }

  // --- k-means++ seeding ---------------------------------------------------------------

  ghost function Sum(w: seq<real>, n: nat): real
    requires n <= |w|
  {
    if n == 0 then 0.0 else Sum(w, n - 1) + w[n - 1]
  }

  /** `pick` is where a draw of `drawn` from the total lands among the weights laid end to end. */
  ghost predicate LandsOn(w: seq<real>, drawn: real, pick: nat) {
    && pick < |w| && 0.0 <= drawn < Sum(w, |w|)
    && (forall i | 1 <= i <= pick :: Sum(w, i) < drawn)
    && drawn <= Sum(w, pick + 1)
  }

  /** D^2-weighted pick; if all weights vanish, any point. */
  method PickSeed(d2: seq<real>, rng: Rng) returns (pick: nat, ghost drawn: real)
    requires d2 != []
    ensures pick < |d2|
    ensures Sum(d2, |d2|) > 0.0 ==> LandsOn(d2, drawn, pick)
  {
    var total := 0.0;
    drawn := 0.0;
    for i := 0 to |d2|
      invariant total == Sum(d2, i)
    {
      total := total + d2[i];
    }
    if total <= 0.0 {
      pick := rng.Below(|d2|);
    } else {
      var target := rng.RealBelow(total);
      drawn := target;
      pick := |d2| - 1;
      for i := 0 to |d2|
        invariant target == drawn - Sum(d2, i)
        invariant forall j | 1 <= j <= i :: Sum(d2, j) < drawn
      {
        target := target - d2[i];
        if target <= 0.0 {
          pick := i;
          return;
        }
      }
    }
  }

  lemma MinDistSnoc(x: Vec, centroids: Points, c: Vec)
    requires centroids != [] && Shaped(centroids, |x|) && |c| == |x|
    ensures var more := centroids + [c];
            && Shaped(more, |x|)
            && MinDist(x, more, |more|)
               == if L2(x, c) < MinDist(x, centroids, |centroids|) then L2(x, c)
                  else MinDist(x, centroids, |centroids|)
  {
    hide L2;
    MinDistLocal(x, centroids, centroids + [c], |centroids|);
  }

  lemma {:induction false} MinDistLocal(x: Vec, a: Points, b: Points, n: nat)
    requires 0 < n <= |a| && a <= b && Shaped(a, |x|) && Shaped(b, |x|)
    ensures MinDist(x, a, n) == MinDist(x, b, n)
  {
    hide L2;
    if n > 1 { MinDistLocal(x, a, b, n - 1); }
  }

  /**
   * The next seed after `centroids` is drawn with weight the squared distance to the nearest of them:
   * the running totals of those weights are `Distortion`.
   */
  ghost predicate WeightedPick(points: Points, d: nat, centroids: Points, pick: nat)
    requires Shaped(points, d) && Shaped(centroids, d) && centroids != []
  {
    && pick < |points|
    && (Distortion(points, centroids, d, |points|) > 0.0 ==>
          exists drawn :: DrawLandsOn(points, d, centroids, pick, drawn))
  }

  ghost predicate DrawLandsOn(points: Points, d: nat, centroids: Points, pick: nat, drawn: real)
    requires Shaped(points, d) && Shaped(centroids, d) && centroids != [] && pick < |points|
  {
    && 0.0 <= drawn < Distortion(points, centroids, d, |points|)
    && (forall i | 1 <= i <= pick :: Distortion(points, centroids, d, i) < drawn)
    && drawn <= Distortion(points, centroids, d, pick + 1)
  }

  /** The seeds are data points; each but the first was drawn with weight its distance to those before. */
  ghost predicate Seeded(points: Points, d: nat, centroids: Points, picks: seq<nat>)
    requires Shaped(points, d)
  {
    && |picks| == |centroids| && Shaped(centroids, d)
    && (forall c | 0 <= c < |picks| :: picks[c] < |points| && centroids[c] == points[picks[c]])
    && (forall c | 1 <= c < |picks| :: WeightedPick(points, d, centroids[..c], picks[c]))
  }

  lemma {:induction false} SumIsDistortion(points: Points, d: nat, centroids: Points, d2: seq<real>, n: nat)
    requires Shaped(points, d) && Shaped(centroids, d) && centroids != [] && |d2| == |points| && n <= |points|
    requires forall i | 0 <= i < |points| :: d2[i] == MinDist(points[i], centroids, |centroids|)
    ensures Sum(d2, n) == Distortion(points, centroids, d, n)
  {
    hide MinDist;
    if n > 0 { SumIsDistortion(points, d, centroids, d2, n - 1); }
  }

  lemma LandsWeighted(points: Points, d: nat, centroids: Points, d2: seq<real>, drawn: real, pick: nat)
    requires Shaped(points, d) && Shaped(centroids, d) && centroids != [] && |d2| == |points| && pick < |points|
    requires forall i | 0 <= i < |points| :: d2[i] == MinDist(points[i], centroids, |centroids|)
    requires Sum(d2, |d2|) > 0.0 ==> LandsOn(d2, drawn, pick)
    ensures WeightedPick(points, d, centroids, pick)
  {
    hide MinDist, Distortion, Sum;
    forall n | 0 <= n <= |points| ensures Sum(d2, n) == Distortion(points, centroids, d, n) {
      SumIsDistortion(points, d, centroids, d2, n);
    }
    if Sum(d2, |d2|) > 0.0 { assert DrawLandsOn(points, d, centroids, pick, drawn); }
  }

  lemma SeededNext(points: Points, d: nat, centroids: Points, picks: seq<nat>, pick: nat)
    requires Shaped(points, d) && Seeded(points, d, centroids, picks) && centroids != []
    requires pick < |points| && WeightedPick(points, d, centroids, pick)
    ensures Seeded(points, d, centroids + [points[pick]], picks + [pick])
  {
    hide WeightedPick;
    var more, all := centroids + [points[pick]], picks + [pick];
    forall c | 1 <= c < |all| ensures WeightedPick(points, d, more[..c], all[c]) {
      assert more[..c] == if c < |picks| then centroids[..c] else centroids;
    }
  }

  /**
   * Seeding keeps `d2[i]` equal to the squared distance from point `i` to the nearest centroid
   * chosen so far, and draws data points by those weights.
   */
  method Seed(points: Points, d: nat, rng: Rng) returns (centroids: Points, d2: seq<real>, ghost picks: seq<nat>)
    requires points != [] && Shaped(points, d)
    ensures |centroids| == 256 && Seeded(points, d, centroids, picks)
    ensures |d2| == |points|
    ensures forall i | 0 <= i < |points| :: d2[i] == MinDist(points[i], centroids, |centroids|)
  {
    hide L2, Seeded, WeightedPick;
    var first := rng.Below(|points|);
    centroids := [points[first]];
    picks := [first];
    d2 := [];
    FirstSeed(points, d, first);
    for i := 0 to |points|
      invariant |d2| == i
      invariant forall j | 0 <= j < i :: d2[j] == MinDist(points[j], centroids, 1)
    {
      var dd := ScalarL2(points[i], points[first]);
      d2 := d2 + [dd];
    }
    for c := 1 to K
      invariant |centroids| == c && Shaped(centroids, d) && Seeded(points, d, centroids, picks)
      invariant |d2| == |points| && forall i | 0 <= i < |points| :: d2[i] == MinDist(points[i], centroids, |centroids|)
    {
      centroids, d2, picks := NextSeed(points, d, rng, centroids, d2, picks);
    }
  }

  lemma FirstSeed(points: Points, d: nat, first: nat)
    requires Shaped(points, d) && first < |points|
    ensures Seeded(points, d, [points[first]], [first])
  {
  }

  /** Draw one more seed and tighten the distances. */
  method NextSeed(points: Points, d: nat, rng: Rng, seeds: Points, was: seq<real>, ghost before: seq<nat>)
    returns (centroids: Points, d2: seq<real>, ghost picks: seq<nat>)
    requires points != [] && Shaped(points, d) && Seeded(points, d, seeds, before) && seeds != [] && Shaped(seeds, d)
    requires |was| == |points| && forall i | 0 <= i < |points| :: was[i] == MinDist(points[i], seeds, |seeds|)
    ensures |centroids| == |seeds| + 1 && Shaped(centroids, d) && Seeded(points, d, centroids, picks)
    ensures |d2| == |points| && forall i | 0 <= i < |points| :: d2[i] == MinDist(points[i], centroids, |centroids|)
  {
    hide L2, MinDist, Seeded, WeightedPick, LandsOn, Sum;
    var pick, drawn := PickSeed(was, rng);
    LandsWeighted(points, d, seeds, was, drawn, pick);
    SeededNext(points, d, seeds, before, pick);
    d2 := Tighten(points, d, seeds, points[pick], was);
    centroids := seeds + [points[pick]];
    picks := before + [pick];
  }

  /** The inner update: every point looks at the new centroid only. */
  method Tighten(points: Points, d: nat, centroids: Points, newC: Vec, d2: seq<real>) returns (r: seq<real>)
    requires Shaped(points, d) && Shaped(centroids, d) && centroids != [] && |newC| == d
    requires |d2| == |points|
    requires forall i | 0 <= i < |points| :: d2[i] == MinDist(points[i], centroids, |centroids|)
    ensures |r| == |points| && Shaped(centroids + [newC], d)
    ensures forall i | 0 <= i < |points| :: r[i] == MinDist(points[i], centroids + [newC], |centroids| + 1)
  {
    hide L2, MinDist;
    r := d2;
    for i := 0 to |points|
      invariant |r| == |points|
      invariant forall j | i <= j < |points| :: r[j] == d2[j]
      invariant forall j | 0 <= j < i :: r[j] == MinDist(points[j], centroids + [newC], |centroids| + 1)
    {
      MinDistSnoc(points[i], centroids, newC);
      var dd := ScalarL2(points[i], newC);
      if dd < r[i] {
        r := r[i := dd];
      }
    }
  }

  // --- one Lloyd iteration ----------------------------------------------------------------

  ghost predicate Assigns(points: Points, centroids: Points, d: nat, assign: seq<nat>) {
    && Shaped(points, d) && Shaped(centroids, d) && |assign| == |points|
    && forall i | 0 <= i < |assign| :: assign[i] < |centroids|
  }

  /** `best` is the first of the centroids nearest to `x`. */
  ghost predicate FirstNearest(x: Vec, centroids: Points, best: nat)
    requires Shaped(centroids, |x|)
  {
    && best < |centroids|
    && (forall k | 0 <= k < |centroids| :: L2(x, centroids[best]) <= L2(x, centroids[k]))
    && (forall k | 0 <= k < best :: L2(x, centroids[best]) < L2(x, centroids[k]))
  }

  /** The nearest centroid of one point. */
  method Closest(x: Vec, centroids: Points) returns (best: nat)
    requires centroids != [] && Shaped(centroids, |x|)
    ensures FirstNearest(x, centroids, best)
    ensures L2(x, centroids[best]) == MinDist(x, centroids, |centroids|)
  {
    hide L2;
    best := 0;
    var bestD: Option<real> := None;
    for k := 0 to |centroids|
      invariant k == 0 ==> bestD.None? && best == 0
      invariant k > 0 ==> best < k && bestD == Some(MinDist(x, centroids, k)) && bestD.value == L2(x, centroids[best])
      invariant forall i | 0 <= i < k :: L2(x, centroids[best]) <= L2(x, centroids[i])
      invariant forall i | 0 <= i < best :: L2(x, centroids[best]) < L2(x, centroids[i])
    {
      var dd := ScalarL2(x, centroids[k]);
      if bestD.None? || dd < bestD.value {
        best, bestD := k, Some(dd);
      }
    }
  }

  /** Number of the first `n` points assigned to cluster `k`. */
  ghost function Count(assign: seq<nat>, k: nat, n: nat): nat
    requires n <= |assign|
  {
    if n == 0 then 0 else Count(assign, k, n - 1) + if assign[n - 1] == k then 1 else 0
  }

  /** Sum of coordinate `j` over the first `n` points assigned to cluster `k`. */
  ghost function CoordSum(points: Points, assign: seq<nat>, k: nat, j: nat, n: nat): real
    requires |assign| == |points| && n <= |points| && forall i | 0 <= i < |points| :: j < |points[i]|
  {
    if n == 0 then 0.0
    else CoordSum(points, assign, k, j, n - 1) + if assign[n - 1] == k then points[n - 1][j] else 0.0
  }

  /** The accumulation loop: per-cluster sums and counts. */
  method Accumulate(points: Points, d: nat, clusters: nat, assign: seq<nat>) returns (sums: Points, counts: seq<nat>)
    requires Shaped(points, d) && |assign| == |points|
    requires forall i | 0 <= i < |assign| :: assign[i] < clusters
    ensures |sums| == |counts| == clusters && Shaped(sums, d)
    ensures forall k | 0 <= k < clusters :: counts[k] == Count(assign, k, |points|)
    ensures forall k, j | 0 <= k < clusters && 0 <= j < d :: sums[k][j] == CoordSum(points, assign, k, j, |points|)
  {
    sums := seq(clusters, _ => seq(d, _ => 0.0));
    counts := seq(clusters, _ => 0);
    for i := 0 to |points|
      invariant |sums| == |counts| == clusters && Shaped(sums, d)
      invariant forall k | 0 <= k < clusters :: counts[k] == Count(assign, k, i)
      invariant forall k, j | 0 <= k < clusters && 0 <= j < d :: sums[k][j] == CoordSum(points, assign, k, j, i)
    {
      var k := assign[i];
      counts := counts[k := counts[k] + 1];
      var sum := sums[k];
      for j := 0 to d
        invariant |sum| == d
        invariant forall c | 0 <= c < j :: sum[c] == sums[k][c] + points[i][c]
        invariant forall c | j <= c < d :: sum[c] == sums[k][c]
      {
        sum := sum[j := sum[j] + points[i][j]];
      }
      sums := sums[k := sum];
    }
  }

  ghost predicate Recentered(points: Points, d: nat, assign: seq<nat>, k: nat, c: Vec) {
    && |c| == d && |assign| == |points| && Shaped(points, d)
    && (Count(assign, k, |points|) > 0 ==>
          forall j | 0 <= j < d :: c[j] * Count(assign, k, |points|) as real == CoordSum(points, assign, k, j, |points|))
  }

  /** What becomes of cluster `k`: the mean of its points or, if it has none, some data point. */
  ghost predicate Updated(points: Points, d: nat, assign: seq<nat>, k: nat, c: Vec) {
    Recentered(points, d, assign, k, c) && (Count(assign, k, |points|) == 0 ==> c in points)
  }

  /** The centroid update: means, and a random respawn for an empty cluster. */
  method Recenter(points: Points, d: nat, assign: seq<nat>, sums: Points, counts: seq<nat>, rng: Rng)
    returns (centroids: Points)
    requires points != [] && Shaped(points, d) && |assign| == |points|
    requires |sums| == |counts| && Shaped(sums, d)
    requires forall k | 0 <= k < |counts| :: counts[k] == Count(assign, k, |points|)
    requires forall k, j | 0 <= k < |counts| && 0 <= j < d :: sums[k][j] == CoordSum(points, assign, k, j, |points|)
    ensures |centroids| == |counts| && Shaped(centroids, d)
    ensures forall k | 0 <= k < |counts| :: Updated(points, d, assign, k, centroids[k])
  {
    centroids := [];
    for k := 0 to |counts|
      invariant |centroids| == k && Shaped(centroids, d)
      invariant forall i | 0 <= i < k :: Updated(points, d, assign, i, centroids[i])
    {
      if counts[k] == 0 {
        var p := rng.Below(|points|);
        centroids := centroids + [points[p]];
      } else {
        var c: Vec := [];
        for j := 0 to d
          invariant |c| == j
          invariant forall i | 0 <= i < j :: c[i] * counts[k] as real == CoordSum(points, assign, k, i, |points|)
        {
          var mean := sums[k][j] / (counts[k] as real);
          DivideBack(sums[k][j], counts[k] as real);
          c := c + [mean];
        }
        centroids := centroids + [c];
      }
    }
  }

  lemma DivideBack(s: real, n: real)
    requires n != 0.0
    ensures (s / n) * n == s
  {
  }

  // --- why an iteration never hurts ---------------------------------------------------------

  /** Squared error of coordinate `j` over the first `n` points of cluster `k`, measured from `y`. */
  ghost function CoordCost(points: Points, assign: seq<nat>, k: nat, j: nat, y: real, n: nat): real
    requires |assign| == |points| && n <= |points| && forall i | 0 <= i < |points| :: j < |points[i]|
  {
    if n == 0 then 0.0
    else CoordCost(points, assign, k, j, y, n - 1)
         + if assign[n - 1] == k then Square(points[n - 1][j] - y) else 0.0
  }

  function Square(x: real): real { x * x }

  ghost function CoordSquares(points: Points, assign: seq<nat>, k: nat, j: nat, n: nat): real
    requires |assign| == |points| && n <= |points| && forall i | 0 <= i < |points| :: j < |points[i]|
  {
    if n == 0 then 0.0
    else CoordSquares(points, assign, k, j, n - 1) + if assign[n - 1] == k then Square(points[n - 1][j]) else 0.0
  }

  function Parabola(q: real, s: real, n: real, y: real): real {
    q - 2.0 * y * s + n * (y * y)
  }

  lemma ParabolaStep(q: real, s: real, n: real, y: real, p: real)
    ensures Parabola(q + Square(p), s + p, n + 1.0, y) == Parabola(q, s, n, y) + Square(p - y)
  {
    assert Square(p - y) == p * p - 2.0 * y * p + y * y;
    assert 2.0 * y * (s + p) == 2.0 * y * s + 2.0 * y * p;
  }

  lemma {:induction false} CostIsParabola(points: Points, assign: seq<nat>, k: nat, j: nat, y: real, n: nat)
    requires |assign| == |points| && n <= |points| && forall i | 0 <= i < |points| :: j < |points[i]|
    ensures CoordCost(points, assign, k, j, y, n)
            == Parabola(CoordSquares(points, assign, k, j, n), CoordSum(points, assign, k, j, n),
                        Count(assign, k, n) as real, y)
  {
    hide Parabola, Square;
    if n == 0 {
      ParabolaZero(y);
    } else {
      CostIsParabola(points, assign, k, j, y, n - 1);
      ParabolaStep(CoordSquares(points, assign, k, j, n - 1), CoordSum(points, assign, k, j, n - 1),
                   Count(assign, k, n - 1) as real, y, points[n - 1][j]);
    }
  }

  lemma ParabolaZero(y: real)
    ensures Parabola(0.0, 0.0, 0.0, y) == 0.0
  {
  }

  /** The mean is the vertex: completing the square. */
  lemma Vertex(q: real, s: real, n: real, mean: real, y: real)
    requires n > 0.0 && mean * n == s
    ensures Parabola(q, s, n, mean) <= Parabola(q, s, n, y)
  {
    var e := y - mean;
    assert y == mean + e;
    assert y * s == mean * s + e * s;
    assert y * y == mean * mean + 2.0 * (mean * e) + e * e;
    assert n * (mean * e) == s * e by { assert (mean * n) * e == s * e; Reassociate(n, mean, e); }
    assert n * (y * y) == n * (mean * mean) + 2.0 * (n * (mean * e)) + n * (e * e);
    NonNegative(n, e);
  }

  lemma Reassociate(a: real, b: real, c: real)
    ensures (b * a) * c == a * (b * c)
  {
  }

  lemma NonNegative(n: real, e: real)
    requires n > 0.0
    ensures n * (e * e) >= 0.0
  {
    assert e * e >= 0.0;
  }

  lemma {:induction false} EmptyCostsNothing(points: Points, assign: seq<nat>, k: nat, j: nat, y: real, n: nat)
    requires |assign| == |points| && n <= |points| && forall i | 0 <= i < |points| :: j < |points[i]|
    requires Count(assign, k, n) == 0
    ensures CoordCost(points, assign, k, j, y, n) == 0.0
  {
    if n > 0 { EmptyCostsNothing(points, assign, k, j, y, n - 1); }
  }

  lemma CoordImproves(points: Points, d: nat, assign: seq<nat>, k: nat, j: nat, c: Vec, y: real)
    requires Recentered(points, d, assign, k, c) && j < d
    ensures CoordCost(points, assign, k, j, c[j], |points|) <= CoordCost(points, assign, k, j, y, |points|)
  {
    hide CoordCost, CoordSum, CoordSquares, Count, Parabola;
    var n := |points|;
    if Count(assign, k, n) == 0 {
      EmptyCostsNothing(points, assign, k, j, c[j], n);
      EmptyCostsNothing(points, assign, k, j, y, n);
    } else {
      CostIsParabola(points, assign, k, j, c[j], n);
      CostIsParabola(points, assign, k, j, y, n);
      Vertex(CoordSquares(points, assign, k, j, n), CoordSum(points, assign, k, j, n),
             Count(assign, k, n) as real, c[j], y);
    }
  }

  /** Cost of cluster `k` over its first `jj` coordinates. */
  ghost function ClusterCost(points: Points, d: nat, assign: seq<nat>, k: nat, c: Vec, n: nat, jj: nat): real
    requires Shaped(points, d) && |assign| == |points| && n <= |points| && |c| == d && jj <= d
  {
    if jj == 0 then 0.0
    else ClusterCost(points, d, assign, k, c, n, jj - 1) + CoordCost(points, assign, k, jj - 1, c[jj - 1], n)
  }

  lemma {:induction false} ClusterImproves(points: Points, d: nat, assign: seq<nat>, k: nat, c: Vec, was: Vec, jj: nat)
    requires Recentered(points, d, assign, k, c) && |was| == d && jj <= d
    ensures ClusterCost(points, d, assign, k, c, |points|, jj) <= ClusterCost(points, d, assign, k, was, |points|, jj)
  {
    hide CoordCost, Recentered;
    if jj > 0 {
      assert |c| == d && |assign| == |points| && Shaped(points, d) by { RecenteredShape(points, d, assign, k, c); }
      ClusterImproves(points, d, assign, k, c, was, jj - 1);
      CoordImproves(points, d, assign, k, jj - 1, c, was[jj - 1]);
    }
  }

  lemma RecenteredShape(points: Points, d: nat, assign: seq<nat>, k: nat, c: Vec)
    requires Recentered(points, d, assign, k, c)
    ensures |c| == d && |assign| == |points| && Shaped(points, d)
  {
  }

  /** Adding one point adds its squared distance to its own cluster's cost and nothing elsewhere. */
  lemma {:induction false} ClusterStep(points: Points, d: nat, assign: seq<nat>, k: nat, c: Vec, n: nat, jj: nat)
    requires Shaped(points, d) && |assign| == |points| && 0 < n <= |points| && |c| == d && jj <= d
    ensures var m := Minus(points[n - 1], c);
            ClusterCost(points, d, assign, k, c, n, jj)
            == ClusterCost(points, d, assign, k, c, n - 1, jj)
               + if assign[n - 1] == k then SumProducts(m, m, 0, jj) else 0.0
  {
    if jj > 0 {
      var p, j := points[n - 1], jj - 1;
      var m := Minus(p, c);
      ClusterStep(points, d, assign, k, c, n, j);
      assert m[j] * m[j] == Square(p[j] - c[j]);
      assert CoordCost(points, assign, k, j, c[j], n)
          == CoordCost(points, assign, k, j, c[j], n - 1) + if assign[n - 1] == k then Square(p[j] - c[j]) else 0.0;
    }
  }

  /** Sum of the costs of the first `kk` clusters. */
  ghost function ClustersCost(points: Points, d: nat, assign: seq<nat>, centroids: Points, n: nat, kk: nat): real
    requires Assigns(points, centroids, d, assign) && n <= |points| && kk <= |centroids|
  {
    if kk == 0 then 0.0
    else ClustersCost(points, d, assign, centroids, n, kk - 1)
         + ClusterCost(points, d, assign, kk - 1, centroids[kk - 1], n, d)
  }

  lemma {:induction false} ClustersStep(points: Points, d: nat, assign: seq<nat>, centroids: Points, n: nat, kk: nat)
    requires Assigns(points, centroids, d, assign) && 0 < n <= |points| && kk <= |centroids|
    ensures ClustersCost(points, d, assign, centroids, n, kk)
            == ClustersCost(points, d, assign, centroids, n - 1, kk)
               + if assign[n - 1] < kk then L2(points[n - 1], centroids[assign[n - 1]]) else 0.0
  {
    hide ClusterCost, SumProducts;
    if kk > 0 {
      ClustersStep(points, d, assign, centroids, n, kk - 1);
      ClusterStep(points, d, assign, kk - 1, centroids[kk - 1], n, d);
    }
  }

  /** Every point measured from the centroid it is assigned to. */
  ghost function AssignedCost(points: Points, d: nat, assign: seq<nat>, centroids: Points, n: nat): real
    requires Assigns(points, centroids, d, assign) && n <= |points|
  {
    if n == 0 then 0.0
    else AssignedCost(points, d, assign, centroids, n - 1) + L2(points[n - 1], centroids[assign[n - 1]])
  }

  /** Summing by point and summing by cluster give the same total. */
  lemma {:induction false} Exchange(points: Points, d: nat, assign: seq<nat>, centroids: Points, n: nat)
    requires Assigns(points, centroids, d, assign) && n <= |points|
    ensures AssignedCost(points, d, assign, centroids, n)
            == ClustersCost(points, d, assign, centroids, n, |centroids|)
  {
    hide L2;
    if n == 0 {
      NoCost(points, d, assign, centroids, |centroids|);
    } else {
      Exchange(points, d, assign, centroids, n - 1);
      ClustersStep(points, d, assign, centroids, n, |centroids|);
    }
  }

  lemma {:induction false} NoCost(points: Points, d: nat, assign: seq<nat>, centroids: Points, kk: nat)
    requires Assigns(points, centroids, d, assign) && kk <= |centroids|
    ensures ClustersCost(points, d, assign, centroids, 0, kk) == 0.0
  {
    hide ClusterCost;
    if kk > 0 {
      NoCost(points, d, assign, centroids, kk - 1);
      NoClusterCost(points, d, assign, kk - 1, centroids[kk - 1], d);
    }
  }

  lemma {:induction false} NoClusterCost(points: Points, d: nat, assign: seq<nat>, k: nat, c: Vec, jj: nat)
    requires Shaped(points, d) && |assign| == |points| && |c| == d && jj <= d
    ensures ClusterCost(points, d, assign, k, c, 0, jj) == 0.0
  {
    if jj > 0 { NoClusterCost(points, d, assign, k, c, jj - 1); }
  }

  lemma {:induction false} ClustersImprove(points: Points, d: nat, assign: seq<nat>, before: Points, after: Points, kk: nat)
    requires Assigns(points, before, d, assign) && Assigns(points, after, d, assign)
    requires |before| == |after| && kk <= |after|
    requires forall k | 0 <= k < |after| :: Recentered(points, d, assign, k, after[k])
    ensures ClustersCost(points, d, assign, after, |points|, kk) <= ClustersCost(points, d, assign, before, |points|, kk)
  {
    hide ClusterCost, Recentered;
    if kk > 0 {
      ClustersImprove(points, d, assign, before, after, kk - 1);
      ClusterImproves(points, d, assign, kk - 1, after[kk - 1], before[kk - 1], d);
    }
  }

  /** The nearest centroid is no farther than the assigned one. */
  lemma {:induction false} DistortionBelow(points: Points, d: nat, assign: seq<nat>, centroids: Points, n: nat)
    requires Assigns(points, centroids, d, assign) && n <= |points| && centroids != []
    ensures Distortion(points, centroids, d, n) <= AssignedCost(points, d, assign, centroids, n)
  {
    hide L2, MinDist;
    if n > 0 {
      DistortionBelow(points, d, assign, centroids, n - 1);
      MinDistIsLeast(points[n - 1], centroids, |centroids|, assign[n - 1]);
    }
  }

  lemma {:induction false} MinDistIsLeast(x: Vec, centroids: Points, n: nat, k: nat)
    requires k < n <= |centroids| && Shaped(centroids, |x|)
    ensures MinDist(x, centroids, n) <= L2(x, centroids[k])
  {
    hide L2;
    if k < n - 1 { MinDistIsLeast(x, centroids, n - 1, k); }
  }

  lemma {:induction false} DistortionAssigned(points: Points, d: nat, assign: seq<nat>, centroids: Points, n: nat)
    requires Assigns(points, centroids, d, assign) && n <= |points| && centroids != []
    requires forall i | 0 <= i < n :: L2(points[i], centroids[assign[i]]) == MinDist(points[i], centroids, |centroids|)
    ensures Distortion(points, centroids, d, n) == AssignedCost(points, d, assign, centroids, n)
  {
    hide L2, MinDist;
    if n > 0 { DistortionAssigned(points, d, assign, centroids, n - 1); }
  }

  /** Assigning to the nearest and moving to the means never raises the distortion. */
  lemma LloydImproves(points: Points, d: nat, assign: seq<nat>, before: Points, after: Points)
    requires Assigns(points, before, d, assign) && Assigns(points, after, d, assign)
    requires |before| == |after| > 0
    requires forall i | 0 <= i < |points| :: L2(points[i], before[assign[i]]) == MinDist(points[i], before, |before|)
    requires forall k | 0 <= k < |after| :: Recentered(points, d, assign, k, after[k])
    ensures Distortion(points, after, d, |points|) <= Distortion(points, before, d, |points|)
  {
    hide L2, MinDist, Recentered, Assigns;
    var n := |points|;
    DistortionAssigned(points, d, assign, before, n) by { AssignsShape(points, before, d, assign); }
    DistortionBelow(points, d, assign, after, n) by { AssignsShape(points, after, d, assign); }
    Exchange(points, d, assign, before, n);
    Exchange(points, d, assign, after, n);
    ClustersImprove(points, d, assign, before, after, |after|);
  }

  lemma AssignsShape(points: Points, centroids: Points, d: nat, assign: seq<nat>)
    requires Assigns(points, centroids, d, assign)
    ensures Shaped(points, d) && Shaped(centroids, d) && |assign| == |points|
  {
  }

  /**
   * One iteration, in full: for the assignment of every point to the first of its nearest centroids,
   * each cluster's centroid moves to the mean of its points, or to some data point if it has none.
   */
  ghost predicate Successor(points: Points, d: nat, before: Points, after: Points)
    requires Shaped(points, d) && Shaped(before, d)
  {
    && |after| == |before| && Shaped(after, d)
    && exists assign: seq<nat> | |assign| == |points| ::
         && (forall i | 0 <= i < |points| :: FirstNearest(points[i], before, assign[i]))
         && (forall k | 0 <= k < |after| :: Updated(points, d, assign, k, after[k]))
  }

  /** One iteration of the Lloyd loop, respawning empty clusters: distortion never goes up. */
  method Lloyd(points: Points, d: nat, centroids: Points, rng: Rng) returns (next: Points)
    requires points != [] && Shaped(points, d) && Shaped(centroids, d) && centroids != []
    ensures Successor(points, d, centroids, next)
    ensures Distortion(points, next, d, |points|) <= Distortion(points, centroids, d, |points|)
  {
    hide L2, MinDist, Distortion, FirstNearest, Recentered, Count, CoordSum;
    var assign: seq<nat> := [];
    for i := 0 to |points|
      invariant |assign| == i && forall j | 0 <= j < i :: assign[j] < |centroids|
      invariant forall j | 0 <= j < i :: FirstNearest(points[j], centroids, assign[j])
      invariant forall j | 0 <= j < i ::
                  L2(points[j], centroids[assign[j]]) == MinDist(points[j], centroids, |centroids|)
    {
      var k := Closest(points[i], centroids);
      assert k < |centroids| by { InBounds(points[i], centroids, k); }
      assign := assign + [k];
    }
    var sums, counts := Accumulate(points, d, |centroids|, assign);
    next := Recenter(points, d, assign, sums, counts, rng);
    LloydImproves(points, d, assign, centroids, next);
  }

  lemma InBounds(x: Vec, centroids: Points, k: nat)
    requires Shaped(centroids, |x|) && FirstNearest(x, centroids, k)
    ensures k < |centroids|
  {
  }

  ghost predicate SomeSeeds(points: Points, d: nat, centroids: Points)
    requires Shaped(points, d)
  {
    exists picks :: Seeded(points, d, centroids, picks)
  }

  /** The centroid sets of a training: from the seeds, one successor after the other, never worse. */
  ghost predicate Training(points: Points, d: nat, sets: seq<Points>)
    requires Shaped(points, d)
  {
    && sets != []
    && (forall i | 0 <= i < |sets| :: |sets[i]| == 256 && Shaped(sets[i], d))
    && SomeSeeds(points, d, sets[0])
    && (forall i | 0 < i < |sets| :: Successor(points, d, sets[i - 1], sets[i]))
    && (forall i, j | 0 <= i <= j < |sets| ::
          Distortion(points, sets[j], d, |points|) <= Distortion(points, sets[i], d, |points|))
  }

  /** `centroids` is where some training of so many iterations ends. */
  ghost predicate Trained(points: Points, d: nat, iters: nat, centroids: Points)
    requires Shaped(points, d)
  {
    exists sets: seq<Points> | |sets| == iters + 1 && Training(points, d, sets) :: sets[iters] == centroids
  }

  lemma TrainingNext(points: Points, d: nat, sets: seq<Points>, next: Points)
    requires Shaped(points, d) && Training(points, d, sets) && |next| == 256 && Shaped(next, d)
    requires Successor(points, d, sets[|sets| - 1], next)
    requires Distortion(points, next, d, |points|) <= Distortion(points, sets[|sets| - 1], d, |points|)
    ensures Training(points, d, sets + [next])
  {
    hide Distortion, Successor, SomeSeeds;
  }

  /** `kmeans`; `sets` records the centroids after seeding and after each iteration. */
  method Train(points: Points, d: nat, iters: nat, rng: Rng) returns (centroids: Points, ghost sets: seq<Points>)
    requires points != [] && Shaped(points, d)
    ensures |centroids| == 256 && Shaped(centroids, d) && Trained(points, d, iters, centroids)
    ensures Training(points, d, sets) && |sets| == iters + 1 && centroids == sets[iters]
  {
    hide Distortion, Successor, Seeded, SomeSeeds;
    var d2;
    ghost var picks;
    centroids, d2, picks := Seed(points, d, rng);
    assert Shaped(centroids, d) by { SeedsShaped(points, d, centroids, picks); }
    sets := [centroids];
    assert SomeSeeds(points, d, centroids) by { SeedsFound(points, d, centroids, picks); }
    for i := 0 to iters
      invariant Training(points, d, sets) && |sets| == i + 1 && centroids == sets[i]
    {
      centroids := Lloyd(points, d, centroids, rng);
      assert |centroids| == 256 && Shaped(centroids, d) by { SuccessorShaped(points, d, sets[i], centroids); }
      TrainingNext(points, d, sets, centroids);
      sets := sets + [centroids];
    }
  }

  lemma SeedsFound(points: Points, d: nat, centroids: Points, picks: seq<nat>)
    requires Shaped(points, d) && Seeded(points, d, centroids, picks)
    ensures SomeSeeds(points, d, centroids)
  {
  }

  lemma SeedsShaped(points: Points, d: nat, centroids: Points, picks: seq<nat>)
    requires Shaped(points, d) && Seeded(points, d, centroids, picks)
    ensures Shaped(centroids, d)
  {
  }

  lemma SuccessorShaped(points: Points, d: nat, before: Points, after: Points)
    requires Shaped(points, d) && Shaped(before, d) && Successor(points, d, before, after)
    ensures |after| == |before| && Shaped(after, d)
  {
  }
}
