/** Brute-force k-nearest-neighbour search: bounded heaps per chunk, merged by a reduction tree. */
module Exact {
  import opened Common
  import opened Neighbors
  import S = Search

  const CHUNK: nat := 16384

  type Oracle = nat -> real

  /** Every row, scored. */
  function Scored(dist: Oracle, lo: nat, hi: nat): (s: seq<Neighbor>)
    requires lo <= hi
    ensures |s| == hi - lo
    ensures forall i | 0 <= i < |s| :: s[i] == Neighbor(lo + i, dist(lo + i))
  {
    seq(hi - lo, i requires 0 <= i < hi - lo => Neighbor(lo + i, dist(lo + i)))
  }

  /** The shape of one parallel reduction: any tree over the chunks, identities anywhere. */
  datatype Tree = Identity | Chunk(index: nat) | Join(left: Tree, right: Tree)

  function Leaves(t: Tree): seq<nat> {
    match t
    case Identity => []
    case Chunk(i) => [i]
    case Join(l, r) => Leaves(l) + Leaves(r)
  }

  ghost predicate InRange(t: seq<nat>, n: nat) {
    forall j | 0 <= j < |t| :: t[j] < n
  }

  ghost function Gather(t: seq<nat>, parts: seq<seq<Neighbor>>): seq<Neighbor>
    requires InRange(t, |parts|)
  {
    if t == [] then [] else parts[t[0]] + Gather(t[1..], parts)
  }

  lemma {:induction false} GatherAppend(a: seq<nat>, b: seq<nat>, parts: seq<seq<Neighbor>>)
    requires InRange(a, |parts|) && InRange(b, |parts|)
    ensures InRange(a + b, |parts|)
    ensures Gather(a + b, parts) == Gather(a, parts) + Gather(b, parts)
  {
    if a == [] {
      assert a + b == b;
    } else {
      GatherAppend(a[1..], b, parts);
      assert (a + b)[0] == a[0] && (a + b)[1..] == a[1..] + b;
      var p, x, y := parts[a[0]], Gather(a[1..], parts), Gather(b, parts);
      assert p + (x + y) == (p + x) + y;
    }
  }

  /** Some order in which a heap's iterator yields its items; callers may rely on no particular one. */
  method HeapItems(heap: seq<Neighbor>) returns (items: seq<Neighbor>)
    ensures multiset(items) == multiset(heap)
  {
    items := heap;
  }

  /** The per-chunk heap. */
  method ScanChunk(dist: Oracle, start: nat, end: nat, k: nat) returns (heap: seq<Neighbor>)
    requires start <= end
    ensures heap == TopK(Scored(dist, start, end), k)
  {
    heap := [];
    for id := start to end
      invariant heap == TopK(Scored(dist, start, id), k)
    {
      var item := Neighbor(id, dist(id));
      PushIsTopK(Scored(dist, start, id), item, k);
      assert Scored(dist, start, id) + [item] == Scored(dist, start, id + 1);
      heap := PushBounded(heap, item, k);
    }
  }

  /**
   * `for item in b { push_bounded(&mut a, item, k) }`: the heap of one part's rows `s` absorbs the heap
   * of another's, `t`, whatever order the second is iterated in.
   */
  method Merge(a: seq<Neighbor>, b: seq<Neighbor>, k: nat, ghost s: seq<Neighbor>, ghost t: seq<Neighbor>)
    returns (heap: seq<Neighbor>)
    requires a == TopK(s, k) && b == TopK(t, k)
    ensures heap == TopK(s + t, k)
  {
    hide PushBounded, TopK;
    heap := a;
    var items := HeapItems(b);
    for j := 0 to |items|
      invariant heap == PushAll(a, items[..j], k)
    {
      PushAllSplit(a, items[..j], [items[j]], k);
      assert items[..j] + [items[j]] == items[..j + 1];
      heap := PushBounded(heap, items[j], k);
    }
    assert items[..|items|] == items;
    MergeIsTopK(s, t, items, k);
  }

  /** `reduce`: fold the partial heaps along the tree. */
  method Reduce(t: Tree, heaps: seq<seq<Neighbor>>, k: nat, ghost parts: seq<seq<Neighbor>>)
    returns (heap: seq<Neighbor>)
    requires |heaps| == |parts|
    requires forall i | 0 <= i < |heaps| :: heaps[i] == TopK(parts[i], k)
    requires InRange(Leaves(t), |parts|)
    ensures heap == TopK(Gather(Leaves(t), parts), k)
  {
    hide TopK, PushAll;
    match t {
      case Identity =>
        TopKNothing(k);
        heap := [];
      case Chunk(i) =>
        assert Leaves(t) == [i];
        assert Leaves(t)[0] < |parts|;
        heap := heaps[i];
        assert parts[i] + [] == parts[i];
      case Join(l, r) =>
        assert forall j | 0 <= j < |Leaves(l)| :: Leaves(l)[j] == Leaves(t)[j];
        assert forall j | 0 <= j < |Leaves(r)| :: Leaves(r)[j] == Leaves(t)[|Leaves(l)| + j];
        GatherAppend(Leaves(l), Leaves(r), parts);
        heap := Reduce(l, heaps, k, parts);
        var b := Reduce(r, heaps, k, parts);
        heap := Merge(heap, b, k, Gather(Leaves(l), parts), Gather(Leaves(r), parts));
    }
  }

  lemma TopKNothing(k: nat)
    ensures TopK([], k) == []
  {
  }

  function ChunkCount(n: nat): nat { (n + CHUNK - 1) / CHUNK }

  ghost function UpTo(n: nat): seq<nat> { seq(n, i requires 0 <= i < n => i) }

  /** The `i`-th chunk of the rows. */
  ghost function Part(dist: Oracle, n: nat, i: nat): seq<Neighbor>
    requires i * CHUNK < n
  {
    Scored(dist, i * CHUNK, Min((i + 1) * CHUNK, n))
  }

  lemma GatherOne(i: nat, parts: seq<seq<Neighbor>>)
    requires i < |parts|
    ensures InRange([i], |parts|) && Gather([i], parts) == parts[i]
  {
    assert parts[i] + [] == parts[i];
    assert [i][1..] == [];
  }

  lemma ScoredSplit(dist: Oracle, m: nat, e: nat)
    requires m <= e
    ensures Scored(dist, 0, e) == Scored(dist, 0, m) + Scored(dist, m, e)
  {
  }

  lemma {:induction false} GatherParts(parts: seq<seq<Neighbor>>, dist: Oracle, n: nat, c: nat)
    requires c <= |parts| && (c > 0 ==> (c - 1) * CHUNK < n)
    requires forall i | 0 <= i < c :: i * CHUNK < n && parts[i] == Part(dist, n, i)
    ensures InRange(UpTo(c), |parts|)
    ensures Gather(UpTo(c), parts) == Scored(dist, 0, Min(c * CHUNK, n))
    decreases c
  {
    if c > 0 {
      var m, e := (c - 1) * CHUNK, Min(c * CHUNK, n);
      GatherParts(parts, dist, n, c - 1);
      GatherAppend(UpTo(c - 1), [c - 1], parts);
      assert UpTo(c) == UpTo(c - 1) + [c - 1];
      GatherOne(c - 1, parts);
      ScoredSplit(dist, m, e);
    }
  }

  lemma ScoredRows(dist: Oracle, n: nat)
    ensures var rows := Scored(dist, 0, n);
            && S.DistinctIds(rows) && S.ScoredBy(rows, dist) && S.IdSet(rows) == S.AllIds(n)
  {
    var rows := Scored(dist, 0, n);
    forall id: nat | id < n ensures id in S.IdSet(rows) {
      assert rows[id] in rows;
    }
  }

  /** Pop a max-heap until it is empty, then reverse. */
  method Drain(heap: seq<Neighbor>) returns (out: seq<Neighbor>)
    ensures out == heap
  {
    var merged := heap;
    out := [];
    while merged != []
      invariant merged == heap[..|merged|] && |merged| <= |heap| && |out| == |heap| - |merged|
      invariant forall i | 0 <= i < |out| :: out[i] == heap[|heap| - 1 - i]
      decreases |merged|
    {
      out := out + [Last(merged)];
      merged := merged[..|merged| - 1];
    }
    out := seq(|out|, i requires 0 <= i < |out| => out[|out| - 1 - i]);
  }

  /**
   * `exact::search`: whatever the chunk boundaries and whatever shape the reduction takes, the
   * answer is "sort every row by (distance, id) and take `k`", that is, the `k` nearest of all ids.
   */
  method Search(dist: Oracle, n: nat, k: nat, schedule: Tree) returns (out: seq<Neighbor>)
    requires Leaves(schedule) == UpTo(ChunkCount(n))
    ensures out == TopK(Scored(dist, 0, n), k)
    ensures NearestOf(out, dist, S.AllIds(n), k)
  {
    hide TopK, NearestOf, Leaves, UpTo, ChunkCount;
    var heaps, parts := ScanChunks(dist, n, k);
    assert forall i | 0 <= i < |heaps| :: heaps[i] == TopK(parts[i], k);
    AllChunks(dist, n, parts);
    var merged := Reduce(schedule, heaps, k, parts);
    out := Drain(merged);
    ScoredRows(dist, n);
    S.TopKIsNearest(Scored(dist, 0, n), dist, k);
  }

  lemma AllChunks(dist: Oracle, n: nat, parts: seq<seq<Neighbor>>)
    requires |parts| == ChunkCount(n)
    requires forall i | 0 <= i < |parts| :: i * CHUNK < n && parts[i] == Part(dist, n, i)
    ensures InRange(UpTo(ChunkCount(n)), |parts|) && Gather(UpTo(ChunkCount(n)), parts) == Scored(dist, 0, n)
  {
    GatherParts(parts, dist, n, |parts|);
  }

  /** One bounded heap per chunk of the rows. */
  method ScanChunks(dist: Oracle, n: nat, k: nat) returns (heaps: seq<seq<Neighbor>>, ghost parts: seq<seq<Neighbor>>)
    ensures |heaps| == |parts| == ChunkCount(n)
    ensures forall i | 0 <= i < |parts| :: i * CHUNK < n && parts[i] == Part(dist, n, i)
    ensures forall i | 0 <= i < |heaps| :: i * CHUNK < n && heaps[i] == TopK(Part(dist, n, i), k)
  {
    hide TopK;
    heaps, parts := [], [];
    var start := 0;
    while start < n
      invariant start == |heaps| * CHUNK && |parts| == |heaps| && start < n + CHUNK
      invariant forall i | 0 <= i < |parts| :: i * CHUNK < n && parts[i] == Part(dist, n, i)
      invariant forall i | 0 <= i < |heaps| :: heaps[i] == TopK(parts[i], k)
    {
      var end := Min(start + CHUNK, n);
      var heap := ScanChunk(dist, start, end, k);
      heaps := heaps + [heap];
      parts := parts + [Scored(dist, start, end)];
      start := start + CHUNK;
    }
  }

  /** What the answer is, without mentioning sorting: the k least rows, ascending, ties by id. */
  lemma TopKIsLeast(s: seq<Neighbor>, k: nat)
    ensures var top := TopK(s, k);
            && |top| == Min(k, |s|)
            && Sorted(top)
            && multiset(top) <= multiset(s)
            && forall x, y | x in top && y in multiset(s) - multiset(top) :: LessEq(x, y)
  {
    hide Sort;
    SortCorrect(s);
    var u, top := Sort(s), TopK(s, k);
    var rest := u[|top|..];
    assert u == top + rest;
    assert multiset(s) == multiset(top) + multiset(rest);
    forall x, y | x in top && y in multiset(s) - multiset(top) ensures LessEq(x, y) {
      assert y in rest;
      var i :| 0 <= i < |top| && top[i] == x;
      var j :| 0 <= j < |rest| && rest[j] == y;
      assert LessEq(u[i], u[|top| + j]);
    }
  }
}
