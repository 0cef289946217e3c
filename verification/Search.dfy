/**
 * Searching the layered graph (Malkov & Yashunin, Algorithms 2 and 5), as functions on values.
 * `HnswIndex.dfy` holds the loops and proves that they compute these functions.
 */
module Search {
  import opened Common
  import opened Neighbors
  import opened Graph

  type Oracle = nat -> real

  // --- Algorithm 2: beam search on one layer ------------------------------------

  /** The two heaps and the visited set of `search_layer`. */
  datatype Beam = Beam(open: seq<Neighbor>, best: seq<Neighbor>, visited: set<nat>)

  ghost function StartBeam(dist: Oracle, entry: nat): Beam {
    var n := Neighbor(entry, dist(entry));
    Beam([n], [n], {entry})
  }

  /** Stop once the closest open candidate is farther than the worst of `ef` results. */
  predicate StopAt(cur: Neighbor, best: seq<Neighbor>, ef: nat) {
    best != [] && cur.distance > Last(best).distance && |best| >= ef
  }

  predicate Admit(d: real, best: seq<Neighbor>, ef: nat) {
    |best| < ef || best == [] || d < Last(best).distance
  }

  /** Look at one link of the node being expanded. */
  ghost function Consider(dist: Oracle, next: nat, ef: nat, b: Beam): (r: Beam)
    ensures r.visited == b.visited + {next}
    ensures next in b.visited ==> r == b
  {
    if next in b.visited then b
    else
      var n := Neighbor(next, dist(next));
      var visited := b.visited + {next};
      if Admit(n.distance, b.best, ef) then
        Beam(InsertSorted(b.open, n), PushBounded(b.best, n, ef), visited)
      else b.(visited := visited)
  }

  ghost function Expand(dist: Oracle, links: Links, ef: nat, b: Beam): (r: Beam)
    ensures r.visited == b.visited + set x | x in links
    ensures r.visited == b.visited ==> r == b
    decreases |links|
  {
    if links == [] then b
    else
      assert (set x | x in links) == {links[0]} + set x | x in links[1..];
      Expand(dist, links[1..], ef, Consider(dist, links[0], ef, b))
  }

  ghost predicate Ids(s: seq<Neighbor>, within: set<nat>) {
    forall i | 0 <= i < |s| :: s[i].id in within
  }

  ghost predicate Within(nodes: Nodes, layer: nat, b: Beam) {
    && LayerClosed(nodes, layer)
    && b.visited <= OnLayer(nodes, layer)
    && Sorted(b.open)
    && Ids(b.open, b.visited)
  }

  lemma ConsiderWithin(nodes: Nodes, layer: nat, dist: Oracle, next: nat, ef: nat, b: Beam)
    requires Within(nodes, layer, b) && next in OnLayer(nodes, layer)
    ensures Within(nodes, layer, Consider(dist, next, ef, b))
  {
    var r := Consider(dist, next, ef, b);
    var n := Neighbor(next, dist(next));
    InsertSortedCorrect(b.open, n);
    InsertSortedMembers(b.open, n);
    forall i | 0 <= i < |r.open| ensures r.open[i].id in r.visited {
      assert r.open[i] in r.open;
    }
  }

  lemma {:induction false} ExpandWithin(nodes: Nodes, layer: nat, dist: Oracle, links: Links, ef: nat, b: Beam)
    requires Within(nodes, layer, b)
    requires forall j | 0 <= j < |links| :: links[j] in OnLayer(nodes, layer)
    ensures Within(nodes, layer, Expand(dist, links, ef, b))
    decreases |links|
  {
    if links != [] {
      ConsiderWithin(nodes, layer, dist, links[0], ef, b);
      ExpandWithin(nodes, layer, dist, links[1..], ef, Consider(dist, links[0], ef, b));
    }
  }

  ghost function Pop(b: Beam): Beam
    requires b.open != []
  {
    b.(open := b.open[1..])
  }

  /** The loop of `search_layer`: expand the closest open candidate until none can help. */
  ghost function SearchLoop(nodes: Nodes, layer: nat, dist: Oracle, ef: nat, b: Beam): (r: Beam)
    requires Within(nodes, layer, b)
    decreases OnLayer(nodes, layer) - b.visited, |b.open|
  {
    if b.open == [] then b
    else if StopAt(b.open[0], b.best, ef) then Pop(b)
    else
      ExpandWithin(nodes, layer, dist, nodes[b.open[0].id][layer], ef, Pop(b));
      SearchLoop(nodes, layer, dist, ef, Expand(dist, nodes[b.open[0].id][layer], ef, Pop(b)))
  }

  lemma StartWithin(nodes: Nodes, layer: nat, dist: Oracle, entry: nat)
    requires LayerClosed(nodes, layer) && entry in OnLayer(nodes, layer)
    ensures Within(nodes, layer, StartBeam(dist, entry))
  {
  }

  /** `search_layer(..).into_sorted_vec()`. */
  ghost function SearchLayer(nodes: Nodes, layer: nat, dist: Oracle, entry: nat, ef: nat): seq<Neighbor>
    requires LayerClosed(nodes, layer) && entry in OnLayer(nodes, layer)
  {
    StartWithin(nodes, layer, dist, entry);
    SearchLoop(nodes, layer, dist, ef, StartBeam(dist, entry)).best
  }

  // --- what beam search guarantees ----------------------------------------------

  ghost predicate DistinctIds(s: seq<Neighbor>) {
    forall i, j | 0 <= i < j < |s| :: s[i].id != s[j].id
  }

  ghost function IdSet(s: seq<Neighbor>): set<nat> {
    set n | n in s :: n.id
  }

  ghost predicate ScoredBy(s: seq<Neighbor>, dist: Oracle) {
    forall n | n in s :: n.distance == dist(n.id)
  }

  /** All layer-neighbours of `id` have been visited. */
  ghost predicate Expanded(nodes: Nodes, layer: nat, id: nat, visited: set<nat>) {
    id in OnLayer(nodes, layer) && forall j | 0 <= j < |nodes[id][layer]| :: nodes[id][layer][j] in visited
  }

  /** The two heaps hold scored, visited nodes; the results are distinct and at most `ef`. */
  ghost predicate HeapsOk(dist: Oracle, ef: nat, b: Beam) {
    && Sorted(b.best) && DistinctIds(b.best) && IdSet(b.best) <= b.visited
    && ScoredBy(b.best, dist) && ScoredBy(b.open, dist)
    && 0 < |b.best| <= Max(ef, 1)
  }

  /** Until the result heap is full it holds everything seen; then it holds the closest. */
  ghost predicate KeepsClosest(dist: Oracle, ef: nat, b: Beam) {
    && (|b.best| < Max(ef, 1) ==> b.visited <= IdSet(b.best))
    && (forall v, n | v in b.visited && v !in IdSet(b.best) && n in b.best :: n.distance <= dist(v))
  }

  /** A result is still open, or being walked, or its links have all been visited. */
  ghost predicate Walked(nodes: Nodes, layer: nat, b: Beam, busy: Option<nat>) {
    forall n | n in b.best ::
      n in b.open || busy == Some(n.id) || Expanded(nodes, layer, n.id, b.visited)
  }

  ghost predicate AllReached(nodes: Nodes, layer: nat, entry: nat, visited: set<nat>) {
    entry in visited && forall v | v in visited :: Reachable(nodes, layer, entry, v)
  }

  /** The invariant of the search loop; `busy` is the node whose list is being walked, if any. */
  ghost predicate BeamInv(nodes: Nodes, layer: nat, dist: Oracle, ef: nat, entry: nat, b: Beam, busy: Option<nat>) {
    && Within(nodes, layer, b)
    && HeapsOk(dist, ef, b)
    && KeepsClosest(dist, ef, b)
    && Walked(nodes, layer, b, busy)
    && AllReached(nodes, layer, entry, b.visited)
  }

  lemma {:induction false} InsertSortedDistinct(s: seq<Neighbor>, x: Neighbor)
    requires DistinctIds(s) && x.id !in IdSet(s)
    ensures DistinctIds(InsertSorted(s, x))
    ensures IdSet(InsertSorted(s, x)) == IdSet(s) + {x.id}
  {
    if s == [] || Less(x, s[0]) {
      assert forall n :: n in [x] + s <==> n == x || n in s;
      forall i, j | 0 <= i < j < |[x] + s| ensures ([x] + s)[i].id != ([x] + s)[j].id {
        if i == 0 { assert s[j - 1] in s; }
      }
    } else {
      var t := s[1..];
      assert forall n :: n in s <==> n == s[0] || n in t;
      assert IdSet(s) == {s[0].id} + IdSet(t);
      InsertSortedDistinct(t, x);
      var u := InsertSorted(t, x);
      assert s[0].id !in IdSet(t) by {
        forall n | n in t ensures n.id != s[0].id {
          var i :| 0 <= i < |t| && t[i] == n;
          assert s[i + 1] == n;
        }
      }
      forall j | 0 <= j < |u| ensures u[j].id != s[0].id {
        assert u[j] in u;
      }
      assert forall n :: n in [s[0]] + u <==> n == s[0] || n in u;
    }
  }

  lemma DropLast(s: seq<Neighbor>)
    requires s != [] && Sorted(s) && DistinctIds(s)
    ensures var t := s[..|s| - 1];
            && Sorted(t) && DistinctIds(t)
            && IdSet(s) == IdSet(t) + {Last(s).id} && Last(s).id !in IdSet(t)
            && (forall n :: n in s <==> n in t || n == Last(s))
            && (forall n | n in t :: n.distance <= Last(s).distance)
  {
    var t := s[..|s| - 1];
    assert s == t + [Last(s)];
    forall n | n in t ensures n.distance <= Last(s).distance && n.id != Last(s).id {
      var i :| 0 <= i < |t| && t[i] == n;
      assert LessEq(s[i], s[|s| - 1]);
    }
  }

  lemma WorstIsLast(s: seq<Neighbor>)
    requires s != [] && Sorted(s)
    ensures forall n | n in s :: n.distance <= Last(s).distance
  {
    forall n | n in s ensures n.distance <= Last(s).distance {
      var i :| 0 <= i < |s| && s[i] == n;
      if i < |s| - 1 { assert LessEq(s[i], s[|s| - 1]); }
    }
  }

  /** The result heap after admitting `n`: what it holds, and what it drops. */
  lemma AdmitBest(dist: Oracle, n: Neighbor, ef: nat, b: Beam)
    requires Sorted(b.best) && DistinctIds(b.best) && ScoredBy(b.best, dist)
    requires 0 < |b.best| <= Max(ef, 1) && n.id !in IdSet(b.best)
    requires Admit(n.distance, b.best, ef)
    ensures var r := PushBounded(b.best, n, ef);
            && Sorted(r) && DistinctIds(r)
            && (forall x | x in r :: x == n || x in b.best)
            && n in r
            && 0 < |r| <= Max(ef, 1)
            && (|b.best| < ef ==> IdSet(r) == IdSet(b.best) + {n.id} && (forall x :: x in r <==> x == n || x in b.best))
            && (|b.best| >= ef ==> |r| == Max(ef, 1))
            && (|b.best| >= ef ==> IdSet(b.best) + {n.id} == IdSet(r) + {Last(b.best).id})
            && (|b.best| >= ef ==> forall x | x in r :: x.distance <= Last(b.best).distance)
  {
    if |b.best| < ef {
      InsertSortedCorrect(b.best, n);
      InsertSortedMembers(b.best, n);
      InsertSortedDistinct(b.best, n);
    } else {
      var t := b.best[..|b.best| - 1];
      DropLast(b.best);
      InsertSortedCorrect(t, n);
      InsertSortedMembers(t, n);
      InsertSortedDistinct(t, n);
    }
  }

  lemma ConsiderHeaps(dist: Oracle, ef: nat, b: Beam, next: nat)
    requires HeapsOk(dist, ef, b) && KeepsClosest(dist, ef, b) && Sorted(b.open)
    requires next !in b.visited
    ensures HeapsOk(dist, ef, Consider(dist, next, ef, b))
    ensures KeepsClosest(dist, ef, Consider(dist, next, ef, b))
  {
    hide InsertSorted, PushBounded;
    var n := Neighbor(next, dist(next));
    var r := Consider(dist, next, ef, b);
    WorstIsLast(b.best);
    if Admit(n.distance, b.best, ef) {
      AdmitBest(dist, n, ef, b);
      InsertSortedMembers(b.open, n);
      forall v, x | v in r.visited && v !in IdSet(r.best) && x in r.best ensures x.distance <= dist(v) {
        if |b.best| >= ef && v == Last(b.best).id {
          assert Last(b.best) in b.best;
        } else {
          assert v != next by { assert n in r.best; }
          assert x != n ==> x in b.best;
          assert v in b.visited && v !in IdSet(b.best);
          assert Last(b.best) in b.best;
        }
      }
    }
  }

  lemma ConsiderWalked(nodes: Nodes, layer: nat, dist: Oracle, ef: nat, b: Beam, busy: Option<nat>, next: nat)
    requires HeapsOk(dist, ef, b) && Sorted(b.open) && Walked(nodes, layer, b, busy)
    requires next !in b.visited
    ensures Walked(nodes, layer, Consider(dist, next, ef, b), busy)
  {
    hide InsertSorted, PushBounded;
    var n := Neighbor(next, dist(next));
    var r := Consider(dist, next, ef, b);
    if Admit(n.distance, b.best, ef) {
      AdmitBest(dist, n, ef, b);
      InsertSortedMembers(b.open, n);
    }
    forall x | x in r.best
      ensures x in r.open || busy == Some(x.id) || Expanded(nodes, layer, x.id, r.visited)
    {
      if x in b.best && Expanded(nodes, layer, x.id, b.visited) {
        assert Expanded(nodes, layer, x.id, r.visited);
      }
    }
  }

  lemma ConsiderInv(nodes: Nodes, layer: nat, dist: Oracle, ef: nat, entry: nat, b: Beam, busy: nat, next: nat)
    requires BeamInv(nodes, layer, dist, ef, entry, b, Some(busy))
    requires busy in b.visited && next in OnLayer(nodes, layer) && next in nodes[busy][layer]
    ensures BeamInv(nodes, layer, dist, ef, entry, Consider(dist, next, ef, b), Some(busy))
  {
    hide InsertSorted, PushBounded, HeapsOk, KeepsClosest, Walked, Reachable;
    if next !in b.visited {
      ConsiderWithin(nodes, layer, dist, next, ef, b);
      ConsiderHeaps(dist, ef, b, next);
      ConsiderWalked(nodes, layer, dist, ef, b, Some(busy), next);
      ReachStep(nodes, layer, entry, busy, next);
    }
  }

  lemma {:induction false} ExpandInv(nodes: Nodes, layer: nat, dist: Oracle, ef: nat, entry: nat, b: Beam,
                                     busy: nat, links: Links)
    requires BeamInv(nodes, layer, dist, ef, entry, b, Some(busy))
    requires busy in b.visited && busy in OnLayer(nodes, layer)
    requires forall j | 0 <= j < |links| :: links[j] in nodes[busy][layer] && links[j] in OnLayer(nodes, layer)
    ensures BeamInv(nodes, layer, dist, ef, entry, Expand(dist, links, ef, b), Some(busy))
    decreases |links|
  {
    hide BeamInv, Consider;
    if links != [] {
      ConsiderInv(nodes, layer, dist, ef, entry, b, busy, links[0]);
      ExpandInv(nodes, layer, dist, ef, entry, Consider(dist, links[0], ef, b), busy, links[1..]);
    }
  }

  /** One turn of the loop keeps the invariant. */
  lemma TurnInv(nodes: Nodes, layer: nat, dist: Oracle, ef: nat, entry: nat, b: Beam)
    requires BeamInv(nodes, layer, dist, ef, entry, b, None) && b.open != []
    ensures BeamInv(nodes, layer, dist, ef, entry,
                    Expand(dist, nodes[b.open[0].id][layer], ef, Pop(b)), None)
  {
    hide Reachable;
    var cur, links := b.open[0], nodes[b.open[0].id][layer];
    assert b.open == [cur] + b.open[1..];
    assert Walked(nodes, layer, Pop(b), Some(cur.id));
    ExpandInv(nodes, layer, dist, ef, entry, Pop(b), cur.id, links);
    var r := Expand(dist, links, ef, Pop(b));
    assert Expanded(nodes, layer, cur.id, r.visited) by {
      forall j | 0 <= j < |links| ensures links[j] in r.visited {
        assert links[j] in set x | x in links;
      }
    }
  }

  /** What the paper asks of Algorithm 2, and what insertion and search rely on. */
  ghost predicate BeamResult(nodes: Nodes, layer: nat, dist: Oracle, ef: nat, entry: nat, best: seq<Neighbor>,
                             visited: set<nat>) {
    && Sorted(best) && DistinctIds(best) && ScoredBy(best, dist)
    && IdSet(best) <= visited <= OnLayer(nodes, layer)
    && |best| == Min(Max(ef, 1), |visited|)
    && KeepsClosest(dist, ef, Beam([], best, visited))
    && (forall n | n in best :: Expanded(nodes, layer, n.id, visited))
    && AllReached(nodes, layer, entry, visited)
  }

  lemma IdSetCons(s: seq<Neighbor>)
    requires DistinctIds(s) && s != []
    ensures IdSet(s) == {s[0].id} + IdSet(s[1..]) && s[0].id !in IdSet(s[1..])
  {
    var t := s[1..];
    assert s == [s[0]] + t;
    forall n | n in t ensures n.id != s[0].id {
      var i :| 0 <= i < |t| && t[i] == n;
      assert s[i + 1] == n;
    }
  }

  lemma {:induction false} IdSetSize(s: seq<Neighbor>)
    requires DistinctIds(s)
    ensures |IdSet(s)| == |s|
  {
    hide IdSet;
    if s == [] {
      IdSetEmpty();
    } else {
      IdSetCons(s);
      IdSetSize(s[1..]);
    }
  }

  lemma IdSetEmpty()
    ensures IdSet([]) == {}
  {
  }

  lemma SubsetSize<T>(a: set<T>, b: set<T>)
    requires a <= b
    ensures |a| <= |b|
  {
    assert b == a + (b - a);
  }

  lemma FirstIsLeast(s: seq<Neighbor>, n: Neighbor)
    requires s != [] && Sorted(s)
    ensures n in s ==> s[0].distance <= n.distance
  {
    if n in s {
      var i :| 0 <= i < |s| && s[i] == n;
      if i > 0 { assert LessEq(s[0], s[i]); }
    }
  }

  lemma ExitResult(nodes: Nodes, layer: nat, dist: Oracle, ef: nat, entry: nat, b: Beam)
    requires BeamInv(nodes, layer, dist, ef, entry, b, None)
    requires b.open == [] || StopAt(b.open[0], b.best, ef)
    ensures BeamResult(nodes, layer, dist, ef, entry, b.best, b.visited)
  {
    hide Reachable;
    IdSetSize(b.best);
    SubsetSize(IdSet(b.best), b.visited);
    if |b.best| < Max(ef, 1) {
      assert IdSet(b.best) == b.visited;
    }
    WorstIsLast(b.best);
    forall n | n in b.best ensures Expanded(nodes, layer, n.id, b.visited) {
      if b.open != [] { FirstIsLeast(b.open, n); }
    }
  }

  lemma {:induction false} LoopResult(nodes: Nodes, layer: nat, dist: Oracle, ef: nat, entry: nat, b: Beam)
    requires BeamInv(nodes, layer, dist, ef, entry, b, None)
    ensures var r := SearchLoop(nodes, layer, dist, ef, b);
            BeamResult(nodes, layer, dist, ef, entry, r.best, r.visited)
    decreases OnLayer(nodes, layer) - b.visited, |b.open|
  {
    hide HeapsOk, KeepsClosest, Walked, AllReached, BeamResult, Consider;
    if b.open == [] || StopAt(b.open[0], b.best, ef) {
      ExitResult(nodes, layer, dist, ef, entry, b);
    } else {
      TurnInv(nodes, layer, dist, ef, entry, b);
      var next := Expand(dist, nodes[b.open[0].id][layer], ef, Pop(b));
      LoopResult(nodes, layer, dist, ef, entry, next);
    }
  }

  /**
   * Beam search terminates with results that are distinct, as many as fit, no farther than any
   * visited node left out, and closed: every layer-neighbour of a result was visited.
   */
  lemma SearchLayerCorrect(nodes: Nodes, layer: nat, dist: Oracle, entry: nat, ef: nat)
    returns (visited: set<nat>)
    requires LayerClosed(nodes, layer) && entry in OnLayer(nodes, layer)
    ensures BeamResult(nodes, layer, dist, ef, entry, SearchLayer(nodes, layer, dist, entry, ef), visited)
  {
    var b := StartBeam(dist, entry);
    StartWithin(nodes, layer, dist, entry);
    ReachSelf(nodes, layer, entry);
    assert BeamInv(nodes, layer, dist, ef, entry, b, None);
    LoopResult(nodes, layer, dist, ef, entry, b);
    visited := SearchLoop(nodes, layer, dist, ef, b).visited;
  }

  /** No neighbour of a result that was left out beats any result. */
  lemma NoNeighbourBeatsResults(nodes: Nodes, layer: nat, dist: Oracle, entry: nat, ef: nat, r: Neighbor, j: nat)
    requires LayerClosed(nodes, layer) && entry in OnLayer(nodes, layer)
    requires r in SearchLayer(nodes, layer, dist, entry, ef)
    requires r.id in OnLayer(nodes, layer) && j < |nodes[r.id][layer]|
    ensures var best := SearchLayer(nodes, layer, dist, entry, ef);
            var nb := nodes[r.id][layer][j];
            nb in IdSet(best) || forall n | n in best :: n.distance <= dist(nb)
  {
    hide SearchLayer;
    var visited := SearchLayerCorrect(nodes, layer, dist, entry, ef);
    assert Expanded(nodes, layer, r.id, visited);
  }

  ghost predicate NoFarther(n: Neighbor, s: seq<Neighbor>) {
    exists m | m in s :: n.distance <= m.distance
  }

  ghost predicate Improves(n: Neighbor, s: seq<Neighbor>) {
    exists m | m in s :: n.distance < m.distance
  }

  /**
   * What looking at links does to the heaps: only nodes not visited before are opened, at their distance,
   * all that enter the results are, and if the results were full only such as improve on one of them.
   */
  ghost predicate Opens(dist: Oracle, ef: nat, b: Beam, r: Beam) {
    && b.visited <= r.visited && |b.best| <= |r.best|
    && (forall n | n in b.open :: n in r.open)
    && (forall n | n in r.open && n !in b.open :: n.id in r.visited && n.id !in b.visited && n.distance == dist(n.id))
    && (forall n | n in r.best && n !in b.best :: n in r.open)
    && (|b.best| >= ef ==>
          && (forall n | n in r.open && n !in b.open :: Improves(n, b.best))
          && (forall n | n in r.best :: NoFarther(n, b.best)))
  }

  lemma ConsiderOpens(dist: Oracle, ef: nat, b: Beam, next: nat)
    requires HeapsOk(dist, ef, b) && Sorted(b.open)
    ensures Opens(dist, ef, b, Consider(dist, next, ef, b))
  {
    hide InsertSorted, PushBounded;
    var n := Neighbor(next, dist(next));
    assert Last(b.best) in b.best;
    if next !in b.visited && Admit(n.distance, b.best, ef) {
      AdmitBest(dist, n, ef, b);
      InsertSortedMembers(b.open, n);
    }
  }

  lemma OpensTrans(dist: Oracle, ef: nat, a: Beam, b: Beam, c: Beam)
    requires Opens(dist, ef, a, b) && Opens(dist, ef, b, c)
    ensures Opens(dist, ef, a, c)
  {
    if |a.best| >= ef {
      forall n | n in c.open && n !in a.open ensures Improves(n, a.best) {
        if n !in b.open {
          var m :| m in b.best && n.distance < m.distance;
          assert NoFarther(m, a.best);
        }
      }
      forall n | n in c.best ensures NoFarther(n, a.best) {
        assert NoFarther(n, b.best);
        var m :| m in b.best && n.distance <= m.distance;
        assert NoFarther(m, a.best);
      }
    }
  }

  lemma OpensSelf(dist: Oracle, ef: nat, b: Beam)
    ensures Opens(dist, ef, b, b)
  {
    forall n | n in b.best ensures NoFarther(n, b.best) {
      assert n.distance <= n.distance;
    }
  }

  lemma {:induction false} ExpandOpens(nodes: Nodes, layer: nat, dist: Oracle, ef: nat, entry: nat, b: Beam, busy: nat,
                                       links: Links)
    requires BeamInv(nodes, layer, dist, ef, entry, b, Some(busy))
    requires busy in b.visited && busy in OnLayer(nodes, layer)
    requires forall j | 0 <= j < |links| :: links[j] in nodes[busy][layer] && links[j] in OnLayer(nodes, layer)
    ensures Opens(dist, ef, b, Expand(dist, links, ef, b))
    decreases |links|
  {
    hide Consider, HeapsOk, KeepsClosest, Walked, AllReached, Opens, BeamInv;
    if links == [] {
      OpensSelf(dist, ef, b);
    } else {
      var next := Consider(dist, links[0], ef, b);
      ConsiderInv(nodes, layer, dist, ef, entry, b, busy, links[0]);
      ConsiderOpens(dist, ef, b, links[0]) by { BusyHeaps(nodes, layer, dist, ef, entry, b, busy); }
      ExpandOpens(nodes, layer, dist, ef, entry, next, busy, links[1..]);
      OpensTrans(dist, ef, b, next, Expand(dist, links, ef, b));
    }
  }

  lemma BusyHeaps(nodes: Nodes, layer: nat, dist: Oracle, ef: nat, entry: nat, b: Beam, busy: nat)
    requires BeamInv(nodes, layer, dist, ef, entry, b, Some(busy))
    ensures HeapsOk(dist, ef, b) && Sorted(b.open)
  {
  }

  /** The nearest open candidate is farther than the worst of `ef` results. */
  ghost predicate NothingToGain(ef: nat, b: Beam) {
    b.open != [] && |b.best| >= ef
    && forall o, n | o in b.open && n in b.best :: o.distance > n.distance
  }

  /**
   * One turn of the search: a nearest open candidate is taken, which may still gain something; all its
   * links are visited; those that enter the results are opened, and behind a full result list only those
   * that improve on it; the results stay the closest of all visited, `ef` at most.
   */
  ghost predicate Turn(nodes: Nodes, layer: nat, dist: Oracle, ef: nat, b: Beam, r: Beam) {
    && b.open != [] && !NothingToGain(ef, b)
    && var cur := b.open[0];
    && (forall n | n in b.open :: cur.distance <= n.distance)
    && cur.id in OnLayer(nodes, layer)
    && r.visited == b.visited + (set x | x in nodes[cur.id][layer])
    && Opens(dist, ef, Pop(b), r)
    && |r.best| <= Max(ef, 1) && KeepsClosest(dist, ef, r)
  }

  ghost predicate Turns(nodes: Nodes, layer: nat, dist: Oracle, ef: nat, trace: seq<Beam>) {
    forall i | 0 < i < |trace| :: Turn(nodes, layer, dist, ef, trace[i - 1], trace[i])
  }

  lemma StopsOnlyThen(ef: nat, b: Beam)
    requires b.open != [] && Sorted(b.open) && Sorted(b.best) && b.best != []
    ensures StopAt(b.open[0], b.best, ef) <==> NothingToGain(ef, b)
    ensures forall n | n in b.open :: b.open[0].distance <= n.distance
  {
    WorstIsLast(b.best);
    forall n | n in b.open ensures b.open[0].distance <= n.distance {
      FirstIsLeast(b.open, n);
    }
    if NothingToGain(ef, b) {
      assert b.open[0] in b.open && Last(b.best) in b.best;
    }
  }

  lemma OneTurn(nodes: Nodes, layer: nat, dist: Oracle, ef: nat, entry: nat, b: Beam)
    requires BeamInv(nodes, layer, dist, ef, entry, b, None) && b.open != []
    requires !StopAt(b.open[0], b.best, ef)
    ensures Turn(nodes, layer, dist, ef, b, Expand(dist, nodes[b.open[0].id][layer], ef, Pop(b)))
  {
    hide Reachable, Opens, StopAt, NothingToGain, Consider, HeapsOk, KeepsClosest, Walked, AllReached, Sorted;
    var cur, links := b.open[0], nodes[b.open[0].id][layer];
    var r := Expand(dist, links, ef, Pop(b));
    HeapsSorted(nodes, layer, dist, ef, entry, b);
    TurnInv(nodes, layer, dist, ef, entry, b);
    ResultSize(nodes, layer, dist, ef, entry, r);
    StopsOnlyThen(ef, b);
    PopBusy(nodes, layer, dist, ef, entry, b);
    ExpandOpens(nodes, layer, dist, ef, entry, Pop(b), cur.id, links);
  }

  lemma ResultSize(nodes: Nodes, layer: nat, dist: Oracle, ef: nat, entry: nat, b: Beam)
    requires BeamInv(nodes, layer, dist, ef, entry, b, None)
    ensures |b.best| <= Max(ef, 1) && KeepsClosest(dist, ef, b)
  {
  }

  /** Once a candidate has been taken, it is the one being walked. */
  lemma PopBusy(nodes: Nodes, layer: nat, dist: Oracle, ef: nat, entry: nat, b: Beam)
    requires BeamInv(nodes, layer, dist, ef, entry, b, None) && b.open != []
    ensures var cur := b.open[0];
            && BeamInv(nodes, layer, dist, ef, entry, Pop(b), Some(cur.id))
            && cur.id in b.visited && cur.id in OnLayer(nodes, layer)
            && forall x | x in nodes[cur.id][layer] :: x in OnLayer(nodes, layer)
  {
    hide Reachable;
    var cur := b.open[0];
    assert b.open == [cur] + b.open[1..];
    assert Walked(nodes, layer, Pop(b), Some(cur.id));
  }

  lemma {:induction false} LoopTurns(nodes: Nodes, layer: nat, dist: Oracle, ef: nat, entry: nat, b: Beam)
    returns (trace: seq<Beam>)
    requires BeamInv(nodes, layer, dist, ef, entry, b, None)
    ensures trace != [] && trace[0] == b && Turns(nodes, layer, dist, ef, trace)
    ensures var last := trace[|trace| - 1];
            && (last.open == [] || NothingToGain(ef, last))
            && SearchLoop(nodes, layer, dist, ef, b).best == last.best
    decreases OnLayer(nodes, layer) - b.visited, |b.open|
  {
    hide HeapsOk, KeepsClosest, Walked, AllReached, Consider, Turn, StopAt, NothingToGain;
    if b.open != [] { HeapsSorted(nodes, layer, dist, ef, entry, b); StopsOnlyThen(ef, b); }
    if b.open == [] || StopAt(b.open[0], b.best, ef) {
      trace := [b];
    } else {
      TurnInv(nodes, layer, dist, ef, entry, b);
      OneTurn(nodes, layer, dist, ef, entry, b);
      var next := Expand(dist, nodes[b.open[0].id][layer], ef, Pop(b));
      var rest := LoopTurns(nodes, layer, dist, ef, entry, next);
      trace := [b] + rest;
      forall i | 0 < i < |trace| ensures Turn(nodes, layer, dist, ef, trace[i - 1], trace[i]) {
        assert trace[i] == rest[i - 1] && (i > 1 ==> trace[i - 1] == rest[i - 2]);
      }
    }
  }

  lemma HeapsSorted(nodes: Nodes, layer: nat, dist: Oracle, ef: nat, entry: nat, b: Beam)
    requires BeamInv(nodes, layer, dist, ef, entry, b, None)
    ensures Sorted(b.open) && Sorted(b.best) && b.best != []
  {
  }

  /**
   * Beam search, turn by turn: it starts with the entry alone, takes turns as long as the nearest open
   * candidate can still gain something, and returns the results it then has.
   */
  lemma SearchTurns(nodes: Nodes, layer: nat, dist: Oracle, entry: nat, ef: nat) returns (trace: seq<Beam>)
    requires LayerClosed(nodes, layer) && entry in OnLayer(nodes, layer)
    ensures trace != [] && Turns(nodes, layer, dist, ef, trace)
    ensures var n := Neighbor(entry, dist(entry)); trace[0] == Beam([n], [n], {entry})
    ensures var last := trace[|trace| - 1];
            && (last.open == [] || NothingToGain(ef, last))
            && SearchLayer(nodes, layer, dist, entry, ef) == last.best
  {
    var b := StartBeam(dist, entry);
    StartWithin(nodes, layer, dist, entry);
    ReachSelf(nodes, layer, entry);
    assert BeamInv(nodes, layer, dist, ef, entry, b, None);
    trace := LoopTurns(nodes, layer, dist, ef, entry, b);
  }

  // --- Algorithm 5: greedy descent, then beam search on layer 0 ------------------

  /** Walk one list, moving to every link that improves on the best so far. */
  ghost function GreedyScan(dist: Oracle, links: Links, at: nat): (r: nat)
    ensures r == at || r in links
    ensures dist(r) <= dist(at) && (r != at ==> dist(r) < dist(at))
    ensures forall j | 0 <= j < |links| :: dist(r) <= dist(links[j])
    decreases |links|
  {
    if links == [] then at
    else GreedyScan(dist, links[1..], if dist(links[0]) < dist(at) then links[0] else at)
  }

  ghost function Closer(nodes: Nodes, layer: nat, dist: Oracle, at: nat): set<nat> {
    set x | x in OnLayer(nodes, layer) && dist(x) < dist(at)
  }

  lemma CloserShrinks(nodes: Nodes, layer: nat, dist: Oracle, at: nat, next: nat)
    requires next in OnLayer(nodes, layer) && dist(next) < dist(at)
    ensures Closer(nodes, layer, dist, next) < Closer(nodes, layer, dist, at)
  {
    assert next in Closer(nodes, layer, dist, at);
  }

  /** `greedy_descend`: scan until nothing improves. Each round the set of closer nodes shrinks. */
  ghost function Greedy(nodes: Nodes, layer: nat, dist: Oracle, at: nat): (r: nat)
    requires LayerClosed(nodes, layer) && at in OnLayer(nodes, layer)
    ensures r in OnLayer(nodes, layer)
    decreases Closer(nodes, layer, dist, at)
  {
    var next := GreedyScan(dist, nodes[at][layer], at);
    if next == at then at else
      CloserShrinks(nodes, layer, dist, at, next);
      Greedy(nodes, layer, dist, next)
  }

  /** Greedy descent ends in a local minimum that its start reaches and that is no farther. */
  lemma {:induction false} GreedyIsLocalMinimum(nodes: Nodes, layer: nat, dist: Oracle, at: nat)
    requires LayerClosed(nodes, layer) && at in OnLayer(nodes, layer)
    ensures var r := Greedy(nodes, layer, dist, at);
            && dist(r) <= dist(at)
            && Reachable(nodes, layer, at, r)
            && forall j | 0 <= j < |nodes[r][layer]| :: dist(r) <= dist(nodes[r][layer][j])
    decreases Closer(nodes, layer, dist, at)
  {
    var next := GreedyScan(dist, nodes[at][layer], at);
    ReachSelf(nodes, layer, at);
    if next != at {
      CloserShrinks(nodes, layer, dist, at, next);
      GreedyIsLocalMinimum(nodes, layer, dist, next);
      var r := Greedy(nodes, layer, dist, next);
      var p :| IsPath(nodes, layer, p) && p[0] == next && p[|p| - 1] == r;
      var q := [at] + p;
      assert IsPath(nodes, layer, q) && q[0] == at && q[|q| - 1] == r;
    }
  }

  lemma LayersNest(nodes: Nodes, hi: nat, lo: nat)
    requires lo <= hi
    ensures OnLayer(nodes, hi) <= OnLayer(nodes, lo)
  {
  }

  /** Zoom in through layers `top, top - 1, .., floor`. */
  ghost function Descend(nodes: Nodes, dist: Oracle, at: nat, top: nat, floor: nat): (r: nat)
    requires Navigable(nodes) && at in OnLayer(nodes, top) && 0 < floor
    ensures r in OnLayer(nodes, Min(top, floor))
    ensures top < floor ==> r == at
    decreases top
  {
    if top < floor then at
    else
      assert LayerClosed(nodes, top);
      var next := Greedy(nodes, top, dist, at);
      LayersNest(nodes, top, top - 1);
      if top == floor then next else Descend(nodes, dist, next, top - 1, floor)
  }

  /** A local minimum of the layer: no link leads to a closer node. */
  ghost predicate LocalMinimum(nodes: Nodes, layer: nat, dist: Oracle, at: nat) {
    at in OnLayer(nodes, layer) && forall j | 0 <= j < |nodes[at][layer]| :: dist(at) <= dist(nodes[at][layer][j])
  }

  /** A stop of the descent: a local minimum of the layer that `from` reaches on it, no farther than `from`. */
  ghost predicate Stop(nodes: Nodes, dist: Oracle, layer: nat, from: nat, to: nat) {
    LocalMinimum(nodes, layer, dist, to) && Reachable(nodes, layer, from, to) && dist(to) <= dist(from)
  }

  /** One stop after the other on the layers `top, top - 1, ..`. */
  ghost predicate Stops(nodes: Nodes, dist: Oracle, top: nat, stops: seq<nat>) {
    && 0 < |stops| <= top + 2
    && forall i | 0 <= i < |stops| - 1 :: Stop(nodes, dist, top - i, stops[i], stops[i + 1])
  }

  /** The descent stops once on every layer from `top` to `floor`, and ends no farther than it began. */
  lemma {:induction false} DescendStops(nodes: Nodes, dist: Oracle, at: nat, top: nat, floor: nat)
    returns (stops: seq<nat>)
    requires Navigable(nodes) && at in OnLayer(nodes, top) && 0 < floor <= top + 1
    ensures |stops| == top + 2 - floor && Stops(nodes, dist, top, stops)
    ensures stops[0] == at && stops[|stops| - 1] == Descend(nodes, dist, at, top, floor)
    ensures dist(Descend(nodes, dist, at, top, floor)) <= dist(at)
    decreases top
  {
    hide Greedy, Reachable, Navigable, LocalMinimum;
    if top < floor {
      stops := [at];
    } else {
      NavigableLayer(nodes, top);
      var next := Greedy(nodes, top, dist, at);
      GreedyStop(nodes, top, dist, at);
      LayersNest(nodes, top, top - 1);
      var rest := [next];
      if top > floor { rest := DescendStops(nodes, dist, next, top - 1, floor); }
      stops := [at] + rest;
      forall i | 0 <= i < |stops| - 1 ensures Stop(nodes, dist, top - i, stops[i], stops[i + 1]) {
        if i > 0 { assert stops[i] == rest[i - 1] && stops[i + 1] == rest[i - 1 + 1]; }
      }
    }
  }

  lemma GreedyStop(nodes: Nodes, layer: nat, dist: Oracle, at: nat)
    requires LayerClosed(nodes, layer) && at in OnLayer(nodes, layer)
    ensures Stop(nodes, dist, layer, at, Greedy(nodes, layer, dist, at))
  {
    hide Greedy;
    GreedyIsLocalMinimum(nodes, layer, dist, at);
  }

  /** Where the layer-0 beam search of `search_with_oracle` starts. */
  ghost function SearchStart(g: Graph, dist: Oracle): (r: nat)
    requires Sane(g) && g.entry.Some?
    ensures r in OnLayer(g.nodes, 0)
  {
    var e := g.entry.value;
    var r := Descend(g.nodes, dist, e.id, e.level, 1);
    LayersNest(g.nodes, Min(e.level, 1), 0);
    r
  }

  /**
   * The layer-0 search starts where a descent from the entry through all upper layers stops: at a local
   * minimum of layer 1, if there is one, and no farther away than the entry.
   */
  lemma SearchStartStops(g: Graph, dist: Oracle) returns (stops: seq<nat>)
    requires Sane(g) && g.entry.Some?
    ensures |stops| == g.entry.value.level + 1 && Stops(g.nodes, dist, g.entry.value.level, stops)
    ensures stops[0] == g.entry.value.id && stops[|stops| - 1] == SearchStart(g, dist)
    ensures dist(SearchStart(g, dist)) <= dist(g.entry.value.id)
    ensures g.entry.value.level > 0 ==> LocalMinimum(g.nodes, 1, dist, SearchStart(g, dist))
  {
    hide LocalMinimum, Reachable, Descend, Navigable;
    var e := g.entry.value;
    stops := DescendStops(g.nodes, dist, e.id, e.level, 1);
    if e.level > 0 {
      assert Stop(g.nodes, dist, e.level - (e.level - 1), stops[e.level - 1], stops[e.level - 1 + 1]);
    }
  }

  /** `search_with_oracle`. */
  ghost function SearchGraph(g: Graph, dist: Oracle, k: nat, ef: nat): seq<Neighbor>
    requires Sane(g)
  {
    if g.entry.None? then []
    else
      assert LayerClosed(g.nodes, 0);
      Take(SearchLayer(g.nodes, 0, dist, SearchStart(g, dist), Max(ef, k)), k)
  }

  /** Every hit is a node of the index, at the distance the oracle gives it; hits are sorted and distinct. */
  lemma HitsAreNodes(g: Graph, dist: Oracle, k: nat, ef: nat)
    requires Sane(g)
    ensures var hits := SearchGraph(g, dist, k, ef);
            && |hits| <= k && Sorted(hits) && DistinctIds(hits) && ScoredBy(hits, dist) && Ascending(hits)
            && forall n | n in hits :: n.id < |g.nodes| && n.distance == dist(n.id)
  {
    hide SearchLayer, SearchStart, Ascending;
    if g.entry.Some? {
      assert LayerClosed(g.nodes, 0);
      var start := SearchStart(g, dist);
      var visited := SearchLayerCorrect(g.nodes, 0, dist, start, Max(ef, k));
      var found := SearchLayer(g.nodes, 0, dist, start, Max(ef, k));
      forall n | n in found ensures n.id < |g.nodes| {
        InIdSet(found, n);
        assert n.id in OnLayer(g.nodes, 0);
      }
      SortedAscending(SearchGraph(g, dist, k, ef));
    } else {
      SortedAscending([]);
    }
  }

  // --- when search is exact -------------------------------------------------------

  lemma InIdSet(s: seq<Neighbor>, n: Neighbor)
    ensures n in s ==> n.id in IdSet(s)
  {
  }

  lemma {:induction false} DistinctCount(s: seq<Neighbor>, x: Neighbor)
    requires DistinctIds(s)
    ensures multiset(s)[x] == if x in s then 1 else 0
  {
    if s != [] {
      assert s == [s[0]] + s[1..];
      IdSetCons(s);
      DistinctCount(s[1..], x);
      InIdSet(s[1..], s[0]);
    }
  }

  /** A sub-multiset of a list without repeated ids has no repeated ids. */
  lemma DistinctPart(part: seq<Neighbor>, whole: seq<Neighbor>)
    requires DistinctIds(whole) && multiset(part) <= multiset(whole)
    ensures DistinctIds(part)
  {
    forall i, j | 0 <= i < j < |part| ensures part[i].id != part[j].id {
      var x, y := part[i], part[j];
      assert x in multiset(part) && y in multiset(part);
      var a :| 0 <= a < |whole| && whole[a] == x;
      var b :| 0 <= b < |whole| && whole[b] == y;
      DistinctCount(whole, x);
      if x == y { RepeatCount(part, i, j); }
    }
  }

  lemma RepeatCount(s: seq<Neighbor>, i: nat, j: nat)
    requires i < j < |s| && s[i] == s[j]
    ensures multiset(s)[s[i]] >= 2
  {
    assert s == s[..i] + [s[i]] + s[i + 1..j] + [s[i]] + s[j + 1..];
  }

  /** `0, 1, .., n - 1`. */
  ghost function AllIds(n: nat): (r: set<nat>)
    ensures forall id: nat :: id in r <==> id < n
    ensures |r| == n
  {
    if n == 0 then {} else AllIds(n - 1) + {n - 1}
  }

  lemma SortedAscending(s: seq<Neighbor>)
    requires Sorted(s) && DistinctIds(s)
    ensures Ascending(s)
  {
    forall i, j | 0 <= i < j < |s| ensures Less(s[i], s[j]) {
      assert LessEq(s[i], s[j]) && s[i].id != s[j].id;
    }
  }

  /** Sorting and cutting to `k` gives the `k` nearest of the ids listed. */
  lemma TopKIsNearest(all: seq<Neighbor>, dist: Oracle, k: nat)
    requires DistinctIds(all) && ScoredBy(all, dist)
    ensures NearestOf(TopK(all, k), dist, IdSet(all), k)
  {
    hide Sort, NearestOf, Ascending;
    var u := Sort(all);
    SortCorrect(all);
    DistinctPart(u, all);
    SortedAscending(u);
    SameMembers(u, all);
    assert IdSet(u) == IdSet(all);
    IdSetSize(u);
    CutIsNearest(u, dist, k);
  }

  /** The first `k` of an ascending list. */
  lemma CutIsNearest(u: seq<Neighbor>, dist: Oracle, k: nat)
    requires Ascending(u) && ScoredBy(u, dist) && |IdSet(u)| == |u|
    ensures NearestOf(Take(u, k), dist, IdSet(u), k)
  {
    hide Ascending;
    var out := Take(u, k);
    CutAscending(u, |out|);
    forall n, x | n in out && x in IdSet(u) && (forall i | 0 <= i < |out| :: out[i].id != x)
      ensures dist(n.id) < dist(x) || (dist(n.id) == dist(x) && n.id < x)
    {
      var i :| 0 <= i < |out| && out[i] == n;
      var j :| 0 <= j < |u| && u[j].id == x;
      assert j >= |out| && u[i] == n;
      AscendingAt(u, i, j);
    }
  }

  lemma SameMembers(a: seq<Neighbor>, b: seq<Neighbor>)
    requires multiset(a) == multiset(b)
    ensures forall n :: n in a <==> n in b
  {
    forall n ensures n in a <==> n in b {
      assert n in a <==> n in multiset(a);
      assert n in b <==> n in multiset(b);
    }
  }

  lemma CutAscending(s: seq<Neighbor>, k: nat)
    requires Ascending(s) && k <= |s|
    ensures Ascending(s[..k])
  {
  }

  lemma AscendingAt(s: seq<Neighbor>, i: nat, j: nat)
    requires Ascending(s) && i < j < |s|
    ensures s[i].distance < s[j].distance || (s[i].distance == s[j].distance && s[i].id < s[j].id)
  {
  }

  /** Two lists that score the same ids the same way, without repeats, are permutations. */
  lemma SameIdsSameItems(a: seq<Neighbor>, b: seq<Neighbor>, dist: Oracle)
    requires DistinctIds(a) && DistinctIds(b) && ScoredBy(a, dist) && ScoredBy(b, dist)
    requires IdSet(a) == IdSet(b)
    ensures multiset(a) == multiset(b)
  {
    forall x ensures multiset(a)[x] == multiset(b)[x] {
      DistinctCount(a, x);
      DistinctCount(b, x);
      if x in a { assert x.id in IdSet(b); }
      if x in b { assert x.id in IdSet(a); }
    }
  }

  /** A beam wide enough for everything reachable finds everything reachable. */
  lemma WideBeamFindsAll(nodes: Nodes, layer: nat, dist: Oracle, entry: nat, ef: nat, reach: set<nat>)
    requires LayerClosed(nodes, layer) && entry in OnLayer(nodes, layer)
    requires forall v :: v in reach <==> Reachable(nodes, layer, entry, v)
    requires |reach| <= Max(ef, 1)
    ensures IdSet(SearchLayer(nodes, layer, dist, entry, ef)) == reach
  {
    hide SearchLayer;
    var best := SearchLayer(nodes, layer, dist, entry, ef);
    var visited := SearchLayerCorrect(nodes, layer, dist, entry, ef);
    assert visited <= reach;
    SubsetSize(visited, reach);
    IdSetSize(best);
    EqualSize(IdSet(best), visited);
    forall v | v in reach ensures v in visited {
      var p :| IsPath(nodes, layer, p) && p[0] == entry && p[|p| - 1] == v;
      forall i, j | i in visited && 0 <= j < |nodes[i][layer]| ensures nodes[i][layer][j] in visited {
        var n :| n in best && n.id == i;
        assert Expanded(nodes, layer, n.id, visited);
      }
      ReachWithin(nodes, layer, visited, p);
    }
  }

  lemma EqualSize(a: set<nat>, b: set<nat>)
    requires a <= b && |a| == |b|
    ensures a == b
  {
    assert b == a + (b - a);
    assert |b - a| == 0;
  }

  /**
   * When `max(ef, k)` is at least the number of nodes layer-0-reachable from the descended entry,
   * the answer is exactly the `k` least of that set: `all` is any listing of it.
   */
  lemma WideSearchIsExact(g: Graph, dist: Oracle, k: nat, ef: nat, all: seq<Neighbor>)
    requires Sane(g) && g.entry.Some?
    requires DistinctIds(all) && ScoredBy(all, dist)
    requires forall v :: v in IdSet(all) <==> Reachable(g.nodes, 0, SearchStart(g, dist), v)
    requires |all| <= Max(Max(ef, k), 1)
    ensures SearchGraph(g, dist, k, ef) == TopK(all, k)
    ensures NearestOf(SearchGraph(g, dist, k, ef), dist, IdSet(all), k)
  {
    hide SearchLayer, SearchStart, NearestOf;
    TopKIsNearest(all, dist, k);
    var entry, wide := SearchStart(g, dist), Max(ef, k);
    assert LayerClosed(g.nodes, 0);
    var best := SearchLayer(g.nodes, 0, dist, entry, wide);
    var visited := SearchLayerCorrect(g.nodes, 0, dist, entry, wide);
    IdSetSize(all);
    WideBeamFindsAll(g.nodes, 0, dist, entry, wide, IdSet(all));
    SameIdsSameItems(best, all, dist);
    SortCorrect(all);
    SortedUnique(best, Sort(all));
  }

  /**
   * If moreover every node is reachable, graph search gives brute force's answer: `rows` is what
   * the brute-force scan scores.
   */
  lemma FullyReachableIsBruteForce(g: Graph, dist: Oracle, k: nat, ef: nat, rows: seq<Neighbor>)
    requires Sane(g) && g.entry.Some?
    requires |rows| == |g.nodes| <= Max(Max(ef, k), 1)
    requires forall i | 0 <= i < |rows| :: rows[i] == Neighbor(i, dist(i))
    requires forall v | 0 <= v < |g.nodes| :: Reachable(g.nodes, 0, SearchStart(g, dist), v)
    ensures SearchGraph(g, dist, k, ef) == TopK(rows, k)
  {
    hide SearchGraph, SearchStart;
    forall v: nat ensures v in IdSet(rows) <==> Reachable(g.nodes, 0, SearchStart(g, dist), v) {
      if v < |rows| { assert rows[v] in rows; }
    }
    WideSearchIsExact(g, dist, k, ef, rows);
  }

  /** Some listing of `ids`, scored. */
  lemma {:induction false} Listing(ids: set<nat>, dist: Oracle) returns (all: seq<Neighbor>)
    ensures DistinctIds(all) && ScoredBy(all, dist) && IdSet(all) == ids && |all| == |ids|
    decreases |ids|
  {
    if ids == {} {
      all := [];
    } else {
      var id :| id in ids;
      var rest := Listing(ids - {id}, dist);
      all := [Neighbor(id, dist(id))] + rest;
      assert all[1..] == rest;
      forall j | 0 <= j < |rest| ensures rest[j].id != id { InIdSet(rest, rest[j]); }
      assert DistinctIds(all);
      IdSetCons(all);
    }
  }

  /** `WideSearchIsExact`, for the set itself. */
  lemma ReachedIsNearest(g: Graph, dist: Oracle, k: nat, ef: nat, reach: set<nat>)
    requires Sane(g) && g.entry.Some?
    requires forall v :: v in reach <==> Reachable(g.nodes, 0, SearchStart(g, dist), v)
    requires |reach| <= Max(Max(ef, k), 1)
    ensures NearestOf(SearchGraph(g, dist, k, ef), dist, reach, k)
  {
    hide SearchGraph, SearchStart, NearestOf, IdSet;
    var all := Listing(reach, dist);
    WideSearchIsExact(g, dist, k, ef, all);
  }

  lemma NothingIsNearest(g: Graph, dist: Oracle, k: nat, ef: nat)
    requires Sane(g) && g.entry.None?
    ensures NearestOf(SearchGraph(g, dist, k, ef), dist, {}, k)
  {
  }

  // --- unreachable points ---------------------------------------------------------

  ghost predicate NoInLinks(nodes: Nodes, layer: nat, id: nat) {
    forall i | i in OnLayer(nodes, layer) :: id !in nodes[i][layer]
  }

  /** Descending through the upper layers ends at the entry or at a node of level at least one. */
  lemma {:induction false} DescendLevel(nodes: Nodes, dist: Oracle, at: nat, top: nat)
    requires Navigable(nodes) && at in OnLayer(nodes, top)
    ensures var r := Descend(nodes, dist, at, top, 1); r == at || r in OnLayer(nodes, 1)
    decreases top
  {
    if top > 1 {
      assert LayerClosed(nodes, top);
      LayersNest(nodes, top, top - 1);
      LayersNest(nodes, top, 1);
      DescendLevel(nodes, dist, Greedy(nodes, top, dist, at), top - 1);
    }
  }

  lemma PathAvoids(nodes: Nodes, layer: nat, id: nat, p: seq<nat>)
    requires IsPath(nodes, layer, p) && p[0] != id && NoInLinks(nodes, layer, id)
    ensures p[|p| - 1] != id
  {
    if |p| > 1 {
      assert p[|p| - 1] in nodes[p[|p| - 2]][layer];
    }
  }

  /** What nothing links to, nothing else reaches. */
  lemma UnlinkedUnreachable(nodes: Nodes, layer: nat, a: nat, id: nat)
    requires a != id && NoInLinks(nodes, layer, id)
    ensures !Reachable(nodes, layer, a, id)
  {
    forall p | IsPath(nodes, layer, p) && p[0] == a ensures p[|p| - 1] != id {
      PathAvoids(nodes, layer, id, p);
    }
  }

  /**
   * A node that lives on layer 0 only, is not the entry, and has no layer-0 in-links is never
   * returned, at any `k` and `ef`.
   */
  lemma OrphanNeverFound(g: Graph, dist: Oracle, k: nat, ef: nat, id: nat)
    requires Sane(g) && id < |g.nodes| && |g.nodes[id]| == 1
    requires g.entry.Some? && g.entry.value.id != id
    requires NoInLinks(g.nodes, 0, id)
    ensures id !in IdSet(SearchGraph(g, dist, k, ef))
  {
    hide SearchLayer;
    var e, start := g.entry.value, SearchStart(g, dist);
    DescendLevel(g.nodes, dist, e.id, e.level);
    assert start != id;
    assert LayerClosed(g.nodes, 0);
    var best := SearchLayer(g.nodes, 0, dist, start, Max(ef, k));
    var visited := SearchLayerCorrect(g.nodes, 0, dist, start, Max(ef, k));
    UnlinkedUnreachable(g.nodes, 0, start, id);
  }

  /**
   * Exactly when a node without layer-0 in-links can be found at all: for a query whose descent
   * through the upper layers ends at it. (`Orphan` has a graph and a query for which it does.)
   */
  lemma OrphanFoundIff(g: Graph, dist: Oracle, id: nat)
    requires Sane(g) && g.entry.Some? && NoInLinks(g.nodes, 0, id)
    ensures (exists k: nat, ef: nat :: id in IdSet(SearchGraph(g, dist, k, ef))) <==> SearchStart(g, dist) == id
  {
    hide SearchLayer, SearchStart;
    var start := SearchStart(g, dist);
    assert LayerClosed(g.nodes, 0);
    forall k: nat, ef: nat | id in IdSet(SearchGraph(g, dist, k, ef)) ensures start == id {
      var visited := SearchLayerCorrect(g.nodes, 0, dist, start, Max(ef, k));
      assert id in IdSet(SearchLayer(g.nodes, 0, dist, start, Max(ef, k)));
      if start != id { UnlinkedUnreachable(g.nodes, 0, start, id); }
    }
    if start == id {
      var k := |OnLayer(g.nodes, 0)| + 1;
      var best := SearchLayer(g.nodes, 0, dist, start, k);
      var visited := SearchLayerCorrect(g.nodes, 0, dist, start, k);
      SubsetSize(visited, OnLayer(g.nodes, 0));
      IdSetSize(best);
      EqualSize(IdSet(best), visited);
      assert SearchGraph(g, dist, k, k) == best;
    }
  }
}
