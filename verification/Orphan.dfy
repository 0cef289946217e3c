/**
 * A sequentially built index with a node that nothing links to on layer 0 and that search finds all
 * the same, by way of layer 1.
 *
 * M = 2, six rows in space, inserted in order. Row 0 (level 1) is the hub, row 1 lies next to it, rows
 * 2, 3 and 4 lie in three directions around them and fill the lists of both. Row 5 (level 1) lies
 * farther out in a fourth direction: it links to rows 0 and 1, and both, being full, drop it again. On
 * layer 1 row 0 has room and keeps it.
 */
module Orphan {
  import opened Common
  import opened Neighbors
  import opened Graph
  import opened Search
  import opened Select
  import opened Insertion
  import St = Structure

  datatype Point = Point(x: real, y: real, z: real)

  function Squared(a: Point, b: Point): real {
    (a.x - b.x) * (a.x - b.x) + (a.y - b.y) * (a.y - b.y) + (a.z - b.z) * (a.z - b.z)
  }

  const CFG: Config := Config(2, 200, L2)

  const ROWS: seq<Point> := [Point(0.0, 0.0, 0.0), Point(1.0, 0.0, 0.0), Point(0.0, 10.0, 0.0), Point(0.0, -11.0, 0.0),
                             Point(0.0, 0.0, 12.0), Point(0.0, 0.0, -20.0)]

  function LevelOf(id: nat): nat {
    if id == 0 || id == 5 then 1 else 0
  }

  /** The rows are ranked by id, seen from `n`, and each but the first is nearer to row 0 than to `n`. */
  ghost predicate Ranked(d: Metric, n: nat) {
    && (forall i, j | 0 <= i < j < n :: d(n, i) < d(n, j))
    && (forall i | 0 < i < n :: d(i, 0) < d(n, i))
  }

  ghost function Ranking(d: Metric, n: nat): (r: seq<Neighbor>)
    ensures |r| == n && forall i | 0 <= i < n :: r[i] == Neighbor(i, d(n, i))
  {
    seq(n, i requires 0 <= i < n => Neighbor(i, d(n, i)))
  }

  /** `lo, lo + 1, .., hi - 1`. */
  function Ids(lo: nat, hi: nat): (r: seq<nat>)
    requires lo <= hi
    ensures |r| == hi - lo && forall i | 0 <= i < |r| :: r[i] == lo + i
  {
    seq(hi - lo, i => lo + i)
  }

  /** Rows 0 and 1 link to everything and everything links to them. */
  function Star(n: nat): (r: Nodes)
    requires n >= 2
    ensures |r| == n
  {
    seq(n, i requires 0 <= i < n =>
      if i == 0 then [Ids(1, n), []] else if i == 1 then [[0] + Ids(2, n)] else [[0, 1]])
  }

  ghost function Hub(nodes: Nodes): Graph {
    Graph(nodes, Some(Entry(0, 1)))
  }

  /** Beam search for the new row `n` finds all others, in the order of their ids. */
  lemma HubFinds(d: Metric, nodes: Nodes, n: nat)
    requires LayerClosed(nodes, 0) && |nodes| == n + 1 && 0 < n <= 200 && Ranked(d, n)
    requires forall i | 0 <= i <= n :: |nodes[i]| > 0
    requires nodes[0][0] == Ids(1, n) && NoInLinks(nodes, 0, n)
    ensures SearchLayer(nodes, 0, Toward(d, n), 0, 200) == Ranking(d, n)
  {
    hide SearchLayer;
    var dist, all := Toward(d, n), Ranking(d, n);
    var found := SearchLayer(nodes, 0, dist, 0, 200);
    forall v: nat ensures v in IdSet(all) <==> Reachable(nodes, 0, 0, v) {
      ReachSelf(nodes, 0, 0);
      if 0 < v < n {
        assert nodes[0][0][v - 1] == v;
        ReachStep(nodes, 0, 0, 0, v);
      }
      if v < n { assert all[v] in all; }
      if v == n { UnlinkedUnreachable(nodes, 0, 0, n); }
    }
    IdSetSize(all);
    var visited := SearchLayerCorrect(nodes, 0, dist, 0, 200);
    WideBeamFindsAll(nodes, 0, dist, 0, 200, IdSet(all));
    SameIdsSameItems(found, all, dist);
    SortedUnique(found, all);
  }

  /** The heuristic takes the two nearest: row 0, and row 1 from the pruned ones. */
  lemma HubChosen(d: Metric, n: nat)
    requires n > 0 && Ranked(d, n)
    ensures Chosen(CFG, d, Ranking(d, n), n) == if n == 1 then [0] else [0, 1]
  {
    hide SelectNeighbors, Without, Ranking;
    var all := Ranking(d, n);
    assert Without(all, n) == all by { WithoutPart(all, n); }
    FirstDominates(d, all, 2);
    assert ListIds(Take(all, 2)) == if n == 1 then [0] else [0, 1];
  }

  lemma StarLinks(n: nat, i: nat, j: nat)
    requires 2 <= n && i < n && j < |Star(n)[i][0]|
    ensures Star(n)[i][0][j] < n
  {
    if i == 0 {
      assert Star(n)[0][0] == Ids(1, n);
    } else if i == 1 {
      assert Star(n)[1][0] == [0] + Ids(2, n);
      if j > 0 { assert Star(n)[1][0][j] == Ids(2, n)[j - 1]; }
    } else {
      assert Star(n)[i][0] == [0, 1];
    }
  }

  lemma StarShape(n: nat, level: nat)
    requires 2 <= n
    ensures Sane(Hub(Star(n))) && NoInLinks(Star(n) + [NewNode(level)], 0, n)
  {
    var nodes := Star(n);
    forall layer: nat ensures LayerClosed(nodes, layer) {
      forall i, j | i in OnLayer(nodes, layer) && 0 <= j < |nodes[i][layer]|
        ensures nodes[i][layer][j] in OnLayer(nodes, layer)
      {
        if layer == 0 { StarLinks(n, i, j); }
      }
    }
    var more := nodes + [NewNode(level)];
    forall i | i in OnLayer(more, 0) ensures n !in more[i][0] {
      if i < n && n in nodes[i][0] {
        var j :| 0 <= j < |nodes[i][0]| && nodes[i][0][j] == n;
        StarLinks(n, i, j);
      }
    }
  }

  /** Rows 1, 2, 3 and 4: each links to rows 0 and 1 and is linked back from both. */
  lemma StarGrows(d: Metric, n: nat)
    requires 2 <= n <= 4 && Ranked(d, n)
    ensures Sane(Hub(Star(n))) && Insert(CFG, d, Hub(Star(n)), 0) == Hub(Star(n + 1))
  {
    hide SearchLayer, Sift, Picked, SelectNeighbors, Chosen;
    StarShape(n, 0);
    var nodes := Star(n) + [NewNode(0)];
    AddNodeNavigable(Star(n), 0);
    assert LayerClosed(nodes, 1) && LayerClosed(nodes, 0);
    assert Greedy(nodes, 1, Toward(d, n), 0) == 0;
    HubFinds(d, nodes, n);
    HubChosen(d, n);
    ChosenOn(CFG, d, nodes, 0, n, 0, 200);
    LinkBoth(d, nodes, n);
  }

  /** The nodes once row `n` has its own list, and once row 0 has linked back. */
  ghost function Mine(n: nat): Nodes
    requires 2 <= n
  {
    SetLinks(Star(n) + [NewNode(0)], n, 0, [0, 1])
  }

  ghost function HubBack(n: nat): Nodes
    requires 2 <= n
  {
    SetLinks(Mine(n), 0, 0, Ids(1, n + 1))
  }

  lemma LinkHub(d: Metric, n: nat)
    requires 2 <= n <= 4 && Navigable(Mine(n))
    ensures 0 in OnLayer(Mine(n), 0) && n in OnLayer(Mine(n), 0) && Navigable(HubBack(n))
    ensures AddBackLink(CFG, d, Mine(n), n, 0, 0) == HubBack(n)
  {
    hide SelectNeighbors, Sort, ScoreLinks;
    assert Mine(n)[0][0] == Ids(1, n);
    assert Ids(1, n) + [n] == Ids(1, n + 1);
    var one := AddBackLink(CFG, d, Mine(n), n, 0, 0);
  }

  lemma LinkNext(d: Metric, n: nat)
    requires 2 <= n <= 4 && Navigable(HubBack(n))
    ensures 1 in OnLayer(HubBack(n), 0) && n in OnLayer(HubBack(n), 0)
    ensures AddBackLink(CFG, d, HubBack(n), n, 1, 0) == Star(n + 1)
  {
    hide SelectNeighbors, Sort, ScoreLinks;
    var one := HubBack(n);
    assert one[1][0] == [0] + Ids(2, n);
    assert [0] + Ids(2, n) + [n] == [0] + Ids(2, n + 1);
    var two := AddBackLink(CFG, d, one, n, 1, 0);
    assert two == SetLinks(one, 1, 0, [0] + Ids(2, n + 1));
    assert one[n] == [[0, 1]] && one[0] == [Ids(1, n + 1), []];
    forall i | 0 <= i < n + 1 ensures two[i] == Star(n + 1)[i] {
      if i == 1 { assert two[1] == [[0] + Ids(2, n + 1)]; }
    }
  }

  /** Linking row `n` to rows 0 and 1, which have room. */
  lemma LinkBoth(d: Metric, nodes: Nodes, n: nat)
    requires 2 <= n <= 4 && nodes == Star(n) + [NewNode(0)] && Navigable(nodes)
    requires Chosen(CFG, d, Ranking(d, n), n) == [0, 1]
    ensures n in OnLayer(nodes, 0) && AllOn(nodes, 0, [0, 1])
    ensures LinkOn(CFG, d, nodes, n, 0, Ranking(d, n)) == Star(n + 1)
  {
    hide SelectNeighbors, Sort, ScoreLinks, AddBackLink, HubBack, Chosen;
    assert Dedup([] + [0, 1]) == [0, 1];
    assert nodes[n][0] == [];
    SetLinksNavigable(nodes, n, 0, [0, 1]);
    SameLayers(nodes, Mine(n), 0);
    LinkHub(d, n);
    LinkNext(d, n);
    assert [0, 1][..1] == [0] && [0][..0] == [];
    assert AddBackLinks(CFG, d, Mine(n), n, [0], 0) == HubBack(n);
    assert AddBackLinks(CFG, d, Mine(n), n, [0, 1], 0) == Star(n + 1);
  }

  /** Rows 0 and 1. */
  lemma StarBegins(d: Metric, e: Metric)
    requires Ranked(e, 1)
    ensures Sane(EMPTY) && Sane(Insert(CFG, d, EMPTY, 1))
    ensures Insert(CFG, e, Insert(CFG, d, EMPTY, 1), 0) == Hub(Star(2))
  {
    hide SearchLayer, Sift, Picked, SelectNeighbors, Chosen, ConnectDown;
    var g := Insert(CFG, d, EMPTY, 1);
    assert NewNode(1) == [[], []] && NewNode(0) == [[]];
    assert g == Hub([[[], []]]);
    var nodes := g.nodes + [NewNode(0)];
    assert nodes == [[[], []], [[]]];
    AddNodeNavigable(g.nodes, 0);
    assert LayerClosed(nodes, 1) && LayerClosed(nodes, 0);
    assert Greedy(nodes, 1, Toward(e, 1), 0) == 0;
    FirstLink(e, nodes);
  }

  lemma FirstLink(e: Metric, nodes: Nodes)
    requires Ranked(e, 1) && nodes == [[[], []], [[]]] && Navigable(nodes)
    ensures 1 in OnLayer(nodes, 0) && 0 in OnLayer(nodes, 0)
    ensures ConnectDown(CFG, e, nodes, 1, 0, 0) == Star(2)
  {
    hide SearchLayer, SelectNeighbors, Chosen;
    assert LayerClosed(nodes, 0);
    assert nodes[0][0] == Ids(1, 1);
    HubFinds(e, nodes, 1);
    HubChosen(e, 1);
    ChosenOn(CFG, e, nodes, 0, 1, 0, 200);
    assert Dedup([] + [0]) == [0];
    var mine := SetLinks(nodes, 1, 0, [0]);
    assert nodes[1][0 := [0]] == [[0]];
    assert mine == [[[], []], [[0]]];
    SetLinksNavigable(nodes, 1, 0, [0]);
    SameLayers(nodes, mine, 0);
    assert [0][..0] == [];
    var one := AddBackLink(CFG, e, mine, 1, 0, 0);
    assert [] + [1] == [1] && BackLink(e, mine[0][0], 0, 1, 4) == [1];
    assert mine[0][0 := [1]] == [[1], []];
    assert one == [[[1], []], [[0]]];
    assert AddBackLinks(CFG, e, mine, 1, [0], 0) == one;
    assert Ids(1, 2) == [1] && [0] + Ids(2, 2) == [0];
    assert one == Star(2);
  }

  // --- row 5 ----------------------------------------------------------------------

  /** What row 5 needs: it is the farthest from rows 0 and 1; the others are spread around row 0. */
  ghost predicate Outlier(d: Metric) {
    && Ranked(d, 5)
    && (forall i, j | 1 <= i < j <= 5 :: d(0, i) < d(0, j))
    && (forall i, j | 1 <= i < j <= 4 :: d(j, i) >= d(0, j))
    && d(1, 0) < d(1, 2) && (forall i, j | 2 <= i < j <= 5 :: d(1, i) < d(1, j))
    && (forall j | 2 <= j <= 5 :: d(j, 0) < d(1, j))
  }

  /** Row 0 is full, and its four neighbours are spread: row 5 is dropped. */
  lemma HubDrops(d: Metric)
    requires Outlier(d)
    ensures BackLink(d, [1, 2, 3, 4], 0, 5, 4) == [1, 2, 3, 4]
  {
    hide Sort, SelectNeighbors;
    var cands := ScoreLinks(d, 0, [1, 2, 3, 4] + [5]);
    assert Sorted(cands);
    SortOfSorted(cands);
    SpreadFirst(d, cands, 4);
    assert ListIds(cands[..4]) == [1, 2, 3, 4];
  }

  /** Row 1 is full, and row 0 dominates all its other neighbours: the farthest, row 5, is dropped. */
  lemma NextDrops(d: Metric)
    requires Outlier(d)
    ensures BackLink(d, [0, 2, 3, 4], 1, 5, 4) == [0, 2, 3, 4]
  {
    hide Sort, SelectNeighbors;
    var cands := ScoreLinks(d, 1, [0, 2, 3, 4] + [5]);
    assert Sorted(cands);
    SortOfSorted(cands);
    FirstDominates(d, cands, 4);
    assert ListIds(Take(cands, 4)) == [0, 2, 3, 4];
  }

  /** What the heuristic needs to keep a near row 5 in the full lists of rows 0 and 1. */
  ghost predicate Close(d: Metric) {
    && Ranked(d, 5)
    && d(0, 1) < d(0, 5) < d(0, 2) < d(0, 3) < d(0, 4)
    && d(5, 1) >= d(0, 5) && d(2, 1) >= d(0, 2) && d(2, 5) >= d(0, 2)
    && d(3, 1) >= d(0, 3) && d(3, 5) >= d(0, 3) && d(3, 2) >= d(0, 3)
    && d(1, 0) < d(1, 5) < d(1, 2) < d(1, 3) < d(1, 4)
    && (forall j | 2 <= j <= 5 :: d(j, 0) < d(1, j))
  }

  /** Row 5 is offered last and sorts into second place. */
  lemma SecondPlace(d: Metric, base: nat, a: nat, b: seq<nat>)
    requires d(base, a) < d(base, 5) && forall i | 0 <= i < |b| :: d(base, 5) < d(base, b[i])
    requires forall i, j | 0 <= i < j < |b| :: d(base, b[i]) < d(base, b[j])
    ensures Sort(ScoreLinks(d, base, [a] + b + [5])) == ScoreLinks(d, base, [a] + [5] + b)
  {
    hide Sort, Sorted, ScoreLinks;
    var n0, n5, rest := ScoreLinks(d, base, [a]), ScoreLinks(d, base, [5]), ScoreLinks(d, base, b);
    ScoreBoth(d, base, [a] + b, [5]);
    ScoreBoth(d, base, [a], b);
    ScoreBoth(d, base, [a] + [5], b);
    ScoreBoth(d, base, [a], [5]);
    SecondIsSorted(d, base, a, b);
    SortPermutation(n0 + rest + n5, n0 + n5 + rest);
    SortOfSorted(n0 + n5 + rest);
  }

  lemma ScoreBoth(d: Metric, base: nat, a: seq<nat>, b: seq<nat>)
    ensures ScoreLinks(d, base, a + b) == ScoreLinks(d, base, a) + ScoreLinks(d, base, b)
  {
  }

  lemma SecondIsSorted(d: Metric, base: nat, a: nat, b: seq<nat>)
    requires d(base, a) < d(base, 5) && forall i | 0 <= i < |b| :: d(base, 5) < d(base, b[i])
    requires forall i, j | 0 <= i < j < |b| :: d(base, b[i]) < d(base, b[j])
    ensures Sorted(ScoreLinks(d, base, [a] + [5] + b))
  {
    var ids := [a] + [5] + b;
    var s := ScoreLinks(d, base, ids);
    forall i, j | 0 <= i < j < |s| ensures s[i].distance < s[j].distance {
      assert ids[j] == if j == 1 then 5 else b[j - 2];
      if i > 1 { assert ids[i] == b[i - 2]; }
    }
  }

  /** A near row takes the place of the farthest link: in the list of row 0 by the diversity rule, */
  lemma HubTakes(d: Metric)
    requires Close(d)
    ensures BackLink(d, [1, 2, 3, 4], 0, 5, 4) == [1, 5, 2, 3]
  {
    hide Sort, SelectNeighbors;
    SecondPlace(d, 0, 1, [2, 3, 4]);
    assert [1] + [2, 3, 4] + [5] == [1, 2, 3, 4] + [5] && [1] + [5] + [2, 3, 4] == [1, 5, 2, 3, 4];
    var cands := ScoreLinks(d, 0, [1, 5, 2, 3, 4]);
    HubSpread(d, cands[..4]);
    SpreadFirst(d, cands, 4);
    assert ListIds(cands[..4]) == [1, 5, 2, 3];
  }

  lemma HubSpread(d: Metric, s: seq<Neighbor>)
    requires Close(d) && s == ScoreLinks(d, 0, [1, 5, 2, 3, 4])[..4]
    ensures Spread(d, s)
  {
    hide Ranked;
    assert |s| == 4 && s[0] == Neighbor(1, d(0, 1)) && s[1] == Neighbor(5, d(0, 5)) && s[2] == Neighbor(2, d(0, 2))
        && s[3] == Neighbor(3, d(0, 3));
  }

  /** and in the list of row 1, where row 0 dominates everything else, by the top-up. */
  lemma NextTakes(d: Metric)
    requires Close(d)
    ensures BackLink(d, [0, 2, 3, 4], 1, 5, 4) == [0, 5, 2, 3]
  {
    hide Sort, SelectNeighbors, Ranked;
    SecondPlace(d, 1, 0, [2, 3, 4]);
    assert [0] + [2, 3, 4] + [5] == [0, 2, 3, 4] + [5] && [0] + [5] + [2, 3, 4] == [0, 5, 2, 3, 4];
    var cands := ScoreLinks(d, 1, [0, 5, 2, 3, 4]);
    FirstDominates(d, cands, 4);
    assert ListIds(Take(cands, 4)) == [0, 5, 2, 3];
  }

  const NEAR: Nodes := [[[1, 5, 2, 3], []], [[0, 5, 2, 3]], [[0, 1]], [[0, 1]], [[0, 1]], [[0, 1]]]

  lemma NearRowLinks(d: Metric)
    requires Close(d)
    ensures Sane(Hub(Star(5))) && Insert(CFG, d, Hub(Star(5)), 0) == Hub(NEAR)
  {
    hide SearchLayer, Sift, Picked, SelectNeighbors, Chosen, BackLink;
    StarShape(5, 0);
    var nodes := Star(5) + [NewNode(0)];
    AddNodeNavigable(Star(5), 0);
    assert LayerClosed(nodes, 1) && LayerClosed(nodes, 0);
    assert Greedy(nodes, 1, Toward(d, 5), 0) == 0;
    HubFinds(d, nodes, 5);
    HubChosen(d, 5);
    ChosenOn(CFG, d, nodes, 0, 5, 0, 200);
    NearLists(d, nodes, Ranking(d, 5));
  }

  lemma NearLists(d: Metric, nodes: Nodes, found: seq<Neighbor>)
    requires Close(d) && nodes == Star(5) + [NewNode(0)] && Navigable(nodes) && Chosen(CFG, d, found, 5) == [0, 1]
    ensures 5 in OnLayer(nodes, 0) && AllOn(nodes, 0, [0, 1]) && LinkOn(CFG, d, nodes, 5, 0, found) == NEAR
  {
    hide Chosen, BackLink, Close;
    assert Ids(1, 5) == [1, 2, 3, 4] && [0] + Ids(2, 5) == [0, 2, 3, 4] && NewNode(0) == [[]];
    assert nodes == [[[1, 2, 3, 4], []], [[0, 2, 3, 4]], [[0, 1]], [[0, 1]], [[0, 1]], [[]]];
    assert Dedup([] + [0, 1]) == [0, 1];
    var mine := SetLinks(nodes, 5, 0, [0, 1]);
    assert nodes[5][0 := [0, 1]] == [[0, 1]];
    assert mine == [[[1, 2, 3, 4], []], [[0, 2, 3, 4]], [[0, 1]], [[0, 1]], [[0, 1]], [[0, 1]]];
    SetLinksNavigable(nodes, 5, 0, [0, 1]);
    SameLayers(nodes, mine, 0);
    HubTakes(d);
    NextTakes(d);
    assert [0, 1][..1] == [0] && [0][..0] == [];
    assert mine[0][0 := [1, 5, 2, 3]] == [[1, 5, 2, 3], []] && mine[1][0 := [0, 5, 2, 3]] == [[0, 5, 2, 3]];
    var one := AddBackLink(CFG, d, mine, 5, 0, 0);
    assert one == [[[1, 5, 2, 3], []], [[0, 2, 3, 4]], [[0, 1]], [[0, 1]], [[0, 1]], [[0, 1]]];
    assert AddBackLinks(CFG, d, mine, 5, [0], 0) == one;
    assert AddBackLink(CFG, d, one, 5, 1, 0) == NEAR;
    assert AddBackLinks(CFG, d, mine, 5, [0, 1], 0) == NEAR;
  }

  /** The nodes when row 5 has linked on layer 1, and in the end. */
  const UPPER: Nodes := [[[1, 2, 3, 4], [5]], [[0, 2, 3, 4]], [[0, 1]], [[0, 1]], [[0, 1]], [[], [0]]]
  const FINAL: Nodes := [[[1, 2, 3, 4], [5]], [[0, 2, 3, 4]], [[0, 1]], [[0, 1]], [[0, 1]], [[0, 1], [0]]]

  /** On layer 1 row 5 finds row 0, links to it, and is linked back. */
  lemma UpperLinks(d: Metric, nodes: Nodes)
    requires Ranked(d, 5) && nodes == Star(5) + [NewNode(1)] && Navigable(nodes)
    ensures 0 in OnLayer(nodes, 1) && 5 in OnLayer(nodes, 1)
    ensures var found := SearchLayer(nodes, 1, Toward(d, 5), 0, 200);
            && found == [Neighbor(0, d(5, 0))]
            && AllOn(nodes, 1, Chosen(CFG, d, found, 5))
            && LinkOn(CFG, d, nodes, 5, 1, found) == UPPER
  {
    hide SelectNeighbors;
    assert LayerClosed(nodes, 1);
    var n0 := Neighbor(0, d(5, 0));
    var b := StartBeam(Toward(d, 5), 0);
    StartWithin(nodes, 1, Toward(d, 5), 0);
    assert Expand(Toward(d, 5), nodes[0][1], 200, Pop(b)) == Pop(b);
    var found := SearchLayer(nodes, 1, Toward(d, 5), 0, 200);
    assert SearchLoop(nodes, 1, Toward(d, 5), 200, b) == SearchLoop(nodes, 1, Toward(d, 5), 200, Pop(b));
    assert found == [n0];
    assert [n0][..0] == [];
    assert Without([n0], 5) == [n0];
    FirstDominates(d, [n0], 2);
    assert ListIds(Take([n0], 2)) == [0];
    UpperLists(d, nodes, found);
  }

  lemma UpperLists(d: Metric, nodes: Nodes, found: seq<Neighbor>)
    requires nodes == Star(5) + [NewNode(1)] && Navigable(nodes) && Chosen(CFG, d, found, 5) == [0]
    ensures 5 in OnLayer(nodes, 1) && AllOn(nodes, 1, [0]) && LinkOn(CFG, d, nodes, 5, 1, found) == UPPER
  {
    hide Chosen;
    assert Ids(1, 5) == [1, 2, 3, 4] && [0] + Ids(2, 5) == [0, 2, 3, 4] && NewNode(1) == [[], []];
    assert nodes == [[[1, 2, 3, 4], []], [[0, 2, 3, 4]], [[0, 1]], [[0, 1]], [[0, 1]], [[], []]];
    assert Dedup([] + [0]) == [0];
    var mine := SetLinks(nodes, 5, 1, [0]);
    assert nodes[5][1 := [0]] == [[], [0]];
    assert mine == [[[1, 2, 3, 4], []], [[0, 2, 3, 4]], [[0, 1]], [[0, 1]], [[0, 1]], [[], [0]]];
    SetLinksNavigable(nodes, 5, 1, [0]);
    SameLayers(nodes, mine, 1);
    assert [0][..0] == [];
    assert [] + [5] == [5] && BackLink(d, mine[0][1], 0, 5, 2) == [5];
    assert mine[0][1 := [5]] == [[1, 2, 3, 4], [5]];
    assert AddBackLink(CFG, d, mine, 5, 0, 1) == UPPER;
    assert AddBackLinks(CFG, d, mine, 5, [0], 1) == UPPER;
  }

  /** On layer 0 it links to rows 0 and 1, which both drop it. */
  lemma LowerLinks(d: Metric)
    requires Outlier(d) && Navigable(UPPER)
    ensures 0 in OnLayer(UPPER, 0) && 5 in OnLayer(UPPER, 0)
    ensures ConnectDown(CFG, d, UPPER, 5, 0, 0) == FINAL
  {
    hide SearchLayer, SelectNeighbors, Chosen, BackLink;
    assert LayerClosed(UPPER, 0);
    assert UPPER[0][0] == Ids(1, 5);
    HubFinds(d, UPPER, 5);
    HubChosen(d, 5);
    ChosenOn(CFG, d, UPPER, 0, 5, 0, 200);
    assert Dedup([] + [0, 1]) == [0, 1];
    var mine := SetLinks(UPPER, 5, 0, [0, 1]);
    assert UPPER[5][0 := [0, 1]] == [[0, 1], [0]];
    assert mine == FINAL;
    SetLinksNavigable(UPPER, 5, 0, [0, 1]);
    SameLayers(UPPER, mine, 0);
    HubDrops(d);
    NextDrops(d);
    assert [0, 1][..1] == [0] && [0][..0] == [];
    assert FINAL[0][0 := [1, 2, 3, 4]] == FINAL[0] && FINAL[1][0 := [0, 2, 3, 4]] == FINAL[1];
    assert AddBackLink(CFG, d, FINAL, 5, 0, 0) == FINAL;
    assert AddBackLink(CFG, d, FINAL, 5, 1, 0) == FINAL;
    assert AddBackLinks(CFG, d, mine, 5, [0], 0) == FINAL;
    assert AddBackLinks(CFG, d, mine, 5, [0, 1], 0) == FINAL;
  }

  lemma RowFive(d: Metric)
    requires Outlier(d)
    ensures Sane(Hub(Star(5))) && Insert(CFG, d, Hub(Star(5)), 1) == Hub(FINAL)
  {
    hide SearchLayer, SelectNeighbors, Chosen, LinkOn;
    StarShape(5, 1);
    var nodes := Star(5) + [NewNode(1)];
    AddNodeNavigable(Star(5), 1);
    UpperLinks(d, nodes);
    LowerLinks(d);
  }

  // --- the whole construction -------------------------------------------------------------

  /** The distances between the first `n + 1` rows. */
  ghost function Distances(n: nat): Metric
    requires n < 6
  {
    Pairwise(Squared, ROWS[..n + 1])
  }

  lemma DistanceOf(n: nat, i: nat, j: nat)
    requires n < 6 && i <= n && j <= n
    ensures Distances(n)(i, j) == Squared(ROWS[i], ROWS[j])
  {
    hide Squared;
  }

  /** The distances from row `i` to rows 0, 1, .. */
  const TABLE: seq<seq<real>> := [
    [0.0, 1.0, 100.0, 121.0, 144.0, 400.0],
    [1.0, 0.0, 101.0, 122.0, 145.0, 401.0],
    [100.0, 101.0, 0.0, 441.0, 244.0, 500.0],
    [121.0, 122.0, 441.0, 0.0, 265.0, 521.0],
    [144.0, 145.0, 244.0, 265.0, 0.0, 1024.0],
    [400.0, 401.0, 500.0, 521.0, 1024.0, 0.0]]

  lemma TableIsRight(i: nat, j: nat)
    requires i < 6 && j < 6
    ensures Squared(ROWS[i], ROWS[j]) == TABLE[i][j]
  {
  }

  /** `d` agrees with the table on the first `n + 1` rows. */
  ghost predicate Tabled(d: Metric, n: nat)
    requires n < 6
  {
    forall i: nat, j: nat | i <= n && j <= n :: d(i, j) == TABLE[i][j]
  }

  lemma DistancesTabled(n: nat)
    requires n < 6
    ensures Tabled(Distances(n), n)
  {
    hide Squared, Distances;
    forall i: nat, j: nat | i <= n && j <= n ensures Distances(n)(i, j) == TABLE[i][j] {
      DistanceOf(n, i, j);
      TableIsRight(i, j);
    }
  }

  lemma TableRanked(d: Metric, n: nat)
    requires 0 < n < 6 && Tabled(d, n)
    ensures Ranked(d, n)
  {
  }

  lemma TableOutlier(d: Metric)
    requires Tabled(d, 5)
    ensures Outlier(d)
  {
    hide Ranked;
    TableRanked(d, 5);
  }

  lemma RowsRanked(n: nat)
    requires 0 < n < 6
    ensures Ranked(Distances(n), n)
    ensures n == 5 ==> Outlier(Distances(n))
  {
    hide Distances, Ranked, Outlier, Tabled;
    DistancesTabled(n);
    TableRanked(Distances(n), n);
    if n == 5 { TableOutlier(Distances(n)); }
  }

  ghost function Built(n: nat): (g: Graph)
    requires n <= 6
    ensures Sane(g) && |g.nodes| == n
  {
    Build(CFG, Squared, LevelOf, ROWS[..n])
  }

  lemma BuiltNext(n: nat)
    requires n < 6
    ensures Built(n + 1) == Insert(CFG, Distances(n), Built(n), LevelOf(n))
  {
    hide Insert, Squared;
    assert ROWS[..n + 1][..n] == ROWS[..n];
  }

  lemma FirstFive()
    ensures Built(5) == Hub(Star(5))
  {
    hide Insert, Built, Distances, Ranked;
    BuiltNothing();
    BuiltNext(0);
    BuiltNext(1);
    RowsRanked(1);
    StarBegins(Distances(0), Distances(1));
    for n := 2 to 5
      invariant Built(n) == Hub(Star(n))
    {
      RowsRanked(n);
      BuiltNext(n);
      StarGrows(Distances(n), n);
    }
  }

  lemma BuiltIsFinal()
    ensures Built(6) == Hub(FINAL)
  {
    hide Insert, Built, Distances, Ranked;
    FirstFive();
    RowsRanked(5);
    BuiltNext(5);
    RowFive(Distances(5));
  }

  lemma BuiltNothing()
    ensures Built(0) == EMPTY
  {
  }

  /** A query at row 5 descends to it. */
  lemma DescendsToFive()
    requires Sane(Hub(FINAL))
    ensures SearchStart(Hub(FINAL), Toward(Distances(5), 5)) == 5
  {
    hide Squared;
    var dist := Toward(Distances(5), 5);
    assert dist(5) == 0.0 && dist(0) == 400.0 by { RowFiveDistances(); }
    assert LayerClosed(FINAL, 1);
    assert GreedyScan(dist, FINAL[0][1], 0) == GreedyScan(dist, [], 5);
    assert GreedyScan(dist, FINAL[5][1], 5) == GreedyScan(dist, [], 5);
    assert Greedy(FINAL, 1, dist, 0) == 5;
  }

  lemma RowFiveDistances()
    ensures Distances(5)(5, 5) == 0.0 && Distances(5)(5, 0) == 400.0
  {
    DistanceOf(5, 5, 5);
    DistanceOf(5, 5, 0);
    TableIsRight(5, 5);
    TableIsRight(5, 0);
  }

  /**
   * The level condition of `Search.OrphanNeverFound` is needed, for graphs that sequential inserts
   * build: row 5 has no layer-0 in-links and is not the entry, and a query at its position finds it.
   * (The comment on `zero_indegree_nodes` says such a node is unreachable at any `ef`.)
   */
  lemma UpperLayerOrphanIsFound()
    ensures var g := Build(CFG, Squared, LevelOf, ROWS);
            && St.SequentialInv(CFG, g) && |g.nodes| == 6
            && g.entry == Some(Entry(0, 1)) && NoInLinks(g.nodes, 0, 5)
            && exists k: nat, ef: nat :: 5 in IdSet(SearchGraph(g, Toward(Pairwise(Squared, ROWS), 5), k, ef))
  {
    hide SearchGraph, SearchStart, Build, Pairwise, Squared, St.SequentialInv;
    assert ROWS[..6] == ROWS;
    BuiltIsFinal();
    St.BuildInvariants(CFG, Squared, LevelOf, ROWS);
    DescendsToFive();
    OrphanFoundIff(Hub(FINAL), Toward(Distances(5), 5), 5);
  }

  // --- a row near the hub instead ---------------------------------------------------------

  const NEAR_ROWS: seq<Point> := ROWS[..5] + [Point(0.0, 0.0, -2.0)]

  function NearLevelOf(id: nat): nat {
    if id == 0 then 1 else 0
  }

  const NEAR_TABLE: seq<real> := [4.0, 5.0, 104.0, 125.0, 196.0, 0.0]

  lemma NearDistances(j: nat)
    requires j < 6
    ensures Squared(NEAR_ROWS[5], NEAR_ROWS[j]) == NEAR_TABLE[j] && Squared(NEAR_ROWS[j], NEAR_ROWS[5]) == NEAR_TABLE[j]
  {
  }

  lemma NearIsClose()
    ensures Close(Pairwise(Squared, NEAR_ROWS))
  {
    hide Squared;
    var d := Pairwise(Squared, NEAR_ROWS);
    forall i: nat, j: nat | i < 6 && j < 6 ensures d(i, j) == NearTable(i, j) {
      NearDistances(j);
      NearDistances(i);
      if i < 5 && j < 5 { TableIsRight(i, j); }
    }
    TabledIsClose(d);
  }

  ghost function NearTable(i: nat, j: nat): real
    requires i < 6 && j < 6
  {
    if i == 5 then NEAR_TABLE[j] else if j == 5 then NEAR_TABLE[i] else TABLE[i][j]
  }

  lemma TabledIsClose(d: Metric)
    requires forall i: nat, j: nat | i < 6 && j < 6 :: d(i, j) == NearTable(i, j)
    ensures Close(d)
  {
    assert Ranked(d, 5);
  }

  /**
   * Five rows as before and a sixth at (0, 0, -2) on level 0: rows 0 and 1, both full, drop row 4 for it,
   * so the new row is found from both.
   */
  lemma NearRowIsKept()
    ensures Build(CFG, Squared, NearLevelOf, NEAR_ROWS)
            == Graph([[[1, 5, 2, 3], []], [[0, 5, 2, 3]], [[0, 1]], [[0, 1]], [[0, 1]], [[0, 1]]], Some(Entry(0, 1)))
  {
    hide Insert, Squared, Built, Pairwise;
    var d := Pairwise(Squared, NEAR_ROWS);
    assert NEAR_ROWS[..5] == ROWS[..5] && NEAR_ROWS[..6] == NEAR_ROWS;
    SameLevels(ROWS[..5]);
    FirstFive();
    assert Build(CFG, Squared, NearLevelOf, NEAR_ROWS[..5]) == Hub(Star(5)) by { BuiltIs(5); }
    NearIsClose();
    NearRowLinks(d);
  }

  lemma BuiltIs(n: nat)
    requires n <= 6
    ensures Built(n) == Build(CFG, Squared, LevelOf, ROWS[..n])
  {
    hide Build;
  }

  lemma {:induction false} SameLevels(rows: seq<Point>)
    requires |rows| <= 5
    ensures Build(CFG, Squared, NearLevelOf, rows) == Build(CFG, Squared, LevelOf, rows)
  {
    hide Insert, Squared, Pairwise;
    if rows != [] { SameLevels(rows[..|rows| - 1]); }
  }
}
