/** Building the graph one node at a time (Malkov & Yashunin, Algorithm 1), as functions on values. */
module Insertion {
  import opened Common
  import opened Neighbors
  import opened Graph
  import opened Search
  import opened Select

  datatype MetricKind = L2 | Dot | Cosine

  datatype Config = Config(m: nat, efConstruction: nat, metric: MetricKind)

  /** `Hnsw::new` refuses anything else. */
  predicate ConfigOk(cfg: Config) {
    2 <= cfg.m <= 4096
  }

  function MaxDegree(cfg: Config, layer: nat): nat {
    if layer == 0 then 2 * cfg.m else cfg.m
  }

  function Toward(d: Metric, id: nat): Oracle {
    (x: nat) => d(id, x)
  }

  /** `Vec::dedup`: drop an element equal to the one before it. */
  function Dedup(s: seq<nat>): seq<nat> {
    if |s| < 2 then s
    else
      var t := Dedup(s[..|s| - 1]);
      if s[|s| - 1] == s[|s| - 2] then t else t + [s[|s| - 1]]
  }

  function ScoreLinks(d: Metric, base: nat, links: Links): (r: seq<Neighbor>)
    ensures |r| == |links|
    ensures forall i | 0 <= i < |r| :: r[i] == Neighbor(links[i], d(base, links[i]))
  {
    seq(|links|, i requires 0 <= i < |links| => Neighbor(links[i], d(base, links[i])))
  }

  /** The replacement for neighbour `nb`'s list when `id` links to it: append, or re-select if over-full. */
  ghost function BackLink(d: Metric, cur: Links, nb: nat, id: nat, max: nat): Links {
    if id in cur then cur
    else if |cur| + 1 <= max then cur + [id]
    else SelectNeighbors(d, Sort(ScoreLinks(d, nb, cur + [id])), max)
  }

  ghost predicate AllOn(nodes: Nodes, layer: nat, ids: seq<nat>) {
    forall i | 0 <= i < |ids| :: ids[i] in OnLayer(nodes, layer)
  }

  lemma BackLinkRange(d: Metric, cur: Links, nb: nat, id: nat, max: nat)
    ensures forall x | x in BackLink(d, cur, nb, id, max) :: x in cur || x == id
  {
    hide Sift, Picked, Sort;
    var list := cur + [id];
    var cands := Sort(ScoreLinks(d, nb, list));
    if id !in cur && |cur| + 1 > max {
      SortCorrect(ScoreLinks(d, nb, list));
      PickedPart(d, cands, max);
      var p := Picked(Sift(d, cands, max), max);
      forall x | x in ListIds(p) ensures x in list {
        var i :| 0 <= i < |p| && p[i].id == x;
        assert p[i] in multiset(p);
        assert p[i] in multiset(ScoreLinks(d, nb, list));
        assert p[i] in ScoreLinks(d, nb, list);
      }
    }
  }

  lemma BackLinkAllOn(d: Metric, nodes: Nodes, layer: nat, nb: nat, id: nat, max: nat)
    requires LayerClosed(nodes, layer) && nb in OnLayer(nodes, layer) && id in OnLayer(nodes, layer)
    ensures AllOn(nodes, layer, BackLink(d, nodes[nb][layer], nb, id, max))
  {
    hide BackLink;
    var cur := nodes[nb][layer];
    var r := BackLink(d, cur, nb, id, max);
    BackLinkRange(d, cur, nb, id, max);
    forall i | 0 <= i < |r| ensures r[i] in OnLayer(nodes, layer) {
      assert r[i] in r;
      if r[i] != id {
        var j :| 0 <= j < |cur| && cur[j] == r[i];
      }
    }
  }

  ghost function AddBackLink(cfg: Config, d: Metric, nodes: Nodes, id: nat, nb: nat, layer: nat): (r: Nodes)
    requires Navigable(nodes) && nb in OnLayer(nodes, layer) && id in OnLayer(nodes, layer)
    ensures SameShape(nodes, r) && Navigable(r)
  {
    var links := BackLink(d, nodes[nb][layer], nb, id, MaxDegree(cfg, layer));
    assert LayerClosed(nodes, layer);
    BackLinkAllOn(d, nodes, layer, nb, id, MaxDegree(cfg, layer));
    SetLinksNavigable(nodes, nb, layer, links);
    SetLinks(nodes, nb, layer, links)
  }

  /** Rewrite the list of every chosen neighbour in turn. */
  ghost function AddBackLinks(cfg: Config, d: Metric, nodes: Nodes, id: nat, chosen: seq<nat>, layer: nat): (r: Nodes)
    requires Navigable(nodes) && id in OnLayer(nodes, layer) && AllOn(nodes, layer, chosen)
    ensures SameShape(nodes, r) && Navigable(r)
    decreases |chosen|
  {
    if chosen == [] then nodes
    else
      var k := |chosen| - 1;
      var before := AddBackLinks(cfg, d, nodes, id, chosen[..k], layer);
      SameLayers(nodes, before, layer);
      assert chosen[k] in OnLayer(nodes, layer);
      AddBackLink(cfg, d, before, id, chosen[k], layer)
  }

  function Without(s: seq<Neighbor>, id: nat): seq<Neighbor> {
    if s == [] then []
    else
      var t := Without(s[..|s| - 1], id);
      if s[|s| - 1].id == id then t else t + [s[|s| - 1]]
  }

  ghost function Chosen(cfg: Config, d: Metric, found: seq<Neighbor>, id: nat): seq<nat> {
    SelectNeighbors(d, Without(found, id), cfg.m)
  }

  lemma {:induction false} WithoutPart(s: seq<Neighbor>, id: nat)
    ensures multiset(Without(s, id)) <= multiset(s)
    ensures forall n :: n in Without(s, id) <==> n in s && n.id != id
    ensures id !in IdSet(s) ==> Without(s, id) == s
  {
    if s != [] {
      var k := |s| - 1;
      WithoutPart(s[..k], id);
      assert s == s[..k] + [s[k]];
      assert s[k] in s;
      assert forall n | n in s[..k] :: n in s;
    }
  }

  lemma ChosenOn(cfg: Config, d: Metric, nodes: Nodes, layer: nat, id: nat, ep: nat, ef: nat)
    requires LayerClosed(nodes, layer) && ep in OnLayer(nodes, layer)
    ensures var found := SearchLayer(nodes, layer, Toward(d, id), ep, ef);
            && found != [] && found[0].id in OnLayer(nodes, layer)
            && AllOn(nodes, layer, Chosen(cfg, d, found, id))
  {
    hide SearchLayer, Sift, Picked, Without;
    var found := SearchLayer(nodes, layer, Toward(d, id), ep, ef);
    var visited := SearchLayerCorrect(nodes, layer, Toward(d, id), ep, ef);
    assert ep in visited;
    assert found[0] in found;
    var cands := Without(found, id);
    WithoutPart(found, id);
    PickedPart(d, cands, cfg.m);
    var p := Picked(Sift(d, cands, cfg.m), cfg.m);
    forall i | 0 <= i < |p| ensures p[i].id in OnLayer(nodes, layer) {
      assert p[i] in multiset(p);
      assert p[i] in multiset(found);
      assert p[i] in found && p[i].id in IdSet(found);
    }
  }

  /** The nodes after one layer's worth of linking. */
  ghost function LinkOn(cfg: Config, d: Metric, nodes: Nodes, id: nat, layer: nat, found: seq<Neighbor>): (r: Nodes)
    requires Navigable(nodes) && id in OnLayer(nodes, layer)
    requires AllOn(nodes, layer, Chosen(cfg, d, found, id))
    ensures SameShape(nodes, r) && Navigable(r)
  {
    var chosen := Chosen(cfg, d, found, id);
    var own := Dedup(nodes[id][layer] + chosen);
    assert LayerClosed(nodes, layer);
    DedupRange(nodes[id][layer] + chosen);
    assert AllOn(nodes, layer, own) by {
      forall i | 0 <= i < |own| ensures own[i] in OnLayer(nodes, layer) {
        assert own[i] in own;
        assert own[i] in nodes[id][layer] + chosen;
      }
    }
    SetLinksNavigable(nodes, id, layer, own);
    var mine := SetLinks(nodes, id, layer, own);
    SameLayers(nodes, mine, layer);
    AddBackLinks(cfg, d, mine, id, chosen, layer)
  }

  /** Nothing is lost but elements equal to their predecessor, and none such is left. */
  lemma {:induction false} DedupAdjacent(s: seq<nat>)
    ensures forall x :: x in Dedup(s) <==> x in s
    ensures s != [] ==> Dedup(s) != [] && Dedup(s)[|Dedup(s)| - 1] == s[|s| - 1]
    ensures forall i | 0 < i < |Dedup(s)| :: Dedup(s)[i] != Dedup(s)[i - 1]
  {
    if |s| >= 2 {
      var k := |s| - 1;
      DedupAdjacent(s[..k]);
      assert s == s[..k] + [s[k]];
    }
  }

  lemma {:induction false} DedupRange(s: seq<nat>)
    ensures forall x | x in Dedup(s) :: x in s
    ensures |Dedup(s)| <= |s|
  {
    if |s| >= 2 {
      DedupRange(s[..|s| - 1]);
      forall x | x in Dedup(s) ensures x in s {
        if x != s[|s| - 1] { assert x in s[..|s| - 1]; }
      }
    }
  }

  /** Connect on `layer`, then on every layer below; the best found seeds the next search. */
  ghost function ConnectDown(cfg: Config, d: Metric, nodes: Nodes, id: nat, ep: nat, layer: nat): (r: Nodes)
    requires Navigable(nodes) && id in OnLayer(nodes, layer) && ep in OnLayer(nodes, layer)
    ensures SameShape(nodes, r) && Navigable(r)
    decreases layer
  {
    assert LayerClosed(nodes, layer);
    var found := SearchLayer(nodes, layer, Toward(d, id), ep, cfg.efConstruction);
    ChosenOn(cfg, d, nodes, layer, id, ep, cfg.efConstruction);
    var linked := LinkOn(cfg, d, nodes, id, layer, found);
    if layer == 0 then linked
    else
      SameLayers(nodes, linked, layer);
      LayersNest(linked, layer, layer - 1);
      ConnectDown(cfg, d, linked, id, found[0].id, layer - 1)
  }

  /** `Hnsw::insert` for the next id, `|g.nodes|`, at the given level. */
  ghost function Insert(cfg: Config, d: Metric, g: Graph, level: nat): (r: Graph)
    requires Sane(g)
    ensures Sane(r) && |r.nodes| == |g.nodes| + 1
  {
    var id := |g.nodes|;
    var nodes := g.nodes + [NewNode(level)];
    AddNodeNavigable(g.nodes, level);
    if g.entry.None? then Graph(nodes, Some(Entry(id, level)))
    else
      var e := g.entry.value;
      var ep := Descend(nodes, Toward(d, id), e.id, e.level, level + 1);
      LayersNest(nodes, Min(e.level, level + 1), Min(e.level, level));
      Graph(ConnectDown(cfg, d, nodes, id, ep, Min(level, e.level)),
            if level > e.level then Some(Entry(id, level)) else g.entry)
  }

  /** The distance between stored rows. */
  function Pairwise<Row>(kernel: (Row, Row) -> real, rows: seq<Row>): Metric {
    (a: nat, b: nat) => if a < |rows| && b < |rows| then kernel(rows[a], rows[b]) else 0.0
  }

  /** The graph from inserting ids `0, 1, .., |rows| - 1` into an empty index. */
  ghost function Build<Row>(cfg: Config, kernel: (Row, Row) -> real, levelOf: nat -> nat, rows: seq<Row>): (g: Graph)
    ensures Sane(g) && |g.nodes| == |rows|
  {
    if rows == [] then EMPTY
    else
      var n := |rows| - 1;
      Insert(cfg, Pairwise(kernel, rows), Build(cfg, kernel, levelOf, rows[..n]), levelOf(n))
  }
}
