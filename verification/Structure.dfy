/**
 * What every sequence of sequential inserts keeps: the structural invariants of the graph
 * (`check_invariants` and more), whatever the vectors and whatever the levels drawn.
 */
module Structure {
  import opened Common
  import opened Neighbors
  import opened Graph
  import opened Search
  import opened Select
  import opened Insertion

  /**
   * One adjacency list: no self-link, within its bound, and, if `strict`, no duplicate. Sequential
   * inserts keep the strict form; the lax one, with M to spare, also holds of lists that racing
   * inserts have extended, and lets recovery continue from such a graph.
   */
  ghost predicate CleanList(id: nat, links: Links, bound: nat, strict: bool) {
    id !in links && (strict ==> Distinct(links)) && |links| <= bound
  }

  ghost function Bound(cfg: Config, layer: nat, strict: bool): nat {
    MaxDegree(cfg, layer) + if strict then 0 else cfg.m
  }

  ghost predicate Clean(cfg: Config, nodes: Nodes, strict: bool) {
    forall i, l | 0 <= i < |nodes| && 0 <= l < |nodes[i]| :: CleanList(i, nodes[i][l], Bound(cfg, l, strict), strict)
  }

  /** Every node links out on each layer some earlier node lived on. */
  ghost predicate Connected(nodes: Nodes) {
    forall j, i, l | 0 <= j < i < |nodes| && 0 <= l < |nodes[j]| && l < |nodes[i]| :: nodes[i][l] != []
  }

  ghost predicate EntryHighest(g: Graph) {
    g.entry.Some? ==> forall i | 0 <= i < |g.nodes| :: |g.nodes[i]| <= g.entry.value.level + 1
  }

  ghost predicate SequentialInv(cfg: Config, g: Graph) {
    Sane(g) && Clean(cfg, g.nodes, true) && Connected(g.nodes) && EntryHighest(g)
  }

  /** No node changed level and, if `strict`, no list got shorter. */
  ghost predicate Grown(a: Nodes, b: Nodes, strict: bool) {
    && |a| <= |b|
    && (forall i | 0 <= i < |a| :: |a[i]| == |b[i]|)
    && (strict ==> forall i, l | 0 <= i < |a| && 0 <= l < |a[i]| :: |a[i][l]| <= |b[i][l]|)
  }

  /** `id` is linked neither from nor to anything on layers `0..=layer`. */
  ghost predicate Detached(nodes: Nodes, id: nat, layer: nat) {
    && id < |nodes| && layer < |nodes[id]|
    && forall l | 0 <= l <= layer :: nodes[id][l] == [] && NoInLinks(nodes, l, id)
  }

  lemma {:induction false} DedupDistinct(s: seq<nat>)
    requires Distinct(s)
    ensures Dedup(s) == s
  {
    if |s| >= 2 {
      DedupDistinct(s[..|s| - 1]);
      assert s == s[..|s| - 1] + [s[|s| - 1]];
    }
  }

  /** Rewriting a neighbour's list keeps it clean and, if it was strictly clean, no shorter. */
  lemma BackLinkClean(d: Metric, cur: Links, nb: nat, id: nat, max: nat, slack: nat, strict: bool)
    requires CleanList(nb, cur, max + slack, strict) && id != nb && (strict ==> slack == 0)
    ensures var r := BackLink(d, cur, nb, id, max);
            CleanList(nb, r, max + slack, strict) && (strict ==> |cur| <= |r|)
  {
    hide Sift, Picked, Sort, SelectNeighbors;
    var list := cur + [id];
    BackLinkRange(d, cur, nb, id, max);
    if id !in cur && |cur| + 1 > max {
      var scored := ScoreLinks(d, nb, list);
      SortCorrect(scored);
      SelectSize(d, Sort(scored), max);
      if strict {
        assert Distinct(list);
        assert DistinctIds(scored);
        DistinctPart(Sort(scored), scored);
        SelectCorrect(d, Sort(scored), max);
      }
    }
  }

  lemma SelectSize(d: Metric, cands: seq<Neighbor>, m: nat)
    ensures |SelectNeighbors(d, cands, m)| <= m
  {
    hide Sift, Picked;
    PickedPart(d, cands, m);
  }

  lemma SetLinksClean(cfg: Config, nodes: Nodes, id: nat, layer: nat, links: Links, strict: bool)
    requires Clean(cfg, nodes, strict) && id < |nodes| && layer < |nodes[id]|
    requires CleanList(id, links, Bound(cfg, layer, strict), strict) && (strict ==> |nodes[id][layer]| <= |links|)
    ensures Clean(cfg, SetLinks(nodes, id, layer, links), strict)
    ensures Grown(nodes, SetLinks(nodes, id, layer, links), strict)
  {
    hide CleanList;
    var r := SetLinks(nodes, id, layer, links);
    forall i, l | 0 <= i < |r| && 0 <= l < |r[i]|
      ensures CleanList(i, r[i][l], Bound(cfg, l, strict), strict) && (strict ==> |nodes[i][l]| <= |r[i][l]|)
    {
      if i != id || l != layer { assert r[i][l] == nodes[i][l]; }
    }
  }

  /** The lists of one layer and those of `id` are all that back-linking touches. */
  lemma {:induction false} AddBackLinksClean(cfg: Config, d: Metric, nodes: Nodes, id: nat, chosen: seq<nat>, layer: nat,
                                             strict: bool)
    requires Navigable(nodes) && id in OnLayer(nodes, layer) && AllOn(nodes, layer, chosen)
    requires Clean(cfg, nodes, strict) && id !in chosen
    ensures var r := AddBackLinks(cfg, d, nodes, id, chosen, layer);
            && Clean(cfg, r, strict) && Grown(nodes, r, strict)
            && (forall i, l | 0 <= i < |nodes| && 0 <= l < |nodes[i]| && (l != layer || i == id) :: r[i][l] == nodes[i][l])
    decreases |chosen|
  {
    hide Navigable, BackLink;
    if chosen != [] {
      var k := |chosen| - 1;
      var nb := chosen[k];
      var before := AddBackLinks(cfg, d, nodes, id, chosen[..k], layer);
      AddBackLinksClean(cfg, d, nodes, id, chosen[..k], layer, strict);
      SameLayers(nodes, before, layer);
      var max := MaxDegree(cfg, layer);
      assert nb != id && nb in OnLayer(before, layer);
      assert CleanList(nb, before[nb][layer], Bound(cfg, layer, strict), strict);
      BackLinkClean(d, before[nb][layer], nb, id, max, if strict then 0 else cfg.m, strict);
      SetLinksClean(cfg, before, nb, layer, BackLink(d, before[nb][layer], nb, id, max), strict);
    }
  }

  /** On a layer where `id` is detached, the search finds only other nodes, and at least one. */
  lemma FoundOthers(cfg: Config, d: Metric, nodes: Nodes, id: nat, ep: nat, layer: nat)
    requires LayerClosed(nodes, layer) && ep in OnLayer(nodes, layer)
    requires ep != id && NoInLinks(nodes, layer, id)
    ensures var found := SearchLayer(nodes, layer, Toward(d, id), ep, cfg.efConstruction);
            && found != [] && found[0].id != id && found[0].id in OnLayer(nodes, layer)
            && id !in IdSet(found) && DistinctIds(found)
            && Without(found, id) == found
  {
    hide SearchLayer, Without, Chosen;
    var found := SearchLayer(nodes, layer, Toward(d, id), ep, cfg.efConstruction);
    var visited := SearchLayerCorrect(nodes, layer, Toward(d, id), ep, cfg.efConstruction);
    ChosenOn(cfg, d, nodes, layer, id, ep, cfg.efConstruction);
    UnlinkedUnreachable(nodes, layer, ep, id);
    assert found[0] in found;
    WithoutPart(found, id);
  }

  /** One layer's linking keeps every list clean, gives `id` out-links, and leaves lower layers alone. */
  lemma LinkOnClean(cfg: Config, d: Metric, nodes: Nodes, id: nat, layer: nat, found: seq<Neighbor>, strict: bool)
    requires Navigable(nodes) && Clean(cfg, nodes, strict) && ConfigOk(cfg)
    requires id in OnLayer(nodes, layer) && nodes[id][layer] == []
    requires found != [] && id !in IdSet(found) && DistinctIds(found) && Without(found, id) == found
    requires AllOn(nodes, layer, Chosen(cfg, d, found, id))
    ensures var r := LinkOn(cfg, d, nodes, id, layer, found);
            && Clean(cfg, r, strict) && Grown(nodes, r, strict) && (strict ==> r[id][layer] != [])
            && (forall i, l | 0 <= i < |nodes| && 0 <= l < |nodes[i]| && l != layer :: r[i][l] == nodes[i][l])
  {
    hide Navigable, Chosen, AddBackLinks, Without, Dedup, Clean, CleanList;
    var chosen := Chosen(cfg, d, found, id);
    OwnList(cfg, d, id, layer, found, strict);
    assert nodes[id][layer] + chosen == chosen;
    SetLinksClean(cfg, nodes, id, layer, chosen, strict);
    NavigableLayer(nodes, layer);
    SetLinksNavigable(nodes, id, layer, chosen);
    var mine := SetLinks(nodes, id, layer, chosen);
    SameLayers(nodes, mine, layer);
    AddBackLinksClean(cfg, d, mine, id, chosen, layer, strict);
  }

  /** The new node's own list is exactly what was chosen for it. */
  lemma OwnList(cfg: Config, d: Metric, id: nat, layer: nat, found: seq<Neighbor>, strict: bool)
    requires ConfigOk(cfg)
    requires found != [] && id !in IdSet(found) && DistinctIds(found) && Without(found, id) == found
    ensures var chosen := Chosen(cfg, d, found, id);
            && Dedup(chosen) == chosen && chosen != [] && id !in chosen
            && CleanList(id, chosen, Bound(cfg, layer, strict), strict)
  {
    hide SelectNeighbors, Without;
    var chosen := Chosen(cfg, d, found, id);
    SelectCorrect(d, found, cfg.m);
    DedupDistinct(chosen);
  }

  lemma DetachedBelow(a: Nodes, b: Nodes, id: nat, layer: nat)
    requires SameShape(a, b) && 0 < layer && Detached(a, id, layer)
    requires forall i, l | 0 <= i < |a| && 0 <= l < |a[i]| && l != layer :: b[i][l] == a[i][l]
    ensures Detached(b, id, layer - 1)
  {
    forall l | 0 <= l <= layer - 1 ensures b[id][l] == [] && NoInLinks(b, l, id) {
      assert NoInLinks(a, l, id);
      assert OnLayer(a, l) == OnLayer(b, l);
    }
  }

  lemma GrownTrans(a: Nodes, b: Nodes, c: Nodes, strict: bool)
    requires Grown(a, b, strict) && Grown(b, c, strict)
    ensures Grown(a, c, strict)
  {
  }

  /** All layers: clean lists everywhere, and an out-link for `id` on each layer it connected on. */
  lemma {:induction false} ConnectDownClean(cfg: Config, d: Metric, nodes: Nodes, id: nat, ep: nat, layer: nat,
                                            strict: bool)
    requires Navigable(nodes) && Clean(cfg, nodes, strict) && ConfigOk(cfg)
    requires Detached(nodes, id, layer) && ep in OnLayer(nodes, layer) && ep != id
    ensures var r := ConnectDown(cfg, d, nodes, id, ep, layer);
            && Clean(cfg, r, strict) && Grown(nodes, r, strict)
            && (strict ==> forall l | 0 <= l <= layer :: r[id][l] != [])
    decreases layer
  {
    hide Navigable, SearchLayer, Clean, LinkOn, Chosen, NoInLinks;
    NavigableLayer(nodes, layer);
    FoundOthers(cfg, d, nodes, id, ep, layer);
    ChosenOn(cfg, d, nodes, layer, id, ep, cfg.efConstruction);
    var found := SearchLayer(nodes, layer, Toward(d, id), ep, cfg.efConstruction);
    LinkOnClean(cfg, d, nodes, id, layer, found, strict);
    var linked := LinkOn(cfg, d, nodes, id, layer, found);
    if layer > 0 {
      SameLayers(nodes, linked, layer);
      LayersNest(linked, layer, layer - 1);
      DetachedBelow(nodes, linked, id, layer);
      ConnectDownClean(cfg, d, linked, id, found[0].id, layer - 1, strict);
      var r := ConnectDown(cfg, d, linked, id, found[0].id, layer - 1);
      GrownTrans(nodes, linked, r, strict);
      assert strict ==> |linked[id][layer]| <= |r[id][layer]|;
    }
  }

  lemma {:induction false} GreedyAvoids(nodes: Nodes, layer: nat, dist: Oracle, at: nat, id: nat)
    requires LayerClosed(nodes, layer) && at in OnLayer(nodes, layer)
    requires at != id && NoInLinks(nodes, layer, id)
    ensures Greedy(nodes, layer, dist, at) != id
  {
    GreedyIsLocalMinimum(nodes, layer, dist, at);
    UnlinkedUnreachable(nodes, layer, at, id);
  }

  lemma {:induction false} DescendAvoids(nodes: Nodes, dist: Oracle, at: nat, top: nat, floor: nat, id: nat)
    requires Navigable(nodes) && at in OnLayer(nodes, top) && 0 < floor && at != id
    requires forall l: nat :: NoInLinks(nodes, l, id)
    ensures Descend(nodes, dist, at, top, floor) != id
    decreases top
  {
    hide NoInLinks, Navigable;
    if top >= floor {
      NavigableLayer(nodes, top);
      GreedyAvoids(nodes, top, dist, at, id);
      if top > floor {
        LayersNest(nodes, top, top - 1);
        DescendAvoids(nodes, dist, Greedy(nodes, top, dist, at), top - 1, floor, id);
      }
    }
  }

  /** A fresh node is detached on every layer, and changes nothing else. */
  lemma FreshNode(cfg: Config, nodes: Nodes, level: nat, strict: bool)
    requires Navigable(nodes) && Clean(cfg, nodes, strict)
    ensures var r := nodes + [NewNode(level)];
            && Clean(cfg, r, strict) && Grown(nodes, r, strict)
            && Detached(r, |nodes|, level)
            && forall l: nat :: NoInLinks(r, l, |nodes|)
  {
    var id, r := |nodes|, nodes + [NewNode(level)];
    forall l: nat ensures NoInLinks(r, l, id) {
      assert LayerClosed(nodes, l);
      forall i | i in OnLayer(r, l) ensures id !in r[i][l] {
        if i < id {
          assert r[i] == nodes[i] && i in OnLayer(nodes, l);
          forall j | 0 <= j < |r[i][l]| ensures r[i][l][j] != id {
            assert nodes[i][l][j] in OnLayer(nodes, l);
          }
        }
      }
    }
    forall i, l | 0 <= i < |r| && 0 <= l < |r[i]| ensures CleanList(i, r[i][l], Bound(cfg, l, strict), strict) {
      if i < id { assert r[i][l] == nodes[i][l]; }
    }
  }

  lemma DetachedLower(nodes: Nodes, id: nat, hi: nat, lo: nat)
    requires Detached(nodes, id, hi) && lo <= hi
    ensures Detached(nodes, id, lo)
  {
  }

  /** What one insert keeps of every list, strict or lax, and the new node's links. */
  lemma InsertKeepsLists(cfg: Config, d: Metric, g: Graph, level: nat, strict: bool)
    requires Sane(g) && Clean(cfg, g.nodes, strict) && EntryHighest(g) && ConfigOk(cfg)
    ensures var r := Insert(cfg, d, g, level);
            && Clean(cfg, r.nodes, strict) && EntryHighest(r)
            && Grown(g.nodes, r.nodes, strict)
            && |r.nodes[|g.nodes|]| == level + 1
            && (strict && g.entry.Some? ==>
                  forall l | 0 <= l <= Min(level, g.entry.value.level) :: r.nodes[|g.nodes|][l] != [])
  {
    hide Navigable, Clean, ConnectDown, Descend, NoInLinks, Detached;
    var id, nodes := |g.nodes|, g.nodes + [NewNode(level)];
    AddNodeNavigable(g.nodes, level);
    FreshNode(cfg, g.nodes, level, strict);
    var r := Insert(cfg, d, g, level);
    if g.entry.Some? {
      var e := g.entry.value;
      var ep := Descend(nodes, Toward(d, id), e.id, e.level, level + 1);
      var top := Min(level, e.level);
      LayersNest(nodes, Min(e.level, level + 1), Min(e.level, level));
      DescendAvoids(nodes, Toward(d, id), e.id, e.level, level + 1, id);
      DetachedLower(nodes, id, level, top);
      ConnectDownClean(cfg, d, nodes, id, ep, top, strict);
      GrownTrans(g.nodes, nodes, r.nodes, strict);
    }
  }

  /**
   * One sequential insert, at any level, keeps every structural invariant; no list of an older node
   * gets shorter and no older node changes level.
   */
  lemma InsertKeepsInvariants(cfg: Config, d: Metric, g: Graph, level: nat)
    requires SequentialInv(cfg, g) && ConfigOk(cfg)
    ensures var r := Insert(cfg, d, g, level);
            && SequentialInv(cfg, r)
            && Grown(g.nodes, r.nodes, true)
            && |r.nodes[|g.nodes|]| == level + 1
  {
    hide Navigable, Clean, Insert;
    var r := Insert(cfg, d, g, level);
    InsertKeepsLists(cfg, d, g, level, true);
    forall j, i, l | 0 <= j < i < |r.nodes| && 0 <= l < |r.nodes[j]| && l < |r.nodes[i]|
      ensures r.nodes[i][l] != []
    {
      if i < |g.nodes| {
        assert g.nodes[i][l] != [];
        assert |g.nodes[i][l]| <= |r.nodes[i][l]|;
      } else {
        assert |g.nodes[j]| <= g.entry.value.level + 1;
      }
    }
  }

  /** The invariants, list by list. */
  lemma SequentialLists(cfg: Config, g: Graph)
    requires SequentialInv(cfg, g)
    ensures forall i, l | 0 <= i < |g.nodes| && 0 <= l < |g.nodes[i]| ::
              && |g.nodes[i][l]| <= (if l == 0 then 2 * cfg.m else cfg.m)
              && i !in g.nodes[i][l] && Distinct(g.nodes[i][l])
              && forall x | x in g.nodes[i][l] :: x < |g.nodes| && l < |g.nodes[x]|
  {
    forall i, l | 0 <= i < |g.nodes| && 0 <= l < |g.nodes[i]|
      ensures && |g.nodes[i][l]| <= (if l == 0 then 2 * cfg.m else cfg.m)
              && i !in g.nodes[i][l] && Distinct(g.nodes[i][l])
              && forall x | x in g.nodes[i][l] :: x < |g.nodes| && l < |g.nodes[x]|
    {
      assert CleanList(i, g.nodes[i][l], Bound(cfg, l, true), true);
      assert LayerClosed(g.nodes, l) && i in OnLayer(g.nodes, l);
    }
  }

  /**
   * After any sequence of sequential inserts with arbitrary levels every invariant holds; list by list,
   * at most `2 * m` links on layer 0 and `m` above, no self-link, no duplicate, and every link leads to
   * a node of that layer.
   */
  lemma {:induction false} BuildInvariants<Row>(cfg: Config, kernel: (Row, Row) -> real, levelOf: nat -> nat, rows: seq<Row>)
    requires ConfigOk(cfg)
    ensures SequentialInv(cfg, Build(cfg, kernel, levelOf, rows))
    ensures forall i | 0 <= i < |rows| :: |Build(cfg, kernel, levelOf, rows).nodes[i]| == levelOf(i) + 1
    ensures var nodes := Build(cfg, kernel, levelOf, rows).nodes;
            forall i, l | 0 <= i < |nodes| && 0 <= l < |nodes[i]| ::
              && |nodes[i][l]| <= (if l == 0 then 2 * cfg.m else cfg.m)
              && i !in nodes[i][l] && Distinct(nodes[i][l])
              && forall x | x in nodes[i][l] :: x < |nodes| && l < |nodes[x]|
  {
    hide Insert, SequentialInv, Distinct;
    if rows != [] {
      var n := |rows| - 1;
      BuildInvariants(cfg, kernel, levelOf, rows[..n]);
      InsertKeepsInvariants(cfg, Pairwise(kernel, rows), Build(cfg, kernel, levelOf, rows[..n]), levelOf(n));
    } else {
      EmptyInv(cfg);
    }
    SequentialLists(cfg, Build(cfg, kernel, levelOf, rows));
  }

  lemma EmptyInv(cfg: Config)
    ensures SequentialInv(cfg, EMPTY)
  {
  }
}
