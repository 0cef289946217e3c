/**
 * The HNSW index object: the loops of vektordb's `Hnsw`, each proved to compute the function of
 * `Search`, `Select` or `Insertion` that specifies it.
 */
module HnswIndex {
  import opened Common
  import opened Bytes
  import opened Neighbors
  import opened Graph
  import opened Scratch
  import S = Search
  import Sel = Select
  import I = Insertion

  type Kernel = (Vector, Vector) -> real

  const ENTRY_NONE: nat := 0xFFFF_FFFF_FFFF_FFFF
  const ID_LIMIT: nat := 0x100_0000_0000_0000
  const MAX_LEVEL: nat := 63

  /** The entry point in one word: high 8 bits level, low 56 bits id. */
  function PackEntry(id: nat, level: nat): nat {
    level * ID_LIMIT + id
  }

  function UnpackEntry(packed: nat): (nat, nat) {
    (packed % ID_LIMIT, packed / ID_LIMIT)
  }

  function DecodeEntry(packed: nat): Option<Entry> {
    if packed == ENTRY_NONE then None
    else var (id, level) := UnpackEntry(packed); Some(Entry(id, level))
  }

  function EncodeEntry(e: Option<Entry>): nat {
    if e.None? then ENTRY_NONE else PackEntry(e.value.id, e.value.level)
  }

  /** Within 56-bit ids and the levels the snapshot format admits, packing loses nothing, is never
      mistaken for "no entry", and orders by level first. */
  lemma PackRoundTrip(id: nat, level: nat)
    requires id < ID_LIMIT && level <= MAX_LEVEL
    ensures PackEntry(id, level) < U64_LIMIT
    ensures DecodeEntry(PackEntry(id, level)) == Some(Entry(id, level))
    ensures forall id2: nat, level2: nat | id2 < ID_LIMIT && level2 > level ::
              PackEntry(id2, level2) > PackEntry(id, level)
  {
    assert (level * ID_LIMIT + id) % ID_LIMIT == id;
    assert (level * ID_LIMIT + id) / ID_LIMIT == level;
  }

  /** Unpacking and packing again gives the same word. */
  lemma EncodeDecoded(packed: nat)
    ensures EncodeEntry(DecodeEntry(packed)) == packed
  {
    assert packed == (packed / ID_LIMIT) * ID_LIMIT + packed % ID_LIMIT;
  }

  class Hnsw {
    const cfg: I.Config
    const kernel: Kernel
    const visited: VisitedSet
    var nodes: Nodes
    var entry: nat

    constructor (cfg: I.Config, kernel: Kernel)
      ensures this.cfg == cfg && this.kernel == kernel
      ensures Valid() && G() == EMPTY && fresh(visited)
    {
      this.cfg, this.kernel := cfg, kernel;
      visited := new VisitedSet();
      nodes, entry := [], ENTRY_NONE;
    }

    /** The graph this object holds. */
    function G(): Graph reads this {
      Graph(nodes, DecodeEntry(entry))
    }

    ghost predicate Valid() reads this, visited {
      visited.Valid()
    }

    /** `search_layer`: beam search with two heaps and a stop rule. */
    method SearchLayer(dist: S.Oracle, start: nat, ef: nat, layer: nat) returns (results: seq<Neighbor>)
      requires Valid()
      requires LayerClosed(nodes, layer) && start in OnLayer(nodes, layer)
      modifies visited
      ensures Valid()
      ensures results == S.SearchLayer(nodes, layer, dist, start, ef)
    {
      hide S.Consider, LayerClosed, InsertSorted, PushBounded;
      ghost var b0 := S.StartBeam(dist, start);
      S.StartWithin(nodes, layer, dist, start);
      visited.BeginPass(|nodes|);
      var _ := visited.Mark(start);
      var first := Neighbor(start, dist(start));
      var candidates := [first];
      results := [first];
      assert S.Beam(candidates, results, visited.Marked()) == b0;
      while candidates != []
        invariant Valid() && visited.InPass()
        invariant var b := S.Beam(candidates, results, visited.Marked());
                  && S.Within(nodes, layer, b)
                  && S.SearchLoop(nodes, layer, dist, ef, b) == S.SearchLoop(nodes, layer, dist, ef, b0)
        decreases OnLayer(nodes, layer) - visited.Marked(), |candidates|
      {
        ghost var b := S.Beam(candidates, results, visited.Marked());
        var current := candidates[0];
        candidates := candidates[1..];
        if S.StopAt(current, results, ef) { break; }
        var links := nodes[current.id][layer];
        S.ExpandWithin(nodes, layer, dist, links, ef, S.Pop(b)) by { Closed(layer, current.id); }
        candidates, results := Walk(dist, links, ef, candidates, results, S.Pop(b));
        assert S.Beam(candidates, results, visited.Marked()) == S.Expand(dist, links, ef, S.Pop(b));
      }
    }

    lemma Closed(layer: nat, id: nat)
      requires LayerClosed(nodes, layer) && id in OnLayer(nodes, layer)
      ensures I.AllOn(nodes, layer, nodes[id][layer])
    {
    }

    /** The body of the search loop: look at every link of the node just popped. */
    method Walk(dist: S.Oracle, links: Links, ef: nat, open: seq<Neighbor>, best: seq<Neighbor>, ghost b: S.Beam)
      returns (candidates: seq<Neighbor>, results: seq<Neighbor>)
      requires Valid() && visited.InPass()
      requires b == S.Beam(open, best, visited.Marked())
      modifies visited`stamps
      ensures Valid() && visited.InPass()
      ensures S.Beam(candidates, results, visited.Marked()) == S.Expand(dist, links, ef, b)
    {
      hide InsertSorted, PushBounded;
      candidates, results := open, best;
      for j := 0 to |links|
        invariant Valid() && visited.InPass()
        invariant S.Expand(dist, links[j..], ef, S.Beam(candidates, results, visited.Marked()))
                  == S.Expand(dist, links, ef, b)
      {
        var next := links[j];
        assert links[j..] == [next] + links[j + 1..];
        var seen := visited.Mark(next);
        if !seen {
          var d := dist(next);
          if S.Admit(d, results, ef) {
            candidates := InsertSorted(candidates, Neighbor(next, d));
            results := PushBounded(results, Neighbor(next, d), ef);
          }
        }
      }
    }

    /** `greedy_descend`: walk to a local minimum. */
    method GreedyDescend(dist: S.Oracle, start: nat, startBest: real, layer: nat) returns (at: nat, best: real)
      requires LayerClosed(nodes, layer) && start in OnLayer(nodes, layer) && startBest == dist(start)
      ensures at == S.Greedy(nodes, layer, dist, start) && best == dist(at)
    {
      at, best := start, startBest;
      while true
        invariant at in OnLayer(nodes, layer) && best == dist(at)
        invariant S.Greedy(nodes, layer, dist, at) == S.Greedy(nodes, layer, dist, start)
        decreases S.Closer(nodes, layer, dist, at)
      {
        var next, nextBest, improved := ScanList(dist, nodes[at][layer], at, best);
        if !improved { return; }
        S.CloserShrinks(nodes, layer, dist, at, next);
        at, best := next, nextBest;
      }
    }

    /** One round of `greedy_descend`: move to every link that improves on the best so far. */
    method ScanList(dist: S.Oracle, links: Links, from: nat, fromBest: real)
      returns (at: nat, best: real, improved: bool)
      requires fromBest == dist(from)
      ensures at == S.GreedyScan(dist, links, from) && best == dist(at)
      ensures improved <==> at != from
    {
      at, best, improved := from, fromBest, false;
      for j := 0 to |links|
        invariant best == dist(at) <= dist(from)
        invariant (improved <==> at != from) && (improved ==> dist(at) < dist(from))
        invariant S.GreedyScan(dist, links[j..], at) == S.GreedyScan(dist, links, from)
      {
        assert links[j..] == [links[j]] + links[j + 1..];
        var d := dist(links[j]);
        if d < best {
          at, best, improved := links[j], d, true;
        }
      }
    }

    /** `select_neighbors`: keep a candidate only if no kept one dominates it, then top up. */
    method SelectNeighbors(rows: seq<Vector>, candidates: seq<Neighbor>, m: nat) returns (out: seq<nat>)
      requires forall i | 0 <= i < |candidates| :: candidates[i].id < |rows|
      ensures out == Sel.SelectNeighbors(I.Pairwise(kernel, rows), candidates, m)
    {
      ghost var d := I.Pairwise(kernel, rows);
      var selected: seq<Neighbor>, pruned: seq<Neighbor> := [], [];
      ghost var whole := Sel.Sift(d, candidates, m);
      var c := 0;
      while c < |candidates| && |selected| < m
        invariant c <= |candidates|
        invariant Sel.Split(selected, pruned) == Sel.Sift(d, candidates[..c], m)
        invariant forall i | 0 <= i < |selected| :: selected[i].id < |rows|
      {
        var cand := candidates[c];
        var dominated := AnyDominates(rows, selected, cand);
        assert candidates[..c + 1][..c] == candidates[..c];
        if dominated {
          pruned := pruned + [cand];
        } else {
          selected := selected + [cand];
        }
        c := c + 1;
      }
      FullStops(d, candidates, m, c);
      assert whole == Sel.Split(selected, pruned);
      out := TopUp(selected, pruned, m);
    }

    /** `selected.iter().any(..)` of the heuristic. */
    method AnyDominates(rows: seq<Vector>, selected: seq<Neighbor>, cand: Neighbor) returns (dominated: bool)
      requires cand.id < |rows| && forall i | 0 <= i < |selected| :: selected[i].id < |rows|
      ensures dominated == Sel.Dominated(I.Pairwise(kernel, rows), selected, cand)
    {
      ghost var d := I.Pairwise(kernel, rows);
      dominated := false;
      for i := 0 to |selected|
        invariant dominated <==> exists j | 0 <= j < i :: d(cand.id, selected[j].id) < cand.distance
      {
        if kernel(rows[cand.id], rows[selected[i].id]) < cand.distance { dominated := true; }
      }
    }

    /** Ids of the selected, then of the best pruned while there is room. */
    method TopUp(selected: seq<Neighbor>, pruned: seq<Neighbor>, m: nat) returns (out: seq<nat>)
      ensures out == Sel.ListIds(Sel.Picked(Sel.Split(selected, pruned), m))
    {
      out := [];
      for i := 0 to |selected|
        invariant out == Sel.ListIds(selected[..i])
      {
        out := out + [selected[i].id];
      }
      var p := 0;
      while p < |pruned| && |out| < m
        invariant p <= |pruned| && |out| == |selected| + p && (p > 0 ==> |out| <= m)
        invariant out == Sel.ListIds(selected + pruned[..p])
      {
        out := out + [pruned[p].id];
        p := p + 1;
      }
      assert Sel.Picked(Sel.Split(selected, pruned), m) == selected + pruned[..p];
    }

    /** Once `m` are selected (or candidates run out) the rest of the loop changes nothing. */
    static lemma {:induction false} FullStops(d: Sel.Metric, cands: seq<Neighbor>, m: nat, c: nat)
      requires c <= |cands|
      requires c == |cands| || |Sel.Sift(d, cands[..c], m).selected| >= m
      ensures Sel.Sift(d, cands, m) == Sel.Sift(d, cands[..c], m)
      decreases |cands|
    {
      if c == |cands| {
        assert cands[..c] == cands;
      } else {
        assert cands[..|cands| - 1][..c] == cands[..c];
        FullStops(d, cands[..|cands| - 1], m, c);
      }
    }

    /** `rewrite_links`: publish a replacement list; every other list, and every level, stays. */
    method RewriteLinks(id: nat, layer: nat, links: Links)
      requires id < |nodes| && layer < |nodes[id]|
      modifies this`nodes
      ensures SameShape(old(nodes), nodes) && nodes[id][layer] == links
      ensures forall i, l | 0 <= i < |nodes| && 0 <= l < |nodes[i]| && (i != id || l != layer) ::
                nodes[i][l] == old(nodes)[i][l]
    {
      nodes := SetLinks(nodes, id, layer, links);
    }

    /** Add `id` to the list of its chosen neighbour `nb`, re-selecting if the list is over-full. */
    method LinkBack(rows: seq<Vector>, id: nat, nb: nat, layer: nat)
      requires Navigable(nodes) && |nodes| <= |rows|
      requires nb in OnLayer(nodes, layer) && id in OnLayer(nodes, layer)
      modifies this`nodes
      ensures nodes == I.AddBackLink(cfg, I.Pairwise(kernel, rows), old(nodes), id, nb, layer)
    {
      ghost var d := I.Pairwise(kernel, rows);
      var max := I.MaxDegree(cfg, layer);
      var cur := nodes[nb][layer];
      if id in cur {
        RewriteLinks(nb, layer, cur);
        OneListDiffers(old(nodes), nodes, nb, layer);
        return;
      }
      var list := cur + [id];
      if |list| <= max {
        RewriteLinks(nb, layer, list);
        OneListDiffers(old(nodes), nodes, nb, layer);
        return;
      }
      assert LayerClosed(nodes, layer);
      Closed(layer, nb);
      var cands: seq<Neighbor> := [];
      for i := 0 to |list|
        invariant |cands| == i && forall j | 0 <= j < i :: cands[j] == Neighbor(list[j], d(nb, list[j]))
      {
        assert list[i] < |nodes| by { if i < |cur| { assert cur[i] in OnLayer(nodes, layer); } }
        cands := cands + [Neighbor(list[i], kernel(rows[nb], rows[list[i]]))];
      }
      assert cands == I.ScoreLinks(d, nb, list);
      SortedIds(cands, |rows|);
      var kept := SelectNeighbors(rows, Sort(cands), max);
      RewriteLinks(nb, layer, kept);
      OneListDiffers(old(nodes), nodes, nb, layer);
    }

    static lemma SortedIds(s: seq<Neighbor>, n: nat)
      requires forall i | 0 <= i < |s| :: s[i].id < n
      ensures forall i | 0 <= i < |Sort(s)| :: Sort(s)[i].id < n
    {
      SortCorrect(s);
      forall i | 0 <= i < |Sort(s)| ensures Sort(s)[i].id < n {
        assert Sort(s)[i] in multiset(s);
      }
    }

    /** One layer of `insert`: search, choose, link both ways. */
    method ConnectOn(rows: seq<Vector>, dist: S.Oracle, id: nat, ep: nat, layer: nat) returns (best: nat)
      requires Valid() && Navigable(nodes) && |nodes| <= |rows|
      requires dist == I.Toward(I.Pairwise(kernel, rows), id)
      requires id in OnLayer(nodes, layer) && ep in OnLayer(nodes, layer)
      modifies this`nodes, visited
      ensures Valid()
      ensures LayerClosed(old(nodes), layer)
      ensures var d := I.Pairwise(kernel, rows);
              var found := S.SearchLayer(old(nodes), layer, dist, ep, cfg.efConstruction);
              && found != [] && best == found[0].id && best in OnLayer(old(nodes), layer)
              && I.AllOn(old(nodes), layer, I.Chosen(cfg, d, found, id))
              && nodes == I.LinkOn(cfg, d, old(nodes), id, layer, found)
    {
      hide S.SearchLayer, Navigable;
      ghost var d := I.Pairwise(kernel, rows);
      ghost var nodes0 := nodes;
      NavigableLayer(nodes, layer);
      var found := SearchLayer(dist, ep, cfg.efConstruction, layer);
      I.ChosenOn(cfg, d, nodes, layer, id, ep, cfg.efConstruction);
      best := found[0].id;
      var candidates := Retain(found, id);
      FoundIds(dist, id, ep, layer, |rows|);
      var chosen := SelectNeighbors(rows, candidates, cfg.m);
      var own := I.Dedup(nodes[id][layer] + chosen);
      ghost var linked := I.LinkOn(cfg, d, nodes, id, layer, found);
      OwnNavigable(layer, id, chosen);
      RewriteLinks(id, layer, own);
      OneListDiffers(nodes0, nodes, id, layer);
      SameLayers(nodes0, nodes, layer);
      LinkBackAll(rows, id, chosen, layer);
    }

    /** `candidates.retain(|n| n.id != id)`. */
    method Retain(found: seq<Neighbor>, id: nat) returns (candidates: seq<Neighbor>)
      ensures candidates == I.Without(found, id)
    {
      candidates := [];
      for i := 0 to |found|
        invariant candidates == I.Without(found[..i], id)
      {
        assert found[..i + 1][..i] == found[..i];
        if found[i].id != id { candidates := candidates + [found[i]]; }
      }
      assert found[..|found|] == found;
    }

    /** The loop over the chosen neighbours. */
    method LinkBackAll(rows: seq<Vector>, id: nat, chosen: seq<nat>, layer: nat)
      requires Navigable(nodes) && |nodes| <= |rows|
      requires id in OnLayer(nodes, layer) && I.AllOn(nodes, layer, chosen)
      modifies this`nodes
      ensures nodes == I.AddBackLinks(cfg, I.Pairwise(kernel, rows), old(nodes), id, chosen, layer)
    {
      hide Navigable, I.AddBackLink;
      ghost var d := I.Pairwise(kernel, rows);
      ghost var mine := nodes;
      for j := 0 to |chosen|
        invariant Navigable(nodes) && SameShape(mine, nodes)
        invariant I.AllOn(mine, layer, chosen[..j])
        invariant nodes == I.AddBackLinks(cfg, d, mine, id, chosen[..j], layer)
      {
        SameLayers(mine, nodes, layer);
        assert chosen[j] in OnLayer(mine, layer);
        assert chosen[..j + 1][..j] == chosen[..j];
        LinkBack(rows, id, chosen[j], layer);
      }
      assert chosen[..|chosen|] == chosen;
    }

    lemma OwnNavigable(layer: nat, id: nat, chosen: seq<nat>)
      requires Navigable(nodes) && id in OnLayer(nodes, layer) && I.AllOn(nodes, layer, chosen)
      ensures Navigable(SetLinks(nodes, id, layer, I.Dedup(nodes[id][layer] + chosen)))
    {
      var own := I.Dedup(nodes[id][layer] + chosen);
      assert LayerClosed(nodes, layer);
      I.DedupRange(nodes[id][layer] + chosen);
      forall i | 0 <= i < |own| ensures own[i] in OnLayer(nodes, layer) {
        assert own[i] in own;
        assert own[i] in nodes[id][layer] + chosen;
      }
      SetLinksNavigable(nodes, id, layer, own);
    }

    lemma FoundIds(dist: S.Oracle, id: nat, ep: nat, layer: nat, n: nat)
      requires LayerClosed(nodes, layer) && ep in OnLayer(nodes, layer) && |nodes| <= n
      ensures var cands := I.Without(S.SearchLayer(nodes, layer, dist, ep, cfg.efConstruction), id);
              forall i | 0 <= i < |cands| :: cands[i].id < n
    {
      hide S.SearchLayer;
      var found := S.SearchLayer(nodes, layer, dist, ep, cfg.efConstruction);
      var seen := S.SearchLayerCorrect(nodes, layer, dist, ep, cfg.efConstruction);
      var cands := I.Without(found, id);
      I.WithoutPart(found, id);
      forall i | 0 <= i < |cands| ensures cands[i].id < n {
        assert cands[i] in multiset(cands);
        assert cands[i] in found && cands[i].id in S.IdSet(found);
      }
    }

    /**
     * `insert`: the next id, at the given level. The rows up to that id must be in the store; later
     * rows are never read, so the result is a function of rows `0..=id`.
     */
    method Insert(store: seq<Vector>, level: nat)
      requires Valid() && Sane(G())
      requires |nodes| < |store| && |nodes| < ID_LIMIT && level <= MAX_LEVEL
      modifies this, visited
      ensures Valid()
      ensures G() == I.Insert(cfg, I.Pairwise(kernel, store[..|old(nodes)| + 1]), old(G()), level)
    {
      hide Navigable, I.ConnectDown, S.Descend, S.SearchLayer, I.LinkOn;
      var id := |nodes|;
      var rows := store[..id + 1];
      AddNodeNavigable(nodes, level);
      nodes := nodes + [NewNode(level)];
      PackRoundTrip(id, level);
      if entry == ENTRY_NONE {
        entry := PackEntry(id, level);
        return;
      }
      var dist := I.Toward(I.Pairwise(kernel, rows), id);
      var (entryId, top) := UnpackEntry(entry);
      var ep := ZoomIn(dist, entryId, dist(entryId), top, level + 1);
      S.LayersNest(nodes, Min(top, level + 1), Min(top, level));
      ConnectAll(rows, dist, id, ep, Min(level, top));
      if level > top {
        entry := PackEntry(id, level);
      }
    }

    /** The loop of `insert` over the layers from `top` down. */
    method ConnectAll(rows: seq<Vector>, dist: S.Oracle, id: nat, start: nat, top: nat)
      requires Valid() && Navigable(nodes) && |nodes| <= |rows|
      requires dist == I.Toward(I.Pairwise(kernel, rows), id)
      requires id in OnLayer(nodes, top) && start in OnLayer(nodes, top)
      modifies this`nodes, visited
      ensures Valid()
      ensures nodes == I.ConnectDown(cfg, I.Pairwise(kernel, rows), old(nodes), id, start, top)
    {
      hide Navigable, I.ConnectDown, S.SearchLayer, I.LinkOn;
      ghost var d := I.Pairwise(kernel, rows);
      ghost var goal := I.ConnectDown(cfg, d, nodes, id, start, top);
      var ep := start;
      var layer: int := top;
      while layer >= 0
        invariant -1 <= layer <= top && Valid()
        invariant Navigable(nodes) && SameShape(old(nodes), nodes)
        invariant layer >= 0 ==> id in OnLayer(nodes, layer) && ep in OnLayer(nodes, layer)
        invariant layer >= 0 ==> I.ConnectDown(cfg, d, nodes, id, ep, layer) == goal
        invariant layer == -1 ==> nodes == goal
      {
        ghost var before := nodes;
        var best := ConnectOn(rows, dist, id, ep, layer);
        ConnectStep(d, before, id, ep, layer);
        ep := best;
        SameLayers(before, nodes, layer);
        if layer > 0 { S.LayersNest(nodes, layer, layer - 1); }
        layer := layer - 1;
      }
    }

    /** `ConnectDown` unfolded once. */
    lemma ConnectStep(d: Sel.Metric, nodes: Nodes, id: nat, ep: nat, layer: nat)
      requires Navigable(nodes) && id in OnLayer(nodes, layer) && ep in OnLayer(nodes, layer)
      ensures LayerClosed(nodes, layer)
      ensures var found := S.SearchLayer(nodes, layer, I.Toward(d, id), ep, cfg.efConstruction);
              && found != [] && I.AllOn(nodes, layer, I.Chosen(cfg, d, found, id))
              && var linked := I.LinkOn(cfg, d, nodes, id, layer, found);
              && Navigable(linked) && SameShape(nodes, linked)
              && (layer == 0 ==> I.ConnectDown(cfg, d, nodes, id, ep, layer) == linked)
              && (layer > 0 ==>
                    && id in OnLayer(linked, layer - 1) && found[0].id in OnLayer(linked, layer - 1)
                    && I.ConnectDown(cfg, d, nodes, id, ep, layer)
                       == I.ConnectDown(cfg, d, linked, id, found[0].id, layer - 1))
    {
      hide S.SearchLayer, I.LinkOn, I.Chosen;
      assert LayerClosed(nodes, layer);
      I.ChosenOn(cfg, d, nodes, layer, id, ep, cfg.efConstruction);
      var found := S.SearchLayer(nodes, layer, I.Toward(d, id), ep, cfg.efConstruction);
      var linked := I.LinkOn(cfg, d, nodes, id, layer, found);
      SameLayers(nodes, linked, layer);
      if layer > 0 { S.LayersNest(linked, layer, layer - 1); }
    }

    /** `Descend` unfolded once. */
    lemma DescendStep(dist: S.Oracle, at: nat, layer: nat, floor: nat)
      requires Navigable(nodes) && at in OnLayer(nodes, layer) && 0 < floor <= layer
      ensures LayerClosed(nodes, layer)
      ensures var next := S.Greedy(nodes, layer, dist, at);
              && next in OnLayer(nodes, layer - 1)
              && S.Descend(nodes, dist, at, layer, floor)
                 == if layer == floor then next else S.Descend(nodes, dist, next, layer - 1, floor)
    {
      hide S.Greedy;
      NavigableLayer(nodes, layer);
      S.LayersNest(nodes, layer, layer - 1);
    }

    /** Descend through layers `top, top - 1, .., floor`. */
    method ZoomIn(dist: S.Oracle, start: nat, startDist: real, top: nat, floor: nat) returns (ep: nat)
      requires Navigable(nodes) && start in OnLayer(nodes, top) && 0 < floor && startDist == dist(start)
      ensures ep == S.Descend(nodes, dist, start, top, floor)
    {
      hide Navigable, S.Descend, S.Greedy;
      ep := start;
      var epDist := startDist;
      var layer := top;
      ghost var goal := S.Descend(nodes, dist, start, top, floor);
      while layer >= floor
        invariant epDist == dist(ep)
        invariant floor - 1 <= layer <= top || layer == top
        invariant layer >= floor ==> ep in OnLayer(nodes, layer) && S.Descend(nodes, dist, ep, layer, floor) == goal
        invariant layer < floor ==> ep == goal
        decreases layer
      {
        DescendStep(dist, ep, layer, floor);
        ep, epDist := GreedyDescend(dist, ep, epDist, layer);
        layer := layer - 1;
      }
    }

    /** `search_with_oracle`: over full vectors or over PQ codes alike. */
    method SearchWithOracle(dist: S.Oracle, k: nat, ef: nat) returns (out: seq<Neighbor>)
      requires Valid() && Sane(G())
      modifies visited
      ensures Valid()
      ensures out == S.SearchGraph(G(), dist, k, ef)
    {
      hide S.SearchLayer, S.Descend, Navigable;
      if entry == ENTRY_NONE { return []; }
      var (entryId, top) := UnpackEntry(entry);
      var ep := ZoomIn(dist, entryId, dist(entryId), top, 1);
      assert ep == S.SearchStart(G(), dist);
      NavigableLayer(nodes, 0);
      var results := SearchLayer(dist, ep, Max(ef, k), 0);
      out := Take(results, k);
    }
  }
}
