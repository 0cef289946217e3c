/** The layered graph: per node one adjacency list per layer `0..=level`, plus the entry point. */
module Graph {
  import opened Common

  type Links = seq<nat>
  type Node = seq<Links>
  type Nodes = seq<Node>

  datatype Entry = Entry(id: nat, level: nat)

  datatype Graph = Graph(nodes: Nodes, entry: Option<Entry>)

  const EMPTY: Graph := Graph([], None)

  /** `Node::new`. */
  function NewNode(level: nat): (n: Node)
    ensures |n| == level + 1 && forall l | 0 <= l <= level :: n[l] == []
  {
    seq(level + 1, _ => [])
  }

  /** The nodes that exist on a layer. */
  ghost function OnLayer(nodes: Nodes, layer: nat): set<nat> {
    set i: nat | i < |nodes| && layer < |nodes[i]|
  }

  /** Every link of the layer leads to a node that exists on it. */
  ghost predicate LayerClosed(nodes: Nodes, layer: nat) {
    forall i, j | i in OnLayer(nodes, layer) && 0 <= j < |nodes[i][layer]| ::
      nodes[i][layer][j] in OnLayer(nodes, layer)
  }

  /** No traversal of the graph can index a missing node or a missing layer. */
  ghost predicate Navigable(nodes: Nodes) {
    && (forall i | 0 <= i < |nodes| :: |nodes[i]| > 0)
    && (forall layer: nat :: LayerClosed(nodes, layer))
  }

  ghost predicate EntryOk(g: Graph) {
    match g.entry
    case None => g.nodes == []
    case Some(e) => e.id < |g.nodes| && |g.nodes[e.id]| == e.level + 1
  }

  /** What searching and inserting need of a graph. */
  ghost predicate Sane(g: Graph) {
    Navigable(g.nodes) && EntryOk(g)
  }

  function SetLinks(nodes: Nodes, id: nat, layer: nat, links: Links): (r: Nodes)
    requires id < |nodes| && layer < |nodes[id]|
    ensures SameShape(nodes, r)
  {
    nodes[id := nodes[id][layer := links]]
  }

  /** The same nodes on the same levels; adjacency may differ. */
  ghost predicate SameShape(a: Nodes, b: Nodes) {
    |a| == |b| && forall i | 0 <= i < |a| :: |a[i]| == |b[i]|
  }

  /** Two graphs of one shape that differ in one list at most: one is the other with that list replaced. */
  lemma OneListDiffers(a: Nodes, b: Nodes, id: nat, layer: nat)
    requires SameShape(a, b) && id < |a| && layer < |a[id]|
    requires forall i, l | 0 <= i < |a| && 0 <= l < |a[i]| && (i != id || l != layer) :: b[i][l] == a[i][l]
    ensures b == SetLinks(a, id, layer, b[id][layer])
  {
    forall i | 0 <= i < |a| ensures b[i] == SetLinks(a, id, layer, b[id][layer])[i] {
    }
  }

  lemma NavigableLayer(nodes: Nodes, layer: nat)
    requires Navigable(nodes)
    ensures LayerClosed(nodes, layer)
  {
  }

  lemma SameLayers(a: Nodes, b: Nodes, layer: nat)
    requires SameShape(a, b)
    ensures OnLayer(a, layer) == OnLayer(b, layer)
  {
  }

  /** Rewriting one list to targets on its layer keeps the whole graph navigable. */
  lemma SetLinksNavigable(nodes: Nodes, id: nat, layer: nat, links: Links)
    requires Navigable(nodes) && id < |nodes| && layer < |nodes[id]|
    requires forall j | 0 <= j < |links| :: links[j] in OnLayer(nodes, layer)
    ensures Navigable(SetLinks(nodes, id, layer, links))
  {
    var r := SetLinks(nodes, id, layer, links);
    forall l: nat ensures LayerClosed(r, l) {
      SameLayers(nodes, r, l);
      assert LayerClosed(nodes, l);
      forall i, j | i in OnLayer(r, l) && 0 <= j < |r[i][l]|
        ensures r[i][l][j] in OnLayer(r, l)
      {
        if i == id && l == layer {
          assert r[i][l] == links;
        } else {
          assert r[i][l] == nodes[i][l];
        }
      }
    }
  }

  /** A fresh node, linked to nothing, keeps the graph navigable. */
  lemma AddNodeNavigable(nodes: Nodes, level: nat)
    requires Navigable(nodes)
    ensures Navigable(nodes + [NewNode(level)])
  {
    var r := nodes + [NewNode(level)];
    forall l: nat ensures LayerClosed(r, l) {
      assert LayerClosed(nodes, l);
      forall i, j | i in OnLayer(r, l) && 0 <= j < |r[i][l]|
        ensures r[i][l][j] in OnLayer(r, l)
      {
        assert i in OnLayer(nodes, l) && r[i] == nodes[i];
        assert r[i][l][j] in OnLayer(nodes, l);
      }
    }
  }

  // --- reachability ------------------------------------------------------------

  ghost predicate IsPath(nodes: Nodes, layer: nat, p: seq<nat>) {
    && p != []
    && (forall i | 0 <= i < |p| :: p[i] in OnLayer(nodes, layer))
    && (forall i | 0 < i < |p| :: p[i] in nodes[p[i - 1]][layer])
  }

  /** Some chain of layer links leads from `a` to `b`. */
  ghost predicate Reachable(nodes: Nodes, layer: nat, a: nat, b: nat) {
    exists p :: IsPath(nodes, layer, p) && p[0] == a && p[|p| - 1] == b
  }

  lemma ReachSelf(nodes: Nodes, layer: nat, a: nat)
    requires a in OnLayer(nodes, layer)
    ensures Reachable(nodes, layer, a, a)
  {
    assert IsPath(nodes, layer, [a]);
  }

  lemma ReachStep(nodes: Nodes, layer: nat, a: nat, b: nat, c: nat)
    requires Reachable(nodes, layer, a, b) && b in OnLayer(nodes, layer)
    requires c in OnLayer(nodes, layer) && c in nodes[b][layer]
    ensures Reachable(nodes, layer, a, c)
  {
    var p :| IsPath(nodes, layer, p) && p[0] == a && p[|p| - 1] == b;
    var q := p + [c];
    assert IsPath(nodes, layer, q) && q[0] == a && q[|q| - 1] == c;
  }

  /** Whatever contains `a` and is closed under links contains everything reachable from `a`. */
  lemma {:induction false} ReachWithin(nodes: Nodes, layer: nat, closed: set<nat>, p: seq<nat>)
    requires IsPath(nodes, layer, p) && p[0] in closed && closed <= OnLayer(nodes, layer)
    requires forall i, j | i in closed && 0 <= j < |nodes[i][layer]| :: nodes[i][layer][j] in closed
    ensures p[|p| - 1] in closed
    decreases |p|
  {
    if |p| > 1 {
      ReachWithin(nodes, layer, closed, p[..|p| - 1]);
      var last := p[|p| - 2];
      assert p[|p| - 1] in nodes[last][layer];
    }
  }
}
