/**
 * Searches beside racing inserts. A search takes no lock: it reads the entry word once and then one
 * list after another, and between any two of its reads any insert may take any step. Whatever the
 * interleaving, every node and layer a search goes to exists.
 */
module Readers {
  import opened Common
  import opened Graph
  import Co = Concurrent
  import I = Insertion
  import Sel = Select

  /** A search: not yet at the entry; in the greedy descent; or in the beam search on layer 0. */
  datatype Reader = Arriving | Walking(layer: nat, ep: nat) | Beaming(seen: set<nat>)

  datatype State = State(index: Co.State, readers: map<nat, Reader>)

  datatype Step =
    | Insert(step: Co.Step)               // any step of any insert
    | Begin(r: nat)
    | ReadEntry(r: nat)
    | Hop(r: nat, to: nat)                // a link of the current node is closer
    | Lower(r: nat)
    | Visit(r: nat, from: nat, to: nat)   // a link of a node already seen
    | Return(r: nat)

  /** `to` is in the list a search reads at `at`, if there is such a list. */
  predicate Reads(s: State, layer: nat, at: nat, to: nat) {
    Co.On(s.index.nodes, layer, at) && to in s.index.nodes[at][layer]
  }

  predicate Enabled(cfg: I.Config, s: State, step: Step) {
    match step
    case Insert(inner) => Co.Enabled(cfg, s.index, inner)
    case Begin(r) => r !in s.readers
    case ReadEntry(r) => r in s.readers && s.readers[r].Arriving?
    case Hop(r, to) => r in s.readers && s.readers[r].Walking? && Reads(s, s.readers[r].layer, s.readers[r].ep, to)
    case Lower(r) => r in s.readers && s.readers[r].Walking? && s.readers[r].layer > 0
    case Visit(r, from, to) =>
      r in s.readers && s.readers[r].Beaming? && from in s.readers[r].seen && Reads(s, 0, from, to)
    case Return(r) => r in s.readers && s.readers[r].Beaming?
  }

  /** On reaching a layer: descend on it, or start the beam search if it is layer 0. */
  function Arrive(layer: nat, ep: nat): Reader {
    if layer > 0 then Walking(layer, ep) else Beaming({ep})
  }

  ghost function Apply(cfg: I.Config, d: Sel.Metric, s: State, step: Step): State
    requires Enabled(cfg, s, step)
  {
    match step
    case Insert(inner) => s.(index := Co.Apply(cfg, d, s.index, inner))
    case Begin(r) => s.(readers := s.readers[r := Arriving])
    case ReadEntry(r) =>
      if s.index.entry.None? then s.(readers := s.readers - {r})
      else s.(readers := s.readers[r := Arrive(s.index.entry.value.level, s.index.entry.value.id)])
    case Hop(r, to) => s.(readers := s.readers[r := Walking(s.readers[r].layer, to)])
    case Lower(r) => s.(readers := s.readers[r := Arrive(s.readers[r].layer - 1, s.readers[r].ep)])
    case Visit(r, from, to) => s.(readers := s.readers[r := Beaming(s.readers[r].seen + {to})])
    case Return(r) => s.(readers := s.readers - {r})
  }

  ghost predicate Next(cfg: I.Config, d: Sel.Metric, a: State, b: State) {
    exists step :: Enabled(cfg, a, step) && b == Apply(cfg, d, a, step)
  }

  ghost predicate Run(cfg: I.Config, d: Sel.Metric, start: Graph, states: seq<State>) {
    && states != [] && states[0] == State(Co.Resume(start), map[])
    && forall i | 0 < i < |states| :: Next(cfg, d, states[i - 1], states[i])
  }

  /** Every list the search may read next is there: the node is initialised and has the layer. */
  ghost predicate ReaderOk(nodes: map<nat, Node>, r: Reader) {
    match r
    case Arriving => true
    case Walking(layer, ep) => Co.On(nodes, layer, ep)
    case Beaming(seen) => forall x | x in seen :: Co.On(nodes, 0, x)
  }

  ghost predicate Safe(cfg: I.Config, s: State) {
    Co.Inv(cfg, s.index) && forall r | r in s.readers :: ReaderOk(s.index.nodes, s.readers[r])
  }

  /** An insert takes nothing away from a search in flight. */
  lemma InsertKeeps(cfg: I.Config, d: Sel.Metric, s: State, inner: Co.Step)
    requires Safe(cfg, s) && Co.Enabled(cfg, s.index, inner)
    ensures Safe(cfg, Apply(cfg, d, s, Insert(inner)))
  {
    hide Co.Inv, Co.Enabled, Co.Apply;
    var t := Co.Apply(cfg, d, s.index, inner);
    assert Co.Next(cfg, d, s.index, t);
    Co.NextKeepsInv(cfg, d, s.index, t);
    Co.NextKeepsLevels(cfg, d, s.index, t);
    forall r | r in s.readers ensures ReaderOk(t.nodes, s.readers[r]) {
      assert ReaderOk(s.index.nodes, s.readers[r]);
    }
  }

  /** And a link read leads to a node that exists on the layer. */
  lemma ReadLeadsOn(cfg: I.Config, s: State, layer: nat, at: nat, to: nat)
    requires Co.Inv(cfg, s.index) && Reads(s, layer, at, to)
    ensures Co.On(s.index.nodes, layer, to)
  {
    assert Co.ListOk(s.index.nodes, at, layer);
    var j :| 0 <= j < |s.index.nodes[at][layer]| && s.index.nodes[at][layer][j] == to;
  }

  lemma EntryExists(cfg: I.Config, s: State)
    requires Co.Inv(cfg, s.index) && s.index.entry.Some?
    ensures Co.On(s.index.nodes, s.index.entry.value.level, s.index.entry.value.id)
  {
  }

  lemma NextKeepsSafe(cfg: I.Config, d: Sel.Metric, a: State, b: State)
    requires Safe(cfg, a) && Next(cfg, d, a, b)
    ensures Safe(cfg, b)
  {
    hide Co.Inv, Co.Enabled, Co.Apply;
    var step :| Enabled(cfg, a, step) && b == Apply(cfg, d, a, step);
    match step {
      case Insert(inner) => InsertKeeps(cfg, d, a, inner);
      case ReadEntry(r) => if a.index.entry.Some? { EntryExists(cfg, a); }
      case Hop(r, to) => ReadLeadsOn(cfg, a, a.readers[r].layer, a.readers[r].ep, to);
      case Visit(r, from, to) => ReadLeadsOn(cfg, a, 0, from, to);
      case Lower(r) => assert ReaderOk(a.index.nodes, a.readers[r]);
      case _ =>
    }
  }

  /**
   * Over all interleavings of any number of inserts and searches, from any graph earlier inserts left:
   * no search ever goes to a node that is not initialised or to a layer the node does not have.
   */
  lemma {:induction false} SearchesSafe(cfg: I.Config, d: Sel.Metric, start: Graph, states: seq<State>, i: nat)
    requires Co.RacedGraph(cfg, start) && Run(cfg, d, start, states) && i < |states|
    ensures Safe(cfg, states[i])
    decreases i
  {
    hide Safe, Next, Co.RacedGraph, Co.Resume;
    if i == 0 {
      StartSafe(cfg, start);
    } else {
      SearchesSafe(cfg, d, start, states, i - 1);
      assert Next(cfg, d, states[i - 1], states[i]);
      NextKeepsSafe(cfg, d, states[i - 1], states[i]);
    }
  }

  lemma StartSafe(cfg: I.Config, start: Graph)
    requires Co.RacedGraph(cfg, start)
    ensures Safe(cfg, State(Co.Resume(start), map[]))
  {
    hide Co.RacedGraph, Co.Inv;
    Co.ResumeInv(cfg, start);
  }
}
