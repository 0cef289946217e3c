/**
 * Concurrent inserts as a state machine. One atomic step is one lock region or one atomic load or
 * store of `Hnsw::insert`: set the node, claim the entry, read the entry, read one list, rewrite
 * one list under its node's lock, move the entry. Every interleaving of any number of inserts is a
 * run of this machine.
 */
module Concurrent {
  import opened Common
  import opened Neighbors
  import opened Graph
  import Sel = Select
  import I = Insertion
  import St = Structure

  /** How far one insert has got. `top` is the entry level it read. */
  datatype Phase =
    | Started(level: nat)
    | Descending(level: nat, top: nat, layer: nat, ep: nat)
    | Searching(level: nat, top: nat, layer: nat, seen: set<nat>)
    | Linking(level: nat, top: nat, layer: nat, chosen: seq<nat>, done: nat, next: nat)
    | Moving(level: nat, top: nat)

  /** Initialised nodes, the entry word, and the inserts in flight, by the id they insert. */
  datatype State = State(nodes: map<nat, Node>, entry: Option<Entry>, threads: map<nat, Phase>)

  datatype Step =
    | SetNode(id: nat, level: nat)
    | Claim(id: nat)
    | ReadEntry(id: nat)
    | Hop(id: nat, to: nat)
    | Lower(id: nat)
    | Visit(id: nat, from: nat, to: nat)
    | Choose(id: nat, chosen: seq<nat>, next: nat)
    | Back(id: nat)
    | NextLayer(id: nat)
    | Move(id: nat)

  /** No insert in flight over an index already holding `g`: empty at first, or as a reopening left it. */
  function Resume(g: Graph): State {
    State(map i: nat | i < |g.nodes| :: g.nodes[i], g.entry, map[])
  }

  predicate On(nodes: map<nat, Node>, layer: nat, id: nat) {
    id in nodes && layer < |nodes[id]|
  }

  /** When a step may be taken. List reads see the list of a node reached earlier, on its layer. */
  predicate Enabled(cfg: I.Config, s: State, step: Step) {
    match step
    case SetNode(id, level) => id !in s.nodes
    case Claim(id) => id in s.threads && s.threads[id].Started? && s.entry.None?
    case ReadEntry(id) => id in s.threads && s.threads[id].Started? && s.entry.Some?
    case Hop(id, to) =>
      && id in s.threads && s.threads[id].Descending?
      && On(s.nodes, s.threads[id].layer, s.threads[id].ep)
      && to in s.nodes[s.threads[id].ep][s.threads[id].layer]
    case Lower(id) => id in s.threads && s.threads[id].Descending? && s.threads[id].layer > 0
    case Visit(id, from, to) =>
      && id in s.threads && s.threads[id].Searching?
      && from in s.threads[id].seen && On(s.nodes, s.threads[id].layer, from)
      && to in s.nodes[from][s.threads[id].layer]
    case Choose(id, chosen, next) =>
      && id in s.threads && s.threads[id].Searching?
      && On(s.nodes, s.threads[id].layer, id)
      && |chosen| <= cfg.m && id !in chosen
      && (forall i | 0 <= i < |chosen| :: chosen[i] in s.threads[id].seen)
      && next in s.threads[id].seen
    case Back(id) =>
      && id in s.threads && s.threads[id].Linking? && s.threads[id].done < |s.threads[id].chosen|
      && On(s.nodes, s.threads[id].layer, s.threads[id].chosen[s.threads[id].done])
    case NextLayer(id) =>
      id in s.threads && s.threads[id].Linking? && s.threads[id].done == |s.threads[id].chosen|
    case Move(id) => id in s.threads && s.threads[id].Moving? && s.entry.Some?
  }

  function SetList(nodes: map<nat, Node>, id: nat, layer: nat, links: Links): map<nat, Node>
    requires On(nodes, layer, id)
  {
    nodes[id := nodes[id][layer := links]]
  }

  /** Enter layer `layer` from above: keep descending, or start connecting. */
  function Arrive(level: nat, top: nat, layer: nat, ep: nat): Phase {
    if layer > level then Descending(level, top, layer, ep) else Searching(level, top, layer, {ep})
  }

  ghost function Apply(cfg: I.Config, d: Sel.Metric, s: State, step: Step): State
    requires Enabled(cfg, s, step)
  {
    match step
    case SetNode(id, level) =>
      s.(nodes := s.nodes[id := NewNode(level)], threads := s.threads[id := Started(level)])
    case Claim(id) =>
      s.(entry := Some(Entry(id, s.threads[id].level)), threads := s.threads - {id})
    case ReadEntry(id) =>
      var e := s.entry.value;
      s.(threads := s.threads[id := Arrive(s.threads[id].level, e.level, e.level, e.id)])
    case Hop(id, to) => s.(threads := s.threads[id := s.threads[id].(ep := to)])
    case Lower(id) =>
      var t := s.threads[id];
      s.(threads := s.threads[id := Arrive(t.level, t.top, t.layer - 1, t.ep)])
    case Visit(id, from, to) =>
      var t := s.threads[id];
      s.(threads := s.threads[id := t.(seen := t.seen + {to})])
    case Choose(id, chosen, next) =>
      var t := s.threads[id];
      s.(nodes := SetList(s.nodes, id, t.layer, I.Dedup(s.nodes[id][t.layer] + chosen)),
         threads := s.threads[id := Linking(t.level, t.top, t.layer, chosen, 0, next)])
    case Back(id) =>
      var t := s.threads[id];
      var nb := t.chosen[t.done];
      s.(nodes := SetList(s.nodes, nb, t.layer,
                          I.BackLink(d, s.nodes[nb][t.layer], nb, id, I.MaxDegree(cfg, t.layer))),
         threads := s.threads[id := t.(done := t.done + 1)])
    case NextLayer(id) =>
      var t := s.threads[id];
      s.(threads := s.threads[id :=
           if t.layer == 0 then Moving(t.level, t.top)
           else Searching(t.level, t.top, t.layer - 1, {t.next})])
    case Move(id) =>
      var t := s.threads[id];
      s.(entry := if t.level > t.top && t.level > s.entry.value.level then Some(Entry(id, t.level)) else s.entry,
         threads := s.threads - {id})
  }

  ghost predicate Next(cfg: I.Config, d: Sel.Metric, a: State, b: State) {
    exists step :: Enabled(cfg, a, step) && b == Apply(cfg, d, a, step)
  }

  ghost predicate Run(cfg: I.Config, d: Sel.Metric, start: Graph, states: seq<State>) {
    && states != [] && states[0] == Resume(start)
    && forall i | 0 < i < |states| :: Next(cfg, d, states[i - 1], states[i])
  }

  // --- the invariant -----------------------------------------------------------------

  /** `nb` exists on the layer and is not the node itself. */
  ghost predicate ListOk(nodes: map<nat, Node>, id: nat, layer: nat) {
    id in nodes && layer < |nodes[id]|
    && forall j | 0 <= j < |nodes[id][layer]| ::
         nodes[id][layer][j] != id && On(nodes, layer, nodes[id][layer][j])
  }

  ghost predicate LinksOk(nodes: map<nat, Node>) {
    forall id, l | id in nodes && 0 <= l < |nodes[id]| :: ListOk(nodes, id, l)
  }

  ghost predicate EntryTrue(s: State) {
    s.entry.Some? ==> s.entry.value.id in s.nodes && |s.nodes[s.entry.value.id]| == s.entry.value.level + 1
  }

  /** A finished insert's node is no higher than the entry. */
  ghost predicate EntryCovers(s: State) {
    forall id | id in s.nodes && id !in s.threads ::
      s.entry.Some? && |s.nodes[id]| <= s.entry.value.level + 1
  }

  ghost predicate PhaseOk(s: State, id: nat, t: Phase) {
    && id in s.nodes && |s.nodes[id]| == t.level + 1
    && (t.Started? || (s.entry.Some? && t.top <= s.entry.value.level))
    && match t
       case Started(_) => true
       case Descending(level, top, layer, ep) => level < layer <= top && On(s.nodes, layer, ep)
       case Searching(level, top, layer, seen) =>
         layer <= level && layer <= top && forall x | x in seen :: On(s.nodes, layer, x)
       case Linking(level, top, layer, chosen, done, next) =>
         && layer <= level && layer <= top && done <= |chosen| && On(s.nodes, layer, next)
         && id !in chosen && forall i | 0 <= i < |chosen| :: On(s.nodes, layer, chosen[i])
       case Moving(level, top) => true
  }

  ghost predicate ThreadsOk(s: State) {
    forall id | id in s.threads :: PhaseOk(s, id, s.threads[id])
  }

  /** `id` has not yet written its own list on `layer`. */
  ghost predicate OwnPending(s: State, id: nat, layer: nat) {
    id in s.threads &&
    match s.threads[id]
    case Started(_) => true
    case Descending(_, _, _, _) => true
    case Searching(_, _, at, _) => layer <= at
    case Linking(_, _, at, _, _, _) => layer < at
    case Moving(_, _) => false
  }

  /** Back-links alone respect the degree bound; a racing insert's own links come on top of it. */
  ghost predicate DegreesBounded(cfg: I.Config, s: State) {
    forall id, l | id in s.nodes && 0 <= l < |s.nodes[id]| ::
      |s.nodes[id][l]| <= I.MaxDegree(cfg, l) + (if OwnPending(s, id, l) then 0 else cfg.m)
  }

  ghost predicate Inv(cfg: I.Config, s: State) {
    && (forall id | id in s.nodes :: |s.nodes[id]| > 0)
    && LinksOk(s.nodes) && EntryTrue(s) && EntryCovers(s) && ThreadsOk(s) && DegreesBounded(cfg, s)
  }

  /** Nodes only gain lists' contents: no node disappears or changes level. */
  ghost predicate SameLevels(a: map<nat, Node>, b: map<nat, Node>) {
    forall id | id in a :: id in b && |b[id]| == |a[id]|
  }

  lemma PhaseKept(a: State, b: State, id: nat, t: Phase)
    requires PhaseOk(a, id, t) && SameLevels(a.nodes, b.nodes)
    requires a.entry.Some? ==> b.entry.Some? && a.entry.value.level <= b.entry.value.level
    ensures PhaseOk(b, id, t)
  {
  }

  lemma SetListOk(nodes: map<nat, Node>, id: nat, layer: nat, links: Links)
    requires LinksOk(nodes) && On(nodes, layer, id)
    requires forall j | 0 <= j < |links| :: links[j] != id && On(nodes, layer, links[j])
    ensures LinksOk(SetList(nodes, id, layer, links)) && SameLevels(nodes, SetList(nodes, id, layer, links))
  {
    var r := SetList(nodes, id, layer, links);
    forall i, l | i in r && 0 <= l < |r[i]| ensures ListOk(r, i, l) {
      if i == id && l == layer {
        assert r[i][l] == links;
      } else {
        assert r[i][l] == nodes[i][l];
        assert ListOk(nodes, i, l);
      }
    }
  }

  lemma BackLinkSize(d: Sel.Metric, cur: Links, nb: nat, id: nat, max: nat)
    ensures |I.BackLink(d, cur, nb, id, max)| <= Max(|cur|, max)
  {
    hide Sel.Sift, Sel.Picked, Sort;
    if id !in cur && |cur| + 1 > max {
      Sel.PickedPart(d, Sort(I.ScoreLinks(d, nb, cur + [id])), max);
    }
  }

  /** The rewrite of the inserter's own list. */
  lemma ChooseKeeps(cfg: I.Config, d: Sel.Metric, s: State, id: nat, chosen: seq<nat>, next: nat)
    requires Inv(cfg, s) && Enabled(cfg, s, Choose(id, chosen, next))
    ensures Inv(cfg, Apply(cfg, d, s, Choose(id, chosen, next)))
  {
    hide PhaseOk, DegreesBounded, LinksOk, I.Dedup;
    var t := s.threads[id];
    var r := Apply(cfg, d, s, Choose(id, chosen, next));
    assert PhaseOk(s, id, t);
    ChooseLinks(cfg, s, id, chosen, next);
    ChooseDegrees(cfg, d, s, id, chosen, next);
    ChoosePhase(cfg, d, s, id, chosen, next);
    assert SameLevels(s.nodes, r.nodes);
    forall i | i in r.threads ensures PhaseOk(r, i, r.threads[i]) {
      assert PhaseOk(s, i, s.threads[i]);
      if i != id { PhaseKept(s, r, i, s.threads[i]); }
    }
  }

  lemma ChooseLinks(cfg: I.Config, s: State, id: nat, chosen: seq<nat>, next: nat)
    requires LinksOk(s.nodes) && Enabled(cfg, s, Choose(id, chosen, next)) && PhaseOk(s, id, s.threads[id])
    ensures var l := s.threads[id].layer;
            var r := SetList(s.nodes, id, l, I.Dedup(s.nodes[id][l] + chosen));
            LinksOk(r) && SameLevels(s.nodes, r)
  {
    var t := s.threads[id];
    var cur := s.nodes[id][t.layer];
    var own := I.Dedup(cur + chosen);
    assert ListOk(s.nodes, id, t.layer);
    I.DedupRange(cur + chosen);
    forall j | 0 <= j < |own| ensures own[j] != id && On(s.nodes, t.layer, own[j]) {
      assert own[j] in own;
      var k :| 0 <= k < |cur + chosen| && (cur + chosen)[k] == own[j];
      if k < |cur| { assert cur[k] == own[j]; } else { assert chosen[k - |cur|] == own[j]; }
    }
    SetListOk(s.nodes, id, t.layer, own);
  }

  lemma ChooseDegrees(cfg: I.Config, d: Sel.Metric, s: State, id: nat, chosen: seq<nat>, next: nat)
    requires DegreesBounded(cfg, s) && Enabled(cfg, s, Choose(id, chosen, next))
    ensures DegreesBounded(cfg, Apply(cfg, d, s, Choose(id, chosen, next)))
  {
    var t := s.threads[id];
    var cur := s.nodes[id][t.layer];
    var r := Apply(cfg, d, s, Choose(id, chosen, next));
    I.DedupRange(cur + chosen);
    assert OwnPending(s, id, t.layer) && |cur| <= I.MaxDegree(cfg, t.layer);
    forall i, l | i in r.nodes && 0 <= l < |r.nodes[i]|
      ensures |r.nodes[i][l]| <= I.MaxDegree(cfg, l) + (if OwnPending(r, i, l) then 0 else cfg.m)
    {
      if i == id && l == t.layer {
        assert r.nodes[i][l] == I.Dedup(cur + chosen);
      } else {
        assert r.nodes[i][l] == s.nodes[i][l];
        assert OwnPending(r, i, l) ==> OwnPending(s, i, l);
      }
    }
  }

  lemma ChoosePhase(cfg: I.Config, d: Sel.Metric, s: State, id: nat, chosen: seq<nat>, next: nat)
    requires Enabled(cfg, s, Choose(id, chosen, next)) && PhaseOk(s, id, s.threads[id])
    ensures var r := Apply(cfg, d, s, Choose(id, chosen, next)); PhaseOk(r, id, r.threads[id])
  {
    hide I.Dedup;
  }

  /** The rewrite of a chosen neighbour's list. */
  lemma BackKeeps(cfg: I.Config, d: Sel.Metric, s: State, id: nat)
    requires Inv(cfg, s) && Enabled(cfg, s, Back(id))
    ensures Inv(cfg, Apply(cfg, d, s, Back(id)))
  {
    hide PhaseOk, DegreesBounded, LinksOk, I.BackLink;
    var t := s.threads[id];
    var r := Apply(cfg, d, s, Back(id));
    assert PhaseOk(s, id, t);
    BackLinks(cfg, d, s, id);
    BackDegrees(cfg, d, s, id);
    forall i | i in r.threads ensures PhaseOk(r, i, r.threads[i]) {
      assert PhaseOk(s, i, s.threads[i]);
      if i == id { BackPhase(cfg, d, s, id); } else { PhaseKept(s, r, i, s.threads[i]); }
    }
  }

  lemma BackLinks(cfg: I.Config, d: Sel.Metric, s: State, id: nat)
    requires LinksOk(s.nodes) && Enabled(cfg, s, Back(id)) && PhaseOk(s, id, s.threads[id])
    ensures var r := Apply(cfg, d, s, Back(id)); LinksOk(r.nodes) && SameLevels(s.nodes, r.nodes)
  {
    hide I.BackLink;
    var t := s.threads[id];
    var nb := t.chosen[t.done];
    var cur, max := s.nodes[nb][t.layer], I.MaxDegree(cfg, t.layer);
    var links := I.BackLink(d, cur, nb, id, max);
    I.BackLinkRange(d, cur, nb, id, max);
    assert ListOk(s.nodes, nb, t.layer);
    forall j | 0 <= j < |links| ensures links[j] != nb && On(s.nodes, t.layer, links[j]) {
      assert links[j] in links;
      if links[j] != id { var k :| 0 <= k < |cur| && cur[k] == links[j]; }
    }
    SetListOk(s.nodes, nb, t.layer, links);
  }

  lemma BackDegrees(cfg: I.Config, d: Sel.Metric, s: State, id: nat)
    requires DegreesBounded(cfg, s) && Enabled(cfg, s, Back(id))
    ensures DegreesBounded(cfg, Apply(cfg, d, s, Back(id)))
  {
    hide I.BackLink;
    var t := s.threads[id];
    var nb := t.chosen[t.done];
    var r := Apply(cfg, d, s, Back(id));
    BackLinkSize(d, s.nodes[nb][t.layer], nb, id, I.MaxDegree(cfg, t.layer));
    forall i, l | i in r.nodes && 0 <= l < |r.nodes[i]|
      ensures |r.nodes[i][l]| <= I.MaxDegree(cfg, l) + (if OwnPending(r, i, l) then 0 else cfg.m)
    {
      assert OwnPending(r, i, l) == OwnPending(s, i, l);
      if i != nb || l != t.layer { assert r.nodes[i][l] == s.nodes[i][l]; }
    }
  }

  lemma BackPhase(cfg: I.Config, d: Sel.Metric, s: State, id: nat)
    requires Enabled(cfg, s, Back(id)) && PhaseOk(s, id, s.threads[id])
    ensures var r := Apply(cfg, d, s, Back(id)); PhaseOk(r, id, r.threads[id])
  {
    hide I.BackLink;
  }

  lemma SetNodeKeeps(cfg: I.Config, d: Sel.Metric, s: State, id: nat, level: nat)
    requires Inv(cfg, s) && Enabled(cfg, s, SetNode(id, level))
    ensures Inv(cfg, Apply(cfg, d, s, SetNode(id, level)))
  {
    var r := Apply(cfg, d, s, SetNode(id, level));
    assert id in s.threads ==> PhaseOk(s, id, s.threads[id]);
    forall i, l | i in r.nodes && 0 <= l < |r.nodes[i]| ensures ListOk(r.nodes, i, l) {
      if i != id { assert ListOk(s.nodes, i, l); }
    }
    forall i, l | i in r.nodes && 0 <= l < |r.nodes[i]|
      ensures |r.nodes[i][l]| <= I.MaxDegree(cfg, l) + (if OwnPending(r, i, l) then 0 else cfg.m)
    {
      if i != id { assert OwnPending(r, i, l) == OwnPending(s, i, l); }
    }
    forall i | i in r.threads ensures PhaseOk(r, i, r.threads[i]) {
      if i != id { PhaseKept(s, r, i, s.threads[i]); }
    }
  }

  predicate Quiet(step: Step) {
    !step.SetNode? && !step.Choose? && !step.Back?
  }

  /** Where a step that leaves every list alone takes its own insert. */
  lemma QuietPhase(cfg: I.Config, d: Sel.Metric, s: State, step: Step)
    requires EntryTrue(s) && LinksOk(s.nodes) && Enabled(cfg, s, step) && Quiet(step)
    requires PhaseOk(s, step.id, s.threads[step.id])
    ensures var r := Apply(cfg, d, s, step);
            step.id in r.threads ==> PhaseOk(r, step.id, r.threads[step.id])
  {
    var t := s.threads[step.id];
    match step {
      case Hop(id, to) =>
        assert ListOk(s.nodes, t.ep, t.layer);
        HopTarget(s, t, to);
      case Visit(id, from, to) =>
        assert ListOk(s.nodes, from, t.layer);
      case Lower(id) =>
        assert On(s.nodes, t.layer - 1, t.ep);
      case _ =>
    }
  }

  lemma QuietOthers(cfg: I.Config, d: Sel.Metric, s: State, step: Step)
    requires ThreadsOk(s) && Enabled(cfg, s, step) && Quiet(step)
    ensures var r := Apply(cfg, d, s, step);
            forall i | i in r.threads && i != step.id :: PhaseOk(r, i, r.threads[i])
  {
    hide PhaseOk;
    var r := Apply(cfg, d, s, step);
    forall i | i in r.threads && i != step.id ensures PhaseOk(r, i, r.threads[i]) {
      assert PhaseOk(s, i, s.threads[i]);
      PhaseKept(s, r, i, s.threads[i]);
    }
  }

  lemma QuietDegrees(cfg: I.Config, d: Sel.Metric, s: State, step: Step)
    requires DegreesBounded(cfg, s) && Enabled(cfg, s, step) && Quiet(step)
    ensures DegreesBounded(cfg, Apply(cfg, d, s, step))
  {
    var r := Apply(cfg, d, s, step);
    forall i, l | i in r.nodes && 0 <= l < |r.nodes[i]|
      ensures |r.nodes[i][l]| <= I.MaxDegree(cfg, l) + (if OwnPending(r, i, l) then 0 else cfg.m)
    {
      assert OwnPending(r, i, l) ==> OwnPending(s, i, l);
    }
  }

  /** Steps that leave every list alone. */
  lemma QuietKeeps(cfg: I.Config, d: Sel.Metric, s: State, step: Step)
    requires Inv(cfg, s) && Enabled(cfg, s, step) && Quiet(step)
    ensures Inv(cfg, Apply(cfg, d, s, step))
  {
    hide PhaseOk, DegreesBounded, LinksOk;
    var r := Apply(cfg, d, s, step);
    assert r.nodes == s.nodes;
    assert PhaseOk(s, step.id, s.threads[step.id]);
    QuietPhase(cfg, d, s, step);
    QuietOthers(cfg, d, s, step);
    QuietDegrees(cfg, d, s, step);
    QuietEntry(cfg, d, s, step);
  }

  /** The entry stays true, and covers whoever has just finished. */
  lemma QuietEntry(cfg: I.Config, d: Sel.Metric, s: State, step: Step)
    requires EntryTrue(s) && EntryCovers(s) && Enabled(cfg, s, step) && Quiet(step)
    requires PhaseOk(s, step.id, s.threads[step.id])
    ensures var r := Apply(cfg, d, s, step); EntryTrue(r) && EntryCovers(r)
  {
  }

  lemma HopTarget(s: State, t: Phase, to: nat)
    requires t.Descending? && ListOk(s.nodes, t.ep, t.layer) && to in s.nodes[t.ep][t.layer]
    ensures On(s.nodes, t.layer, to)
  {
  }

  /** Every step of every insert keeps the invariant. */
  lemma NextKeepsInv(cfg: I.Config, d: Sel.Metric, a: State, b: State)
    requires Inv(cfg, a) && Next(cfg, d, a, b)
    ensures Inv(cfg, b)
  {
    hide Inv;
    var step :| Enabled(cfg, a, step) && b == Apply(cfg, d, a, step);
    match step {
      case SetNode(id, level) => SetNodeKeeps(cfg, d, a, id, level);
      case Choose(id, chosen, next) => ChooseKeeps(cfg, d, a, id, chosen, next);
      case Back(id) => BackKeeps(cfg, d, a, id);
      case _ => QuietKeeps(cfg, d, a, step);
    }
  }

  /** No step takes a node away or changes its level. */
  lemma NextKeepsLevels(cfg: I.Config, d: Sel.Metric, a: State, b: State)
    requires Next(cfg, d, a, b)
    ensures SameLevels(a.nodes, b.nodes)
  {
    hide I.BackLink, I.Dedup;
  }

  /** The entry level in the packed word, as an order: no entry is below every entry. */
  function EntryRank(s: State): int {
    if s.entry.None? then -1 else s.entry.value.level
  }

  lemma NextRaisesEntry(cfg: I.Config, d: Sel.Metric, a: State, b: State)
    requires Next(cfg, d, a, b)
    ensures EntryRank(a) <= EntryRank(b)
    ensures a.entry.Some? && a.entry != b.entry ==> EntryRank(a) < EntryRank(b)
  {
  }

  /** Over all interleavings of concurrent inserts: the invariant, and an entry that only rises. */
  lemma {:induction false} EveryRunSafe(cfg: I.Config, d: Sel.Metric, start: Graph, states: seq<State>, i: nat, j: nat)
    requires RacedGraph(cfg, start) && Run(cfg, d, start, states) && i <= j < |states|
    ensures Inv(cfg, states[i]) && Inv(cfg, states[j])
    ensures EntryRank(states[i]) <= EntryRank(states[j])
    decreases i + j
  {
    hide Inv, Next, RacedGraph, Resume;
    if j == 0 {
      ResumeInv(cfg, start);
    } else if i < j {
      EveryRunSafe(cfg, d, start, states, i, j - 1);
      assert Next(cfg, d, states[j - 1], states[j]);
      NextKeepsInv(cfg, d, states[j - 1], states[j]);
      NextRaisesEntry(cfg, d, states[j - 1], states[j]);
    } else {
      EveryRunSafe(cfg, d, start, states, j - 1, j - 1);
      assert Next(cfg, d, states[j - 1], states[j]);
      NextKeepsInv(cfg, d, states[j - 1], states[j]);
    }
  }

  /** A graph that racing inserts once left is a good place to start inserting again. */
  lemma ResumeInv(cfg: I.Config, g: Graph)
    requires RacedGraph(cfg, g)
    ensures Inv(cfg, Resume(g))
  {
    var s := Resume(g);
    forall id, l | id in s.nodes && 0 <= l < |s.nodes[id]|
      ensures ListOk(s.nodes, id, l) && |s.nodes[id][l]| <= I.MaxDegree(cfg, l) + cfg.m
    {
      assert St.CleanList(id, g.nodes[id][l], St.Bound(cfg, l, false), false);
      assert LayerClosed(g.nodes, l);
      forall j | 0 <= j < |g.nodes[id][l]| ensures g.nodes[id][l][j] != id && On(s.nodes, l, g.nodes[id][l][j]) {
        assert g.nodes[id][l][j] in OnLayer(g.nodes, l);
      }
    }
  }

  // --- quiescence ----------------------------------------------------------------------

  /** No insert is in flight and ids are dense: the graph the index holds. */
  ghost predicate Settled(s: State, n: nat) {
    s.threads == map[] && forall id: nat :: id in s.nodes <==> id < n
  }

  ghost function Snapshot(s: State, n: nat): Graph
    requires Settled(s, n)
  {
    Graph(seq(n, i requires 0 <= i < n => s.nodes[i]), s.entry)
  }

  /** What racing inserts still guarantee of a settled graph: lists may repeat a link and exceed
      their degree bound by M, but lead to other nodes that exist, and the entry is highest. */
  ghost predicate RacedGraph(cfg: I.Config, g: Graph) {
    Sane(g) && St.Clean(cfg, g.nodes, false) && St.EntryHighest(g)
  }

  /**
   * Once no insert is pending the entry has maximal level and every link leads to another node that
   * exists on its layer; the degree may exceed its bound by the M links a racing node added itself.
   */
  lemma SettledGraph(cfg: I.Config, s: State, n: nat)
    requires Inv(cfg, s) && Settled(s, n)
    ensures RacedGraph(cfg, Snapshot(s, n))
  {
    var g := Snapshot(s, n);
    assert n > 0 ==> 0 in s.nodes && 0 !in s.threads;
    assert Navigable(g.nodes) by {
      forall l: nat ensures LayerClosed(g.nodes, l) {
        forall i, j | i in OnLayer(g.nodes, l) && 0 <= j < |g.nodes[i][l]|
          ensures g.nodes[i][l][j] in OnLayer(g.nodes, l)
        {
          assert ListOk(s.nodes, i, l);
        }
      }
    }
    forall i, l | 0 <= i < |g.nodes| && 0 <= l < |g.nodes[i]|
      ensures St.CleanList(i, g.nodes[i][l], St.Bound(cfg, l, false), false)
    {
      assert i in s.nodes && ListOk(s.nodes, i, l);
    }
  }
}
