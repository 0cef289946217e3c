/**
 * A race that breaks the degree bound, and what the snapshot loader makes of it.
 *
 * M = 2. Rows 0 and 1 lie at positions 0 and 1, rows 2 and 3 at 10 and 11. Rows 0 (level 2) and
 * 1 (level 1) are in the index. Insert 2 (level 2) links on layer 2 and becomes reachable. Insert 3
 * (level 1) descends to it and links to it on layer 1. Then insert 2 reaches layer 1 itself and adds
 * the two neighbours it finds, 1 and 0, to the list that already holds 3.
 */
module Race {
  import opened Common
  import opened Graph
  import opened Concurrent
  import I = Insertion
  import St = Structure
  import Sel = Select
  import P = Persist
  import L = Log
  import N = Neighbors

  const CFG: I.Config := I.Config(2, 200, I.L2)

  lemma Extend(d: Sel.Metric, run: seq<State>, step: Step) returns (longer: seq<State>)
    requires Run(CFG, d, EMPTY, run) && Enabled(CFG, run[|run| - 1], step)
    ensures Run(CFG, d, EMPTY, longer)
    ensures longer[|longer| - 1] == Apply(CFG, d, run[|run| - 1], step)
  {
    hide Apply, Enabled;
    var b := Apply(CFG, d, run[|run| - 1], step);
    longer := run + [b];
    assert Next(CFG, d, run[|run| - 1], b);
    forall i | 0 < i < |longer| ensures Next(CFG, d, longer[i - 1], longer[i]) {
      if i < |run| { assert Next(CFG, d, run[i - 1], run[i]); }
    }
  }

  ghost function End(run: seq<State>): State
    requires run != []
  {
    run[|run| - 1]
  }

  /** Nodes `0..|ns|`, initialised. */
  function AsMap(ns: Nodes): map<nat, Node> {
    map i: nat | i < |ns| :: ns[i]
  }

  /** Every state of the run but the first few: row 0, of level 2, is the entry. */
  function With(ns: Nodes, threads: map<nat, Phase>): State {
    State(AsMap(ns), Some(Entry(0, 2)), threads)
  }

  lemma SetListOf(ns: Nodes, id: nat, layer: nat, links: Links)
    requires id < |ns| && layer < |ns[id]|
    ensures On(AsMap(ns), layer, id)
    ensures SetList(AsMap(ns), id, layer, links) == AsMap(SetLinks(ns, id, layer, links))
  {
  }

  /** The next row's node appears. */
  lemma Arrives(d: Sel.Metric, run: seq<State>, ns: Nodes, threads: map<nat, Phase>, level: nat)
    returns (longer: seq<State>)
    requires Run(CFG, d, EMPTY, run) && End(run) == With(ns, threads)
    ensures Run(CFG, d, EMPTY, longer)
    ensures End(longer) == With(ns + [NewNode(level)], threads[|ns| := Started(level)])
  {
    longer := Extend(d, run, SetNode(|ns|, level));
    assert AsMap(ns)[|ns| := NewNode(level)] == AsMap(ns + [NewNode(level)]);
  }

  /** A step that leaves every list alone. */
  lemma Moves(d: Sel.Metric, run: seq<State>, ns: Nodes, threads: map<nat, Phase>, step: Step, after: map<nat, Phase>)
    returns (longer: seq<State>)
    requires Run(CFG, d, EMPTY, run) && End(run) == With(ns, threads) && Quiet(step) && Enabled(CFG, End(run), step)
    requires Apply(CFG, d, With(ns, threads), step) == With(ns, after)
    ensures Run(CFG, d, EMPTY, longer) && End(longer) == With(ns, after)
  {
    longer := Extend(d, run, step);
  }

  /** Write the inserter's own list; `own` spells out what it becomes. */
  lemma ChooseAs(d: Sel.Metric, run: seq<State>, ns: Nodes, threads: map<nat, Phase>, id: nat, chosen: seq<nat>,
                 next: nat, own: Links)
    returns (longer: seq<State>)
    requires Run(CFG, d, EMPTY, run) && End(run) == With(ns, threads)
    requires id < |ns| && id in threads && threads[id].Searching? && threads[id].layer < |ns[id]|
    requires |chosen| <= 2 && id !in chosen && next in threads[id].seen
    requires forall i | 0 <= i < |chosen| :: chosen[i] in threads[id].seen
    requires own == ns[id][threads[id].layer] + chosen && Sel.Distinct(own)
    ensures Run(CFG, d, EMPTY, longer)
    ensures var t := threads[id];
            End(longer) == With(SetLinks(ns, id, t.layer, own),
                                threads[id := Linking(t.level, t.top, t.layer, chosen, 0, next)])
  {
    St.DedupDistinct(own);
    SetListOf(ns, id, threads[id].layer, own);
    longer := Extend(d, run, Choose(id, chosen, next));
  }

  /** Link back from the next chosen neighbour, which has room; `back` spells out what its list becomes. */
  lemma BackAs(d: Sel.Metric, run: seq<State>, ns: Nodes, threads: map<nat, Phase>, id: nat, back: Links)
    returns (longer: seq<State>)
    requires Run(CFG, d, EMPTY, run) && End(run) == With(ns, threads)
    requires id in threads && threads[id].Linking? && threads[id].done < |threads[id].chosen|
    requires var nb := threads[id].chosen[threads[id].done]; nb < |ns| && threads[id].layer < |ns[nb]|
    requires var t := threads[id];
             var cur := ns[t.chosen[t.done]][t.layer];
             id !in cur && |cur| < 2 && back == cur + [id]
    ensures Run(CFG, d, EMPTY, longer)
    ensures var t := threads[id];
            End(longer) == With(SetLinks(ns, t.chosen[t.done], t.layer, back), threads[id := t.(done := t.done + 1)])
  {
    SetListOf(ns, threads[id].chosen[threads[id].done], threads[id].layer, back);
    longer := Extend(d, run, Back(id));
  }

  /** A search that found only `nb` links to it, and `nb` has room to link back. */
  lemma LinkToOne(d: Sel.Metric, run: seq<State>, ns: Nodes, threads: map<nat, Phase>, id: nat, nb: nat, back: Links)
    returns (longer: seq<State>)
    requires Run(CFG, d, EMPTY, run) && End(run) == With(ns, threads) && id in threads && threads[id].Searching?
    requires var t := threads[id];
             && t.seen == {nb} && nb != id && id < |ns| && nb < |ns| && t.layer < |ns[id]| && t.layer < |ns[nb]|
             && ns[id][t.layer] == [] && id !in ns[nb][t.layer] && |ns[nb][t.layer]| < 2
             && back == ns[nb][t.layer] + [id]
    ensures Run(CFG, d, EMPTY, longer)
    ensures var t := threads[id];
            End(longer) == With(SetLinks(SetLinks(ns, id, t.layer, [nb]), nb, t.layer, back),
                                threads[id := if t.layer == 0 then Moving(t.level, t.top)
                                              else Searching(t.level, t.top, t.layer - 1, {nb})])
  {
    hide Run, AsMap;
    var t := threads[id];
    longer := ChooseAs(d, run, ns, threads, id, [nb], nb, [nb]);
    var ns1, threads1 := SetLinks(ns, id, t.layer, [nb]), threads[id := Linking(t.level, t.top, t.layer, [nb], 0, nb)];
    RunNonEmpty(d, longer);
    longer := BackAs(d, longer, ns1, threads1, id, back);
    RunNonEmpty(d, longer);
    var ns2 := SetLinks(ns1, nb, t.layer, back);
    var threads2 := threads1[id := threads1[id].(done := 1)];
    var after := threads[id := if t.layer == 0 then Moving(t.level, t.top)
                               else Searching(t.level, t.top, t.layer - 1, {nb})];
    assert threads2[id := after[id]] == after;
    longer := Moves(d, longer, ns2, threads2, NextLayer(id), after);
  }

  lemma RunNonEmpty(d: Sel.Metric, run: seq<State>)
    requires Run(CFG, d, EMPTY, run)
    ensures |run| > 0
  {
  }

  // --- the run ------------------------------------------------------------------------------

  /** Row 0 claims the entry. */
  lemma Opening(d: Sel.Metric) returns (run: seq<State>)
    ensures Run(CFG, d, EMPTY, run) && End(run) == With([[[], [], []]], map[])
  {
    run := [Resume(EMPTY)];
    run := Extend(d, run, SetNode(0, 2));
    assert NewNode(2) == [[], [], []];
    run := Extend(d, run, Claim(0));
    assert End(run).nodes == AsMap([[[], [], []]]);
  }

  /** Row 1 starts. */
  lemma RowOneArrives(d: Sel.Metric) returns (run: seq<State>)
    ensures Run(CFG, d, EMPTY, run) && End(run) == With([[[], [], []], [[], []]], map[1 := Searching(1, 2, 1, {0})])
  {
    hide Run, AsMap;
    run := Opening(d);
    run := Arrives(d, run, [[[], [], []]], map[], 1);
    var ns := [[[], [], []], [[], []]];
    assert [[[], [], []]] + [NewNode(1)] == ns by { assert NewNode(1) == [[], []]; }
    run := Moves(d, run, ns, map[1 := Started(1)], ReadEntry(1), map[1 := Descending(1, 2, 2, 0)]);
    run := Moves(d, run, ns, map[1 := Descending(1, 2, 2, 0)], Lower(1), map[1 := Searching(1, 2, 1, {0})]);
  }

  /** It links to row 0 on layer 1. */
  lemma RowOneUpper(d: Sel.Metric) returns (run: seq<State>)
    ensures Run(CFG, d, EMPTY, run) && End(run) == With([[[], [1], []], [[], [0]]], map[1 := Searching(1, 2, 0, {0})])
  {
    hide Run, AsMap;
    run := RowOneArrives(d);
    var ns := [[[], [], []], [[], []]];
    run := LinkToOne(d, run, ns, map[1 := Searching(1, 2, 1, {0})], 1, 0, [1]);
    var upper := [[[], [1], []], [[], [0]]];
    assert ns[1][1 := [0]] == upper[1] && ns[0][1 := [1]] == upper[0];
    assert SetLinks(SetLinks(ns, 1, 1, [0]), 0, 1, [1]) == upper;
  }

  /** And on layer 0, and finishes. */
  lemma TwoRows(d: Sel.Metric) returns (run: seq<State>)
    ensures Run(CFG, d, EMPTY, run) && End(run) == With([[[1], [1], []], [[0], [0]]], map[])
  {
    hide Run, AsMap;
    run := RowOneUpper(d);
    var upper := [[[], [1], []], [[], [0]]];
    run := LinkToOne(d, run, upper, map[1 := Searching(1, 2, 0, {0})], 1, 0, [1]);
    var both := [[[1], [1], []], [[0], [0]]];
    assert upper[1][0 := [0]] == both[1] && upper[0][0 := [1]] == both[0];
    assert SetLinks(SetLinks(upper, 1, 0, [0]), 0, 0, [1]) == both;
    run := Moves(d, run, both, map[1 := Moving(1, 2)], Move(1), map[]);
  }

  /** Row 2 links on layer 2, which makes it reachable. */
  lemma RowTwoArrives(d: Sel.Metric) returns (run: seq<State>)
    ensures Run(CFG, d, EMPTY, run)
    ensures End(run) == With([[[1], [1], [2]], [[0], [0]], [[], [], [0]]], map[2 := Searching(2, 2, 1, {0})])
  {
    hide Run, AsMap;
    run := TwoRows(d);
    var two := [[[1], [1], []], [[0], [0]]];
    run := Arrives(d, run, two, map[], 2);
    var ns := [[[1], [1], []], [[0], [0]], [[], [], []]];
    assert two + [NewNode(2)] == ns by { assert NewNode(2) == [[], [], []]; }
    run := Moves(d, run, ns, map[2 := Started(2)], ReadEntry(2), map[2 := Searching(2, 2, 2, {0})]);
    run := LinkToOne(d, run, ns, map[2 := Searching(2, 2, 2, {0})], 2, 0, [2]);
    var top := [[[1], [1], [2]], [[0], [0]], [[], [], [0]]];
    assert ns[2][2 := [0]] == top[2] && ns[0][2 := [2]] == top[0];
    assert SetLinks(SetLinks(ns, 2, 2, [0]), 0, 2, [2]) == top;
  }

  /** Row 3 descends from row 0 to row 2. */
  lemma RowThreeDescends(d: Sel.Metric) returns (run: seq<State>)
    ensures Run(CFG, d, EMPTY, run)
    ensures End(run) == With([[[1], [1], [2]], [[0], [0]], [[], [], [0]], [[], []]],
                             map[2 := Searching(2, 2, 1, {0}), 3 := Searching(1, 2, 1, {2})])
  {
    hide Run;
    run := RowTwoArrives(d);
    var two := Searching(2, 2, 1, {0});
    var three := [[[1], [1], [2]], [[0], [0]], [[], [], [0]]];
    run := Arrives(d, run, three, map[2 := two], 1);
    var ns := [[[1], [1], [2]], [[0], [0]], [[], [], [0]], [[], []]];
    assert three + [NewNode(1)] == ns by { assert NewNode(1) == [[], []]; }
    run := Moves(d, run, ns, map[2 := two, 3 := Started(1)], ReadEntry(3), map[2 := two, 3 := Descending(1, 2, 2, 0)]);
    run := Moves(d, run, ns, map[2 := two, 3 := Descending(1, 2, 2, 0)], Hop(3, 2),
                 map[2 := two, 3 := Descending(1, 2, 2, 2)]);
    run := Moves(d, run, ns, map[2 := two, 3 := Descending(1, 2, 2, 2)], Lower(3),
                 map[2 := two, 3 := Searching(1, 2, 1, {2})]);
  }

  /** Row 3 links to row 2 on layers 1 and 0 and finishes, all before row 2 reaches layer 1. */
  lemma RowThree(d: Sel.Metric) returns (run: seq<State>)
    ensures Run(CFG, d, EMPTY, run)
    ensures End(run) == With([[[1], [1], [2]], [[0], [0]], [[3], [3], [0]], [[2], [2]]],
                             map[2 := Searching(2, 2, 1, {0})])
  {
    hide Run, AsMap;
    run := RowThreeDescends(d);
    var two := Searching(2, 2, 1, {0});
    var ns := [[[1], [1], [2]], [[0], [0]], [[], [], [0]], [[], []]];
    run := LinkToOne(d, run, ns, map[2 := two, 3 := Searching(1, 2, 1, {2})], 3, 2, [3]);
    var upper := [[[1], [1], [2]], [[0], [0]], [[], [3], [0]], [[], [2]]];
    assert ns[3][1 := [2]] == upper[3] && ns[2][1 := [3]] == upper[2];
    assert SetLinks(SetLinks(ns, 3, 1, [2]), 2, 1, [3]) == upper;
    run := LinkToOne(d, run, upper, map[2 := two, 3 := Searching(1, 2, 0, {2})], 3, 2, [3]);
    var both := [[[1], [1], [2]], [[0], [0]], [[3], [3], [0]], [[2], [2]]];
    assert upper[3][0 := [2]] == both[3] && upper[2][0 := [3]] == both[2];
    assert SetLinks(SetLinks(upper, 3, 0, [2]), 2, 0, [3]) == both;
    run := Moves(d, run, both, map[2 := two, 3 := Moving(1, 2)], Move(3), map[2 := two]);
  }

  /** Row 2 sees rows 0 and 1 on layer 1 and adds both: its list there now has three. */
  lemma Overfull(d: Sel.Metric) returns (run: seq<State>)
    ensures Run(CFG, d, EMPTY, run)
    ensures End(run) == With([[[1], [1], [2]], [[0], [0]], [[3], [3, 1, 0], [0]], [[2], [2]]],
                             map[2 := Linking(2, 2, 1, [1, 0], 0, 1)])
  {
    hide Run;
    run := RowThree(d);
    var ns := [[[1], [1], [2]], [[0], [0]], [[3], [3], [0]], [[2], [2]]];
    assert {0} + {1} == {0, 1};
    run := Moves(d, run, ns, map[2 := Searching(2, 2, 1, {0})], Visit(2, 0, 1), map[2 := Searching(2, 2, 1, {0, 1})]);
    run := ChooseAs(d, run, ns, map[2 := Searching(2, 2, 1, {0, 1})], 2, [1, 0], 1, [3, 1, 0]);
    assert ns[2][1 := [3, 1, 0]] == [[3], [3, 1, 0], [0]];
  }

  /** Row 1 links back to row 2 on layer 1. */
  lemma UpperBack(d: Sel.Metric) returns (run: seq<State>)
    ensures Run(CFG, d, EMPTY, run)
    ensures End(run) == With([[[1], [1], [2]], [[0], [0, 2]], [[3], [3, 1, 0], [0]], [[2], [2]]],
                             map[2 := Linking(2, 2, 1, [1, 0], 1, 1)])
  {
    hide Run, AsMap;
    run := Overfull(d);
    var ns := [[[1], [1], [2]], [[0], [0]], [[3], [3, 1, 0], [0]], [[2], [2]]];
    run := BackAs(d, run, ns, map[2 := Linking(2, 2, 1, [1, 0], 0, 1)], 2, [0, 2]);
    var one := [[[1], [1], [2]], [[0], [0, 2]], [[3], [3, 1, 0], [0]], [[2], [2]]];
    assert ns[1][1 := [0, 2]] == one[1] && SetLinks(ns, 1, 1, [0, 2]) == one;
  }

  /** And so does row 0. */
  lemma UpperDone(d: Sel.Metric) returns (run: seq<State>)
    ensures Run(CFG, d, EMPTY, run)
    ensures End(run) == With([[[1], [1, 2], [2]], [[0], [0, 2]], [[3], [3, 1, 0], [0]], [[2], [2]]],
                             map[2 := Searching(2, 2, 0, {1})])
  {
    hide Run, AsMap;
    run := UpperBack(d);
    var one := [[[1], [1], [2]], [[0], [0, 2]], [[3], [3, 1, 0], [0]], [[2], [2]]];
    run := BackAs(d, run, one, map[2 := Linking(2, 2, 1, [1, 0], 1, 1)], 2, [1, 2]);
    var two := [[[1], [1, 2], [2]], [[0], [0, 2]], [[3], [3, 1, 0], [0]], [[2], [2]]];
    assert one[0][1 := [1, 2]] == two[0] && SetLinks(one, 0, 1, [1, 2]) == two;
    run := Moves(d, run, two, map[2 := Linking(2, 2, 1, [1, 0], 2, 1)], NextLayer(2), map[2 := Searching(2, 2, 0, {1})]);
  }

  /** On layer 0 row 2 sees rows 0 and 1 again and takes both. */
  lemma LowerChosen(d: Sel.Metric) returns (run: seq<State>)
    ensures Run(CFG, d, EMPTY, run)
    ensures End(run) == With([[[1], [1, 2], [2]], [[0], [0, 2]], [[3, 1, 0], [3, 1, 0], [0]], [[2], [2]]],
                             map[2 := Linking(2, 2, 0, [1, 0], 0, 1)])
  {
    hide Run;
    run := UpperDone(d);
    var ns := [[[1], [1, 2], [2]], [[0], [0, 2]], [[3], [3, 1, 0], [0]], [[2], [2]]];
    assert {1} + {0} == {0, 1};
    run := Moves(d, run, ns, map[2 := Searching(2, 2, 0, {1})], Visit(2, 1, 0), map[2 := Searching(2, 2, 0, {0, 1})]);
    run := ChooseAs(d, run, ns, map[2 := Searching(2, 2, 0, {0, 1})], 2, [1, 0], 1, [3, 1, 0]);
    assert ns[2][0 := [3, 1, 0]] == [[3, 1, 0], [3, 1, 0], [0]];
  }

  /** What the four rows leave. */
  const FOUR: Nodes := [[[1, 2], [1, 2], [2]], [[0, 2], [0, 2]], [[3, 1, 0], [3, 1, 0], [0]], [[2], [2]]]

  /** Row 1 links back on layer 0. */
  lemma LowerBack(d: Sel.Metric) returns (run: seq<State>)
    ensures Run(CFG, d, EMPTY, run)
    ensures End(run) == With([[[1], [1, 2], [2]], [[0, 2], [0, 2]], [[3, 1, 0], [3, 1, 0], [0]], [[2], [2]]],
                             map[2 := Linking(2, 2, 0, [1, 0], 1, 1)])
  {
    hide Run, AsMap;
    run := LowerChosen(d);
    var ns := [[[1], [1, 2], [2]], [[0], [0, 2]], [[3, 1, 0], [3, 1, 0], [0]], [[2], [2]]];
    run := BackAs(d, run, ns, map[2 := Linking(2, 2, 0, [1, 0], 0, 1)], 2, [0, 2]);
    var one := [[[1], [1, 2], [2]], [[0, 2], [0, 2]], [[3, 1, 0], [3, 1, 0], [0]], [[2], [2]]];
    assert ns[1][0 := [0, 2]] == one[1] && SetLinks(ns, 1, 0, [0, 2]) == one;
  }

  /** And so does row 0. */
  lemma LowerDone(d: Sel.Metric) returns (run: seq<State>)
    ensures Run(CFG, d, EMPTY, run) && End(run) == With(FOUR, map[2 := Linking(2, 2, 0, [1, 0], 2, 1)])
  {
    hide Run, AsMap;
    run := LowerBack(d);
    var one := [[[1], [1, 2], [2]], [[0, 2], [0, 2]], [[3, 1, 0], [3, 1, 0], [0]], [[2], [2]]];
    run := BackAs(d, run, one, map[2 := Linking(2, 2, 0, [1, 0], 1, 1)], 2, [1, 2]);
    assert one[0][0 := [1, 2]] == FOUR[0] && SetLinks(one, 0, 0, [1, 2]) == FOUR;
  }

  /** Row 2 finishes: four rows are settled. */
  lemma AllFour(d: Sel.Metric) returns (run: seq<State>)
    ensures Run(CFG, d, EMPTY, run) && End(run) == With(FOUR, map[])
    ensures Settled(End(run), 4) && Snapshot(End(run), 4) == Graph(FOUR, Some(Entry(0, 2)))
  {
    hide Run, AsMap, FOUR;
    run := LowerDone(d);
    run := Moves(d, run, FOUR, map[2 := Linking(2, 2, 0, [1, 0], 2, 1)], NextLayer(2), map[2 := Moving(2, 2)]);
    run := Moves(d, run, FOUR, map[2 := Moving(2, 2)], Move(2), map[]);
    FourSettled();
  }

  lemma FourSettled()
    ensures Settled(With(FOUR, map[]), 4) && Snapshot(With(FOUR, map[]), 4) == Graph(FOUR, Some(Entry(0, 2)))
  {
  }

  /**
   * The bound promised for sequential inserts fails under a race: four completed inserts, no insert
   * in flight, a layer-1 list of three with M = 2, and a snapshot of that graph that `load` refuses.
   */
  lemma RaceBreaksDegreeBound(crc: L.Crc, d: Sel.Metric) returns (run: seq<State>)
    ensures Run(CFG, d, EMPTY, run) && Settled(End(run), 4)
    ensures var g := Snapshot(End(run), 4);
            && RacedGraph(CFG, g)
            && !P.DegreesOk(CFG, g.nodes)
            && P.Load(crc, P.SaveBytes(crc, P.SnapshotOf(CFG, g, 4))) == Err(Corrupt)
  {
    hide P.Load, P.SaveBytes, Apply, Run, Inv;
    run := AllFour(d);
    RunNonEmpty(d, run);
    EmptyIsRaced();
    EveryRunSafe(CFG, d, EMPTY, run, |run| - 1, |run| - 1);
    SettledGraph(CFG, End(run), 4);
    var g := Snapshot(End(run), 4);
    assert |FOUR[2][1]| > I.MaxDegree(CFG, 1);
    P.SaneIsStorable(CFG, g, 4);
    P.LoadSaved(crc, P.SnapshotOf(CFG, g, 4));
  }

  /** The rows of the run, on a line. */
  function LineDistance(a: nat, b: nat): real {
    var at := [0.0, 1.0, 10.0, 11.0];
    if a >= 4 || b >= 4 then 0.0 else (at[a] - at[b]) * (at[a] - at[b])
  }

  /**
   * The run links what the heuristic links: with the rows at 0, 1, 10 and 11, row 2 finds rows 1 and 0
   * and takes both, nearest first, although row 1 dominates row 0.
   */
  lemma HeuristicLinksBoth()
    ensures Sel.SelectNeighbors(LineDistance, I.ScoreLinks(LineDistance, 2, [1, 0]), 2) == [1, 0]
    ensures var found := I.ScoreLinks(LineDistance, 2, [1, 0]); Sel.Dominated(LineDistance, [found[0]], found[1])
  {
    var near, far := N.Neighbor(1, 81.0), N.Neighbor(0, 100.0);
    var cands := I.ScoreLinks(LineDistance, 2, [1, 0]);
    assert cands == [near, far];
    assert Sel.Sift(LineDistance, [], 2) == Sel.Split([], []);
    assert cands[..1] == [near] && [near][..0] == [];
    assert Sel.Sift(LineDistance, [near], 2) == Sel.Split([near], []);
    assert Sel.Sift(LineDistance, cands, 2) == Sel.Split([near], [far]);
    assert Sel.Picked(Sel.Split([near], [far]), 2) == [near, far];
  }

  lemma EmptyIsRaced()
    ensures RacedGraph(CFG, EMPTY)
  {
  }
}
