/**
 * What an insert leaves in the adjacency lists, in distances and ids alone: which links a list gains,
 * and which it loses once it is full.
 */
module Linking {
  import opened Common
  import opened Neighbors
  import opened Graph
  import opened Search
  import opened Select
  import opened Insertion
  import opened Structure

  /** Seen from `base`, `x` comes before `y`: it is nearer or, at the same distance, has the smaller id. */
  ghost predicate Before(d: Metric, base: nat, x: nat, y: nat) {
    d(base, x) < d(base, y) || (d(base, x) == d(base, y) && x < y)
  }

  /** One of the first `k` of `out` comes before `x` and is closer to it than `base` is. */
  ghost predicate Shadowed(d: Metric, base: nat, out: seq<nat>, k: nat, x: nat) {
    exists i | 0 <= i < k && i < |out| :: Before(d, base, out[i], x) && d(x, out[i]) < d(base, x)
  }

  /** `out` is the diverse part, `k` long and ascending, then the top-up, ascending too. */
  ghost predicate Diverse(d: Metric, base: nat, out: seq<nat>, k: nat) {
    && k <= |out|
    && (forall i, j | 0 <= i < j < k :: Before(d, base, out[i], out[j]) && d(out[j], out[i]) >= d(base, out[j]))
    && (forall i, j | k <= i < j < |out| :: Before(d, base, out[i], out[j]))
    && (forall i | k <= i < |out| :: Shadowed(d, base, out, k, out[i]))
  }

  /** Why `x` is not in `out`: shadowed and after the whole top-up, or after `max` diverse ones. */
  ghost predicate LeftOut(d: Metric, base: nat, max: nat, out: seq<nat>, k: nat, x: nat)
    requires k <= |out|
  {
    || (Shadowed(d, base, out, k, x) && forall i | k <= i < |out| :: Before(d, base, out[i], x))
    || (k == max && forall i | 0 <= i < k :: Before(d, base, out[i], x))
  }

  ghost predicate ReselectedAt(d: Metric, base: nat, list: set<nat>, max: nat, out: seq<nat>, k: nat) {
    && Diverse(d, base, out, k)
    && forall x | x in list && x !in out :: LeftOut(d, base, max, out, k, x)
  }

  /** `out` is what the neighbour heuristic keeps, for `base`, of the ids in `list`. */
  ghost predicate Reselected(d: Metric, base: nat, list: set<nat>, max: nat, out: seq<nat>) {
    && |out| == Min(max, |list|)
    && Distinct(out)
    && (forall x | x in out :: x in list)
    && (out != [] ==> forall x | x in list && x != out[0] :: Before(d, base, out[0], x))
    && exists k :: ReselectedAt(d, base, list, max, out, k)
  }

  // --- the selection loop ---------------------------------------------------------

  /** What became of a candidate: selected, pruned behind a selected one, or not looked at. */
  ghost predicate Fate(d: Metric, s: Split, m: nat, c: Neighbor) {
    || c in s.selected
    || (c in s.pruned && Behind(d, s.selected, c))
    || (|s.selected| == m && forall i | 0 <= i < m :: Less(s.selected[i], c))
  }

  ghost predicate Behind(d: Metric, selected: seq<Neighbor>, c: Neighbor) {
    exists i | 0 <= i < |selected| :: Less(selected[i], c) && d(c.id, selected[i].id) < c.distance
  }

  lemma SortedLess(s: seq<Neighbor>, i: nat, j: nat)
    requires Sorted(s) && DistinctIds(s) && i < j < |s|
    ensures Less(s[i], s[j])
  {
    assert LessEq(s[i], s[j]) && s[i].id != s[j].id;
  }

  ghost predicate Earlier(part: seq<Neighbor>, c: Neighbor) {
    forall i | 0 <= i < |part| :: Less(part[i], c)
  }

  lemma PartEarlier(part: seq<Neighbor>, cands: seq<Neighbor>)
    requires cands != [] && Sorted(cands) && DistinctIds(cands)
    requires multiset(part) <= multiset(cands[..|cands| - 1])
    ensures Earlier(part, Last(cands))
  {
    var init := cands[..|cands| - 1];
    forall i | 0 <= i < |part| ensures Less(part[i], Last(cands)) {
      assert part[i] in multiset(init);
      var j :| 0 <= j < |init| && init[j] == part[i];
      SortedLess(cands, j, |cands| - 1);
    }
  }

  lemma {:induction false} SiftFates(d: Metric, cands: seq<Neighbor>, m: nat)
    requires Sorted(cands) && DistinctIds(cands)
    ensures forall c | c in cands :: Fate(d, Sift(d, cands, m), m, c)
    ensures forall c | c in Sift(d, cands, m).pruned :: Behind(d, Sift(d, cands, m).selected, c)
  {
    hide Sorted, DistinctIds, Less;
    if cands != [] {
      var k := |cands| - 1;
      var c, init := cands[k], cands[..k];
      var s, t := Sift(d, init, m), Sift(d, cands, m);
      InitOk(cands);
      SiftFates(d, init, m);
      SiftParts(d, init, m);
      PartEarlier(s.selected, cands) by { PlusPart(s.selected, s.pruned, init); }
      assert cands == init + [c];
      forall x | x in cands ensures Fate(d, t, m, x) {
        if x in init { FateKept(d, s, t, m, x); } else { assert x == c; }
      }
      forall x | x in t.pruned ensures Behind(d, t.selected, x) {
        if x in s.pruned { BehindKept(d, s, t, x); }
      }
    }
  }

  lemma PlusPart(a: seq<Neighbor>, b: seq<Neighbor>, whole: seq<Neighbor>)
    requires multiset(a) + multiset(b) <= multiset(whole)
    ensures multiset(a) <= multiset(whole) && multiset(b) <= multiset(whole)
  {
    assert multiset(a) <= multiset(a) + multiset(b);
    assert multiset(b) <= multiset(a) + multiset(b);
  }

  lemma InitOk(cands: seq<Neighbor>)
    requires cands != [] && Sorted(cands) && DistinctIds(cands)
    ensures Sorted(cands[..|cands| - 1]) && DistinctIds(cands[..|cands| - 1])
  {
  }

  lemma BehindKept(d: Metric, s: Split, t: Split, x: Neighbor)
    requires s.selected <= t.selected && Behind(d, s.selected, x)
    ensures Behind(d, t.selected, x)
  {
    var i :| 0 <= i < |s.selected| && Less(s.selected[i], x) && d(x.id, s.selected[i].id) < x.distance;
    assert t.selected[i] == s.selected[i];
  }

  lemma FateKept(d: Metric, s: Split, t: Split, m: nat, x: Neighbor)
    requires Fate(d, s, m, x) && s.selected <= t.selected && s.pruned <= t.pruned
    requires |s.selected| >= m ==> t == s
    ensures Fate(d, t, m, x)
  {
    if x in s.selected {
      var i :| 0 <= i < |s.selected| && s.selected[i] == x;
      assert t.selected[i] == x;
    } else if x in s.pruned && Behind(d, s.selected, x) {
      var i :| 0 <= i < |s.pruned| && s.pruned[i] == x;
      assert t.pruned[i] == x;
      BehindKept(d, s, t, x);
    }
  }

  // --- what the heuristic keeps --------------------------------------------------------

  /** The candidates are those of `base`, nearest first. */
  ghost predicate SeenFrom(d: Metric, base: nat, cands: seq<Neighbor>) {
    Sorted(cands) && DistinctIds(cands) && forall c | c in cands :: c.distance == d(base, c.id)
  }

  lemma PartSeen(d: Metric, base: nat, cands: seq<Neighbor>, part: seq<Neighbor>)
    requires SeenFrom(d, base, cands) && Sorted(part) && multiset(part) <= multiset(cands)
    ensures SeenFrom(d, base, part)
  {
    DistinctPart(part, cands);
    forall c | c in part ensures c.distance == d(base, c.id) {
      assert c in multiset(part);
      assert c in multiset(cands);
    }
  }

  lemma SeenBefore(d: Metric, base: nat, part: seq<Neighbor>, i: nat, j: nat)
    requires SeenFrom(d, base, part) && i < j < |part|
    ensures Before(d, base, part[i].id, part[j].id)
  {
    SortedLess(part, i, j);
  }

  lemma BehindIsShadowed(d: Metric, base: nat, selected: seq<Neighbor>, out: seq<nat>, c: Neighbor)
    requires SeenFrom(d, base, selected) && c.distance == d(base, c.id) && Behind(d, selected, c)
    requires |selected| <= |out| && forall i | 0 <= i < |selected| :: out[i] == selected[i].id
    ensures Shadowed(d, base, out, |selected|, c.id)
  {
    var i :| 0 <= i < |selected| && Less(selected[i], c) && d(c.id, selected[i].id) < c.distance;
    assert selected[i] in selected;
    assert Before(d, base, out[i], c.id);
  }

  /** The top-up: the best pruned ones, while there is room. */
  ghost function TopUp(s: Split, m: nat): seq<Neighbor> {
    if |s.selected| < m then Take(s.pruned, m - |s.selected|) else []
  }

  /** Both parts of what is picked list candidates of `base`, nearest first. */
  lemma PartsSeen(d: Metric, base: nat, cands: seq<Neighbor>, m: nat)
    requires SeenFrom(d, base, cands)
    ensures var s := Sift(d, cands, m);
            && SeenFrom(d, base, s.selected) && SeenFrom(d, base, s.pruned) && SeenFrom(d, base, TopUp(s, m))
            && TopUp(s, m) <= s.pruned && |s.selected| <= m
            && (|TopUp(s, m)| < |s.pruned| ==> |s.selected| + |TopUp(s, m)| == m)
            && ListIds(s.selected + TopUp(s, m)) == SelectNeighbors(d, cands, m)
  {
    hide Sift, SeenFrom;
    var s := Sift(d, cands, m);
    SiftParts(d, cands, m);
    PlusPart(s.selected, s.pruned, cands);
    assert Sorted(cands) by { UnfoldSeen(d, base, cands); }
    SiftOrder(d, cands, m);
    PartSeen(d, base, cands, s.selected);
    PartSeen(d, base, cands, s.pruned);
    PrefixSeen(d, base, s.pruned, |TopUp(s, m)|);
  }

  lemma UnfoldSeen(d: Metric, base: nat, cands: seq<Neighbor>)
    requires SeenFrom(d, base, cands)
    ensures Sorted(cands) && DistinctIds(cands)
  {
  }

  lemma PrefixSeen(d: Metric, base: nat, s: seq<Neighbor>, k: nat)
    requires SeenFrom(d, base, s) && k <= |s|
    ensures SeenFrom(d, base, s[..k])
  {
    assert forall c | c in s[..k] :: c in s;
  }

  /** The shape of what is picked. */
  lemma PickedDiverse(d: Metric, base: nat, cands: seq<Neighbor>, m: nat)
    requires SeenFrom(d, base, cands)
    ensures Diverse(d, base, SelectNeighbors(d, cands, m), |Sift(d, cands, m).selected|)
  {
    hide Sift, SeenFrom, Shadowed, Behind, Before, SelectNeighbors, Picked, TopUp;
    var s, out := Sift(d, cands, m), SelectNeighbors(d, cands, m);
    var top, k := TopUp(s, m), |s.selected|;
    PartsSeen(d, base, cands, m);
    SiftDominates(d, cands, m);
    forall i, j | 0 <= i < j < k ensures Before(d, base, out[i], out[j]) && d(out[j], out[i]) >= d(base, out[j]) {
      SeenBefore(d, base, s.selected, i, j);
      SeenDistance(d, base, s.selected, j);
    }
    forall i, j | k <= i < j < |out| ensures Before(d, base, out[i], out[j]) {
      SeenBefore(d, base, top, i - k, j - k);
    }
    forall i | k <= i < |out| ensures Shadowed(d, base, out, k, out[i]) {
      PrunedShadowed(d, base, cands, m, top[i - k]);
    }
  }

  lemma SeenDistance(d: Metric, base: nat, s: seq<Neighbor>, j: nat)
    requires SeenFrom(d, base, s) && j < |s|
    ensures s[j].distance == d(base, s[j].id)
  {
    assert s[j] in s;
  }

  lemma PrunedShadowed(d: Metric, base: nat, cands: seq<Neighbor>, m: nat, c: Neighbor)
    requires SeenFrom(d, base, cands) && c in Sift(d, cands, m).pruned
    ensures Shadowed(d, base, SelectNeighbors(d, cands, m), |Sift(d, cands, m).selected|, c.id)
  {
    hide Sift, Shadowed, SelectNeighbors, Picked, TopUp;
    var s := Sift(d, cands, m);
    PartsSeen(d, base, cands, m);
    SiftFates(d, cands, m);
    BehindIsShadowed(d, base, s.selected, SelectNeighbors(d, cands, m), c);
  }

  lemma AllPicked(s: seq<Neighbor>)
    ensures forall c | c in s :: c.id in ListIds(s)
  {
    forall c | c in s ensures c.id in ListIds(s) {
      var i :| 0 <= i < |s| && s[i] == c;
      assert ListIds(s)[i] == c.id;
    }
  }

  /** A candidate that was not picked was left out for one of the two reasons. */
  lemma UnpickedLeftOut(d: Metric, base: nat, cands: seq<Neighbor>, m: nat, c: Neighbor)
    requires SeenFrom(d, base, cands) && c in cands && c.id !in SelectNeighbors(d, cands, m)
    ensures var k, out := |Sift(d, cands, m).selected|, SelectNeighbors(d, cands, m);
            k <= |out| && LeftOut(d, base, m, out, k, c.id)
  {
    hide Sift, Shadowed, Behind, SelectNeighbors, Picked, TopUp, Sorted, DistinctIds, Before;
    var s, out := Sift(d, cands, m), SelectNeighbors(d, cands, m);
    var top, k := TopUp(s, m), |s.selected|;
    PartsSeen(d, base, cands, m);
    SiftFates(d, cands, m);
    assert out == ListIds(s.selected + top);
    AllPicked(s.selected + top);
    if c in s.pruned {
      PrunedShadowed(d, base, cands, m, c);
      var p :| 0 <= p < |s.pruned| && s.pruned[p] == c;
      assert p >= |top| by { assert forall q | 0 <= q < |top| :: top[q] == s.pruned[q] && top[q] in s.selected + top; }
      forall i | k <= i < |out| ensures Before(d, base, out[i], c.id) {
        SeenBefore(d, base, s.pruned, i - k, p);
      }
    } else {
      forall i | 0 <= i < k ensures Before(d, base, out[i], c.id) {
        LessIsBefore(d, base, s.selected, i, c);
      }
    }
  }

  lemma LessIsBefore(d: Metric, base: nat, s: seq<Neighbor>, i: nat, c: Neighbor)
    requires SeenFrom(d, base, s) && i < |s| && Less(s[i], c) && c.distance == d(base, c.id)
    ensures Before(d, base, s[i].id, c.id)
  {
    assert s[i] in s;
  }

  /** The neighbour heuristic, on the candidates of `base`, keeps what `Reselected` says. */
  lemma SelectReselects(d: Metric, base: nat, cands: seq<Neighbor>, m: nat)
    requires SeenFrom(d, base, cands)
    ensures Reselected(d, base, IdSet(cands), m, SelectNeighbors(d, cands, m))
  {
    hide Sift, SelectNeighbors, Diverse, LeftOut, Before;
    var out, k, list := SelectNeighbors(d, cands, m), |Sift(d, cands, m).selected|, IdSet(cands);
    SelectCorrect(d, cands, m);
    IdSetSize(cands);
    PickedDiverse(d, base, cands, m);
    assert k <= |out| by { PartsSeen(d, base, cands, m); }
    forall x | x in list && x !in out ensures LeftOut(d, base, m, out, k, x) {
      var c :| c in cands && c.id == x;
      UnpickedLeftOut(d, base, cands, m, c);
    }
    assert ReselectedAt(d, base, list, m, out, k);
    forall x | out != [] && x in list && x != out[0] ensures Before(d, base, out[0], x) {
      var j :| 0 <= j < |cands| && cands[j].id == x;
      SeenBefore(d, base, cands, 0, j);
    }
  }

  // --- the heuristic has one answer -----------------------------------------------------

  ghost predicate Reselection(d: Metric, base: nat, list: set<nat>, max: nat, out: seq<nat>, k: nat) {
    && |out| == Min(max, |list|) && Distinct(out)
    && (forall x | x in out :: x in list)
    && ReselectedAt(d, base, list, max, out, k)
  }

  /** The next diverse id of one answer is not shadowed in the other, if it comes before the other's next. */
  lemma NotShadowed(d: Metric, base: nat, a: seq<nat>, j: nat, b: seq<nat>, k: nat, i: nat)
    requires Diverse(d, base, a, j) && Diverse(d, base, b, k) && i < j && i <= k
    requires a[..i] == b[..i] && (i < k ==> Before(d, base, a[i], b[i]))
    ensures !Shadowed(d, base, b, k, a[i])
  {
    forall t | 0 <= t < k && Before(d, base, b[t], a[i]) ensures d(a[i], b[t]) >= d(base, a[i]) {
      assert t > i ==> Before(d, base, b[i], b[t]);
      assert t < i && a[..i][t] == b[..i][t];
    }
  }

  /** The ids after a shared prefix are not in it. */
  lemma BeyondPrefix(a: seq<nat>, b: seq<nat>, i: nat, t: nat)
    requires Distinct(a) && i < |a| && i <= |b| && a[..i] == b[..i] && t < |b| && b[t] == a[i]
    ensures t >= i
  {
    assert forall q | 0 <= q < i :: a[..i][q] == b[..i][q];
  }

  lemma DiverseNotBefore(d: Metric, base: nat, list: set<nat>, max: nat, a: seq<nat>, j: nat, b: seq<nat>, k: nat, i: nat)
    requires Reselection(d, base, list, max, a, j) && Reselection(d, base, list, max, b, k)
    requires i < j && i <= k && a[..i] == b[..i]
    ensures i < k && !Before(d, base, a[i], b[i])
  {
    hide Shadowed, Before;
    var x := a[i];
    assert x in list;
    if i == k || Before(d, base, x, b[i]) {
      NotShadowed(d, base, a, j, b, k, i);
      if x in b {
        var t :| 0 <= t < |b| && b[t] == x;
        BeyondPrefix(a, b, i, t);
        assert t < k;
        BeforeOnce(d, base, x, b[i]);
      } else {
        assert k == max;
        BeforeOnce(d, base, x, b[i]);
      }
    }
  }

  lemma BeforeOnce(d: Metric, base: nat, x: nat, y: nat)
    ensures !Before(d, base, x, y) || !Before(d, base, y, x)
    ensures x != y ==> Before(d, base, x, y) || Before(d, base, y, x)
  {
  }

  /** Two answers agree on their first `i` diverse ids, and both have as many. */
  lemma {:induction false} SameDiverse(d: Metric, base: nat, list: set<nat>, max: nat, a: seq<nat>, j: nat,
                                       b: seq<nat>, k: nat, i: nat)
    requires Reselection(d, base, list, max, a, j) && Reselection(d, base, list, max, b, k) && i <= j
    ensures i <= k && a[..i] == b[..i]
  {
    hide Diverse, LeftOut, Before;
    if i > 0 {
      SameDiverse(d, base, list, max, a, j, b, k, i - 1);
      PrefixLengths(d, base, a, j, b, k);
      DiverseNotBefore(d, base, list, max, a, j, b, k, i - 1);
      DiverseNotBefore(d, base, list, max, b, k, a, j, i - 1);
      BeforeOnce(d, base, a[i - 1], b[i - 1]);
      assert a[..i] == a[..i - 1] + [a[i - 1]] && b[..i] == b[..i - 1] + [b[i - 1]];
    }
  }

  lemma PrefixLengths(d: Metric, base: nat, a: seq<nat>, j: nat, b: seq<nat>, k: nat)
    requires Diverse(d, base, a, j) && Diverse(d, base, b, k)
    ensures j <= |a| && k <= |b|
  {
  }

  lemma TopUpNotBefore(d: Metric, base: nat, list: set<nat>, max: nat, a: seq<nat>, b: seq<nat>, k: nat, i: nat)
    requires Reselection(d, base, list, max, a, k) && Reselection(d, base, list, max, b, k)
    requires k <= i < |a| && a[..i] == b[..i]
    ensures i < |b| && !Before(d, base, a[i], b[i])
  {
    hide Shadowed, Before;
    var x := a[i];
    assert x in list;
    if Before(d, base, x, b[i]) {
      BeforeOnce(d, base, x, b[i]);
      if x in b {
        var t :| 0 <= t < |b| && b[t] == x;
        BeyondPrefix(a, b, i, t);
      }
    }
  }

  lemma {:induction false} SameTopUp(d: Metric, base: nat, list: set<nat>, max: nat, a: seq<nat>, b: seq<nat>, k: nat,
                                     i: nat)
    requires Reselection(d, base, list, max, a, k) && Reselection(d, base, list, max, b, k)
    requires k <= i <= |a| && a[..k] == b[..k]
    ensures i <= |b| && a[..i] == b[..i]
  {
    hide Diverse, LeftOut, Before;
    if i > k {
      SameTopUp(d, base, list, max, a, b, k, i - 1);
      TopUpNotBefore(d, base, list, max, a, b, k, i - 1);
      TopUpNotBefore(d, base, list, max, b, a, k, i - 1);
      BeforeOnce(d, base, a[i - 1], b[i - 1]);
      assert a[..i] == a[..i - 1] + [a[i - 1]] && b[..i] == b[..i - 1] + [b[i - 1]];
    }
  }

  /** The description leaves no choice: at most one list satisfies it. */
  lemma ReselectedUnique(d: Metric, base: nat, list: set<nat>, max: nat, a: seq<nat>, b: seq<nat>)
    requires Reselected(d, base, list, max, a) && Reselected(d, base, list, max, b)
    ensures a == b
  {
    hide Diverse, LeftOut, Before;
    var j :| ReselectedAt(d, base, list, max, a, j);
    var k :| ReselectedAt(d, base, list, max, b, k);
    PrefixLengths(d, base, a, j, b, k);
    SameDiverse(d, base, list, max, a, j, b, k, j);
    SameDiverse(d, base, list, max, b, k, a, j, k);
    SameTopUp(d, base, list, max, a, b, k, |a|);
    assert a[..|a|] == a && b[..|b|] == b;
  }

  // --- linking back ---------------------------------------------------------------------

  /** What the list of a neighbour becomes when the new `id` links to it. */
  ghost predicate LinkedBack(d: Metric, nb: nat, cur: Links, id: nat, max: nat, out: Links) {
    if |cur| < max then out == cur + [id]
    else Reselected(d, nb, (set x | x in cur) + {id}, max, out)
  }

  lemma ScoredSeen(d: Metric, base: nat, list: seq<nat>)
    requires Distinct(list)
    ensures SeenFrom(d, base, Sort(ScoreLinks(d, base, list)))
    ensures IdSet(Sort(ScoreLinks(d, base, list))) == set x | x in list
  {
    hide Sort;
    var scored := ScoreLinks(d, base, list);
    var cands := Sort(scored);
    SortCorrect(scored);
    DistinctPart(cands, scored);
    forall c | c in cands ensures c.distance == d(base, c.id) && c.id in list {
      assert c in multiset(cands);
      assert c in scored;
    }
    forall x | x in list ensures x in IdSet(cands) {
      var i :| 0 <= i < |list| && list[i] == x;
      assert scored[i] in multiset(scored);
      assert scored[i] in multiset(cands);
      assert scored[i] in cands && scored[i].id == x;
    }
  }

  lemma BackLinkLinks(d: Metric, cur: Links, nb: nat, id: nat, max: nat)
    requires Distinct(cur) && id !in cur
    ensures LinkedBack(d, nb, cur, id, max, BackLink(d, cur, nb, id, max))
  {
    hide Sort, SelectNeighbors, Reselected, SeenFrom;
    var list := cur + [id];
    if |cur| >= max {
      assert Distinct(list);
      ScoredSeen(d, nb, list);
      SelectReselects(d, nb, Sort(ScoreLinks(d, nb, list)), max);
      assert (set x | x in list) == (set x | x in cur) + {id};
    }
  }

  /** A new node that comes before every link of a full list is kept, in first place. */
  lemma NearerIsKept(d: Metric, nb: nat, cur: Links, id: nat, max: nat, out: Links)
    requires 0 < max && LinkedBack(d, nb, cur, id, max, out)
    requires forall x | x in cur :: Before(d, nb, id, x)
    ensures id in out && (|cur| >= max ==> out[0] == id)
  {
    hide ReselectedAt;
    if |cur| >= max {
      var list := (set x | x in cur) + {id};
      assert id in list;
      assert list == {id} + (list - {id});
      assert out[0] in list;
      BeforeOnce(d, nb, id, out[0]);
    }
  }

  /** Layer `l` when `id` has linked on it: its neighbours link back, the other lists stay as they were. */
  ghost predicate LinkedOn(m: nat, d: Metric, was: Nodes, now: Nodes, id: nat, l: nat)
    requires |was| <= |now| && id in OnLayer(now, l) && forall i | 0 <= i < |was| :: |was[i]| == |now[i]|
  {
    forall nb | 0 <= nb < |was| && nb != id && l < |was[nb]| ::
      if nb in now[id][l] then LinkedBack(d, nb, was[nb][l], id, if l == 0 then 2 * m else m, now[nb][l])
      else now[nb][l] == was[nb][l]
  }

  lemma {:induction false} BackLinksOf(cfg: Config, d: Metric, nodes: Nodes, id: nat, chosen: seq<nat>, layer: nat)
    requires Navigable(nodes) && id in OnLayer(nodes, layer) && AllOn(nodes, layer, chosen) && Distinct(chosen)
    ensures var r := AddBackLinks(cfg, d, nodes, id, chosen, layer);
            forall nb | nb in OnLayer(nodes, layer) ::
              r[nb][layer] == if nb in chosen then BackLink(d, nodes[nb][layer], nb, id, MaxDegree(cfg, layer))
                              else nodes[nb][layer]
    decreases |chosen|
  {
    hide Navigable, BackLink, Distinct;
    if chosen != [] {
      var k := |chosen| - 1;
      LastIsNew(chosen);
      var before := AddBackLinks(cfg, d, nodes, id, chosen[..k], layer);
      BackLinksOf(cfg, d, nodes, id, chosen[..k], layer);
      SameLayers(nodes, before, layer);
      assert chosen[k] in OnLayer(before, layer);
    }
  }

  lemma LastIsNew(s: seq<nat>)
    requires s != [] && Distinct(s)
    ensures var init, last := s[..|s| - 1], s[|s| - 1];
            Distinct(init) && last !in init && forall x :: x in s <==> x in init || x == last
  {
    assert s == s[..|s| - 1] + [s[|s| - 1]];
  }

  lemma LinkOnLinks(cfg: Config, d: Metric, nodes: Nodes, id: nat, layer: nat, found: seq<Neighbor>)
    requires ConfigOk(cfg) && Navigable(nodes) && Clean(cfg, nodes, true)
    requires id in OnLayer(nodes, layer) && nodes[id][layer] == [] && NoInLinks(nodes, layer, id)
    requires found != [] && id !in IdSet(found) && Without(found, id) == found && SeenFrom(d, id, found)
    requires AllOn(nodes, layer, Chosen(cfg, d, found, id))
    ensures var r := LinkOn(cfg, d, nodes, id, layer, found);
            && LinkedOn(cfg.m, d, nodes, r, id, layer)
            && Reselected(d, id, IdSet(found), cfg.m, r[id][layer])
  {
    hide Navigable, Chosen, LinkOn, Without, Clean, BackLink, LinkedBack, Reselected, SeenFrom, NoInLinks, IdSet;
    var chosen, r := Chosen(cfg, d, found, id), LinkOn(cfg, d, nodes, id, layer, found);
    UnfoldSeen(d, id, found);
    LinkOnIs(cfg, d, nodes, id, layer, found);
    SelectReselects(d, id, found, cfg.m);
    ChosenIsSelected(cfg, d, found, id);
    forall nb | 0 <= nb < |nodes| && nb != id && layer < |nodes[nb]|
      ensures nb in chosen ==> LinkedBack(d, nb, nodes[nb][layer], id, MaxDegree(cfg, layer), r[nb][layer])
    {
      CleanDistinct(cfg, nodes, nb, layer);
      NotLinked(nodes, layer, id, nb);
      BackLinkLinks(d, nodes[nb][layer], nb, id, MaxDegree(cfg, layer));
    }
  }

  /** Linking on a layer, list by list. */
  lemma LinkOnIs(cfg: Config, d: Metric, nodes: Nodes, id: nat, layer: nat, found: seq<Neighbor>)
    requires ConfigOk(cfg) && Navigable(nodes) && id in OnLayer(nodes, layer) && nodes[id][layer] == []
    requires found != [] && id !in IdSet(found) && Without(found, id) == found && DistinctIds(found)
    requires AllOn(nodes, layer, Chosen(cfg, d, found, id))
    ensures var chosen, r := Chosen(cfg, d, found, id), LinkOn(cfg, d, nodes, id, layer, found);
            && id !in chosen && r[id][layer] == chosen
            && forall nb | nb in OnLayer(nodes, layer) && nb != id ::
                 r[nb][layer] == if nb in chosen then BackLink(d, nodes[nb][layer], nb, id, MaxDegree(cfg, layer))
                                 else nodes[nb][layer]
  {
    hide Navigable, Chosen, AddBackLinks, Without, Dedup, CleanList, BackLink, IdSet;
    var chosen := Chosen(cfg, d, found, id);
    OwnList(cfg, d, id, layer, found, true);
    ChosenIsSelected(cfg, d, found, id);
    assert nodes[id][layer] + chosen == chosen;
    NavigableLayer(nodes, layer);
    SetLinksNavigable(nodes, id, layer, chosen);
    var mine := SetLinks(nodes, id, layer, chosen);
    SameLayers(nodes, mine, layer);
    BackLinksOf(cfg, d, mine, id, chosen, layer);
  }

  lemma ChosenIsSelected(cfg: Config, d: Metric, found: seq<Neighbor>, id: nat)
    requires Without(found, id) == found && DistinctIds(found)
    ensures Chosen(cfg, d, found, id) == SelectNeighbors(d, found, cfg.m)
    ensures Distinct(Chosen(cfg, d, found, id))
  {
    hide SelectNeighbors, Without;
    SelectCorrect(d, found, cfg.m);
  }

  lemma CleanDistinct(cfg: Config, nodes: Nodes, i: nat, l: nat)
    requires Clean(cfg, nodes, true) && i < |nodes| && l < |nodes[i]|
    ensures Distinct(nodes[i][l])
  {
    assert CleanList(i, nodes[i][l], Bound(cfg, l, true), true);
  }

  lemma NotLinked(nodes: Nodes, layer: nat, id: nat, nb: nat)
    requires NoInLinks(nodes, layer, id) && nb in OnLayer(nodes, layer)
    ensures id !in nodes[nb][layer]
  {
  }

  // --- the new node's own lists ---------------------------------------------------------

  /** The two graphs have the same layer `l`. */
  ghost predicate SameLayer(a: Nodes, b: Nodes, l: nat) {
    SameShape(a, b) && forall i | i in OnLayer(a, l) :: b[i][l] == a[i][l]
  }

  /** Searching a layer reads that layer only. */
  lemma {:induction false} LoopOnLayer(a: Nodes, b: Nodes, l: nat, dist: Oracle, ef: nat, beam: Beam)
    requires SameLayer(a, b, l) && Within(a, l, beam) && Within(b, l, beam)
    ensures SearchLoop(b, l, dist, ef, beam) == SearchLoop(a, l, dist, ef, beam)
    decreases OnLayer(a, l) - beam.visited, |beam.open|
  {
    hide Consider;
    SameLayers(a, b, l);
    if beam.open != [] && !StopAt(beam.open[0], beam.best, ef) {
      ExpandWithin(a, l, dist, a[beam.open[0].id][l], ef, Pop(beam));
      var next := Expand(dist, a[beam.open[0].id][l], ef, Pop(beam));
      LoopOnLayer(a, b, l, dist, ef, next);
    }
  }

  lemma SearchOnLayer(a: Nodes, b: Nodes, l: nat, dist: Oracle, start: nat, ef: nat)
    requires LayerClosed(a, l) && LayerClosed(b, l) && SameLayer(a, b, l) && start in OnLayer(a, l)
    ensures start in OnLayer(b, l) && SearchLayer(b, l, dist, start, ef) == SearchLayer(a, l, dist, start, ef)
  {
    SameLayers(a, b, l);
    StartWithin(a, l, dist, start);
    StartWithin(b, l, dist, start);
    LoopOnLayer(a, b, l, dist, ef, StartBeam(dist, start));
  }

  /**
   * What the search for `id` finds on layer `l`, before any linking: it starts on layer `top` at `ep`,
   * and on each layer below at the nearest node found on the one above.
   */
  ghost function FoundOn(nodes: Nodes, d: Metric, id: nat, ep: nat, ef: nat, top: nat, l: nat): (r: seq<Neighbor>)
    requires Navigable(nodes) && ep in OnLayer(nodes, top) && l <= top
    ensures r != [] && r[0].id in OnLayer(nodes, l)
    decreases top - l
  {
    NavigableLayer(nodes, l);
    var start := if l == top then ep else FoundOn(nodes, d, id, ep, ef, top, l + 1)[0].id;
    LayersNest(nodes, if l == top then l else l + 1, l);
    FoundSome(nodes, l, Toward(d, id), start, ef);
    SearchLayer(nodes, l, Toward(d, id), start, ef)
  }

  lemma FoundSome(nodes: Nodes, l: nat, dist: Oracle, start: nat, ef: nat)
    requires LayerClosed(nodes, l) && start in OnLayer(nodes, l)
    ensures var found := SearchLayer(nodes, l, dist, start, ef);
            && found != [] && found[0].id in OnLayer(nodes, l)
            && Sorted(found) && DistinctIds(found) && ScoredBy(found, dist)
  {
    hide SearchLayer, Sorted, DistinctIds;
    var found := SearchLayer(nodes, l, dist, start, ef);
    var visited := SearchLayerCorrect(nodes, l, dist, start, ef);
    assert start in visited;
    assert found[0].id in IdSet(found) by { assert found[0] in found; }
  }

  /** Linking on `top` does not change what is found below, and the search goes on from the nearest. */
  lemma {:induction false} FoundBelow(nodes: Nodes, linked: Nodes, d: Metric, id: nat, ep: nat, ef: nat, top: nat, l: nat)
    requires Navigable(nodes) && Navigable(linked) && SameShape(nodes, linked)
    requires ep in OnLayer(nodes, top) && l < top
    requires forall i, k | 0 <= i < |nodes| && 0 <= k < |nodes[i]| && k != top :: linked[i][k] == nodes[i][k]
    ensures var start := FoundOn(nodes, d, id, ep, ef, top, top)[0].id;
            start in OnLayer(linked, top - 1)
            && FoundOn(linked, d, id, start, ef, top - 1, l) == FoundOn(nodes, d, id, ep, ef, top, l)
    decreases top - l
  {
    hide Navigable, SearchLayer;
    SameLayers(nodes, linked, top);
    LayersNest(linked, top, top - 1);
    var start := FoundOn(nodes, d, id, ep, ef, top, top)[0].id;
    var from := FoundOn(nodes, d, id, ep, ef, top, l + 1)[0].id;
    if l + 1 < top { FoundBelow(nodes, linked, d, id, ep, ef, top, l + 1); }
    NavigableLayer(nodes, l);
    NavigableLayer(linked, l);
    LayersNest(nodes, l + 1, l);
    assert SameLayer(nodes, linked, l);
    SearchOnLayer(nodes, linked, l, Toward(d, id), from, ef);
  }

  /** The lists of `id` and of its neighbours on layer `l`, after connecting from `top` downwards. */
  ghost predicate ConnectedOn(cfg: Config, d: Metric, nodes: Nodes, r: Nodes, id: nat, ep: nat, top: nat, l: nat)
    requires Navigable(nodes) && SameShape(nodes, r) && id in OnLayer(nodes, top) && ep in OnLayer(nodes, top) && l <= top
  {
    && LinkedOn(cfg.m, d, nodes, r, id, l)
    && Reselected(d, id, IdSet(FoundOn(nodes, d, id, ep, cfg.efConstruction, top, l)), cfg.m, r[id][l])
  }

  /** One layer of `ConnectDown`. */
  lemma LinkedStep(cfg: Config, d: Metric, nodes: Nodes, id: nat, ep: nat, layer: nat) returns (linked: Nodes)
    requires ConfigOk(cfg) && Navigable(nodes) && Clean(cfg, nodes, true)
    requires Detached(nodes, id, layer) && ep in OnLayer(nodes, layer) && ep != id
    ensures Navigable(linked) && SameShape(nodes, linked) && Clean(cfg, linked, true)
    ensures ConnectedOn(cfg, d, nodes, linked, id, ep, layer, layer)
    ensures forall i, l | 0 <= i < |nodes| && 0 <= l < |nodes[i]| && l != layer :: linked[i][l] == nodes[i][l]
    ensures var start := FoundOn(nodes, d, id, ep, cfg.efConstruction, layer, layer)[0].id;
            if layer == 0 then ConnectDown(cfg, d, nodes, id, ep, layer) == linked
            else
              && start in OnLayer(linked, layer - 1) && id in OnLayer(linked, layer - 1) && start != id
              && ConnectDown(cfg, d, nodes, id, ep, layer) == ConnectDown(cfg, d, linked, id, start, layer - 1)
  {
    hide Navigable, SearchLayer, Clean, LinkOn, Chosen, NoInLinks, LinkedBack, Reselected, IdSet, Without;
    NavigableLayer(nodes, layer);
    assert NoInLinks(nodes, layer, id);
    FoundOthers(cfg, d, nodes, id, ep, layer);
    FoundSome(nodes, layer, Toward(d, id), ep, cfg.efConstruction);
    ChosenOn(cfg, d, nodes, layer, id, ep, cfg.efConstruction);
    var found := SearchLayer(nodes, layer, Toward(d, id), ep, cfg.efConstruction);
    assert SeenFrom(d, id, found);
    LinkOnClean(cfg, d, nodes, id, layer, found, true);
    LinkOnLinks(cfg, d, nodes, id, layer, found);
    linked := LinkOn(cfg, d, nodes, id, layer, found);
    if layer > 0 {
      SameLayers(nodes, linked, layer);
      LayersNest(linked, layer, layer - 1);
    }
  }

  lemma {:induction false} ConnectDownLinks(cfg: Config, d: Metric, nodes: Nodes, id: nat, ep: nat, layer: nat)
    requires ConfigOk(cfg) && Navigable(nodes) && Clean(cfg, nodes, true)
    requires Detached(nodes, id, layer) && ep in OnLayer(nodes, layer) && ep != id
    ensures var r := ConnectDown(cfg, d, nodes, id, ep, layer);
            && (forall l | 0 <= l <= layer :: ConnectedOn(cfg, d, nodes, r, id, ep, layer, l))
            && (forall i, l | 0 <= i < |nodes| && layer < l < |nodes[i]| :: r[i][l] == nodes[i][l])
    decreases layer
  {
    hide Navigable, SearchLayer, Clean, LinkOn, Chosen, NoInLinks, LinkedBack, Reselected, IdSet, FoundOn, Without;
    var start := FoundOn(nodes, d, id, ep, cfg.efConstruction, layer, layer)[0].id;
    var linked := LinkedStep(cfg, d, nodes, id, ep, layer);
    var r := ConnectDown(cfg, d, nodes, id, ep, layer);
    if layer > 0 {
      DetachedBelow(nodes, linked, id, layer);
      ConnectDownLinks(cfg, d, linked, id, start, layer - 1);
      forall l | 0 <= l < layer ensures ConnectedOn(cfg, d, nodes, r, id, ep, layer, l) {
        FoundBelow(nodes, linked, d, id, ep, cfg.efConstruction, layer, l);
        assert ConnectedOn(cfg, d, linked, r, id, start, layer - 1, l);
      }
    }
  }

  // --- one insert ---------------------------------------------------------------------

  /** Where the search for a new node of this level starts, on the highest layer it is to link on. */
  ghost function StartOf(d: Metric, g: Graph, level: nat): (r: nat)
    requires Sane(g) && g.entry.Some?
    ensures Navigable(g.nodes + [NewNode(level)])
    ensures r in OnLayer(g.nodes + [NewNode(level)], Min(level, g.entry.value.level))
  {
    var e, nodes := g.entry.value, g.nodes + [NewNode(level)];
    AddNodeNavigable(g.nodes, level);
    LayersNest(nodes, Min(e.level, level + 1), Min(e.level, level));
    Descend(nodes, Toward(d, |g.nodes|), e.id, e.level, level + 1)
  }

  /** The candidates for the links of the new node on layer `l`. */
  ghost function Candidates(cfg: Config, d: Metric, g: Graph, level: nat, l: nat): (r: set<nat>)
    requires Sane(g) && g.entry.Some? && l <= Min(level, g.entry.value.level)
  {
    IdSet(FoundOn(g.nodes + [NewNode(level)], d, |g.nodes|, StartOf(d, g, level), cfg.efConstruction,
                  Min(level, g.entry.value.level), l))
  }

  /**
   * What inserting `id`, the next id, makes of the graph `g`. On every layer it shares with the graph
   * its own list is what the heuristic keeps of the nodes found; the nodes on that list link back, at
   * most `2 * m` links on layer 0 and `m` above; no other list changes.
   */
  ghost predicate Inserted(cfg: Config, d: Metric, g: Graph, level: nat, r: Graph) {
    var id := |g.nodes|;
    && |r.nodes| == id + 1 && |r.nodes[id]| == level + 1
    && (forall i | 0 <= i < id :: |r.nodes[i]| == |g.nodes[i]|)
    && match g.entry
       case None => r.entry == Some(Entry(id, level)) && r.nodes == g.nodes + [NewNode(level)]
       case Some(e) =>
         && Sane(g)
         && r.entry == Some(if level > e.level then Entry(id, level) else e)
         && (forall l | 0 <= l <= level && l <= e.level ::
               && LinkedOn(cfg.m, d, g.nodes, r.nodes, id, l)
               && Reselected(d, id, Candidates(cfg, d, g, level, l), cfg.m, r.nodes[id][l]))
         && (forall l | e.level < l <= level :: r.nodes[id][l] == [])
         && (forall i, l | 0 <= i < id && level < l < |g.nodes[i]| :: r.nodes[i][l] == g.nodes[i][l])
  }

  lemma InsertLinks(cfg: Config, d: Metric, g: Graph, level: nat)
    requires SequentialInv(cfg, g) && ConfigOk(cfg)
    ensures Inserted(cfg, d, g, level, Insert(cfg, d, g, level))
  {
    hide Navigable, Clean, ConnectDown, Descend, NoInLinks, Detached, Connected, Reselected, LinkedBack, FoundOn;
    var id, nodes := |g.nodes|, g.nodes + [NewNode(level)];
    var r := Insert(cfg, d, g, level);
    InsertKeepsLists(cfg, d, g, level, true);
    if g.entry.Some? {
      var e, ep := g.entry.value, StartOf(d, g, level);
      var top := Min(level, e.level);
      FreshNode(cfg, g.nodes, level, true);
      DescendAvoids(nodes, Toward(d, id), e.id, e.level, level + 1, id);
      DetachedLower(nodes, id, level, top);
      ConnectDownLinks(cfg, d, nodes, id, ep, top);
      assert r.nodes == ConnectDown(cfg, d, nodes, id, ep, top);
      forall l | 0 <= l <= top
        ensures LinkedOn(cfg.m, d, g.nodes, r.nodes, id, l)
        ensures Reselected(d, id, Candidates(cfg, d, g, level, l), cfg.m, r.nodes[id][l])
      {
        assert ConnectedOn(cfg, d, nodes, r.nodes, id, ep, top, l);
        assert forall nb | 0 <= nb < id :: nodes[nb] == g.nodes[nb];
      }
      forall i, l | 0 <= i < id && level < l < |g.nodes[i]| ensures r.nodes[i][l] == g.nodes[i][l] {
        assert nodes[i] == g.nodes[i];
        assert l > top;
      }
      forall l | e.level < l <= level ensures r.nodes[id][l] == [] {
        assert nodes[id][l] == [];
      }
    }
  }

  /**
   * Every row of a sequentially built index was inserted so, with the distances the kernel gives the
   * stored rows.
   */
  lemma BuildLinks<Row>(cfg: Config, kernel: (Row, Row) -> real, levelOf: nat -> nat, rows: seq<Row>, n: nat)
    requires ConfigOk(cfg) && n < |rows|
    ensures var d := Pairwise(kernel, rows[..n + 1]);
            && (forall a, b | 0 <= a <= n && 0 <= b <= n :: d(a, b) == kernel(rows[a], rows[b]))
            && Inserted(cfg, d, Build(cfg, kernel, levelOf, rows[..n]), levelOf(n),
                        Build(cfg, kernel, levelOf, rows[..n + 1]))
  {
    hide Insert, Inserted, SequentialInv;
    assert rows[..n + 1][..n] == rows[..n];
    BuildInvariants(cfg, kernel, levelOf, rows[..n]);
    InsertLinks(cfg, Pairwise(kernel, rows[..n + 1]), Build(cfg, kernel, levelOf, rows[..n]), levelOf(n));
  }

  // --- when the search sees the whole layer -----------------------------------------------

  lemma {:induction false} FoundOnOthers(nodes: Nodes, d: Metric, id: nat, ep: nat, ef: nat, top: nat, l: nat)
    requires Navigable(nodes) && ep in OnLayer(nodes, top) && l <= top && ep != id
    requires forall k: nat :: NoInLinks(nodes, k, id)
    ensures id !in IdSet(FoundOn(nodes, d, id, ep, ef, top, l))
    decreases top - l
  {
    hide Navigable, SearchLayer, NoInLinks;
    if l < top { FoundOnOthers(nodes, d, id, ep, ef, top, l + 1); }
    var start := if l == top then ep else FoundOn(nodes, d, id, ep, ef, top, l + 1)[0].id;
    NavigableLayer(nodes, l);
    LayersNest(nodes, if l == top then l else l + 1, l);
    var visited := SearchLayerCorrect(nodes, l, Toward(d, id), start, ef);
    UnlinkedUnreachable(nodes, l, start, id);
  }

  lemma ReachAfterAdding(nodes: Nodes, level: nat, l: nat, a: nat, b: nat)
    requires Reachable(nodes, l, a, b)
    ensures Reachable(nodes + [NewNode(level)], l, a, b)
  {
    var p :| IsPath(nodes, l, p) && p[0] == a && p[|p| - 1] == b;
    assert IsPath(nodes + [NewNode(level)], l, p);
  }

  /** If a layer is connected and `efConstruction` covers it, all its nodes are candidates. */
  lemma WideCandidates(cfg: Config, d: Metric, g: Graph, level: nat, l: nat)
    requires SequentialInv(cfg, g) && g.entry.Some? && l <= Min(level, g.entry.value.level)
    requires |OnLayer(g.nodes, l)| <= cfg.efConstruction
    requires forall a, b | a in OnLayer(g.nodes, l) && b in OnLayer(g.nodes, l) :: Reachable(g.nodes, l, a, b)
    ensures Candidates(cfg, d, g, level, l) == OnLayer(g.nodes, l)
  {
    hide Navigable, Clean, Descend, NoInLinks, Connected, SearchLayer, Reachable, IdSet;
    var id, nodes, e := |g.nodes|, g.nodes + [NewNode(level)], g.entry.value;
    var top, ep, ef, reach := Min(level, e.level), StartOf(d, g, level), cfg.efConstruction, OnLayer(g.nodes, l);
    FreshNode(cfg, g.nodes, level, true);
    DescendAvoids(nodes, Toward(d, id), e.id, e.level, level + 1, id);
    assert ep != id;
    var start := if l == top then ep else FoundOn(nodes, d, id, ep, ef, top, l + 1)[0].id;
    if l < top { FoundOnOthers(nodes, d, id, ep, ef, top, l + 1); FirstInIds(FoundOn(nodes, d, id, ep, ef, top, l + 1)); }
    NavigableLayer(nodes, l);
    LayersNest(nodes, if l == top then l else l + 1, l);
    assert start in reach by { OldOnLayer(g.nodes, level, l, start); }
    forall v ensures v in reach <==> Reachable(nodes, l, start, v) {
      if v in reach { ReachAfterAdding(g.nodes, level, l, start, v); }
      if Reachable(nodes, l, start, v) {
        ReachedOnLayer(nodes, l, start, v);
        if v == id { UnlinkedUnreachable(nodes, l, start, id); }
        OldOnLayer(g.nodes, level, l, v);
      }
    }
    WideBeamFindsAll(nodes, l, Toward(d, id), start, ef, reach);
  }

  lemma FirstInIds(s: seq<Neighbor>)
    requires s != []
    ensures s[0].id in IdSet(s)
  {
    assert s[0] in s;
  }

  lemma OldOnLayer(nodes: Nodes, level: nat, l: nat, v: nat)
    requires v in OnLayer(nodes + [NewNode(level)], l)
    ensures v == |nodes| || v in OnLayer(nodes, l)
  {
  }

  lemma ReachedOnLayer(nodes: Nodes, l: nat, a: nat, b: nat)
    requires Reachable(nodes, l, a, b)
    ensures b in OnLayer(nodes, l)
  {
  }
}
