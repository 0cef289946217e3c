/** Neighbour selection (Malkov & Yashunin, Algorithm 4, keepPrunedConnections). */
module Select {
  import opened Common
  import opened Neighbors
  import opened Search

  /** Distance between two stored rows, by id. */
  type Metric = (nat, nat) -> real

  predicate Dominated(d: Metric, selected: seq<Neighbor>, c: Neighbor) {
    exists i | 0 <= i < |selected| :: d(c.id, selected[i].id) < c.distance
  }

  datatype Split = Split(selected: seq<Neighbor>, pruned: seq<Neighbor>)

  /** The selection loop over `cands`, stopping once `m` are selected. */
  ghost function Sift(d: Metric, cands: seq<Neighbor>, m: nat): Split {
    if cands == [] then Split([], [])
    else
      var c, s := cands[|cands| - 1], Sift(d, cands[..|cands| - 1], m);
      if |s.selected| >= m then s
      else if Dominated(d, s.selected, c) then s.(pruned := s.pruned + [c])
      else s.(selected := s.selected + [c])
  }

  ghost function ListIds(s: seq<Neighbor>): (r: seq<nat>)
    ensures |r| == |s| && forall i | 0 <= i < |s| :: r[i] == s[i].id
  {
    seq(|s|, i requires 0 <= i < |s| => s[i].id)
  }

  /** The selected ones, topped up with the best pruned ones. */
  ghost function Picked(s: Split, m: nat): seq<Neighbor> {
    s.selected + (if |s.selected| < m then Take(s.pruned, m - |s.selected|) else [])
  }

  /** `select_neighbors`. */
  ghost function SelectNeighbors(d: Metric, cands: seq<Neighbor>, m: nat): seq<nat> {
    ListIds(Picked(Sift(d, cands, m), m))
  }

  ghost predicate Distinct(s: seq<nat>) {
    forall i, j | 0 <= i < j < |s| :: s[i] != s[j]
  }

  lemma SiftParts(d: Metric, cands: seq<Neighbor>, m: nat)
    ensures var s := Sift(d, cands, m);
            && |s.selected| <= m
            && multiset(s.selected) + multiset(s.pruned) <= multiset(cands)
            && (|s.selected| < m ==> multiset(s.selected) + multiset(s.pruned) == multiset(cands))
  {
    hide Sift;
    SiftSplits(d, cands, m);
  }

  ghost predicate PartOf(s: Split, whole: seq<Neighbor>) {
    multiset(s.selected) + multiset(s.pruned) <= multiset(whole)
  }

  ghost predicate AllOf(s: Split, whole: seq<Neighbor>) {
    multiset(s.selected) + multiset(s.pruned) == multiset(whole)
  }

  lemma {:induction false} SiftSplits(d: Metric, cands: seq<Neighbor>, m: nat)
    ensures var s := Sift(d, cands, m);
            |s.selected| <= m && PartOf(s, cands) && (|s.selected| < m ==> AllOf(s, cands))
  {
    hide Dominated, PartOf, AllOf;
    if cands == [] {
      NoParts();
    } else {
      var c, init := cands[|cands| - 1], cands[..|cands| - 1];
      SiftSplits(d, init, m);
      assert cands == init + [c];
      OneMore(Sift(d, init, m), init, c);
    }
  }

  lemma NoParts()
    ensures AllOf(Split([], []), []) && PartOf(Split([], []), [])
  {
  }

  /** One more item in the list, and possibly in one of the parts. */
  lemma OneMore(s: Split, whole: seq<Neighbor>, c: Neighbor)
    requires PartOf(s, whole)
    ensures PartOf(s, whole + [c])
    ensures PartOf(s.(selected := s.selected + [c]), whole + [c]) && PartOf(s.(pruned := s.pruned + [c]), whole + [c])
    ensures AllOf(s, whole) ==>
              AllOf(s.(selected := s.selected + [c]), whole + [c]) && AllOf(s.(pruned := s.pruned + [c]), whole + [c])
  {
    var x, y, z, w := multiset(s.selected), multiset(s.pruned), multiset{c}, multiset(whole);
    assert multiset(s.selected + [c]) == x + z && multiset(s.pruned + [c]) == y + z && multiset(whole + [c]) == w + z;
    assert x + z + y == x + y + z && x + (y + z) == x + y + z;
  }

  ghost predicate Spread(d: Metric, selected: seq<Neighbor>) {
    forall i, j | 0 <= i < j < |selected| :: d(selected[j].id, selected[i].id) >= selected[j].distance
  }

  ghost predicate EachDominated(d: Metric, s: Split) {
    forall i | 0 <= i < |s.pruned| :: Dominated(d, s.selected, s.pruned[i])
  }

  ghost predicate AllUpTo(s: seq<Neighbor>, last: Neighbor) {
    forall i | 0 <= i < |s| :: LessEq(s[i], last)
  }

  lemma {:induction false} SiftOrder(d: Metric, cands: seq<Neighbor>, m: nat)
    requires Sorted(cands)
    ensures var s := Sift(d, cands, m);
            && Sorted(s.selected) && Sorted(s.pruned)
            && (cands != [] ==> AllUpTo(s.selected, Last(cands)) && AllUpTo(s.pruned, Last(cands)))
            && (cands != [] && m > 0 ==> s.selected != [] && s.selected[0] == cands[0])
  {
    if cands != [] {
      var k := |cands| - 1;
      var c, s := cands[k], Sift(d, cands[..k], m);
      SiftOrder(d, cands[..k], m);
      if k > 0 {
        UpToTrans(s.selected, cands[k - 1], c);
        UpToTrans(s.pruned, cands[k - 1], c);
      }
    }
  }

  lemma UpToTrans(s: seq<Neighbor>, a: Neighbor, b: Neighbor)
    requires AllUpTo(s, a) && LessEq(a, b)
    ensures AllUpTo(s, b)
  {
  }

  lemma {:induction false} SiftDominates(d: Metric, cands: seq<Neighbor>, m: nat)
    ensures Spread(d, Sift(d, cands, m).selected)
    ensures EachDominated(d, Sift(d, cands, m))
  {
    if cands != [] {
      var k := |cands| - 1;
      var s, t := Sift(d, cands[..k], m), Sift(d, cands, m);
      SiftDominates(d, cands[..k], m);
      forall i | 0 <= i < |t.pruned| ensures Dominated(d, t.selected, t.pruned[i]) {
        if i < |s.pruned| { MoreDominates(d, s.selected, t.selected, s.pruned[i]); }
      }
    }
  }

  lemma MoreDominates(d: Metric, a: seq<Neighbor>, b: seq<Neighbor>, c: Neighbor)
    requires a <= b && Dominated(d, a, c)
    ensures Dominated(d, b, c)
  {
    var i :| 0 <= i < |a| && d(c.id, a[i].id) < c.distance;
    assert b[i] == a[i];
  }

  /**
   * On candidates in ascending order: the selected ones are pairwise no closer to each other than
   * the later one is to the base, every pruned one is dominated by a selected one, both lists stay
   * ascending (so the top-up takes the closest pruned ones), and the closest candidate comes first.
   */
  lemma SiftShape(d: Metric, cands: seq<Neighbor>, m: nat)
    requires Sorted(cands)
    ensures var s := Sift(d, cands, m);
            && Spread(d, s.selected)
            && EachDominated(d, s)
            && Sorted(s.selected) && Sorted(s.pruned)
            && (cands != [] && m > 0 ==> s.selected != [] && s.selected[0] == cands[0])
  {
    SiftOrder(d, cands, m);
    SiftDominates(d, cands, m);
  }

  lemma TakePart(s: seq<Neighbor>, k: nat)
    ensures multiset(Take(s, k)) <= multiset(s)
  {
    var t := Take(s, k);
    assert s == t + s[|t|..];
  }

  lemma SiftSizes(d: Metric, cands: seq<Neighbor>, m: nat)
    ensures var s := Sift(d, cands, m);
            && |s.selected| + |s.pruned| <= |cands|
            && (|s.selected| < m ==> |s.selected| + |s.pruned| == |cands|)
  {
    hide Sift;
    var s := Sift(d, cands, m);
    SiftParts(d, cands, m);
    assert |multiset(cands)| == |cands|;
    assert |multiset(s.selected) + multiset(s.pruned)| == |s.selected| + |s.pruned|;
    SubsetCard(multiset(s.selected) + multiset(s.pruned), multiset(cands));
  }

  lemma PickedPart(d: Metric, cands: seq<Neighbor>, m: nat)
    ensures var p := Picked(Sift(d, cands, m), m);
            && multiset(p) <= multiset(cands)
            && |p| == Min(m, |cands|)
  {
    hide Sift;
    var s := Sift(d, cands, m);
    SiftParts(d, cands, m);
    SiftSizes(d, cands, m);
    if |s.selected| < m {
      TakePart(s.pruned, m - |s.selected|);
      assert multiset(Picked(s, m)) <= multiset(s.selected) + multiset(s.pruned);
    } else {
      assert Picked(s, m) == s.selected;
      assert multiset(s.selected) <= multiset(s.selected) + multiset(s.pruned);
    }
  }

  /**
   * Selection returns distinct ids of candidates, exactly `min(m, number of candidates)` of them,
   * the closest one always included.
   */
  lemma SelectCorrect(d: Metric, cands: seq<Neighbor>, m: nat)
    requires DistinctIds(cands)
    ensures var out := SelectNeighbors(d, cands, m);
            && Distinct(out)
            && |out| == Min(m, |cands|)
            && (forall x | x in out :: x in IdSet(cands))
            && (Sorted(cands) && cands != [] && m > 0 ==> out[0] == cands[0].id)
  {
    var p := Picked(Sift(d, cands, m), m);
    PickedPart(d, cands, m);
    DistinctPart(p, cands);
    if Sorted(cands) { SiftShape(d, cands, m); }
    forall x | x in SelectNeighbors(d, cands, m) ensures x in IdSet(cands) {
      var i :| 0 <= i < |p| && p[i].id == x;
      assert p[i] in multiset(p);
      assert p[i] in cands;
    }
  }

  lemma {:induction false} SiftDominated(d: Metric, cands: seq<Neighbor>, m: nat)
    requires cands != [] && m > 1
    requires forall i | 0 < i < |cands| :: d(cands[i].id, cands[0].id) < cands[i].distance
    ensures Sift(d, cands, m) == Split([cands[0]], cands[1..])
  {
    var k := |cands| - 1;
    if k == 0 {
      assert cands[..0] == [] && cands == [cands[0]];
    } else {
      SiftDominated(d, cands[..k], m);
      var kept := [cands[0]];
      assert d(cands[k].id, kept[0].id) < cands[k].distance;
      assert Dominated(d, kept, cands[k]);
      assert cands[..k][1..] + [cands[k]] == cands[1..];
    }
  }

  /** If the first candidate dominates all others, the top-up does the rest: the first `m` are picked. */
  lemma FirstDominates(d: Metric, cands: seq<Neighbor>, m: nat)
    requires cands != [] && m > 1
    requires forall i | 0 < i < |cands| :: d(cands[i].id, cands[0].id) < cands[i].distance
    ensures SelectNeighbors(d, cands, m) == ListIds(Take(cands, m))
  {
    hide Sift;
    SiftDominated(d, cands, m);
    if m < |cands| {
      assert [cands[0]] + cands[1..][..m - 1] == cands[..m];
    } else {
      assert [cands[0]] + cands[1..] == cands;
    }
  }

  /** If the first `m` candidates are spread, they are selected and nothing else. */
  lemma {:induction false} SiftSpread(d: Metric, cands: seq<Neighbor>, m: nat)
    requires Spread(d, Take(cands, m))
    ensures Sift(d, cands, m).selected == Take(cands, m)
  {
    hide Dominated, Spread;
    if cands != [] {
      var k := |cands| - 1;
      SpreadPart(d, cands, k, m);
      SiftSpread(d, cands[..k], m);
      if k < m {
        assert cands[..k] + [cands[k]] == cands;
      } else {
        assert cands[..k][..m] == cands[..m];
      }
    }
  }

  lemma SpreadPart(d: Metric, cands: seq<Neighbor>, k: nat, m: nat)
    requires k == |cands| - 1 && Spread(d, Take(cands, m))
    ensures Spread(d, Take(cands[..k], m))
    ensures k < m ==> !Dominated(d, cands[..k], cands[k])
  {
    var a, b := Take(cands[..k], m), Take(cands, m);
    assert |a| <= |b| && forall i | 0 <= i < |a| :: a[i] == b[i];
    if k < m { NotDominated(d, cands, k); }
  }

  lemma NotDominated(d: Metric, cands: seq<Neighbor>, k: nat)
    requires k < |cands| && Spread(d, cands)
    ensures !Dominated(d, cands[..k], cands[k])
  {
  }

  lemma SpreadFirst(d: Metric, cands: seq<Neighbor>, m: nat)
    requires m <= |cands| && Spread(d, cands[..m])
    ensures SelectNeighbors(d, cands, m) == ListIds(cands[..m])
  {
    hide Sift;
    assert Take(cands, m) == cands[..m];
    SiftSpread(d, cands, m);
  }
}
