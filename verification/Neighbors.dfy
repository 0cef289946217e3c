/**
 * Scored candidates, their total order, and heaps of them.
 *
 * A `BinaryHeap` is modelled by its contents in ascending order: `push` is `InsertSorted`, a
 * max-heap's `peek`/`pop` take the last element, a min-heap's (`Reverse`) the first, and
 * `into_sorted_vec` is the sequence itself.
 */
module Neighbors {
  datatype Neighbor = Neighbor(id: nat, distance: real)

  /** `Neighbor::cmp`: by distance, ties by id. */
  predicate Less(a: Neighbor, b: Neighbor) {
    a.distance < b.distance || (a.distance == b.distance && a.id < b.id)
  }

  predicate LessEq(a: Neighbor, b: Neighbor) {
    a == b || Less(a, b)
  }

  ghost predicate Sorted(s: seq<Neighbor>) {
    forall i, j | 0 <= i < j < |s| :: LessEq(s[i], s[j])
  }

  function InsertSorted(s: seq<Neighbor>, x: Neighbor): (r: seq<Neighbor>)
    ensures |r| == |s| + 1
  {
    if s == [] || Less(x, s[0]) then [x] + s else [s[0]] + InsertSorted(s[1..], x)
  }

  function Last(s: seq<Neighbor>): Neighbor
    requires s != []
  {
    s[|s| - 1]
  }

  /** `push_bounded`: a max-heap that keeps the `k` least items it was offered. */
  function PushBounded(heap: seq<Neighbor>, x: Neighbor, k: nat): (r: seq<Neighbor>)
    ensures |r| == if |heap| < k then |heap| + 1 else |heap|
  {
    if |heap| < k then InsertSorted(heap, x)
    else if heap != [] && Less(x, Last(heap)) then InsertSorted(heap[..|heap| - 1], x)
    else heap
  }

  function PushAll(heap: seq<Neighbor>, items: seq<Neighbor>, k: nat): seq<Neighbor>
    decreases |items|
  {
    if items == [] then heap else PushAll(PushBounded(heap, items[0], k), items[1..], k)
  }

  function Sort(s: seq<Neighbor>): (r: seq<Neighbor>)
    ensures |r| == |s|
  {
    if s == [] then [] else InsertSorted(Sort(s[..|s| - 1]), s[|s| - 1])
  }

  function Take(s: seq<Neighbor>, k: nat): seq<Neighbor> {
    if k < |s| then s[..k] else s
  }

  /** Brute force: sort everything by (distance, id) and keep the first `k`. */
  function TopK(s: seq<Neighbor>, k: nat): seq<Neighbor> {
    Take(Sort(s), k)
  }

  /**
   * `out` lists the `k` nearest of `ids`, nearest first; among ids at one distance the smaller comes
   * first. This is the order of `Neighbor::cmp`, in plain distances and ids.
   */
  ghost predicate NearestOf(out: seq<Neighbor>, dist: nat -> real, ids: set<nat>, k: nat) {
    && |out| == (if |ids| < k then |ids| else k)
    && (forall n | n in out :: n.id in ids && n.distance == dist(n.id))
    && Ascending(out)
    && (forall n, x | n in out && x in ids && (forall i | 0 <= i < |out| :: out[i].id != x) ::
          dist(n.id) < dist(x) || (dist(n.id) == dist(x) && n.id < x))
  }

  /** Nearest first, ties by id, no id twice. */
  ghost predicate Ascending(out: seq<Neighbor>) {
    forall i, j | 0 <= i < j < |out| ::
      && out[i].id != out[j].id
      && (out[i].distance < out[j].distance || (out[i].distance == out[j].distance && out[i].id < out[j].id))
  }

  // --- sorted sequences --------------------------------------------------------

  lemma {:induction false} InsertSortedCorrect(s: seq<Neighbor>, x: Neighbor)
    requires Sorted(s)
    ensures Sorted(InsertSorted(s, x))
    ensures multiset(InsertSorted(s, x)) == multiset(s) + multiset{x}
  {
    if s == [] || Less(x, s[0]) {
      forall i, j | 0 <= i < j < |[x] + s| ensures LessEq(([x] + s)[i], ([x] + s)[j]) {
        if i == 0 && j > 1 { assert LessEq(s[0], s[j - 1]); }
      }
    } else {
      InsertSortedCorrect(s[1..], x);
      var t := InsertSorted(s[1..], x);
      assert s == [s[0]] + s[1..];
      InsertedAbove(s, x, t);
    }
  }

  lemma InsertedAbove(s: seq<Neighbor>, x: Neighbor, t: seq<Neighbor>)
    requires s != [] && Sorted(s) && !Less(x, s[0]) && Sorted(t) && multiset(t) == multiset(s[1..]) + multiset{x}
    ensures Sorted([s[0]] + t)
  {
    forall j | 0 <= j < |t| ensures LessEq(s[0], t[j]) {
      assert t[j] in multiset(t);
      if t[j] != x {
        assert t[j] in s[1..];
        var i :| 0 < i < |s| && s[i] == t[j];
      }
    }
  }

  lemma InsertSortedMembers(s: seq<Neighbor>, x: Neighbor)
    requires Sorted(s)
    ensures forall y :: y in InsertSorted(s, x) <==> y == x || y in s
  {
    InsertSortedCorrect(s, x);
    forall y ensures y in InsertSorted(s, x) <==> y == x || y in s {
      assert y in InsertSorted(s, x) <==> y in multiset(InsertSorted(s, x));
      assert y in s <==> y in multiset(s);
    }
  }

  lemma {:induction false} SortCorrect(s: seq<Neighbor>)
    ensures Sorted(Sort(s)) && multiset(Sort(s)) == multiset(s)
  {
    if s != [] {
      var k := |s| - 1;
      SortCorrect(s[..k]);
      InsertSortedCorrect(Sort(s[..k]), s[k]);
      assert s == s[..k] + [s[k]];
    }
  }

  /** A multiset has one ascending arrangement. */
  lemma {:induction false} SortedUnique(a: seq<Neighbor>, b: seq<Neighbor>)
    requires Sorted(a) && Sorted(b) && multiset(a) == multiset(b)
    ensures a == b
    decreases |a|
  {
    assert |multiset(a)| == |a| && |multiset(b)| == |b|;
    if a != [] {
      SameLeast(a, b);
      DropFirst(a);
      DropFirst(b);
      SortedUnique(a[1..], b[1..]);
    }
  }

  lemma DropFirst(a: seq<Neighbor>)
    requires Sorted(a) && a != []
    ensures Sorted(a[1..]) && multiset(a[1..]) == multiset(a) - multiset{a[0]} && a == [a[0]] + a[1..]
  {
    assert a == [a[0]] + a[1..];
  }

  lemma SameLeast(a: seq<Neighbor>, b: seq<Neighbor>)
    requires Sorted(a) && Sorted(b) && a != [] && b != [] && multiset(a) == multiset(b)
    ensures a[0] == b[0]
  {
    assert a[0] in multiset(b) && b[0] in multiset(a);
    var i :| 0 <= i < |a| && a[i] == b[0];
    var j :| 0 <= j < |b| && b[j] == a[0];
    assert LessEq(a[0], a[i]) && LessEq(b[0], b[j]);
  }

  lemma SortPermutation(s: seq<Neighbor>, t: seq<Neighbor>)
    requires multiset(s) == multiset(t)
    ensures Sort(s) == Sort(t)
  {
    SortCorrect(s);
    SortCorrect(t);
    SortedUnique(Sort(s), Sort(t));
  }

  lemma SortOfSorted(s: seq<Neighbor>)
    requires Sorted(s)
    ensures Sort(s) == s
  {
    SortCorrect(s);
    SortedUnique(Sort(s), s);
  }

  // --- bounded heaps -----------------------------------------------------------

  /** Inserting and then keeping `k` is what `push_bounded` does to the `k` kept before. */
  lemma {:induction false} TakeInsert(s: seq<Neighbor>, x: Neighbor, k: nat)
    requires Sorted(s)
    ensures Take(InsertSorted(s, x), k) == PushBounded(Take(s, k), x, k)
    decreases |s|
  {
    if |s| < k {
    } else if k == 0 {
      assert s[..0] == [];
    } else {
      assert Take(s, k) == s[..k] && Last(s[..k]) == s[k - 1];
      if Less(x, s[k - 1]) {
        TakeInsertBelow(s, x, k);
        assert s[..k][..k - 1] == s[..k - 1];
      } else {
        TakeInsertAbove(s, x, k);
      }
    }
  }

  lemma {:induction false} TakeInsertBelow(s: seq<Neighbor>, x: Neighbor, k: nat)
    requires Sorted(s) && 0 < k <= |s| && Less(x, s[k - 1])
    ensures InsertSorted(s, x)[..k] == InsertSorted(s[..k - 1], x)
    decreases k
  {
    if Less(x, s[0]) {
      assert ([x] + s)[..k] == [x] + s[..k - 1];
      if k > 1 { assert s[..k - 1][0] == s[0]; }
    } else {
      assert s[1..][k - 2] == s[k - 1];
      TakeInsertBelow(s[1..], x, k - 1);
      assert s[1..][..k - 2] == s[..k - 1][1..];
    }
  }

  lemma {:induction false} TakeInsertAbove(s: seq<Neighbor>, x: Neighbor, k: nat)
    requires Sorted(s) && 0 < k <= |s| && !Less(x, s[k - 1])
    ensures InsertSorted(s, x)[..k] == s[..k]
    decreases k
  {
    assert LessEq(s[0], s[k - 1]) by { if k > 1 { assert LessEq(s[0], s[k - 1]); } }
    if k > 1 {
      assert s[1..][k - 2] == s[k - 1];
      TakeInsertAbove(s[1..], x, k - 1);
      assert s[..k] == [s[0]] + s[1..][..k - 1];
    }
  }

  /** Offering one item to the top-k heap of `s` gives the top-k heap of `s + [x]`. */
  lemma PushIsTopK(s: seq<Neighbor>, x: Neighbor, k: nat)
    ensures PushBounded(TopK(s, k), x, k) == TopK(s + [x], k)
  {
    SortCorrect(s);
    TakeInsert(Sort(s), x, k);
    assert (s + [x])[..|s|] == s;
  }

  lemma {:induction false} PushAllIsTopK(s: seq<Neighbor>, items: seq<Neighbor>, k: nat)
    ensures PushAll(TopK(s, k), items, k) == TopK(s + items, k)
    decreases |items|
  {
    hide TopK, PushBounded;
    if items == [] {
      assert s + [] == s;
    } else {
      PushIsTopK(s, items[0], k);
      PushAllIsTopK(s + [items[0]], items[1..], k);
      assert s + [items[0]] + items[1..] == s + items;
    }
  }

  lemma {:induction false} PushAllSplit(heap: seq<Neighbor>, a: seq<Neighbor>, b: seq<Neighbor>, k: nat)
    ensures PushAll(heap, a + b, k) == PushAll(PushAll(heap, a, k), b, k)
    decreases |a|
  {
    hide PushBounded;
    if a == [] {
      assert a + b == b;
    } else {
      PushAllSplit(PushBounded(heap, a[0], k), a[1..], b, k);
      assert (a + b)[1..] == a[1..] + b;
    }
  }

  /** Items no better than a full heap's worst leave it alone. */
  lemma {:induction false} PushAllWorse(heap: seq<Neighbor>, items: seq<Neighbor>, k: nat)
    requires |heap| >= k
    requires heap != [] ==> forall i | 0 <= i < |items| :: LessEq(Last(heap), items[i])
    ensures PushAll(heap, items, k) == heap
    decreases |items|
  {
    if items != [] {
      if heap != [] { assert LessEq(Last(heap), items[0]); }
      forall i | 0 <= i < |items[1..]| ensures heap != [] ==> LessEq(Last(heap), items[1..][i]) {
        assert items[1..][i] == items[i + 1];
      }
      PushAllWorse(heap, items[1..], k);
    }
  }

  /** The worst of the `k` least of a multiset is no worse than the worst of any `k` of its members. */
  lemma TopKWorst(s: seq<Neighbor>, t: seq<Neighbor>, k: nat)
    requires Sorted(t) && |t| == k > 0
    ensures |TopK(s + t, k)| == k && LessEq(Last(TopK(s + t, k)), Last(t))
  {
    hide Sort;
    var all := Sort(s + t);
    SortCorrect(s + t);
    var w := all[k - 1];
    if !LessEq(w, Last(t)) {
      // every member of `t` then sits among the first k - 1 of `all`
      assert multiset(s + t) == multiset(s) + multiset(t);
      forall i | 0 <= i < k ensures Less(t[i], w) {
        if i < k - 1 { assert LessEq(t[i], t[k - 1]); }
      }
      AllBefore(all, t, k - 1);
      SubsetCard(multiset(t), multiset(all[..k - 1]));
      assert false;
    }
  }

  /** What precedes item `c` of a sorted sequence sits among the items before it. */
  lemma AllBefore(all: seq<Neighbor>, t: seq<Neighbor>, c: nat)
    requires Sorted(all) && c < |all| && multiset(t) <= multiset(all)
    requires forall i | 0 <= i < |t| :: Less(t[i], all[c])
    ensures multiset(t) <= multiset(all[..c])
  {
    assert all == all[..c] + all[c..];
    forall x | x in multiset(t) ensures multiset(t)[x] <= multiset(all[..c])[x] {
      var i :| 0 <= i < |t| && t[i] == x;
      forall j | c <= j < |all| ensures all[j] != x {
        if j > c { assert LessEq(all[c], all[j]); }
      }
      assert x !in all[c..];
      assert multiset(all)[x] == multiset(all[..c])[x] + multiset(all[c..])[x];
    }
  }

  lemma SubsetCard(a: multiset<Neighbor>, b: multiset<Neighbor>)
    requires a <= b
    ensures |a| <= |b|
  {
    assert b == a + (b - a);
  }

  /** Of a second list only its own `k` least can matter. */
  lemma FarItemsIgnored(s: seq<Neighbor>, t: seq<Neighbor>, k: nat)
    ensures TopK(s + TopK(t, k), k) == TopK(s + t, k)
  {
    hide PushBounded, InsertSorted, Sort;
    var u := Sort(t);
    var near := TopK(t, k);
    var far := u[|near|..];
    SortCorrect(t);
    assert u == near + far;
    PushAllIsTopK(s + near, far, k);
    assert s + near + far == s + u;
    assert multiset(s + u) == multiset(s + t);
    SortPermutation(s + u, s + t);
    FarItemsAbove(s, t, k);
    if far != [] {
      PushAllWorse(TopK(s + near, k), far, k);
    }
  }

  lemma FarItemsAbove(s: seq<Neighbor>, t: seq<Neighbor>, k: nat)
    ensures var near, heap := TopK(t, k), TopK(s + TopK(t, k), k);
            var far := Sort(t)[|near|..];
            && (far != [] ==> |heap| >= k)
            && (far != [] && heap != [] ==> forall i | 0 <= i < |far| :: LessEq(Last(heap), far[i]))
  {
    hide InsertSorted, Sort;
    var u, near := Sort(t), TopK(t, k);
    var far := u[|near|..];
    SortCorrect(t);
    if far != [] && k > 0 {
      TopKWorst(s, near, k);
      forall i | 0 <= i < |far| ensures LessEq(Last(TopK(s + near, k)), far[i]) {
        assert LessEq(u[k - 1], u[k + i]);
      }
    }
  }

  /**
   * Merging: pouring a bounded heap `b`, in any order its iterator yields, into the bounded heap
   * of `s` gives the bounded heap of everything both were built from.
   */
  lemma MergeIsTopK(s: seq<Neighbor>, t: seq<Neighbor>, b: seq<Neighbor>, k: nat)
    requires multiset(b) == multiset(TopK(t, k))
    ensures PushAll(TopK(s, k), b, k) == TopK(s + t, k)
  {
    hide PushAll, PushBounded, InsertSorted, Sort;
    PushAllIsTopK(s, b, k);
    var near := TopK(t, k);
    assert multiset(s + b) == multiset(s + near);
    SortPermutation(s + b, s + near);
    FarItemsIgnored(s, t, k);
  }
}
