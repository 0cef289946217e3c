/**
 * The index's node array (`SegVec`): doubling segments that are allocated on demand and never move.
 * It refines a partial function from ids to values.
 */
module SegmentedArray {
  import opened Common
  import opened Segments

  /** Two ids in one slot are one id. */
  lemma LocatesAlone(a: nat, b: nat)
    ensures Locate(a) == Locate(b) ==> a == b
  {
    if Locate(a) == Locate(b) { LocateInjective(a, b); }
  }

  class SegVec<T> {
    /** `null` until the first write into the segment. A slot is `None` until it is written. */
    var segments: seq<array?<Option<T>>>
    /** One past the highest id written: it counts past slots whose writers are still in flight. */
    var len: nat

    constructor ()
      ensures Valid() && len == 0 && forall i: nat :: At(i) == None
    {
      segments := seq(MAX_SEGMENTS, _ => null);
      len := 0;
    }

    ghost predicate Valid() reads this, segments {
      && |segments| == MAX_SEGMENTS
      && (forall k | 0 <= k < MAX_SEGMENTS && segments[k] != null :: segments[k].Length == SegRows(k))
      && (forall j, k | 0 <= j < k < MAX_SEGMENTS && segments[j] != null :: segments[j] != segments[k])
    }

    /** What slot `i` holds. */
    ghost function At(i: nat): Option<T>
      requires Valid()
      reads this, segments
    {
      var (seg, off) := Locate(i);
      LocateInside(i);
      if seg >= MAX_SEGMENTS || segments[seg] == null then None else segments[seg][off]
    }

    /** Segments that exist stay where they are. */
    twostate predicate Stable() reads this {
      && |segments| == |old(segments)|
      && forall k | 0 <= k < |segments| && old(segments)[k] != null :: segments[k] == old(segments)[k]
    }

    /** `ensure_segment`: allocate it unless it is there; every slot of a new segment is unwritten. */
    method EnsureSegment(seg: nat)
      requires Valid() && seg < MAX_SEGMENTS
      modifies this`segments
      ensures Valid() && Stable() && segments[seg] != null
      ensures forall k | 0 <= k < MAX_SEGMENTS :: segments[k] == old(segments)[k] || fresh(segments[k])
      ensures forall i: nat :: At(i) == old(At(i))
    {
      hide Locate, SegRows;
      if segments[seg] != null { return; }
      var slots := new Option<T>[SegRows(seg)](_ => None);
      segments := segments[seg := slots];
      assert Valid();
      forall i: nat ensures At(i) == old(At(i)) {
        LocateInside(i);
        var (s, off) := Locate(i);
        if s == seg { assert slots[off] == None; }
      }
    }

    /** `set`: slot `index` gets the value, every other slot keeps its own, nothing moves. */
    method Set(index: nat, value: T)
      requires Valid() && Locate(index).0 < MAX_SEGMENTS
      modifies this, segments
      ensures Valid() && Stable()
      ensures forall i: nat :: At(i) == if i == index then Some(value) else old(At(i))
      ensures len == Max(old(len), index + 1)
      ensures forall k | 0 <= k < MAX_SEGMENTS :: segments[k] == old(segments)[k] || fresh(segments[k])
    {
      hide Locate, SegRows;
      var (seg, off) := Locate(index);
      LocateInside(index);
      EnsureSegment(seg);
      label ready:
      segments[seg][off] := Some(value);
      len := Max(len, index + 1);
      forall i: nat ensures At(i) == if i == index then Some(value) else old@ready(At(i)) {
        LocateInside(i);
        LocatesAlone(i, index);
      }
    }

    /** `get_unchecked`. */
    method GetUnchecked(index: nat) returns (value: T)
      requires Valid() && At(index).Some?
      ensures At(index) == Some(value)
    {
      var (seg, off) := Locate(index);
      LocateInside(index);
      value := segments[seg][off].value;
    }
  }

  /**
   * Writers that claim ids `0..n` and finish in any order: once all are done the length is `n` and
   * every slot below it is filled.
   */
  method Fill<T>(v: SegVec<T>, order: seq<nat>, values: nat -> T, n: nat)
    requires v.Valid() && v.len == 0 && forall i: nat :: v.At(i) == None
    requires forall i: nat :: i in order <==> i < n
    requires forall i | 0 <= i < n :: Locate(i).0 < MAX_SEGMENTS
    modifies v, v.segments
    ensures v.Valid() && v.len == n
    ensures forall i: nat :: v.At(i) == if i < n then Some(values(i)) else None
  {
    hide Locate, SegRows;
    for j := 0 to |order|
      invariant v.Valid()
      invariant forall i: nat :: v.At(i) == if i in order[..j] then Some(values(i)) else None
      invariant forall i | i in order[..j] :: i < v.len
      invariant v.len == 0 || v.len - 1 in order[..j]
      invariant |v.segments| == |old(v.segments)|
      invariant forall k | 0 <= k < MAX_SEGMENTS :: v.segments[k] == old(v.segments)[k] || fresh(v.segments[k])
    {
      assert order[j] in order;
      assert order[..j + 1] == order[..j] + [order[j]];
      v.Set(order[j], values(order[j]));
    }
    assert order[..|order|] == order;
    if n > 0 { assert n - 1 in order; }
  }
}
