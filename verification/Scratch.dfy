/** The reusable visited set: one generation stamp per node, cleared by bumping the generation. */
module Scratch {
  /** `u32` wrap-around. */
  const GENERATIONS := 0x1_0000_0000

  class VisitedSet {
    var stamps: seq<nat>
    var generation: nat

    constructor ()
      ensures Valid() && generation == 0
    {
      stamps, generation := [], 0;
    }

    /** No stamp is from the future: a new generation finds no mark of its own. */
    ghost predicate Valid() reads this {
      && generation < GENERATIONS
      && forall i | 0 <= i < |stamps| :: stamps[i] <= generation
    }

    /** A traversal is under way. */
    predicate InPass() reads this { generation != 0 }

    /** The ids marked in the current pass: the set this structure stands for. */
    ghost function Marked(): (s: set<nat>)
      reads this
      ensures forall i: nat :: i in s <==> i < |stamps| && stamps[i] == generation
    {
      set i: nat | i < |stamps| && stamps[i] == generation
    }

    /** Start a traversal of `n` nodes: every earlier mark is forgotten, also across the wrap. */
    method BeginPass(n: nat)
      requires Valid()
      modifies this
      ensures Valid() && InPass()
      ensures Marked() == {}
      ensures |stamps| >= n
    {
      if |stamps| < n {
        stamps := stamps + seq(n - |stamps|, _ => 0);
      }
      generation := (generation + 1) % GENERATIONS;
      if generation == 0 {
        stamps := seq(|stamps|, _ => 0);
        generation := 1;
      }
    }

    /** Mark `id`; true exactly when this pass had already marked it. Grows on demand. */
    method Mark(id: nat) returns (seen: bool)
      requires Valid() && InPass()
      modifies this`stamps
      ensures Valid() && InPass()
      ensures seen <==> id in old(Marked())
      ensures Marked() == old(Marked()) + {id}
    {
      if id >= |stamps| {
        stamps := stamps + seq(id + 1 - |stamps|, _ => 0);
      }
      if stamps[id] == generation {
        seen := true;
      } else {
        stamps := stamps[id := generation];
        seen := false;
      }
    }

    /** A whole pass: `seen[i]` holds exactly when `ids[i]` occurs earlier in the same pass. */
    method Pass(n: nat, ids: seq<nat>) returns (seen: seq<bool>)
      requires Valid()
      modifies this
      ensures Valid() && InPass()
      ensures |seen| == |ids|
      ensures forall i | 0 <= i < |ids| :: seen[i] <==> ids[i] in ids[..i]
    {
      BeginPass(n);
      seen := [];
      for i := 0 to |ids|
        invariant Valid() && InPass() && |seen| == i
        invariant forall x :: x in Marked() <==> x in ids[..i]
        invariant forall j | 0 <= j < i :: seen[j] <==> ids[j] in ids[..j]
      {
        var was := Mark(ids[i]);
        assert ids[..i + 1] == ids[..i] + [ids[i]];
        seen := seen + [was];
      }
    }
  }

  /** Any run of passes on one set, each against fresh expectations. */
  method Passes(v: VisitedSet, runs: seq<(nat, seq<nat>)>) returns (seen: seq<seq<bool>>)
    requires v.Valid()
    modifies v
    ensures v.Valid() && |seen| == |runs|
    ensures forall r | 0 <= r < |runs| ::
              && |seen[r]| == |runs[r].1|
              && forall i | 0 <= i < |runs[r].1| :: seen[r][i] <==> runs[r].1[i] in runs[r].1[..i]
  {
    seen := [];
    for r := 0 to |runs|
      invariant v.Valid() && |seen| == r
      invariant forall q | 0 <= q < r ::
                  && |seen[q]| == |runs[q].1|
                  && forall i | 0 <= i < |runs[q].1| :: seen[q][i] <==> runs[q].1[i] in runs[q].1[..i]
    {
      var s := v.Pass(runs[r].0, runs[r].1);
      seen := seen + [s];
    }
  }
}
