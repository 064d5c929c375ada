/** A coloring round with its copy groups: what they forbid, the coloring, and the resolver that
    later puts every group in order. */
module ColoringRound {
  import opened Target
  import opened MachineIR
  import opened Liveness
  import opened InterferenceGraphs
  import opened Coloring
  import opened Allocation
  import opened ParallelCopies
  import opened CopyGroups
  import RegAlloc

  /** Each group passes arguments one way, and its virtual registers are known. */
  ghost predicate GroupsKnown(groups: seq<seq<GroupCopy>>, cls: map<nat, RegClass>) {
    forall k :: 0 <= k < |groups| ==> OneWay(groups[k]) && GroupKnown(groups[k], cls)
  }

  ghost predicate GroupKnown(group: seq<GroupCopy>, cls: map<nat, RegClass>) {
    forall i :: 0 <= i < |group| ==>
      (group[i].src.Virtual? ==> group[i].src.vreg in cls) && (group[i].dst.Virtual? ==> group[i].dst.vreg in cls)
  }

  /** The groups of a block after rewriting are colored groups, each interrupted in any way. */
  ghost predicate HoldsGroups(items: seq<Item>, groups: seq<seq<GroupCopy>>, colors: map<nat, nat>) {
    forall g: nat :: GroupOf(items, g) == []
                     || exists k :: 0 <= k < |groups| && GroupOf(items, g) == ColorGroup(groups[k], colors)
  }

  ghost predicate AllOrdered(groups: seq<seq<GroupCopy>>, colors: map<nat, nat>) {
    forall k :: 0 <= k < |groups| ==> Ordered(ColorGroup(groups[k], colors)) && !HasCycle(ColorGroup(groups[k], colors))
  }

  lemma HeldGroupsOrdered(items: seq<Item>, groups: seq<seq<GroupCopy>>, colors: map<nat, nat>)
    requires HoldsGroups(items, groups, colors) && AllOrdered(groups, colors)
    ensures GroupsOrdered(items)
  {
    hide GroupOf;
    forall g: nat ensures Ordered(GroupOf(items, g)) {
      if GroupOf(items, g) != [] {
        var k :| 0 <= k < |groups| && GroupOf(items, g) == ColorGroup(groups[k], colors);
      }
    }
  }

  /** The round: forbidden colors of all groups, then coloring.  Success is a proper allocation
      under which no group can make the resolver give up, in one piece or in runs. */
  method ColorRound(f: Function, intervals: seq<Interval>, ghost t: Typing, cls: map<nat, RegClass>,
                    preferCallerSaved: bool, groups: seq<seq<GroupCopy>>, fixed: map<nat, set<nat>>,
                    extra: seq<(nat, nat)>, ties: Ties, hints: map<nat, seq<nat>>, affinities: map<nat, seq<Affinity>>,
                    copies: seq<AffinityEdge>)
    returns (ok: bool, colors: map<nat, nat>, spills: seq<nat>, ghost liveIn: seq<set<nat>>,
             ghost liveOut: seq<set<nat>>)
    requires RegAlloc.Known(f, intervals, t) && t.cls == cls && NoShadowedReads(f)
    requires RegAlloc.BankSafe(t, ties, hints, affinities, copies) && GroupsKnown(groups, cls)
    ensures ExactAtBlockEnds(f, liveIn, liveOut)
    ensures ok <==> spills == []
    ensures ok ==> ProperAllocation(f, t, colors, liveOut) && colors.Keys == cls.Keys
    ensures ok ==> forall r :: r in colors && r in fixed ==> colors[r] !in fixed[r]
    ensures ok ==> AllOrdered(groups, colors)
    ensures ok ==> forall items :: HoldsGroups(items, groups, colors) ==> GroupsOrdered(items)
  {
    hide ProperAllocation, ExactAtBlockEnds, NoShadowedReads, RegAlloc.Known, RegAlloc.BankSafe;
    var forbidden := ForbidGroups(groups, fixed);
    ghost var crosses, edges;
    ok, colors, spills, liveIn, liveOut, crosses, edges :=
      RegAlloc.ColorOnce(f, intervals, t, cls, preferCallerSaved, forbidden, extra, ties, hints, affinities, copies);
    if ok {
      RoundOrdered(groups, fixed, forbidden, cls, colors);
      forall r | r in colors && r in fixed ensures colors[r] !in fixed[r] {
        assert Forbids(fixed, r, colors[r]) ==> Forbids(forbidden, r, colors[r]);
      }
      forall items | HoldsGroups(items, groups, colors) ensures GroupsOrdered(items) {
        HeldGroupsOrdered(items, groups, colors);
      }
    }
  }

  lemma RoundOrdered(groups: seq<seq<GroupCopy>>, fixed: Forbidden, forbidden: Forbidden, cls: map<nat, RegClass>,
                     colors: map<nat, nat>)
    requires GroupsKnown(groups, cls) && colors.Keys == cls.Keys
    requires forall r :: r in colors && r in forbidden ==> colors[r] !in forbidden[r]
    requires forall v, c :: Forbids(forbidden, v, c) <==>
               Forbids(fixed, v, c) || exists l :: 0 <= l < |groups| && GroupForbids(groups[l], v, c)
    ensures AllOrdered(groups, colors)
  {
    forall k | 0 <= k < |groups|
      ensures Ordered(ColorGroup(groups[k], colors)) && !HasCycle(ColorGroup(groups[k], colors))
    {
      assert OneWay(groups[k]) && GroupColored(groups[k], colors);
      ColoredGroupsOrdered(groups, fixed, forbidden, colors, k);
    }
  }
}
