/** The allocator as a whole: any number of repair rounds that split or spill, then one coloring
    round that succeeds. */
module AllocationRounds {
  import opened Target
  import opened Dataflow
  import opened MachineIR
  import opened RepairInvariant
  import opened RepairTyping
  import opened InterferenceGraphs
  import opened Coloring
  import ParallelCopies
  import CopyGroups
  import ColoringRound
  import RegAlloc
  import Renaming
  import Spilling
  import SpillPass
  import GapSplit
  import Allocation
  import Liveness

  function Entry(st: State): Config {
    Running(0, st)
  }

  /** Both functions behave alike from the same initial state, for any number of blocks. */
  ghost predicate BehaveAlike(f: Function, g: Function, m: Machine, n: Machine, st: State)
    requires Executable(f) && Executable(g) && f.blocks != [] && g.blocks != []
  {
    forall k: nat :: SameBehaviour(Run(f, m, Entry(st), k), Run(g, n, Entry(st), k))
  }

  lemma SpillBehaves(f: Function, homes: Spilling.Homes, cls: map<nat, RegClass>, base: nat, slotsOut: seq<set<nat>>,
                     g: Function, liveOut: seq<set<nat>>, m: Machine, st: State)
    requires SpillPass.Spillable(f, homes, cls, base, slotsOut) && SpillPass.Spilled(f, homes, cls, base, g)
    requires SpillPass.LiveClosed(f, liveOut, base) && homes.Keys <= cls.Keys && !m.physical && f.blocks != []
    requires LiveBefore(Accesses(f.blocks[0].instrs), liveOut[0]) == {}
    ensures Executable(f) && Executable(g) && |g.blocks| == |f.blocks|
    ensures BehaveAlike(f, g, m, m, st)
  {
    SpillPass.SpilledExecutable(f, homes, cls, base, slotsOut, g);
    forall k: nat ensures SameBehaviour(Run(f, m, Entry(st), k), Run(g, m, Entry(st), k)) {
      SpillPass.SpillingPreservesRuns(f, homes, cls, base, slotsOut, g, liveOut, m, Entry(st), Entry(st), k);
    }
  }

  lemma SplitBehaves(f: Function, plan: GapSplit.Plan, sibling: nat, definition: nat, g: Function, m: Machine,
                     st: State)
    requires GapSplit.Splittable(f, plan, sibling, definition) && GapSplit.Split(f, plan, sibling, g)
    requires !m.physical && f.blocks != []
    ensures Executable(f) && Executable(g) && |g.blocks| == |f.blocks|
    ensures BehaveAlike(f, g, m, m, st)
  {
    assert GapSplit.Linked(plan, sibling, Entry(st), Entry(st));
    GapSplit.SplitExecutable(f, plan, sibling, definition, g, m, st);
    forall k: nat ensures SameBehaviour(Run(f, m, Entry(st), k), Run(g, m, Entry(st), k)) {
      GapSplit.SplitPreservesRuns(f, plan, sibling, definition, g, m, Entry(st), Entry(st), k);
    }
  }

  /** A repair round keeps the behaviour and the invariant that the next round relies on. */
  lemma RoundBehaves(a: Snapshot, slotsOut: seq<set<nat>>, liveOut: seq<set<nat>>, r: Round, b: Snapshot,
                     m: Machine, st: State)
    returns (nextSlotsOut: seq<set<nat>>, nextLiveOut: seq<set<nat>>)
    requires Sound(a, slotsOut, liveOut) && Advances(a, r, b) && !m.physical
    ensures Sound(b, nextSlotsOut, nextLiveOut)
    ensures |b.f.blocks| == |a.f.blocks| && BehaveAlike(a.f, b.f, m, m, st)
  {
    hide BehaveAlike, SpillPass.Spillable, GapSplit.Splittable, SpillPass.LiveClosed;
    match r {
      case SpillAll(homes, recipes, cls, base) =>
        SpillableNow(a, slotsOut, liveOut, homes, recipes, cls, base, b);
        KeptCloses(a, slotsOut, liveOut, base);
        SpillBehaves(a.f, homes, cls, base, slotsOut, b.f, Remaining(liveOut, base, {}), m, st);
        SpillKeepsSound(a, slotsOut, liveOut, homes, recipes, cls, base, b);
        nextSlotsOut, nextLiveOut := WithHomes(slotsOut, homes), Remaining(liveOut, base, homes.Keys);
      case SplitOne(plan, sibling, definition) =>
        SplittableNow(a, slotsOut, liveOut, plan, sibling, definition, b);
        SplitBehaves(a.f, plan, sibling, definition, b.f, m, st);
        SplitKeepsSound(a, slotsOut, liveOut, plan, sibling, definition, b);
        nextSlotsOut, nextLiveOut := slotsOut, WithoutHalves(liveOut, plan, sibling);
    }
  }

  /** It also keeps what a coloring round asks of the function. */
  lemma RoundKeepsTyped(a: Snapshot, slotsOut: seq<set<nat>>, liveOut: seq<set<nat>>, r: Round, b: Snapshot)
    returns (nextSlotsOut: seq<set<nat>>, nextLiveOut: seq<set<nat>>)
    requires Sound(a, slotsOut, liveOut) && Colorable(a) && Advances(a, r, b)
    ensures Sound(b, nextSlotsOut, nextLiveOut) && Colorable(b)
  {
    hide Sound, Colorable;
    match r {
      case SpillAll(homes, recipes, cls, base) =>
        SpillKeepsSound(a, slotsOut, liveOut, homes, recipes, cls, base, b);
        SpillKeepsTyped(a, slotsOut, liveOut, homes, recipes, cls, base, b);
        nextSlotsOut, nextLiveOut := WithHomes(slotsOut, homes), Remaining(liveOut, base, homes.Keys);
      case SplitOne(plan, sibling, definition) =>
        SplitKeepsSound(a, slotsOut, liveOut, plan, sibling, definition, b);
        SplitKeepsTyped(a, slotsOut, liveOut, plan, sibling, definition, b);
        nextSlotsOut, nextLiveOut := slotsOut, WithoutHalves(liveOut, plan, sibling);
    }
  }

  /** The allocator's state after each repair. */
  ghost predicate Rounds(states: seq<Snapshot>, rounds: seq<Round>) {
    && |states| == |rounds| + 1
    && forall i :: 0 <= i < |rounds| ==> Advances(states[i], rounds[i], states[i + 1])
  }

  /** The round that succeeds, with exact liveness: every register in its color, and 128-bit values
      only in the slots made for them. */
  ghost predicate Succeeds(f: Function, t: Allocation.Typing, colors: map<nat, nat>, liveIn: seq<set<nat>>,
                           liveOut: seq<set<nat>>, st: State) {
    && Allocation.ProperAllocation(f, t, colors, liveOut) && Liveness.ExactAtBlockEnds(f, liveIn, liveOut)
    && forall s: nat :: s !in t.wideSlots ==> st.slots(s).Scalar?
  }

  lemma ColoringBehaves(f: Function, closed: seq<set<nat>>, t: Allocation.Typing, colors: map<nat, nat>,
                        liveIn: seq<set<nat>>, liveOut: seq<set<nat>>, m: Machine, st: State)
    requires Succeeds(f, t, colors, liveIn, liveOut, st) && !m.physical
    requires f.blocks != [] && RegsFlow(f, closed)
    ensures Executable(f) && Executable(Renaming.RewriteFunction(f, colors))
    ensures BehaveAlike(f, Renaming.RewriteFunction(f, colors), m, m.(physical := true), st)
  {
    Allocation.ProperIsExecutable(f, t, colors, liveOut);
    SoundEntry(f, closed, liveOut);
    assert Allocation.Linked(f, t, colors, liveOut, Entry(st), Entry(st));
    forall k: nat
      ensures SameBehaviour(Run(f, m, Entry(st), k),
                            Run(Renaming.RewriteFunction(f, colors), m.(physical := true), Entry(st), k))
    {
      Allocation.AllocationPreservesRuns(f, t, colors, liveOut, m, Entry(st), Entry(st), k);
    }
  }

  lemma BehaveTransitive(f: Function, g: Function, h: Function, m: Machine, n: Machine, st: State)
    requires Executable(f) && Executable(g) && Executable(h) && f.blocks != [] && g.blocks != [] && h.blocks != []
    requires BehaveAlike(f, g, m, m, st) && BehaveAlike(g, h, m, n, st)
    ensures BehaveAlike(f, h, m, n, st)
  {
    hide Executable, Run;
    forall k: nat ensures SameBehaviour(Run(f, m, Entry(st), k), Run(h, n, Entry(st), k)) {
      assert SameBehaviour(Run(f, m, Entry(st), k), Run(g, m, Entry(st), k));
      assert SameBehaviour(Run(g, m, Entry(st), k), Run(h, n, Entry(st), k));
    }
  }

  lemma {:induction false} SoundRoundsBehave(states: seq<Snapshot>, rounds: seq<Round>, slotsOut: seq<set<nat>>,
                                             closed: seq<set<nat>>, t: Allocation.Typing, colors: map<nat, nat>,
                                             liveIn: seq<set<nat>>, liveOut: seq<set<nat>>, m: Machine, st: State)
    requires Rounds(states, rounds) && Sound(states[0], slotsOut, closed) && !m.physical
    requires Succeeds(states[|rounds|].f, t, colors, liveIn, liveOut, st)
    ensures Executable(states[0].f) && Executable(Renaming.RewriteFunction(states[|rounds|].f, colors))
    ensures 0 < |states[0].f.blocks| == |states[|rounds|].f.blocks|
    ensures BehaveAlike(states[0].f, Renaming.RewriteFunction(states[|rounds|].f, colors), m, m.(physical := true), st)
    decreases |rounds|
  {
    hide BehaveAlike, Advances, Succeeds, Executable;
    var f := states[0].f;
    assert Executable(f) && f.blocks != [] by { SoundParts(states[0], slotsOut, closed); }
    if rounds == [] {
      SoundParts(states[0], slotsOut, closed);
      ColoringBehaves(f, closed, t, colors, liveIn, liveOut, m, st);
    } else {
      var nextSlotsOut, nextClosed := RoundBehaves(states[0], slotsOut, closed, rounds[0], states[1], m, st);
      SoundRoundsBehave(states[1..], rounds[1..], nextSlotsOut, nextClosed, t, colors, liveIn, liveOut, m, st);
      BehaveTransitive(f, states[1].f, Renaming.RewriteFunction(states[|rounds|].f, colors), m, m.(physical := true),
                       st);
    }
  }

  /** Whatever was split and spilled on the way, in any order, the physical code behaves like the
      virtual code the allocator was given. */
  lemma AllocatorPreservesBehaviour(states: seq<Snapshot>, rounds: seq<Round>, t: Allocation.Typing,
                                    colors: map<nat, nat>, liveIn: seq<set<nat>>, liveOut: seq<set<nat>>,
                                    m: Machine, st: State)
    requires Rounds(states, rounds) && Unspilled(states[0]) && !m.physical
    requires Succeeds(states[|rounds|].f, t, colors, liveIn, liveOut, st)
    ensures Executable(states[0].f) && Executable(Renaming.RewriteFunction(states[|rounds|].f, colors))
    ensures 0 < |states[0].f.blocks| == |states[|rounds|].f.blocks|
    ensures BehaveAlike(states[0].f, Renaming.RewriteFunction(states[|rounds|].f, colors), m, m.(physical := true), st)
  {
    var a := states[0];
    var slotsOut := seq(|a.f.blocks|, _ => {});
    UnspilledIsSound(a);
    SoundRoundsBehave(states, rounds, slotsOut, LiveEnds(a.f), t, colors, liveIn, liveOut, m, st);
  }

  lemma {:induction false} RoundsKeepTyped(states: seq<Snapshot>, rounds: seq<Round>, slotsOut: seq<set<nat>>,
                                           liveOut: seq<set<nat>>)
    requires Rounds(states, rounds) && Sound(states[0], slotsOut, liveOut) && Colorable(states[0])
    ensures Colorable(states[|rounds|])
    decreases |rounds|
  {
    hide Sound, Colorable, Advances;
    if rounds != [] {
      var nextSlotsOut, nextLiveOut := RoundKeepsTyped(states[0], slotsOut, liveOut, rounds[0], states[1]);
      RoundsKeepTyped(states[1..], rounds[1..], nextSlotsOut, nextLiveOut);
    }
  }

  /** Initial contents of the slots: 128-bit values only where there is room for them. */
  ghost predicate SlotsFit(st: State, wideSlots: set<nat>) {
    forall s: nat :: s !in wideSlots ==> st.slots(s).Scalar?
  }

  /** The physical code behaves like the code the allocator was given, from every state. */
  ghost predicate Allocated(f: Function, g: Function, wideSlots: set<nat>) {
    && Executable(f) && Executable(g) && f.blocks != [] && g.blocks != []
    && forall m: Machine, st: State {:trigger BehaveAlike(f, g, m, m.(physical := true), st)} ::
         !m.physical && SlotsFit(st, wideSlots) ==> BehaveAlike(f, g, m, m.(physical := true), st)
  }

  /** The round after the repairs: it may always start, and when it colors everything the allocator is done. */
  method FinishAllocation(ghost states: seq<Snapshot>, ghost rounds: seq<Round>, a: Snapshot, intervals: seq<Interval>,
                          cls: map<nat, RegClass>, preferCallerSaved: bool,
                          groups: seq<seq<ParallelCopies.GroupCopy>>, fixed: map<nat, set<nat>>, extra: seq<(nat, nat)>,
                          ties: Ties, hints: map<nat, seq<nat>>, affinities: map<nat, seq<Affinity>>,
                          copies: seq<AffinityEdge>)
    returns (ok: bool, colors: map<nat, nat>, spills: seq<nat>)
    requires Rounds(states, rounds) && Unspilled(states[0]) && Colorable(states[0]) && a == states[|rounds|]
    requires Listed(a, intervals) && cls == InUse(a).cls
    requires RegAlloc.BankSafe(InUse(a), ties, hints, affinities, copies) && ColoringRound.GroupsKnown(groups, cls)
    ensures ok <==> spills == []
    ensures ok ==> Allocated(states[0].f, Renaming.RewriteFunction(a.f, colors), a.typing.wideSlots)
    ensures ok ==> forall items :: ColoringRound.HoldsGroups(items, groups, colors) ==> CopyGroups.GroupsOrdered(items)
  {
    ghost var first := states[0];
    UnspilledIsSound(first);
    RoundsKeepTyped(states, rounds, seq(|first.f.blocks|, _ => {}), LiveEnds(first.f));
    ReadyToColor(a, intervals);
    ghost var t := InUse(a);
    hide Rounds, Unspilled, Colorable, Listed, RegAlloc.Known, RegAlloc.BankSafe, ColoringRound.GroupsKnown,
      Allocation.ProperAllocation, Liveness.ExactAtBlockEnds, Liveness.NoShadowedReads, ColoringRound.AllOrdered,
      ColoringRound.HoldsGroups, CopyGroups.GroupsOrdered;
    ghost var liveIn, liveOut;
    ok, colors, spills, liveIn, liveOut :=
      ColoringRound.ColorRound(a.f, intervals, t, cls, preferCallerSaved, groups, fixed, extra, ties, hints,
                               affinities, copies);
    if ok { FinishedBehaves(states, rounds, t, colors, liveIn, liveOut); }
  }

  lemma FinishedBehaves(states: seq<Snapshot>, rounds: seq<Round>, t: Allocation.Typing, colors: map<nat, nat>,
                        liveIn: seq<set<nat>>, liveOut: seq<set<nat>>)
    requires Rounds(states, rounds) && Unspilled(states[0])
    requires ValidFunction(states[|rounds|].f)
    requires Allocation.ProperAllocation(states[|rounds|].f, t, colors, liveOut)
    requires Liveness.ExactAtBlockEnds(states[|rounds|].f, liveIn, liveOut)
    ensures Allocated(states[0].f, Renaming.RewriteFunction(states[|rounds|].f, colors), t.wideSlots)
  {
    var f, g := states[0].f, Renaming.RewriteFunction(states[|rounds|].f, colors);
    hide Rounds, Unspilled, Allocation.ProperAllocation, Liveness.ExactAtBlockEnds, BehaveAlike, Executable;
    var plain := Machine((_, _) => 0, _ => 0, (_, _) => Scalar(0), false);
    var zero := State(_ => Scalar(0), _ => Scalar(0), []);
    AllocatorPreservesBehaviour(states, rounds, t, colors, liveIn, liveOut, plain, zero);
    forall m: Machine, st: State | !m.physical && SlotsFit(st, t.wideSlots)
      ensures BehaveAlike(f, g, m, m.(physical := true), st)
    {
      AllocatorPreservesBehaviour(states, rounds, t, colors, liveIn, liveOut, m, st);
    }
  }
}
