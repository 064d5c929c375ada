/** What every repair round of the allocator leaves intact: each spill slot belongs to one register,
    which alone stores to it and is never defined while its content is still to be read.  So a
    register whose range was split through a slot can be spilled to the same slot later. */
module RepairInvariant {
  import opened Target
  import opened Dataflow
  import opened MachineIR
  import opened Spilling
  import opened SpillPass
  import opened GapSplit
  import opened RepairTraffic
  import opened SplitTraffic
  import Allocation

  /** The allocator between two rounds: the function with its register table and the slots of 16 bytes,
      the slots of registers, and the divided registers, which are never split again. */
  datatype Snapshot = Snapshot(f: Function, typing: Allocation.Typing, slots: map<nat, nat>, nextSlot: nat,
                               divided: set<nat>)

  ghost predicate Occurs(f: Function, r: nat) {
    exists b, i :: 0 <= b < |f.blocks| && 0 <= i < |f.blocks[b].instrs| && Names(f.blocks[b].instrs[i], r)
  }

  // ----- The invariant -----

  ghost predicate RegAtStart(f: Function, liveOut: seq<set<nat>>, b: nat, r: nat)
    requires b < |f.blocks| == |liveOut|
  {
    RegLive(f.blocks[b].instrs, r, r in liveOut[b])
  }

  ghost predicate SlotAtStart(f: Function, slotsOut: seq<set<nat>>, b: nat, s: nat)
    requires b < |f.blocks| == |slotsOut|
  {
    SlotLive(f.blocks[b].instrs, s, s in slotsOut[b])
  }

  /** Sets closed under control flow, with no register waited for on entry. */
  ghost predicate RegsFlow(f: Function, liveOut: seq<set<nat>>) {
    && |liveOut| == |f.blocks|
    && (forall b, t, r: nat :: 0 <= b < |f.blocks| && t in f.blocks[b].succs && t < |f.blocks| ==>
          RegAtStart(f, liveOut, t, r) ==> r in liveOut[b])
    && (forall r: nat :: f.blocks != [] ==> !RegAtStart(f, liveOut, 0, r))
  }

  ghost predicate SlotsFlow(f: Function, slotsOut: seq<set<nat>>) {
    && |slotsOut| == |f.blocks|
    && (forall b, t, s: nat :: 0 <= b < |f.blocks| && t in f.blocks[b].succs && t < |f.blocks| ==>
          SlotAtStart(f, slotsOut, t, s) ==> s in slotsOut[b])
  }

  ghost predicate SlotsBelow(f: Function, slotsOut: seq<set<nat>>, nextSlot: nat) {
    && (forall b, i, s: nat :: 0 <= b < |f.blocks| && 0 <= i < |f.blocks[b].instrs| ==>
          TouchesSlot(f.blocks[b].instrs[i], s) ==> s < nextSlot)
    && (forall b, s :: 0 <= b < |slotsOut| && s in slotsOut[b] ==> s < nextSlot)
  }

  ghost predicate Owns(f: Function, slotsOut: seq<set<nat>>, r: nat, s: nat) {
    |slotsOut| == |f.blocks|
    && forall b {:trigger f.blocks[b]} :: 0 <= b < |f.blocks| ==> OwnedIn(f.blocks[b].instrs, r, s, s in slotsOut[b])
  }

  ghost predicate Sound(a: Snapshot, slotsOut: seq<set<nat>>, liveOut: seq<set<nat>>) {
    && Executable(a.f) && a.f.blocks != [] && SlotsDistinct(a.slots, a.nextSlot)
    && SlotsBelow(a.f, slotsOut, a.nextSlot) && SlotsFlow(a.f, slotsOut) && RegsFlow(a.f, liveOut)
    && (forall r :: r in a.slots && Occurs(a.f, r) ==> r in a.divided && Owns(a.f, slotsOut, r, a.slots[r]))
  }

  lemma SoundParts(a: Snapshot, slotsOut: seq<set<nat>>, liveOut: seq<set<nat>>)
    requires Sound(a, slotsOut, liveOut)
    ensures Executable(a.f) && a.f.blocks != [] && RegsFlow(a.f, liveOut)
  {
  }

  // ----- The rounds -----

  datatype Round =
    | SpillAll(homes: Homes, recipes: map<nat, int>, cls: map<nat, RegClass>, base: nat)
    | SplitOne(plan: Plan, sibling: nat, definition: nat)

  /** Registers from base on are new. */
  ghost predicate Fresh(a: Snapshot, base: nat) {
    0 < base && forall r: nat :: Occurs(a.f, r) || r in a.slots || r in a.typing.cls ==> r < base
  }

  /** A new slot is as wide as the register's class. */
  function Widened(wide: set<nat>, homes: Homes, cls: map<nat, RegClass>): set<nat> {
    wide + set r | r in homes && homes[r].Slot? && r in cls && cls[r] == NEON128 :: homes[r].slot
  }

  ghost predicate Spills(a: Snapshot, homes: Homes, recipes: map<nat, int>, cls: map<nat, RegClass>, base: nat,
                         b: Snapshot) {
    && FunctionClassified(a.f, homes, cls) && Fresh(a, base) && Separate(homes) && homes.Keys <= cls.Keys
    && (forall r :: r in homes ==> Occurs(a.f, r))
    && (forall r :: r in recipes ==> OnlyDefinition(a.f, r, recipes[r]))
    && HomesAssigned(homes, recipes, a.slots, a.nextSlot, b.slots, b.nextSlot)
    && Spilled(a.f, homes, cls, base, b.f) && b.divided == a.divided
    && cls == a.typing.cls && Grows(cls, b.typing.cls, base)
    && (exists next: nat :: FunctionRecorded(b.f, base, next, b.typing.cls))
    && b.typing.wideSlots == Widened(a.typing.wideSlots, homes, cls)
  }

  /** The slot of a split register is its old one, if it has one. */
  ghost predicate SlotChosen(a: Snapshot, plan: Plan, b: Snapshot) {
    match plan.home
    case Recipe(_) => b.slots == a.slots && b.nextSlot == a.nextSlot
    case Slot(s) =>
      if plan.parent in a.slots then s == a.slots[plan.parent] && b.slots == a.slots && b.nextSlot == a.nextSlot
      else s == a.nextSlot && b.slots == a.slots[plan.parent := s] && b.nextSlot == s + 1
  }

  ghost predicate Splits(a: Snapshot, plan: Plan, sibling: nat, definition: nat, b: Snapshot) {
    && PlanFits(a.f, plan, sibling, definition) && plan.parent !in a.divided && sibling !in a.slots
    && Split(a.f, plan, sibling, b.f) && SlotChosen(a, plan, b) && b.divided == a.divided + {plan.parent, sibling}
    && plan.parent in a.typing.cls && a.typing.cls[plan.parent] == plan.cls && sibling !in a.typing.cls && sibling != 0
    && b.typing.cls == a.typing.cls[sibling := plan.cls]
    && b.typing.wideSlots == Widened(a.typing.wideSlots, map[plan.parent := plan.home], a.typing.cls)
  }

  ghost predicate Advances(a: Snapshot, r: Round, b: Snapshot) {
    match r
    case SpillAll(homes, recipes, cls, base) => Spills(a, homes, recipes, cls, base, b)
    case SplitOne(plan, sibling, definition) => Splits(a, plan, sibling, definition, b)
  }

  // ----- A spill round -----

  /** Registers below base that are not gone. */
  function Remaining(liveOut: seq<set<nat>>, base: nat, gone: set<nat>): (kept: seq<set<nat>>)
    ensures |kept| == |liveOut|
    ensures forall b :: 0 <= b < |liveOut| ==> forall r :: r in kept[b] <==> r in liveOut[b] && r < base && r !in gone
  {
    seq(|liveOut|, b requires 0 <= b < |liveOut| => set r | r in liveOut[b] && r < base && r !in gone)
  }

  lemma NotNamed(f: Function, b: nat, r: nat, after: bool)
    requires b < |f.blocks| && !Occurs(f, r)
    ensures RegLive(f.blocks[b].instrs, r, after) == after
  {
    forall i | 0 <= i < |f.blocks[b].instrs| ensures !Names(f.blocks[b].instrs[i], r) {
    }
    RegUntouched(f.blocks[b].instrs, r, after);
  }

  lemma KeptBelow(a: Snapshot, liveOut: seq<set<nat>>, base: nat, b: nat, r: nat)
    requires |liveOut| == |a.f.blocks| && b < |a.f.blocks| && Fresh(a, base)
    ensures RegAtStart(a.f, Remaining(liveOut, base, {}), b, r) <==> r < base && RegAtStart(a.f, liveOut, b, r)
  {
    if r >= base { NotNamed(a.f, b, r, false); }
  }

  lemma LiveBeforeIs(instrs: seq<Instr>, out: set<nat>, r: nat)
    ensures r in LiveBefore(Accesses(instrs), out) <==> RegLive(instrs, r, r in out)
  {
    LiveThroughIs(Accesses(instrs), out, r);
  }

  lemma SlotBeforeIs(instrs: seq<Instr>, out: set<nat>, s: nat)
    ensures s in LiveBefore(SlotTraffics(instrs), out) <==> SlotLive(instrs, s, s in out)
  {
    LiveThroughIs(SlotTraffics(instrs), out, s);
  }

  lemma KeptCloses(a: Snapshot, slotsOut: seq<set<nat>>, liveOut: seq<set<nat>>, base: nat)
    requires Sound(a, slotsOut, liveOut) && Fresh(a, base)
    ensures LiveClosed(a.f, Remaining(liveOut, base, {}), base)
    ensures LiveBefore(Accesses(a.f.blocks[0].instrs), Remaining(liveOut, base, {})[0]) == {}
  {
    hide RegLive, LiveBefore;
    var f, kept := a.f, Remaining(liveOut, base, {});
    forall b, t, r | 0 <= b < |f.blocks| && t in f.blocks[b].succs && t < |f.blocks|
                     && r in LiveBefore(Accesses(f.blocks[t].instrs), kept[t])
      ensures r in kept[b]
    {
      LiveBeforeIs(f.blocks[t].instrs, kept[t], r);
      KeptBelow(a, liveOut, base, t, r);
      assert RegAtStart(f, liveOut, t, r);
    }
    forall r: nat ensures r !in LiveBefore(Accesses(f.blocks[0].instrs), kept[0]) {
      LiveBeforeIs(f.blocks[0].instrs, kept[0], r);
      KeptBelow(a, liveOut, base, 0, r);
      assert !RegAtStart(f, liveOut, 0, r);
    }
  }

  lemma SoundClosesSlots(a: Snapshot, slotsOut: seq<set<nat>>, liveOut: seq<set<nat>>)
    requires Sound(a, slotsOut, liveOut)
    ensures SlotsClosed(a.f, slotsOut)
  {
    hide SlotLive, LiveBefore;
    var f := a.f;
    forall b, t, s | 0 <= b < |f.blocks| && t in f.blocks[b].succs && t < |f.blocks|
                     && s in LiveBefore(SlotTraffics(f.blocks[t].instrs), slotsOut[t])
      ensures s in slotsOut[b]
    {
      SlotBeforeIs(f.blocks[t].instrs, slotsOut[t], s);
      assert SlotAtStart(f, slotsOut, t, s);
    }
  }

  /** A home is either an old slot, owned by its register, or one no instruction knows. */
  lemma HomeOwned(a: Snapshot, slotsOut: seq<set<nat>>, liveOut: seq<set<nat>>, homes: Homes, recipes: map<nat, int>,
                  cls: map<nat, RegClass>, base: nat, b: Snapshot, r: nat, k: nat, i: nat)
    requires Sound(a, slotsOut, liveOut) && Spills(a, homes, recipes, cls, base, b)
    requires r in homes && homes[r].Slot? && k < |a.f.blocks| && i < |a.f.blocks[k].instrs|
    ensures var instrs := a.f.blocks[k].instrs;
            HeadOwned(instrs[i], r, homes[r].slot,
                      SlotLive(instrs[i + 1..], homes[r].slot, homes[r].slot in slotsOut[k]))
  {
    var instrs, s := a.f.blocks[k].instrs, homes[r].slot;
    if r in a.slots {
      assert Owns(a.f, slotsOut, r, s);
      OwnedAt(instrs, r, s, s in slotsOut[k], i);
    } else {
      assert !TouchesSlot(instrs[i], s);
      var rest := instrs[i + 1..];
      forall j | 0 <= j < |rest| ensures !TouchesSlot(rest[j], s) {
      }
      SlotUntouched(rest, s, s in slotsOut[k]);
    }
  }

  lemma SafeInstr(a: Snapshot, slotsOut: seq<set<nat>>, liveOut: seq<set<nat>>, homes: Homes, recipes: map<nat, int>,
                  cls: map<nat, RegClass>, base: nat, b: Snapshot, k: nat, i: nat)
    requires Sound(a, slotsOut, liveOut) && Spills(a, homes, recipes, cls, base, b)
    requires k < |a.f.blocks| && i < |a.f.blocks[k].instrs|
    ensures var instrs := a.f.blocks[k].instrs;
            SpillSafe(instrs[i], homes, base, SlotsAt(instrs, i + 1, slotsOut[k]))
  {
    var instrs := a.f.blocks[k].instrs;
    var ins, after := instrs[i], SlotsAt(instrs, i + 1, slotsOut[k]);
    forall s | ins.op == SPILL_STORE(s) && IsHomeSlot(homes, s) ensures StoresItsOwn(ins, homes, s) {
      var r :| r in homes && homes[r] == Slot(s);
      HomeOwned(a, slotsOut, liveOut, homes, recipes, cls, base, b, r, k, i);
    }
    forall d | d in DefRegs(ins) && d in homes && homes[d].Slot? ensures homes[d].slot !in after {
      HomeOwned(a, slotsOut, liveOut, homes, recipes, cls, base, b, d, k, i);
      SlotBeforeIs(instrs[i + 1..], slotsOut[k], homes[d].slot);
    }
    forall d | d in DefRegs(ins) ensures d < base {
      assert Names(ins, d);
    }
    forall d | d in DefRegs(ins) && d in homes && homes[d].Recipe? ensures DefinesConstant(ins, d, homes[d].value) {
      UniqueDefinitionDecides(a.f, d, recipes[d]);
    }
  }

  lemma SpillableNow(a: Snapshot, slotsOut: seq<set<nat>>, liveOut: seq<set<nat>>, homes: Homes, recipes: map<nat, int>,
                     cls: map<nat, RegClass>, base: nat, b: Snapshot)
    requires Sound(a, slotsOut, liveOut) && Spills(a, homes, recipes, cls, base, b)
    ensures Spillable(a.f, homes, cls, base, slotsOut)
  {
    hide SpillSafe, SlotsAt;
    SoundClosesSlots(a, slotsOut, liveOut);
    forall k, i | 0 <= k < |a.f.blocks| && 0 <= i < |a.f.blocks[k].instrs|
      ensures SpillSafe(a.f.blocks[k].instrs[i], homes, base, SlotsAt(a.f.blocks[k].instrs, i + 1, slotsOut[k]))
      ensures forall r :: r in UseRegs(a.f.blocks[k].instrs[i]) ==> r < base
    {
      SafeInstr(a, slotsOut, liveOut, homes, recipes, cls, base, b, k, i);
      assert forall r :: r in UseRegs(a.f.blocks[k].instrs[i]) ==> Names(a.f.blocks[k].instrs[i], r);
    }
  }

  /** Homes in slots count as waited for everywhere. */
  function WithHomes(slotsOut: seq<set<nat>>, homes: Homes): (out: seq<set<nat>>)
    ensures |out| == |slotsOut|
    ensures forall b :: 0 <= b < |out| ==> forall s: nat :: s in out[b] <==> s in slotsOut[b] || IsHomeSlot(homes, s)
  {
    seq(|slotsOut|, b requires 0 <= b < |slotsOut| => slotsOut[b] + set r | r in homes && homes[r].Slot? ::
        homes[r].slot)
  }

  lemma SpilledPieces(a: Snapshot, homes: Homes, recipes: map<nat, int>, cls: map<nat, RegClass>, base: nat,
                      b: Snapshot,
                      k: nat) returns (pieces: seq<seq<Instr>>)
    requires Spills(a, homes, recipes, cls, base, b) && k < |a.f.blocks|
    ensures |b.f.blocks| == |a.f.blocks| && b.f.blocks[k].succs == a.f.blocks[k].succs
    ensures Pieces(a.f.blocks[k].instrs, homes, base, pieces) && Flatten(pieces) == b.f.blocks[k].instrs
  {
    hide BlockExpands, Pieces;
    var instrs := a.f.blocks[k].instrs;
    forall i | 0 <= i < |instrs| ensures NamesBelow(instrs[i], base) {
      assert forall r :: r in UseRegs(instrs[i]) || r in DefRegs(instrs[i]) ==> Names(instrs[i], r);
    }
    assert BlockExpands(instrs, homes, cls, base, b.f.blocks[k].instrs);
    BlockIsPieces(instrs, homes, cls, base, b.f.blocks[k].instrs);
    pieces :| Pieces(instrs, homes, base, pieces) && Flatten(pieces) == b.f.blocks[k].instrs;
  }

  /** What the spilled function still names below base it named before, and it is not spilled. */
  lemma SpilledNames(a: Snapshot, homes: Homes, recipes: map<nat, int>, cls: map<nat, RegClass>, base: nat, b: Snapshot,
                     r: nat)
    requires Spills(a, homes, recipes, cls, base, b) && Occurs(b.f, r) && r < base
    ensures Occurs(a.f, r) && r !in homes
  {
    var k, i :| 0 <= k < |b.f.blocks| && 0 <= i < |b.f.blocks[k].instrs| && Names(b.f.blocks[k].instrs[i], r);
    var pieces := SpilledPieces(a, homes, recipes, cls, base, b, k);
    var j := FlatNames(a.f.blocks[k].instrs, homes, base, pieces, i);
  }

  lemma SpilledSlots(a: Snapshot, homes: Homes, recipes: map<nat, int>, cls: map<nat, RegClass>, base: nat, b: Snapshot,
                     k: nat, i: nat, s: nat)
    requires Spills(a, homes, recipes, cls, base, b) && k < |b.f.blocks| && i < |b.f.blocks[k].instrs|
    requires TouchesSlot(b.f.blocks[k].instrs[i], s)
    ensures k < |a.f.blocks| && (IsHomeSlot(homes, s)
                                 || exists j ::
                                   0 <= j < |a.f.blocks[k].instrs| && TouchesSlot(a.f.blocks[k].instrs[j], s))
  {
    var pieces := SpilledPieces(a, homes, recipes, cls, base, b, k);
    var j := FlatNames(a.f.blocks[k].instrs, homes, base, pieces, i);
  }

  /** Registers: what was waited for still is, and the temporaries are not. */
  lemma SpilledRegs(a: Snapshot, liveOut: seq<set<nat>>, homes: Homes, recipes: map<nat, int>, cls: map<nat, RegClass>,
                    base: nat, b: Snapshot, k: nat, r: nat)
    requires Spills(a, homes, recipes, cls, base, b) && k < |a.f.blocks| == |liveOut|
    ensures |b.f.blocks| == |a.f.blocks|
    ensures RegAtStart(b.f, Remaining(liveOut, base, homes.Keys), k, r) <==>
            r < base && r !in homes && RegAtStart(a.f, liveOut, k, r)
  {
    var pieces := SpilledPieces(a, homes, recipes, cls, base, b, k);
    if r < base && r !in homes {
      FlatRegs(a.f.blocks[k].instrs, homes, base, pieces, r, r in liveOut[k]);
    } else {
      FlatTemporaries(a.f.blocks[k].instrs, homes, base, pieces, r);
    }
  }

  lemma SpilledSlotLive(a: Snapshot, slotsOut: seq<set<nat>>, homes: Homes, recipes: map<nat, int>,
                        cls: map<nat, RegClass>, base: nat, b: Snapshot, k: nat, s: nat)
    requires Spills(a, homes, recipes, cls, base, b) && k < |a.f.blocks| == |slotsOut| && !IsHomeSlot(homes, s)
    ensures |b.f.blocks| == |a.f.blocks|
    ensures SlotAtStart(b.f, WithHomes(slotsOut, homes), k, s) <==> SlotAtStart(a.f, slotsOut, k, s)
  {
    var pieces := SpilledPieces(a, homes, recipes, cls, base, b, k);
    FlatSlots(a.f.blocks[k].instrs, homes, base, pieces, s, s in slotsOut[k]);
  }

  /** A register that keeps its name keeps its slot, and that slot is nobody's new home. */
  lemma OwnerStays(a: Snapshot, slotsOut: seq<set<nat>>, liveOut: seq<set<nat>>, homes: Homes, recipes: map<nat, int>,
                   cls: map<nat, RegClass>, base: nat, b: Snapshot, r: nat)
    requires Sound(a, slotsOut, liveOut) && Spills(a, homes, recipes, cls, base, b)
    requires r in b.slots && Occurs(b.f, r)
    ensures r < base && r !in homes && r in a.slots && a.slots[r] == b.slots[r] && r in b.divided
    ensures !IsHomeSlot(homes, b.slots[r]) && Owns(a.f, slotsOut, r, b.slots[r])
  {
    hide Spilled, FunctionClassified, Owns, SlotsFlow, RegsFlow, SlotsBelow, Executable, Separate;
    assert r < base by {
      if r in homes { assert Occurs(a.f, r); }
    }
    SpilledNames(a, homes, recipes, cls, base, b, r);
  }

  lemma SpilledOwner(a: Snapshot, slotsOut: seq<set<nat>>, liveOut: seq<set<nat>>, homes: Homes, recipes: map<nat, int>,
                     cls: map<nat, RegClass>, base: nat, b: Snapshot, r: nat)
    requires Sound(a, slotsOut, liveOut) && Spills(a, homes, recipes, cls, base, b)
    requires r in b.slots && Occurs(b.f, r)
    ensures r in b.divided && Owns(b.f, WithHomes(slotsOut, homes), r, b.slots[r])
  {
    OwnerStays(a, slotsOut, liveOut, homes, recipes, cls, base, b, r);
    hide Sound, Spills, OwnedIn, IsHomeSlot, Occurs, Pieces, Flatten;
    var s, out := b.slots[r], WithHomes(slotsOut, homes);
    SoundParts(a, slotsOut, liveOut);
    var _ := SpilledPieces(a, homes, recipes, cls, base, b, 0);
    forall k | 0 <= k < |b.f.blocks| ensures OwnedIn(b.f.blocks[k].instrs, r, s, s in out[k]) {
      var pieces := SpilledPieces(a, homes, recipes, cls, base, b, k);
      assert OwnedIn(a.f.blocks[k].instrs, r, s, s in slotsOut[k]);
      FlatOwned(a.f.blocks[k].instrs, homes, base, pieces, r, s, s in slotsOut[k]);
    }
  }

  lemma SpillKeepsFlows(a: Snapshot, slotsOut: seq<set<nat>>, liveOut: seq<set<nat>>, homes: Homes,
                        recipes: map<nat, int>, cls: map<nat, RegClass>, base: nat, b: Snapshot)
    requires Sound(a, slotsOut, liveOut) && Spills(a, homes, recipes, cls, base, b)
    ensures SlotsFlow(b.f, WithHomes(slotsOut, homes)) && RegsFlow(b.f, Remaining(liveOut, base, homes.Keys))
  {
    hide RegAtStart, SlotAtStart, IsHomeSlot, FunctionClassified, Fresh, HomesAssigned, BlockExpands;
    var f, g, out, kept := a.f, b.f, WithHomes(slotsOut, homes), Remaining(liveOut, base, homes.Keys);
    assert |f.blocks| == |g.blocks| && forall k :: 0 <= k < |f.blocks| ==> g.blocks[k].succs == f.blocks[k].succs;
    forall k, t, s: nat | 0 <= k < |g.blocks| && t in g.blocks[k].succs && t < |g.blocks| && SlotAtStart(g, out, t, s)
      ensures s in out[k]
    {
      if !IsHomeSlot(homes, s) { SpilledSlotLive(a, slotsOut, homes, recipes, cls, base, b, t, s); }
    }
    forall k, t, r: nat | 0 <= k < |g.blocks| && t in g.blocks[k].succs && t < |g.blocks| && RegAtStart(g, kept, t, r)
      ensures r in kept[k]
    {
      SpilledRegs(a, liveOut, homes, recipes, cls, base, b, t, r);
    }
    forall r: nat ensures !RegAtStart(g, kept, 0, r) {
      SpilledRegs(a, liveOut, homes, recipes, cls, base, b, 0, r);
    }
  }

  lemma SpillKeepsBound(a: Snapshot, slotsOut: seq<set<nat>>, liveOut: seq<set<nat>>, homes: Homes,
                        recipes: map<nat, int>, cls: map<nat, RegClass>, base: nat, b: Snapshot)
    requires Sound(a, slotsOut, liveOut) && Spills(a, homes, recipes, cls, base, b)
    ensures SlotsBelow(b.f, WithHomes(slotsOut, homes), b.nextSlot)
  {
    hide Spilled, FunctionClassified, SlotsFlow, RegsFlow, Executable, Separate, Owns;
    assert forall s: nat :: IsHomeSlot(homes, s) ==> s < b.nextSlot;
    forall k, i, s: nat | 0 <= k < |b.f.blocks| && 0 <= i < |b.f.blocks[k].instrs|
      && TouchesSlot(b.f.blocks[k].instrs[i], s)
      ensures s < b.nextSlot
    {
      SpilledSlots(a, homes, recipes, cls, base, b, k, i, s);
    }
  }

  lemma SpillKeepsSound(a: Snapshot, slotsOut: seq<set<nat>>, liveOut: seq<set<nat>>, homes: Homes,
                        recipes: map<nat, int>, cls: map<nat, RegClass>, base: nat, b: Snapshot)
    requires Sound(a, slotsOut, liveOut) && Spills(a, homes, recipes, cls, base, b)
    ensures Sound(b, WithHomes(slotsOut, homes), Remaining(liveOut, base, homes.Keys))
  {
    hide SlotsFlow, RegsFlow, SlotsBelow, Owns, FunctionClassified, BlockExpands, Executable;
    SpillableNow(a, slotsOut, liveOut, homes, recipes, cls, base, b);
    SpilledExecutable(a.f, homes, cls, base, slotsOut, b.f);
    SpillKeepsFlows(a, slotsOut, liveOut, homes, recipes, cls, base, b);
    SpillKeepsBound(a, slotsOut, liveOut, homes, recipes, cls, base, b);
    forall r | r in b.slots && Occurs(b.f, r)
      ensures r in b.divided && Owns(b.f, WithHomes(slotsOut, homes), r, b.slots[r])
    {
      SpilledOwner(a, slotsOut, liveOut, homes, recipes, cls, base, b, r);
    }
  }

  // ----- A split round -----

  /** The split register has no slot yet: it still occurs, and only divided registers that do have one. */
  lemma ParentNew(a: Snapshot, slotsOut: seq<set<nat>>, liveOut: seq<set<nat>>, plan: Plan, sibling: nat,
                  definition: nat, b: Snapshot)
    requires Sound(a, slotsOut, liveOut) && Splits(a, plan, sibling, definition, b)
    ensures Occurs(a.f, plan.parent) && plan.parent !in a.slots && !Occurs(a.f, sibling)
    ensures plan.home.Slot? ==> plan.home.slot == a.nextSlot && b.slots == a.slots[plan.parent := a.nextSlot]
    ensures SlotsDistinct(b.slots, b.nextSlot)
  {
    assert Names(a.f.blocks[plan.block].instrs[definition], plan.parent);
    if Occurs(a.f, sibling) {
      var k, i :| 0 <= k < |a.f.blocks| && 0 <= i < |a.f.blocks[k].instrs| && Names(a.f.blocks[k].instrs[i], sibling);
      Mentioned(a.f.blocks[k].instrs[i], sibling);
    }
  }

  lemma SplittableNow(a: Snapshot, slotsOut: seq<set<nat>>, liveOut: seq<set<nat>>, plan: Plan, sibling: nat,
                      definition: nat, b: Snapshot)
    requires Sound(a, slotsOut, liveOut) && Splits(a, plan, sibling, definition, b)
    ensures Splittable(a.f, plan, sibling, definition)
  {
    ParentNew(a, slotsOut, liveOut, plan, sibling, definition, b);
    forall k, i | 0 <= k < |a.f.blocks| && 0 <= i < |a.f.blocks[k].instrs|
      ensures Private(a.f.blocks[k].instrs[i], plan.home)
    {
      if plan.home.Slot? { assert !TouchesSlot(a.f.blocks[k].instrs[i], plan.home.slot); }
    }
  }

  function WithoutHalves(liveOut: seq<set<nat>>, plan: Plan, sibling: nat): (out: seq<set<nat>>)
    ensures |out| == |liveOut|
    ensures forall b :: 0 <= b < |out| ==> out[b] == liveOut[b] - {plan.parent, sibling}
  {
    seq(|liveOut|, b requires 0 <= b < |liveOut| => liveOut[b] - {plan.parent, sibling})
  }

  lemma HalvesElsewhere(a: Snapshot, plan: Plan, sibling: nat, definition: nat, b: Snapshot, k: nat, r: nat)
    requires Splits(a, plan, sibling, definition, b) && k < |a.f.blocks| && k != plan.block
    requires r == plan.parent || r == sibling
    ensures |b.f.blocks| == |a.f.blocks| && b.f.blocks[k] == a.f.blocks[k]
    ensures forall i :: 0 <= i < |a.f.blocks[k].instrs| ==> !Names(a.f.blocks[k].instrs[i], r)
  {
    forall i | 0 <= i < |a.f.blocks[k].instrs| ensures !Names(a.f.blocks[k].instrs[i], r) {
      Mentioned(a.f.blocks[k].instrs[i], r);
    }
  }

  lemma SplitRegsFlow(a: Snapshot, liveOut: seq<set<nat>>, plan: Plan, sibling: nat, definition: nat, b: Snapshot,
                      k: nat, r: nat)
    requires Splits(a, plan, sibling, definition, b) && k < |a.f.blocks| == |liveOut|
    ensures |b.f.blocks| == |a.f.blocks| && b.f.blocks[k].succs == a.f.blocks[k].succs
    ensures RegAtStart(b.f, WithoutHalves(liveOut, plan, sibling), k, r) <==>
            r != plan.parent && r != sibling && RegAtStart(a.f, liveOut, k, r)
  {
    var instrs := a.f.blocks[k].instrs;
    if k == plan.block {
      if r == plan.parent || r == sibling {
        SplitDead(a.f, plan, sibling, definition, r, false);
      } else {
        SplitRegs(instrs, plan, sibling, r, r in liveOut[k]);
      }
    } else {
      if r == plan.parent || r == sibling {
        HalvesElsewhere(a, plan, sibling, definition, b, k, r);
        RegUntouched(instrs, r, false);
      }
    }
  }

  lemma SplitSlotsFlow(a: Snapshot, slotsOut: seq<set<nat>>, liveOut: seq<set<nat>>, plan: Plan, sibling: nat,
                       definition: nat, b: Snapshot, k: nat, s: nat)
    requires Sound(a, slotsOut, liveOut) && Splits(a, plan, sibling, definition, b) && k < |a.f.blocks|
    ensures |b.f.blocks| == |a.f.blocks|
    ensures SlotAtStart(b.f, slotsOut, k, s) ==> SlotAtStart(a.f, slotsOut, k, s)
  {
    var instrs := a.f.blocks[k].instrs;
    if k == plan.block {
      if plan.home == Slot(s) {
        FreeOfNew(a, slotsOut, liveOut, plan, sibling, definition, b, k);
        NewSlot(a.f, plan, sibling, definition, s, s in slotsOut[k]);
      } else {
        SplitSlots(instrs, plan, sibling, s, s in slotsOut[k]);
      }
    }
  }

  lemma FreeOfNew(a: Snapshot, slotsOut: seq<set<nat>>, liveOut: seq<set<nat>>, plan: Plan, sibling: nat,
                  definition: nat, b: Snapshot, k: nat)
    requires Sound(a, slotsOut, liveOut) && Splits(a, plan, sibling, definition, b) && k < |a.f.blocks|
    requires plan.home.Slot?
    ensures SlotFree(a.f.blocks[k].instrs, plan.home.slot) && plan.home.slot !in slotsOut[k]
  {
    ParentNew(a, slotsOut, liveOut, plan, sibling, definition, b);
    forall i | 0 <= i < |a.f.blocks[k].instrs| ensures !TouchesSlot(a.f.blocks[k].instrs[i], plan.home.slot) {
    }
  }

  lemma SplitNamesAll(a: Snapshot, plan: Plan, sibling: nat, definition: nat, b: Snapshot, r: nat)
    requires Splits(a, plan, sibling, definition, b) && Occurs(b.f, r) && r != sibling
    ensures Occurs(a.f, r)
  {
    var k, i :| 0 <= k < |b.f.blocks| && 0 <= i < |b.f.blocks[k].instrs| && Names(b.f.blocks[k].instrs[i], r);
    if k == plan.block {
      var j := SplitNames(a.f, plan, sibling, definition, i);
    } else {
      assert b.f.blocks[k] == a.f.blocks[k];
    }
  }

  lemma SplitKeepsBound(a: Snapshot, slotsOut: seq<set<nat>>, liveOut: seq<set<nat>>, plan: Plan, sibling: nat,
                        definition: nat, b: Snapshot)
    requires Sound(a, slotsOut, liveOut) && Splits(a, plan, sibling, definition, b)
    ensures SlotsBelow(b.f, slotsOut, b.nextSlot)
  {
    ParentNew(a, slotsOut, liveOut, plan, sibling, definition, b);
    assert a.nextSlot <= b.nextSlot && (plan.home.Slot? ==> plan.home.slot < b.nextSlot);
    hide SplitInstrs, PlanFits, SlotsDistinct;
    forall k, i, s: nat | 0 <= k < |b.f.blocks| && 0 <= i < |b.f.blocks[k].instrs|
      && TouchesSlot(b.f.blocks[k].instrs[i], s)
      ensures s < b.nextSlot
    {
      if k == plan.block {
        var j := SplitNames(a.f, plan, sibling, definition, i);
      } else {
        assert b.f.blocks[k] == a.f.blocks[k];
      }
    }
  }

  /** Every owner keeps its slot, and the split register owns the new one. */
  lemma SplitOwner(a: Snapshot, slotsOut: seq<set<nat>>, liveOut: seq<set<nat>>, plan: Plan, sibling: nat,
                   definition: nat, b: Snapshot, r: nat)
    requires Sound(a, slotsOut, liveOut) && Splits(a, plan, sibling, definition, b)
    requires r in b.slots && Occurs(b.f, r)
    ensures r in b.divided && Owns(b.f, slotsOut, r, b.slots[r])
  {
    hide SplitInstrs, OwnedIn;
    ParentNew(a, slotsOut, liveOut, plan, sibling, definition, b);
    var s := b.slots[r];
    assert r != sibling;
    if r != plan.parent {
      SplitNamesAll(a, plan, sibling, definition, b, r);
      assert plan.home != Slot(s);
      assert Owns(a.f, slotsOut, r, s);
    }
    forall k | 0 <= k < |b.f.blocks| ensures OwnedIn(b.f.blocks[k].instrs, r, s, s in slotsOut[k]) {
      var instrs := a.f.blocks[k].instrs;
      if r == plan.parent {
        FreeOfNew(a, slotsOut, liveOut, plan, sibling, definition, b, k);
        if k == plan.block {
          NewSlot(a.f, plan, sibling, definition, s, s in slotsOut[k]);
        } else {
          HalvesElsewhere(a, plan, sibling, definition, b, k, r);
          OwnedUntouched(instrs, r, s, s in slotsOut[k]);
        }
      } else {
        assert OwnedIn(instrs, r, s, s in slotsOut[k]);
        if k == plan.block { SplitOwned(instrs, plan, sibling, r, s, s in slotsOut[k]); }
      }
    }
  }

  lemma SplitKeepsFlows(a: Snapshot, slotsOut: seq<set<nat>>, liveOut: seq<set<nat>>, plan: Plan, sibling: nat,
                        definition: nat, b: Snapshot)
    requires Sound(a, slotsOut, liveOut) && Splits(a, plan, sibling, definition, b)
    ensures SlotsFlow(b.f, slotsOut) && RegsFlow(b.f, WithoutHalves(liveOut, plan, sibling))
  {
    hide RegAtStart, SlotAtStart, SplitInstrs, PlanFits, SlotsBelow;
    var f, g, out := a.f, b.f, WithoutHalves(liveOut, plan, sibling);
    assert |f.blocks| == |g.blocks|;
    forall k, t, s: nat | 0 <= k < |g.blocks| && t in g.blocks[k].succs && t < |g.blocks|
      && SlotAtStart(g, slotsOut, t, s)
      ensures s in slotsOut[k]
    {
      SplitSlotsFlow(a, slotsOut, liveOut, plan, sibling, definition, b, t, s);
      assert g.blocks[k].succs == f.blocks[k].succs;
    }
    forall k, t, r: nat | 0 <= k < |g.blocks| && t in g.blocks[k].succs && t < |g.blocks| && RegAtStart(g, out, t, r)
      ensures r in out[k]
    {
      SplitRegsFlow(a, liveOut, plan, sibling, definition, b, t, r);
      assert g.blocks[k].succs == f.blocks[k].succs;
    }
    forall r: nat ensures !RegAtStart(g, out, 0, r) {
      SplitRegsFlow(a, liveOut, plan, sibling, definition, b, 0, r);
    }
  }

  lemma SplitKeepsSound(a: Snapshot, slotsOut: seq<set<nat>>, liveOut: seq<set<nat>>, plan: Plan, sibling: nat,
                        definition: nat, b: Snapshot)
    requires Sound(a, slotsOut, liveOut) && Splits(a, plan, sibling, definition, b)
    ensures Sound(b, slotsOut, WithoutHalves(liveOut, plan, sibling))
  {
    hide SlotsFlow, RegsFlow, SlotsBelow, Owns, Executable, PlanFits, SlotsDistinct, SlotChosen, Occurs, SplitInstrs;
    ParentNew(a, slotsOut, liveOut, plan, sibling, definition, b);
    SplittableNow(a, slotsOut, liveOut, plan, sibling, definition, b);
    var m := Machine((_, _) => 0, _ => 0, (_, _) => Scalar(0), false);
    SplitExecutable(a.f, plan, sibling, definition, b.f, m, State(_ => Scalar(0), _ => Scalar(0), []));
    SplitKeepsFlows(a, slotsOut, liveOut, plan, sibling, definition, b);
    SplitKeepsBound(a, slotsOut, liveOut, plan, sibling, definition, b);
    forall r | r in b.slots && Occurs(b.f, r) ensures r in b.divided && Owns(b.f, slotsOut, r, b.slots[r]) {
      SplitOwner(a, slotsOut, liveOut, plan, sibling, definition, b, r);
    }
  }

  /** A register split through a slot and spilled later gets the same slot, which the code between
      the two rounds already stores to. */
  lemma SplitThenSpilled(a: Snapshot, slotsOut: seq<set<nat>>, liveOut: seq<set<nat>>, plan: Plan, sibling: nat,
                         definition: nat, b: Snapshot, homes: Homes, recipes: map<nat, int>, cls: map<nat, RegClass>,
                         base: nat, c: Snapshot)
    requires Sound(a, slotsOut, liveOut) && Splits(a, plan, sibling, definition, b) && plan.home.Slot?
    requires Spills(b, homes, recipes, cls, base, c) && plan.parent in homes && plan.parent !in recipes
    ensures homes[plan.parent] == plan.home
    ensures b.f.blocks[plan.block].instrs[plan.left + 1].op == SPILL_STORE(plan.home.slot)
    ensures Spillable(b.f, homes, cls, base, slotsOut)
  {
    hide Spillable, Sound, FunctionClassified, Spilled, Separate, Fresh;
    ParentNew(a, slotsOut, liveOut, plan, sibling, definition, b);
    SaveRegs(plan);
    assert b.f.blocks[plan.block].instrs[plan.left + 1] == Saves(plan)[0];
    SplitKeepsSound(a, slotsOut, liveOut, plan, sibling, definition, b);
    SpillableNow(b, slotsOut, WithoutHalves(liveOut, plan, sibling), homes, recipes, cls, base, c);
  }

  // ----- One round, as the allocator runs it -----

  /** Operands of known registers carry the register's class. */
  ghost predicate Classed(f: Function, cls: map<nat, RegClass>) {
    && Executable(f)
    && (forall b, i, o :: 0 <= b < |f.blocks| && 0 <= i < |f.blocks[b].instrs| ==>
          o in f.blocks[b].instrs[i].operands && o.reg in cls ==> o.cls == cls[o.reg])
  }

  /** Recipes for what can be recomputed, slots for the rest, and the rewrite. */
  method SpillRound(a: Snapshot, spills: seq<nat>, base: nat, cost: int -> nat, reloadCost: nat)
    returns (b: Snapshot, homes: Homes, recipes: map<nat, int>)
    requires SlotsDistinct(a.slots, a.nextSlot) && Classed(a.f, a.typing.cls) && Fresh(a, base)
    requires forall r :: r in spills ==> r in a.typing.cls && Occurs(a.f, r)
    ensures Spills(a, homes, recipes, a.typing.cls, base, b) && homes.Keys == set r | r in spills
    ensures forall r :: r in recipes ==> 0 < cost(recipes[r]) < reloadCost
  {
    recipes := Analyze(a.f, spills, cost, reloadCost);
    var slots, nextSlot;
    homes, slots, nextSlot := AssignHomes(spills, recipes, a.slots, a.nextSlot);
    var cls := a.typing.cls;
    assert FunctionClassified(a.f, homes, cls);
    assert FunctionBelow(a.f, base) by { FreshIsBelow(a, base); }
    var g, next, classes := InsertSpills(a.f, homes, cls, base);
    assert FunctionRecorded(g, base, next, classes);
    b := Snapshot(g, Allocation.Typing(classes, Widened(a.typing.wideSlots, homes, cls)), slots, nextSlot, a.divided);
  }

  lemma FreshIsBelow(a: Snapshot, base: nat)
    requires Fresh(a, base)
    ensures FunctionBelow(a.f, base)
  {
    forall b, i, o | 0 <= b < |a.f.blocks| && 0 <= i < |a.f.blocks[b].instrs| && o in a.f.blocks[b].instrs[i].operands
      ensures o.reg < base
    {
      var ins := a.f.blocks[b].instrs[i];
      assert o.reg in UseRegs(ins) || o.reg in DefRegs(ins);
      assert Names(ins, o.reg) && Occurs(a.f, o.reg);
    }
  }

  /** The slot of the register if it has one, else a new one, and the edit. */
  method SplitRound(a: Snapshot, plan: Plan, sibling: nat, ghost definition: nat)
    returns (b: Snapshot, chosen: Plan, applied: bool)
    requires PlanFits(a.f, plan, sibling, definition) && plan.parent !in a.divided && sibling !in a.slots
    requires plan.parent in a.typing.cls && a.typing.cls[plan.parent] == plan.cls
    requires sibling !in a.typing.cls && sibling != 0
    ensures applied <==> plan.benefit > plan.cost
    ensures chosen == plan.(home := chosen.home) && (plan.home.Recipe? ==> chosen == plan)
    ensures if applied then Splits(a, chosen, sibling, definition, b) else b == a
  {
    var slots, nextSlot := a.slots, a.nextSlot;
    chosen := plan;
    if plan.home.Slot? {
      if plan.parent !in slots {
        slots, nextSlot := slots[plan.parent := nextSlot], nextSlot + 1;
      }
      chosen := plan.(home := Slot(slots[plan.parent]));
    }
    var g;
    g, applied := SplitLocalGap(a.f, chosen, sibling);
    if !applied { return a, chosen, applied; }
    var wide := Widened(a.typing.wideSlots, map[plan.parent := chosen.home], a.typing.cls);
    b := Snapshot(g, Allocation.Typing(a.typing.cls[sibling := plan.cls], wide), slots, nextSlot,
                  a.divided + {plan.parent, sibling});
  }

  // ----- Before the first round -----

  /** No spill code yet, and no path reads a register before it is written. */
  ghost predicate Unspilled(a: Snapshot) {
    && Executable(a.f) && a.f.blocks != [] && a.slots == map[]
    && (forall b, i, s: nat :: 0 <= b < |a.f.blocks| && 0 <= i < |a.f.blocks[b].instrs| ==>
          !TouchesSlot(a.f.blocks[b].instrs[i], s))
    && (forall r: nat :: !PathLive(FlowOf(a.f), 0, 0, r))
  }

  ghost function UsedRegs(f: Function): set<nat> {
    set b, i, r | 0 <= b < |f.blocks| && 0 <= i < |f.blocks[b].instrs| && r in UseRegs(f.blocks[b].instrs[i]) :: r
  }

  lemma {:induction false} LiveIsUsed(f: Function, b: nat, i: nat, r: nat, k: nat)
    requires ValidFunction(f) && b < |f.blocks| && i <= |f.blocks[b].instrs| && LiveWithin(FlowOf(f), b, i, r, k)
    ensures r in UsedRegs(f)
    decreases k
  {
    if i < |f.blocks[b].instrs| {
      if r !in UseRegs(f.blocks[b].instrs[i]) { LiveIsUsed(f, b, i + 1, r, k - 1); }
    } else {
      var s :| s in f.blocks[b].succs && LiveWithin(FlowOf(f), s, 0, r, k - 1);
      LiveIsUsed(f, s, 0, r, k - 1);
    }
  }

  /** The registers some path from the end of a block still reads. */
  ghost function LiveEnds(f: Function): (out: seq<set<nat>>)
    requires ValidFunction(f)
    ensures |out| == |f.blocks|
    ensures forall b, r :: 0 <= b < |f.blocks| ==>
              (r in out[b] <==> r in UsedRegs(f) && PathLive(FlowOf(f), b, |f.blocks[b].instrs|, r))
  {
    seq(|f.blocks|, b requires 0 <= b < |f.blocks| =>
      set r | r in UsedRegs(f) && PathLive(FlowOf(f), b, |f.blocks[b].instrs|, r))
  }

  lemma StartIsPath(f: Function, out: seq<set<nat>>, b: nat, r: nat)
    requires ValidFunction(f) && b < |f.blocks| == |out|
    requires r in out[b] <==> PathLive(FlowOf(f), b, |f.blocks[b].instrs|, r)
    ensures RegAtStart(f, out, b, r) <==> PathLive(FlowOf(f), b, 0, r)
  {
    var g := FlowOf(f);
    PathLiveUnfolds(g, b, |f.blocks[b].instrs|, r);
    assert g.blocks[b][0..] == Accesses(f.blocks[b].instrs);
    WalkIsExact(g, b, 0, out[b], r);
    LiveBeforeIs(f.blocks[b].instrs, out[b], r);
  }

  lemma EndsArePaths(f: Function, b: nat, r: nat)
    requires ValidFunction(f) && b < |f.blocks|
    ensures r in LiveEnds(f)[b] <==> PathLive(FlowOf(f), b, |f.blocks[b].instrs|, r)
  {
    if PathLive(FlowOf(f), b, |f.blocks[b].instrs|, r) {
      var k: nat :| LiveWithin(FlowOf(f), b, |f.blocks[b].instrs|, r, k);
      LiveIsUsed(f, b, |f.blocks[b].instrs|, r, k);
    }
  }

  lemma UnspilledIsSound(a: Snapshot)
    requires Unspilled(a)
    ensures Sound(a, seq(|a.f.blocks|, _ => {}), LiveEnds(a.f))
  {
    hide RegAtStart, PathLive;
    var f, slotsOut, liveOut := a.f, seq(|a.f.blocks|, _ => {}), LiveEnds(a.f);
    forall b, t, s: nat | 0 <= b < |f.blocks| && t in f.blocks[b].succs && t < |f.blocks|
      ensures !SlotAtStart(f, slotsOut, t, s) {
      forall i | 0 <= i < |f.blocks[t].instrs| ensures !TouchesSlot(f.blocks[t].instrs[i], s) {
      }
      SlotUntouched(f.blocks[t].instrs, s, false);
    }
    forall b, t, r: nat | 0 <= b < |f.blocks| && t in f.blocks[b].succs && t < |f.blocks|
      && RegAtStart(f, liveOut, t, r)
      ensures r in liveOut[b]
    {
      EndsArePaths(f, t, r);
      StartIsPath(f, liveOut, t, r);
      EndsArePaths(f, b, r);
      PathLiveUnfolds(FlowOf(f), b, |f.blocks[b].instrs|, r);
    }
    forall r: nat ensures !RegAtStart(f, liveOut, 0, r) {
      EndsArePaths(f, 0, r);
      StartIsPath(f, liveOut, 0, r);
    }
  }

  /** So exact liveness finds nothing waiting on entry, after any number of rounds. */
  lemma SoundEntry(f: Function, liveOut: seq<set<nat>>, exact: seq<set<nat>>)
    requires Executable(f) && f.blocks != [] && RegsFlow(f, liveOut) && |exact| == |f.blocks|
    requires forall r: nat :: r in exact[0] <==> PathLive(FlowOf(f), 0, |f.blocks[0].instrs|, r)
    ensures LiveBefore(Accesses(f.blocks[0].instrs), exact[0]) == {}
  {
    hide RegAtStart, LiveBefore, PathLive;
    var g := FlowOf(f);
    forall b, t | 0 <= b < |f.blocks| && t in f.blocks[b].succs
      ensures LiveBefore(g.blocks[t], liveOut[t]) <= liveOut[b] {
      forall r | r in LiveBefore(g.blocks[t], liveOut[t]) ensures r in liveOut[b] {
        StartIsLive(f, liveOut, t, r);
      }
    }
    forall r: nat ensures r !in LiveBefore(g.blocks[0], exact[0]) {
      StartIsLive(f, exact, 0, r);
      StartIsPath(f, exact, 0, r);
      StartIsLive(f, liveOut, 0, r);
      assert !RegAtStart(f, liveOut, 0, r);
      assert g.blocks[0][0..] == g.blocks[0];
      if PathLive(g, 0, 0, r) { ClosedContainsPath(g, liveOut, r); }
    }
  }

  lemma StartIsLive(f: Function, out: seq<set<nat>>, b: nat, r: nat)
    requires b < |f.blocks| == |out|
    ensures RegAtStart(f, out, b, r) <==> r in LiveBefore(Accesses(f.blocks[b].instrs), out[b])
  {
    LiveBeforeIs(f.blocks[b].instrs, out[b], r);
  }

  lemma ClosedContainsPath(g: Flow, out: seq<set<nat>>, r: nat)
    requires ValidFlow(g) && |out| == |g.blocks| > 0 && PathLive(g, 0, 0, r)
    requires forall a, s :: 0 <= a < |g.blocks| && s in g.succs[a] ==> LiveBefore(g.blocks[s], out[s]) <= out[a]
    ensures r in LiveBefore(g.blocks[0], out[0])
  {
    var k: nat :| LiveWithin(g, 0, 0, r, k);
    ClosedContainsLive(g, out, 0, 0, r, k);
    assert g.blocks[0][0..] == g.blocks[0];
  }
}
