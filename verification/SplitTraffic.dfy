/** Register and slot liveness across a local gap split. */
module SplitTraffic {
  import opened Target
  import opened Dataflow
  import opened MachineIR
  import opened Renaming
  import opened Spilling
  import opened GapSplit
  import opened RepairTraffic

  lemma ResumeRegs(plan: Plan, sibling: nat)
    ensures var code := Resumes(plan, sibling);
            |code| == 1 && UseRegs(code[0]) == {} && DefRegs(code[0]) == {sibling} && !code[0].op.SPILL_STORE?
            && forall s :: code[0].op == SPILL_LOAD(s) ==> plan.home == Slot(s)
  {
    assert Resumes(plan, sibling)[0].operands == [Operand(sibling, plan.cls, true)];
  }

  lemma SaveRegs(plan: Plan)
    ensures plan.home.Slot? ==>
      Saves(plan) == [Instr(SPILL_STORE(plan.home.slot), [Operand(plan.parent, plan.cls, false)])]
    ensures plan.home.Slot? ==> UseRegs(Saves(plan)[0]) == {plan.parent} && DefRegs(Saves(plan)[0]) == {}
    ensures plan.home.Recipe? ==> Saves(plan) == []
  {
    if plan.home.Slot? {
      var o, store := Operand(plan.parent, plan.cls, false), Saves(plan)[0];
      assert store.operands == [o];
      assert UseRegs(store) == {o.reg};
    }
  }

  lemma FiveRegs(a: seq<Instr>, b: seq<Instr>, c: seq<Instr>, d: seq<Instr>, e: seq<Instr>, r: nat, after: bool)
    ensures RegLive(a + b + c + d + e, r, after)
         == RegLive(a, r, RegLive(b, r, RegLive(c, r, RegLive(d, r, RegLive(e, r, after)))))
  {
    hide RegLive;
    RegLiveAppend(a + b + c + d, e, r, after);
    RegLiveAppend(a + b + c, d, r, RegLive(e, r, after));
    RegLiveAppend(a + b, c, r, RegLive(d, r, RegLive(e, r, after)));
    RegLiveAppend(a, b, r, RegLive(c, r, RegLive(d, r, RegLive(e, r, after))));
  }

  lemma FiveSlots(a: seq<Instr>, b: seq<Instr>, c: seq<Instr>, d: seq<Instr>, e: seq<Instr>, s: nat, after: bool)
    ensures SlotLive(a + b + c + d + e, s, after)
         == SlotLive(a, s, SlotLive(b, s, SlotLive(c, s, SlotLive(d, s, SlotLive(e, s, after)))))
  {
    hide SlotLive;
    SlotLiveAppend(a + b + c + d, e, s, after);
    SlotLiveAppend(a + b + c, d, s, SlotLive(e, s, after));
    SlotLiveAppend(a + b, c, s, SlotLive(d, s, SlotLive(e, s, after)));
    SlotLiveAppend(a, b, s, SlotLive(c, s, SlotLive(d, s, SlotLive(e, s, after))));
  }

  lemma {:induction false} RenamedRegLive(instrs: seq<Instr>, ren: map<nat, nat>, r: nat, after: bool)
    requires r !in ren && r !in ren.Values
    ensures RegLive(RewriteInstrs(instrs, ren), r, after) == RegLive(instrs, r, after)
    decreases |instrs|
  {
    if instrs != [] {
      var code := RewriteInstrs(instrs, ren);
      assert code[1..] == RewriteInstrs(instrs[1..], ren);
      RenamedUses(instrs[0], ren, r);
      RenamedDefs(instrs[0], ren, r);
      RegLiveStep(instrs, r, after);
      RegLiveStep(code, r, after);
      RenamedRegLive(instrs[1..], ren, r, after);
      assert View(ren, r) == r && forall q :: View(ren, q) == r ==> q == r;
    }
  }

  lemma RenamedSlotLive(instrs: seq<Instr>, ren: map<nat, nat>, s: nat, after: bool)
    ensures SlotLive(RewriteInstrs(instrs, ren), s, after) == SlotLive(instrs, s, after)
  {
    assert SlotTraffics(RewriteInstrs(instrs, ren)) == SlotTraffics(instrs);
  }

  lemma {:induction false} RenamedOwned(instrs: seq<Instr>, ren: map<nat, nat>, r: nat, s: nat, after: bool)
    requires r !in ren && r !in ren.Values && OwnedIn(instrs, r, s, after)
    ensures OwnedIn(RewriteInstrs(instrs, ren), r, s, after)
    decreases |instrs|
  {
    if instrs != [] {
      var code := RewriteInstrs(instrs, ren);
      assert code[1..] == RewriteInstrs(instrs[1..], ren);
      RenamedDefs(instrs[0], ren, r);
      RenamedSlotLive(instrs[1..], ren, s, after);
      RenamedOwned(instrs[1..], ren, r, s, after);
      assert View(ren, r) == r && forall q :: View(ren, q) == r ==> q == r;
    }
  }

  ghost predicate NamesNot(instrs: seq<Instr>, r: nat) {
    forall i :: 0 <= i < |instrs| ==> !Names(instrs[i], r)
  }

  ghost predicate SlotFree(instrs: seq<Instr>, s: nat) {
    forall i :: 0 <= i < |instrs| ==> !TouchesSlot(instrs[i], s)
  }

  /** Code inserted at two places does not matter to a register it does not name. */
  lemma InsertedRegs(a: seq<Instr>, b: seq<Instr>, c: seq<Instr>, d: seq<Instr>, e: seq<Instr>, f: seq<Instr>,
                     r: nat, after: bool)
    requires NamesNot(b, r) && NamesNot(d, r) && RegLive(e, r, after) == RegLive(f, r, after)
    ensures RegLive(a + b + c + d + e, r, after) == RegLive(a + c + f, r, after)
  {
    hide RegLive;
    FiveRegs(a, b, c, d, e, r, after);
    RegUntouched(d, r, RegLive(e, r, after));
    RegUntouched(b, r, RegLive(c, r, RegLive(e, r, after)));
    RegLiveAppend(a + c, f, r, after);
    RegLiveAppend(a, c, r, RegLive(f, r, after));
  }

  lemma InsertedSlots(a: seq<Instr>, b: seq<Instr>, c: seq<Instr>, d: seq<Instr>, e: seq<Instr>, f: seq<Instr>,
                      s: nat, after: bool)
    requires SlotFree(b, s) && SlotFree(d, s) && SlotLive(e, s, after) == SlotLive(f, s, after)
    ensures SlotLive(a + b + c + d + e, s, after) == SlotLive(a + c + f, s, after)
  {
    hide SlotLive;
    FiveSlots(a, b, c, d, e, s, after);
    SlotUntouched(d, s, SlotLive(e, s, after));
    SlotUntouched(b, s, SlotLive(c, s, SlotLive(e, s, after)));
    SlotLiveAppend(a + c, f, s, after);
    SlotLiveAppend(a, c, s, SlotLive(f, s, after));
  }

  /** Code in front of a tail that waits for s as much as another tail does. */
  lemma OwnedInFront(a: seq<Instr>, b: seq<Instr>, c: seq<Instr>, r: nat, s: nat, after: bool)
    requires SlotLive(b, s, after) == SlotLive(c, s, after) && (OwnedIn(c, r, s, after) ==> OwnedIn(b, r, s, after))
    ensures SlotLive(a + b, s, after) == SlotLive(a + c, s, after)
    ensures OwnedIn(a + c, r, s, after) ==> OwnedIn(a + b, r, s, after)
  {
    OwnedAppend(a, b, r, s, after);
    OwnedAppend(a, c, r, s, after);
    SlotLiveAppend(a, b, s, after);
    SlotLiveAppend(a, c, s, after);
  }

  lemma OwnedSkip(a: seq<Instr>, b: seq<Instr>, r: nat, s: nat, after: bool)
    requires NamesNot(a, r) && SlotFree(a, s)
    ensures SlotLive(a + b, s, after) == SlotLive(b, s, after)
    ensures OwnedIn(b, r, s, after) ==> OwnedIn(a + b, r, s, after)
  {
    OwnedAppend(a, b, r, s, after);
    SlotLiveAppend(a, b, s, after);
    OwnedUntouched(a, r, s, SlotLive(b, s, after));
    SlotUntouched(a, s, SlotLive(b, s, after));
  }

  lemma InsertedOwned(a: seq<Instr>, b: seq<Instr>, c: seq<Instr>, d: seq<Instr>, e: seq<Instr>, f: seq<Instr>,
                      r: nat, s: nat, after: bool)
    requires NamesNot(b, r) && NamesNot(d, r) && SlotFree(b, s) && SlotFree(d, s)
    requires SlotLive(e, s, after) == SlotLive(f, s, after) && (OwnedIn(f, r, s, after) ==> OwnedIn(e, r, s, after))
    requires OwnedIn(a + c + f, r, s, after)
    ensures OwnedIn(a + b + c + d + e, r, s, after)
  {
    hide *;
    OwnedSkip(d, e, r, s, after);
    OwnedInFront(c, d + e, f, r, s, after);
    OwnedSkip(b, c + (d + e), r, s, after);
    OwnedInFront(a, b + (c + (d + e)), c + f, r, s, after);
    assert a + (c + f) == a + c + f;
    assert a + (b + (c + (d + e))) == a + b + c + d + e;
  }

  /** The five stretches of a split block; only the second and the fourth are new. */
  lemma SplitStretches(instrs: seq<Instr>, plan: Plan, sibling: nat)
    requires plan.left < plan.right < |instrs|
    ensures var a, c, f := instrs[..plan.left + 1], instrs[plan.left + 1..plan.right], instrs[plan.right..];
            && instrs == a + c + f
            && SplitInstrs(instrs, plan, sibling)
               == a + Saves(plan) + c + Resumes(plan, sibling) + RewriteInstrs(f, map[plan.parent := sibling])
  {
  }

  lemma SplitLeaves(instrs: seq<Instr>, plan: Plan, sibling: nat, r: nat)
    requires r != plan.parent && r != sibling
    ensures NamesNot(Saves(plan), r) && NamesNot(Resumes(plan, sibling), r)
  {
    SaveRegs(plan);
    ResumeRegs(plan, sibling);
  }

  lemma SplitSlotFree(plan: Plan, sibling: nat, s: nat)
    requires plan.home != Slot(s)
    ensures SlotFree(Saves(plan), s) && SlotFree(Resumes(plan, sibling), s)
  {
    ResumeRegs(plan, sibling);
  }

  lemma SplitRegs(instrs: seq<Instr>, plan: Plan, sibling: nat, r: nat, after: bool)
    requires plan.left < plan.right < |instrs| && r != plan.parent && r != sibling
    ensures RegLive(SplitInstrs(instrs, plan, sibling), r, after) == RegLive(instrs, r, after)
  {
    hide *;
    var ren := map[plan.parent := sibling];
    var a, c, f := instrs[..plan.left + 1], instrs[plan.left + 1..plan.right], instrs[plan.right..];
    SplitStretches(instrs, plan, sibling);
    SplitLeaves(instrs, plan, sibling, r);
    RenamedRegLive(f, ren, r, after);
    InsertedRegs(a, Saves(plan), c, Resumes(plan, sibling), RewriteInstrs(f, ren), f, r, after);
  }

  lemma SplitSlots(instrs: seq<Instr>, plan: Plan, sibling: nat, s: nat, after: bool)
    requires plan.left < plan.right < |instrs| && plan.home != Slot(s)
    ensures SlotLive(SplitInstrs(instrs, plan, sibling), s, after) == SlotLive(instrs, s, after)
  {
    hide *;
    var ren := map[plan.parent := sibling];
    var a, c, f := instrs[..plan.left + 1], instrs[plan.left + 1..plan.right], instrs[plan.right..];
    SplitStretches(instrs, plan, sibling);
    SplitSlotFree(plan, sibling, s);
    RenamedSlotLive(f, ren, s, after);
    InsertedSlots(a, Saves(plan), c, Resumes(plan, sibling), RewriteInstrs(f, ren), f, s, after);
  }

  lemma SplitOwned(instrs: seq<Instr>, plan: Plan, sibling: nat, r: nat, s: nat, after: bool)
    requires plan.left < plan.right < |instrs| && plan.home != Slot(s) && r != plan.parent && r != sibling
    requires OwnedIn(instrs, r, s, after)
    ensures OwnedIn(SplitInstrs(instrs, plan, sibling), r, s, after)
  {
    hide *;
    var ren := map[plan.parent := sibling];
    var a, c, f := instrs[..plan.left + 1], instrs[plan.left + 1..plan.right], instrs[plan.right..];
    SplitStretches(instrs, plan, sibling);
    SplitLeaves(instrs, plan, sibling, r);
    SplitSlotFree(plan, sibling, s);
    RenamedSlotLive(f, ren, s, after);
    if OwnedIn(f, r, s, after) { RenamedOwned(f, ren, r, s, after); }
    InsertedOwned(a, Saves(plan), c, Resumes(plan, sibling), RewriteInstrs(f, ren), f, r, s, after);
  }

  // ----- The split register, its sibling and its slot -----

  /** Neither half of the split register is waited for when the block starts. */
  lemma SplitDead(f: Function, plan: Plan, sibling: nat, definition: nat, r: nat, after: bool)
    requires PlanFits(f, plan, sibling, definition) && (r == plan.parent || r == sibling)
    ensures !RegLive(SplitInstrs(f.blocks[plan.block].instrs, plan, sibling), r, after)
  {
    var instrs := f.blocks[plan.block].instrs;
    var code := SplitInstrs(instrs, plan, sibling);
    SaveRegs(plan);
    ResumeRegs(plan, sibling);
    var at := plan.right + |Saves(plan)|;
    assert code[at] == Resumes(plan, sibling)[0];
    forall i | 0 <= i <= plan.left ensures code[i] == instrs[i] {
    }
    if r == plan.parent {
      forall i | 0 <= i <= definition ensures r !in UseRegs(code[i]) {
        Mentioned(instrs[i], r);
      }
      DefinedFirst(code, r, definition, after);
    } else {
      forall i | 0 <= i <= at ensures r !in UseRegs(code[i]) {
        if i <= plan.left {
          Mentioned(instrs[i], r);
        } else if i > plan.left + |Saves(plan)| && i < at {
          assert code[i] == instrs[i - |Saves(plan)|];
          Mentioned(instrs[i - |Saves(plan)|], r);
        }
      }
      DefinedFirst(code, r, at, after);
    }
  }

  /** Code that never defines r and stores nothing else to s. */
  lemma {:induction false} OwnedUndefined(instrs: seq<Instr>, r: nat, s: nat, after: bool)
    requires forall i :: 0 <= i < |instrs| ==>
               r !in DefRegs(instrs[i])
               && (instrs[i].op == SPILL_STORE(s) ==> |instrs[i].operands| == 1 && instrs[i].operands[0].reg == r)
    ensures OwnedIn(instrs, r, s, after)
  {
    if instrs != [] { OwnedUndefined(instrs[1..], r, s, after); }
  }

  /** The new slot is written before it is read, by the split register, after its one definition. */
  lemma NewSlot(f: Function, plan: Plan, sibling: nat, definition: nat, s: nat, after: bool)
    requires PlanFits(f, plan, sibling, definition) && plan.home == Slot(s)
    requires SlotFree(f.blocks[plan.block].instrs, s)
    ensures !SlotLive(SplitInstrs(f.blocks[plan.block].instrs, plan, sibling), s, after)
    ensures OwnedIn(SplitInstrs(f.blocks[plan.block].instrs, plan, sibling), plan.parent, s, after)
  {
    var instrs, ren := f.blocks[plan.block].instrs, map[plan.parent := sibling];
    var a, c, rest := instrs[..plan.left + 1], instrs[plan.left + 1..plan.right], instrs[plan.right..];
    var renamed := RewriteInstrs(rest, ren);
    var tail := Saves(plan) + c + Resumes(plan, sibling) + renamed;
    SplitStretches(instrs, plan, sibling);
    SaveRegs(plan);
    ResumeRegs(plan, sibling);
    assert a + tail == SplitInstrs(instrs, plan, sibling);
    SlotLiveStep(tail, s, after);
    assert !SlotLive(tail, s, after);
    SlotLiveAppend(a, tail, s, after);
    SlotUntouched(a, s, false);
    OwnedAppend(a, tail, plan.parent, s, after);
    OwnedWhereDead(a, plan.parent, s);
    forall i | 0 <= i < |tail|
      ensures plan.parent !in DefRegs(tail[i])
      ensures tail[i].op == SPILL_STORE(s) ==> |tail[i].operands| == 1 && tail[i].operands[0].reg == plan.parent
    {
      TailParts(f, plan, sibling, definition, s, i);
    }
    OwnedUndefined(tail, plan.parent, s, after);
  }

  lemma TailParts(f: Function, plan: Plan, sibling: nat, definition: nat, s: nat, i: nat)
    requires PlanFits(f, plan, sibling, definition) && plan.home == Slot(s)
    requires SlotFree(f.blocks[plan.block].instrs, s)
    requires var instrs := f.blocks[plan.block].instrs;
             i < |Saves(plan) + instrs[plan.left + 1..plan.right] + Resumes(plan, sibling)
                  + RewriteInstrs(instrs[plan.right..], map[plan.parent := sibling])|
    ensures var instrs := f.blocks[plan.block].instrs;
            var tail := Saves(plan) + instrs[plan.left + 1..plan.right] + Resumes(plan, sibling)
                        + RewriteInstrs(instrs[plan.right..], map[plan.parent := sibling]);
            && plan.parent !in DefRegs(tail[i])
            && (tail[i].op == SPILL_STORE(s) ==> |tail[i].operands| == 1 && tail[i].operands[0].reg == plan.parent)
  {
    var instrs, ren := f.blocks[plan.block].instrs, map[plan.parent := sibling];
    var gap := plan.right - plan.left - 1;
    SaveRegs(plan);
    ResumeRegs(plan, sibling);
    if 1 <= i < 1 + gap {
      var k := plan.left + i;
      assert !TouchesSlot(instrs[k], s);
    } else if i > 1 + gap {
      var k := plan.right + i - gap - 2;
      assert !TouchesSlot(instrs[k], s);
      RenamedDefs(instrs[k], ren, plan.parent);
    }
  }

  /** Every name and every slot of the split block was there before, or is the sibling's or the plan's. */
  lemma SplitNames(f: Function, plan: Plan, sibling: nat, definition: nat, i: nat) returns (k: nat)
    requires PlanFits(f, plan, sibling, definition)
    requires i < |SplitInstrs(f.blocks[plan.block].instrs, plan, sibling)|
    ensures k < |f.blocks[plan.block].instrs|
    ensures forall r :: Names(SplitInstrs(f.blocks[plan.block].instrs, plan, sibling)[i], r) && r != sibling ==>
              Names(f.blocks[plan.block].instrs[k], r)
    ensures forall s: nat :: TouchesSlot(SplitInstrs(f.blocks[plan.block].instrs, plan, sibling)[i], s) ==>
              TouchesSlot(f.blocks[plan.block].instrs[k], s) || plan.home == Slot(s)
  {
    var instrs, ren := f.blocks[plan.block].instrs, map[plan.parent := sibling];
    var code, saved := SplitInstrs(instrs, plan, sibling), |Saves(plan)|;
    SaveRegs(plan);
    ResumeRegs(plan, sibling);
    if i <= plan.left {
      k := i;
    } else if i < plan.left + 1 + saved {
      k := definition;
      assert code[i] == Saves(plan)[0];
    } else if i < plan.right + saved {
      k := i - saved;
      assert code[i] == instrs[k];
    } else if i == plan.right + saved {
      k := definition;
      assert code[i] == Resumes(plan, sibling)[0];
    } else {
      k := i - saved - 1;
      assert code[i] == RewriteInstr(instrs[k], ren);
      forall r | Names(code[i], r) && r != sibling ensures Names(instrs[k], r) {
        RenamedUses(instrs[k], ren, r);
        RenamedDefs(instrs[k], ren, r);
      }
    }
  }
}
