/** The local gap split: a register with one definition, used in one block, leaves its register
    over a gap between two uses and comes back under a sibling's name. */
module GapSplit {
  import opened Target
  import opened MachineIR
  import opened Renaming
  import opened Spilling

  /** Where to split: after instruction left and before instruction right of one block. */
  datatype Plan = Plan(parent: nat, cls: RegClass, block: nat, left: nat, right: nat, home: Home,
                       benefit: real, cost: real)

  predicate Mentions(ins: Instr, r: nat) {
    exists i :: 0 <= i < |ins.operands| && ins.operands[i].reg == r
  }

  /** The code after the split, with the sibling a fresh register. */
  function SplitInstrs(instrs: seq<Instr>, plan: Plan, sibling: nat): seq<Instr>
    requires plan.left < plan.right < |instrs|
  {
    instrs[..plan.left + 1] + Saves(plan) + instrs[plan.left + 1..plan.right] + Resumes(plan, sibling)
    + RewriteInstrs(instrs[plan.right..], map[plan.parent := sibling])
  }

  function Saves(plan: Plan): (code: seq<Instr>)
    ensures AllWellFormed(code)
  {
    match plan.home
    case Slot(s) => [Instr(SPILL_STORE(s), [Operand(plan.parent, plan.cls, false)])]
    case Recipe(_) => []
  }

  function Resumes(plan: Plan, sibling: nat): (code: seq<Instr>)
    ensures AllWellFormed(code)
  {
    [LoadOf(plan.parent, map[plan.parent := plan.home], plan.cls, sibling)]
  }

  /** The slot of the plan, when it has one, is accessed by nothing else. */
  predicate Private(ins: Instr, home: Home) {
    match home
    case Slot(s) => ins.op != SPILL_LOAD(s) && ins.op != SPILL_STORE(s)
    case Recipe(_) => true
  }

  /** What the choice of the plan guarantees: every operand of the parent is in one block, the
      first is its one definition, and the gap lies after it. */
  ghost predicate PlanFits(f: Function, plan: Plan, sibling: nat, definition: nat) {
    && Executable(f) && plan.block < |f.blocks| && plan.parent != sibling
    && (forall b, i :: 0 <= b < |f.blocks| && 0 <= i < |f.blocks[b].instrs| ==>
          && !Mentions(f.blocks[b].instrs[i], sibling)
          && (b != plan.block || i < definition ==> !Mentions(f.blocks[b].instrs[i], plan.parent)))
    && var instrs := f.blocks[plan.block].instrs;
    && definition <= plan.left < plan.right < |instrs|
    && plan.parent in DefRegs(instrs[definition]) && plan.parent !in UseRegs(instrs[definition])
    && (forall i :: definition < i < |instrs| ==> plan.parent !in DefRegs(instrs[i]))
    && (forall i :: plan.left < i < plan.right ==> !Mentions(instrs[i], plan.parent))
    && (plan.home.Recipe? ==> DefinesConstant(instrs[definition], plan.parent, plan.home.value)
                              && instrs[definition].operands[0].cls == plan.cls)
  }

  /** And the slot of the plan is not in use. */
  ghost predicate Splittable(f: Function, plan: Plan, sibling: nat, definition: nat) {
    && PlanFits(f, plan, sibling, definition)
    && (forall b, i :: 0 <= b < |f.blocks| && 0 <= i < |f.blocks[b].instrs| ==>
          Private(f.blocks[b].instrs[i], plan.home))
  }

  // ----- The simulation relation -----

  /** The slot that may differ. */
  predicate SlotOf(home: Home, s: nat) {
    home == Slot(s)
  }

  /** Registers outside skip hold the same values under the renaming; slots agree but for one. */
  ghost predicate Tracks(ren: map<nat, nat>, skip: set<nat>, home: Home, o: State, n: State) {
    && o.hist == n.hist
    && (forall r: nat :: r !in skip ==> n.regs(View(ren, r)) == o.regs(r))
    && (forall s: nat :: !SlotOf(home, s) ==> n.slots(s) == o.slots(s))
  }

  /** The saved value: the slot holds it, or the parent holds its constant. */
  ghost predicate Saved(plan: Plan, o: State, n: State) {
    match plan.home
    case Slot(s) => n.slots(s) == o.regs(plan.parent)
    case Recipe(c) => o.regs(plan.parent) == Typed(plan.cls, c)
  }

  /** The instruction reads nothing that may differ, and leaves the sibling alone. */
  ghost predicate Clean(ins: Instr, skip: set<nat>, sibling: nat, home: Home) {
    WellFormed(ins) && UseRegs(ins) !! skip && !Mentions(ins, sibling) && Private(ins, home)
  }

  lemma Mentioned(ins: Instr, r: nat)
    ensures Mentions(ins, r) <==> r in UseRegs(ins) || r in DefRegs(ins)
  {
    if Mentions(ins, r) {
      var i :| 0 <= i < |ins.operands| && ins.operands[i].reg == r;
      assert ins.operands[i] in ins.operands;
    }
  }

  lemma NotRenamed(ins: Instr)
    ensures RewriteInstr(ins, map[]) == ins
  {
    assert RewriteOperands(ins.operands, map[]) == ins.operands;
  }

  ghost predicate Renames(ren: map<nat, nat>, sibling: nat) {
    sibling !in ren && forall r, q :: r in ren && q in ren ==> ren[r] == sibling && r == q
  }

  /** One register across one instruction, renamed. */
  lemma RegisterTracks(m: Machine, ins: Instr, ren: map<nat, nat>, skip: set<nat>, sibling: nat, home: Home,
                       o: State, n: State, r: nat)
    requires !m.physical && Clean(ins, skip, sibling, home) && Renames(ren, sibling) && sibling in skip
    requires Tracks(ren, skip, home, o, n) && (r !in skip || r in DefRegs(ins)) && r != sibling
    ensures WellFormed(RewriteInstr(ins, ren))
    ensures var o', n' := Exec(m, ins, o), Exec(m, RewriteInstr(ins, ren), n);
            && o'.hist == n'.hist && n'.regs(View(ren, r)) == o'.regs(r)
            && (forall s: nat :: !SlotOf(home, s) ==> n'.slots(s) == o'.slots(s))
            && (home.Slot? ==> n'.slots(home.slot) == n.slots(home.slot))
  {
    RenamedWellFormed(ins, ren);
    Mentioned(ins, sibling);
    forall d | d in DefRegs(ins) && d != r ensures View(ren, d) != View(ren, r) {
    }
    if IsMove(ins) {
      MoveReads(ins);
      assert ins.operands[0] in ins.operands;
    } else {
      RenamedOp(ins, {r}, ren, m, m, o, n);
    }
  }

  lemma StepTracks(m: Machine, ins: Instr, ren: map<nat, nat>, skip: set<nat>, sibling: nat, home: Home,
                   o: State, n: State)
    requires !m.physical && Clean(ins, skip, sibling, home) && Renames(ren, sibling) && sibling in skip
    requires Tracks(ren, skip, home, o, n)
    ensures WellFormed(RewriteInstr(ins, ren))
    ensures Tracks(ren, skip - DefRegs(ins), home, Exec(m, ins, o), Exec(m, RewriteInstr(ins, ren), n))
    ensures home.Slot? ==> Exec(m, RewriteInstr(ins, ren), n).slots(home.slot) == n.slots(home.slot)
  {
    hide Exec, RewriteInstr, Renames;
    var some: nat := FreshRegister(skip + {sibling});
    RegisterTracks(m, ins, ren, skip, sibling, home, o, n, some);
    var o', n' := Exec(m, ins, o), Exec(m, RewriteInstr(ins, ren), n);
    forall r: nat | r !in skip - DefRegs(ins) ensures n'.regs(View(ren, r)) == o'.regs(r) {
      SiblingDefined(ins, skip, sibling, home, r);
      RegisterTracks(m, ins, ren, skip, sibling, home, o, n, r);
    }
  }

  lemma SiblingDefined(ins: Instr, skip: set<nat>, sibling: nat, home: Home, r: nat)
    requires Clean(ins, skip, sibling, home) && sibling in skip && r !in skip - DefRegs(ins)
    ensures r != sibling
  {
    Mentioned(ins, sibling);
  }

  lemma {:induction false} FreshRegister(used: set<nat>) returns (r: nat)
    ensures r !in used
    decreases |used|
  {
    if used == {} {
      r := 0;
    } else {
      var top: nat := Largest(used);
      r := top + 1;
    }
  }

  lemma {:induction false} Largest(used: set<nat>) returns (top: nat)
    requires used != {}
    ensures top in used && forall r :: r in used ==> r <= top
    decreases |used|
  {
    var x :| x in used;
    var rest := used - {x};
    if rest == {} {
      assert used == {x};
      top := x;
    } else {
      var other := Largest(rest);
      top := if x > other then x else other;
      assert used == rest + {x};
    }
  }

  /** A stretch of renamed instructions. */
  ghost predicate AllClean(instrs: seq<Instr>, skip: set<nat>, sibling: nat, home: Home) {
    forall i :: 0 <= i < |instrs| ==> Clean(instrs[i], skip, sibling, home)
  }

  lemma {:induction false} StretchTracks(m: Machine, instrs: seq<Instr>, ren: map<nat, nat>, skip: set<nat>,
                                         sibling: nat, home: Home, o: State, n: State)
    requires !m.physical && AllClean(instrs, skip, sibling, home) && Renames(ren, sibling) && sibling in skip
    requires Tracks(ren, skip, home, o, n)
    ensures AllWellFormed(instrs) && AllWellFormed(RewriteInstrs(instrs, ren))
    ensures Tracks(ren, skip, home, ExecSeq(m, instrs, o), ExecSeq(m, RewriteInstrs(instrs, ren), n))
    ensures home.Slot? ==> ExecSeq(m, RewriteInstrs(instrs, ren), n).slots(home.slot) == n.slots(home.slot)
    decreases |instrs|
  {
    if instrs != [] {
      hide Exec, RewriteInstr, Renames;
      assert Clean(instrs[0], skip, sibling, home);
      StepTracks(m, instrs[0], ren, skip, sibling, home, o, n);
      var o1, n1 := Exec(m, instrs[0], o), Exec(m, RewriteInstr(instrs[0], ren), n);
      assert RewriteInstrs(instrs, ren)[1..] == RewriteInstrs(instrs[1..], ren);
      StretchTracks(m, instrs[1..], ren, skip, sibling, home, o1, n1);
      forall i | 0 <= i < |instrs| ensures WellFormed(RewriteInstrs(instrs, ren)[i]) {
        if i > 0 { assert RewriteInstrs(instrs, ren)[i] == RewriteInstrs(instrs[1..], ren)[i - 1]; }
      }
    }
  }

  /** The same without renaming. */
  lemma PlainTracks(m: Machine, instrs: seq<Instr>, skip: set<nat>, sibling: nat, home: Home, o: State, n: State)
    requires !m.physical && AllClean(instrs, skip, sibling, home) && sibling in skip
    requires Tracks(map[], skip, home, o, n)
    ensures AllWellFormed(instrs)
    ensures Tracks(map[], skip, home, ExecSeq(m, instrs, o), ExecSeq(m, instrs, n))
    ensures home.Slot? ==> ExecSeq(m, instrs, n).slots(home.slot) == n.slots(home.slot)
  {
    forall i | 0 <= i < |instrs| ensures RewriteInstr(instrs[i], map[]) == instrs[i] {
      NotRenamed(instrs[i]);
    }
    assert RewriteInstrs(instrs, map[]) == instrs;
    StretchTracks(m, instrs, map[], skip, sibling, home, o, n);
  }

  lemma {:induction false} UntouchedOver(m: Machine, instrs: seq<Instr>, o: State, r: nat)
    requires !m.physical && AllWellFormed(instrs)
    requires forall i :: 0 <= i < |instrs| ==> r !in DefRegs(instrs[i])
    ensures ExecSeq(m, instrs, o).regs(r) == o.regs(r)
    decreases |instrs|
  {
    if instrs != [] {
      UntouchedRegister(m, instrs[0], o, r);
      UntouchedOver(m, instrs[1..], Exec(m, instrs[0], o), r);
    }
  }

  // ----- The phases of the split block -----

  /** Up to and including the definition: afterwards the parent agrees too. */
  lemma DefinedPhase(m: Machine, before: seq<Instr>, ins: Instr, plan: Plan, sibling: nat, o: State, n: State)
    requires !m.physical && plan.parent != sibling
    requires AllClean(before, {plan.parent, sibling}, sibling, plan.home)
    requires Clean(ins, {plan.parent, sibling}, sibling, plan.home) && plan.parent in DefRegs(ins)
    requires Tracks(map[], {plan.parent, sibling}, plan.home, o, n)
    ensures AllWellFormed(before + [ins])
    ensures Tracks(map[], {sibling}, plan.home, ExecSeq(m, before + [ins], o), ExecSeq(m, before + [ins], n))
    ensures DefinesConstant(ins, plan.parent, if plan.home.Recipe? then plan.home.value else 0)
            && ins.operands[0].cls == plan.cls && plan.home.Recipe?
            ==> Saved(plan, ExecSeq(m, before + [ins], o), ExecSeq(m, before + [ins], n))
  {
    var skip := {plan.parent, sibling};
    PlainTracks(m, before, skip, sibling, plan.home, o, n);
    var o1, n1 := ExecSeq(m, before, o), ExecSeq(m, before, n);
    NotRenamed(ins);
    StepTracks(m, ins, map[], skip, sibling, plan.home, o1, n1);
    OneMore(m, before, ins, o);
    OneMore(m, before, ins, n);
    Mentioned(ins, sibling);
    assert skip - DefRegs(ins) == {sibling};
  }

  lemma OneMore(m: Machine, before: seq<Instr>, ins: Instr, st: State)
    requires AllWellFormed(before) && WellFormed(ins)
    ensures AllWellFormed(before + [ins])
    ensures ExecSeq(m, before + [ins], st) == Exec(m, ins, ExecSeq(m, before, st))
  {
    ExecSeqAppend(m, before, [ins], st);
    assert [ins][1..] == [];
    assert ExecSeq(m, [ins], ExecSeq(m, before, st)) == Exec(m, ins, ExecSeq(m, before, st));
  }

  /** Between the definition and the split: the value stays, and afterwards it is saved. */
  lemma SavedPhase(m: Machine, middle: seq<Instr>, plan: Plan, sibling: nat, o: State, n: State)
    requires !m.physical && plan.parent != sibling
    requires AllClean(middle, {sibling}, sibling, plan.home)
    requires forall i :: 0 <= i < |middle| ==> plan.parent !in DefRegs(middle[i])
    requires Tracks(map[], {sibling}, plan.home, o, n)
    requires plan.home.Recipe? ==> Saved(plan, o, n)
    ensures AllWellFormed(middle) && AllWellFormed(middle + Saves(plan))
    ensures Tracks(map[], {sibling}, plan.home, ExecSeq(m, middle, o), ExecSeq(m, middle + Saves(plan), n))
    ensures Saved(plan, ExecSeq(m, middle, o), ExecSeq(m, middle + Saves(plan), n))
  {
    PlainTracks(m, middle, {sibling}, sibling, plan.home, o, n);
    UntouchedOver(m, middle, o, plan.parent);
    ExecSeqAppend(m, middle, Saves(plan), n);
    StoreSaves(m, plan, sibling, ExecSeq(m, middle, o), ExecSeq(m, middle, n));
  }

  lemma StoreSaves(m: Machine, plan: Plan, sibling: nat, o: State, n: State)
    requires plan.parent != sibling && Tracks(map[], {sibling}, plan.home, o, n)
    requires plan.home.Recipe? ==> Saved(plan, o, n)
    ensures Tracks(map[], {sibling}, plan.home, o, ExecSeq(m, Saves(plan), n))
    ensures Saved(plan, o, ExecSeq(m, Saves(plan), n))
  {
    if plan.home.Slot? {
      var store := Saves(plan)[0];
      assert Saves(plan)[1..] == [];
      assert ExecSeq(m, Saves(plan), n) == Exec(m, store, n);
      assert n.regs(View(map[], plan.parent)) == o.regs(plan.parent);
    }
  }

  /** Over the gap nothing touches the saved value; the sibling then takes it. */
  lemma ResumedPhase(m: Machine, gap: seq<Instr>, plan: Plan, sibling: nat, o: State, n: State)
    requires !m.physical && plan.parent != sibling
    requires AllClean(gap, {sibling}, sibling, plan.home)
    requires forall i :: 0 <= i < |gap| ==> plan.parent !in DefRegs(gap[i])
    requires Tracks(map[], {sibling}, plan.home, o, n) && Saved(plan, o, n)
    ensures AllWellFormed(gap) && AllWellFormed(gap + Resumes(plan, sibling))
    ensures Tracks(map[plan.parent := sibling], {sibling}, plan.home,
                   ExecSeq(m, gap, o), ExecSeq(m, gap + Resumes(plan, sibling), n))
  {
    PlainTracks(m, gap, {sibling}, sibling, plan.home, o, n);
    UntouchedOver(m, gap, o, plan.parent);
    var o1, n1 := ExecSeq(m, gap, o), ExecSeq(m, gap, n);
    ExecSeqAppend(m, gap, Resumes(plan, sibling), n);
    ReloadResumes(m, plan, sibling, o1, n1);
  }

  lemma ReloadResumes(m: Machine, plan: Plan, sibling: nat, o: State, n: State)
    requires plan.parent != sibling && Tracks(map[], {sibling}, plan.home, o, n) && Saved(plan, o, n)
    ensures Tracks(map[plan.parent := sibling], {sibling}, plan.home, o, ExecSeq(m, Resumes(plan, sibling), n))
  {
    var homes, ren := map[plan.parent := plan.home], map[plan.parent := sibling];
    var load := LoadOf(plan.parent, homes, plan.cls, sibling);
    assert Resumes(plan, sibling) == [load] && [load][1..] == [];
    var n1 := Exec(m, load, n);
    assert ExecSeq(m, Resumes(plan, sibling), n) == n1;
    LoadRuns(m, plan.parent, homes, map[plan.parent := plan.cls], sibling, o, n);
    forall r: nat | r !in {sibling} ensures n1.regs(View(ren, r)) == o.regs(r) {
      if r != plan.parent { assert n.regs(View(map[], r)) == o.regs(r); }
    }
  }

  /** The uses after the gap read the sibling. */
  lemma RenamedPhase(m: Machine, rest: seq<Instr>, plan: Plan, sibling: nat, o: State, n: State)
    requires !m.physical && plan.parent != sibling
    requires AllClean(rest, {sibling}, sibling, plan.home)
    requires Tracks(map[plan.parent := sibling], {sibling}, plan.home, o, n)
    ensures AllWellFormed(rest) && AllWellFormed(RewriteInstrs(rest, map[plan.parent := sibling]))
    ensures Tracks(map[], {plan.parent, sibling}, plan.home,
                   ExecSeq(m, rest, o), ExecSeq(m, RewriteInstrs(rest, map[plan.parent := sibling]), n))
  {
    var ren := map[plan.parent := sibling];
    StretchTracks(m, rest, ren, {sibling}, sibling, plan.home, o, n);
    var o1, n1 := ExecSeq(m, rest, o), ExecSeq(m, RewriteInstrs(rest, ren), n);
    forall r: nat | r !in {plan.parent, sibling} ensures n1.regs(View(map[], r)) == o1.regs(r) {
      assert n1.regs(View(ren, r)) == o1.regs(r);
    }
  }

  // ----- The block and the function -----

  lemma CleanStretches(f: Function, plan: Plan, sibling: nat, definition: nat)
    requires Splittable(f, plan, sibling, definition)
    ensures var instrs := f.blocks[plan.block].instrs;
            && AllClean(instrs[..definition], {plan.parent, sibling}, sibling, plan.home)
            && Clean(instrs[definition], {plan.parent, sibling}, sibling, plan.home)
            && AllClean(instrs[definition + 1..plan.left + 1], {sibling}, sibling, plan.home)
            && AllClean(instrs[plan.left + 1..plan.right], {sibling}, sibling, plan.home)
            && AllClean(instrs[plan.right..], {sibling}, sibling, plan.home)
  {
    var instrs := f.blocks[plan.block].instrs;
    forall i | 0 <= i < |instrs|
      ensures Clean(instrs[i], if i <= definition then {plan.parent, sibling} else {sibling}, sibling, plan.home)
    {
      Mentioned(instrs[i], sibling);
      Mentioned(instrs[i], plan.parent);
    }
  }

  lemma BlockTracks(f: Function, plan: Plan, sibling: nat, definition: nat, m: Machine, o: State, n: State)
    requires Splittable(f, plan, sibling, definition) && !m.physical
    requires Tracks(map[], {plan.parent, sibling}, plan.home, o, n)
    ensures AllWellFormed(SplitInstrs(f.blocks[plan.block].instrs, plan, sibling))
    ensures Tracks(map[], {plan.parent, sibling}, plan.home, ExecSeq(m, f.blocks[plan.block].instrs, o),
                   ExecSeq(m, SplitInstrs(f.blocks[plan.block].instrs, plan, sibling), n))
  {
    hide Clean, Tracks, Saved, ExecSeq, Saves, Resumes;
    var instrs := f.blocks[plan.block].instrs;
    CleanStretches(f, plan, sibling, definition);
    var d, l, r := definition, plan.left, plan.right;
    var before, ins, middle, gap, rest :=
      instrs[..d], instrs[d], instrs[d + 1..l + 1], instrs[l + 1..r], instrs[r..];
    var renamed := RewriteInstrs(rest, map[plan.parent := sibling]);
    DefinedPhase(m, before, ins, plan, sibling, o, n);
    var o1, n1 := ExecSeq(m, before + [ins], o), ExecSeq(m, before + [ins], n);
    SavedPhase(m, middle, plan, sibling, o1, n1);
    var o2, n2 := ExecSeq(m, middle, o1), ExecSeq(m, middle + Saves(plan), n1);
    ResumedPhase(m, gap, plan, sibling, o2, n2);
    var o3, n3 := ExecSeq(m, gap, o2), ExecSeq(m, gap + Resumes(plan, sibling), n2);
    RenamedPhase(m, rest, plan, sibling, o3, n3);
    ChainedRuns(m, before + [ins], middle, gap, rest, o);
    ChainedRuns(m, before + [ins], middle + Saves(plan), gap + Resumes(plan, sibling), renamed, n);
    Stretches(instrs, d, l, r, Saves(plan), Resumes(plan, sibling), renamed);
  }

  lemma Stretches(instrs: seq<Instr>, d: nat, l: nat, r: nat, saves: seq<Instr>, resumes: seq<Instr>,
                  renamed: seq<Instr>)
    requires d <= l < r < |instrs|
    ensures instrs[..d] + [instrs[d]] + instrs[d + 1..l + 1] + instrs[l + 1..r] + instrs[r..] == instrs
    ensures instrs[..d] + [instrs[d]] + (instrs[d + 1..l + 1] + saves) + (instrs[l + 1..r] + resumes) + renamed
         == instrs[..l + 1] + saves + instrs[l + 1..r] + resumes + renamed
  {
    assert instrs[..d] + [instrs[d]] + instrs[d + 1..l + 1] == instrs[..l + 1];
    assert instrs[..l + 1] + instrs[l + 1..r] == instrs[..r];
    var head, gap := instrs[..d] + [instrs[d]], instrs[l + 1..r];
    assert head + (instrs[d + 1..l + 1] + saves) == head + instrs[d + 1..l + 1] + saves;
    var front := instrs[..l + 1] + saves;
    assert front + (gap + resumes) == front + gap + resumes;
  }

  lemma ChainedRuns(m: Machine, a: seq<Instr>, b: seq<Instr>, c: seq<Instr>, d: seq<Instr>, st: State)
    requires AllWellFormed(a) && AllWellFormed(b) && AllWellFormed(c) && AllWellFormed(d)
    ensures AllWellFormed(a + b + c + d)
    ensures ExecSeq(m, a + b + c + d, st)
         == ExecSeq(m, d, ExecSeq(m, c, ExecSeq(m, b, ExecSeq(m, a, st))))
  {
    hide ExecSeq;
    ExecSeqAppend(m, a, b, st);
    ExecSeqAppend(m, a + b, c, st);
    ExecSeqAppend(m, a + b + c, d, st);
  }

  ghost predicate Split(f: Function, plan: Plan, sibling: nat, g: Function)
    requires plan.block < |f.blocks| && plan.left < plan.right < |f.blocks[plan.block].instrs|
  {
    && |g.blocks| == |f.blocks|
    && g.blocks[plan.block]
      == Block(SplitInstrs(f.blocks[plan.block].instrs, plan, sibling), f.blocks[plan.block].succs)
    && forall b :: 0 <= b < |f.blocks| && b != plan.block ==> g.blocks[b] == f.blocks[b]
  }

  lemma InsertedBetween(instrs: seq<Instr>, l: nat, r: nat, saves: seq<Instr>, resumes: seq<Instr>, renamed: seq<Instr>)
    requires l < r < |instrs|
    ensures (var code := instrs[..r] + resumes + renamed; code[..l + 1] + saves + code[l + 1..])
         == instrs[..l + 1] + saves + instrs[l + 1..r] + resumes + renamed
  {
    var code := instrs[..r] + resumes + renamed;
    assert code[l + 1..] == instrs[l + 1..r] + resumes + renamed;
    assert code[..l + 1] == instrs[..l + 1];
    var front, gap := instrs[..l + 1] + saves, instrs[l + 1..r];
    assert front + (gap + resumes + renamed) == front + gap + resumes + renamed;
  }

  /** Rewrites the block in place: a save after the split point, the sibling's definition at the
      end of the gap, and the sibling's name in every later use.  Without profit nothing changes. */
  method SplitLocalGap(f: Function, plan: Plan, sibling: nat) returns (g: Function, applied: bool)
    requires plan.block < |f.blocks| && plan.left < plan.right < |f.blocks[plan.block].instrs|
    ensures applied <==> plan.benefit > plan.cost
    ensures if applied then Split(f, plan, sibling, g) else g == f
  {
    if plan.benefit <= plan.cost {
      return f, false;
    }
    var instrs := f.blocks[plan.block].instrs;
    var rest := instrs[plan.right..];
    var renamed: seq<Instr> := [];
    for i := 0 to |rest|
      invariant renamed == RewriteInstrs(rest, map[plan.parent := sibling])[..i]
    {
      renamed := renamed + [RewriteInstr(rest[i], map[plan.parent := sibling])];
    }
    var code := instrs[..plan.right] + Resumes(plan, sibling) + renamed;
    code := code[..plan.left + 1] + Saves(plan) + code[plan.left + 1..];
    InsertedBetween(instrs, plan.left, plan.right, Saves(plan), Resumes(plan, sibling), renamed);
    g := Function(f.blocks[plan.block := Block(code, f.blocks[plan.block].succs)]);
    applied := true;
  }

  ghost predicate Linked(plan: Plan, sibling: nat, c: Config, d: Config) {
    && c.Halted? == d.Halted? && (c.Running? ==> c.block == d.block)
    && Tracks(map[], {plan.parent, sibling}, plan.home, c.st, d.st)
  }

  lemma SplitExecutable(f: Function, plan: Plan, sibling: nat, definition: nat, g: Function, m: Machine, st: State)
    requires Splittable(f, plan, sibling, definition) && Split(f, plan, sibling, g) && !m.physical
    ensures Executable(g)
  {
    hide SplitInstrs;
    BlockTracks(f, plan, sibling, definition, m, st, st);
    forall b | 0 <= b < |g.blocks| ensures AllWellFormed(g.blocks[b].instrs) {
      if b != plan.block { assert g.blocks[b] == f.blocks[b]; }
    }
    forall b, s | 0 <= b < |g.blocks| && s in g.blocks[b].succs ensures s < |g.blocks| {
      assert g.blocks[b].succs == f.blocks[b].succs;
    }
  }

  lemma StepLinked(f: Function, plan: Plan, sibling: nat, definition: nat, g: Function, m: Machine,
                   c: Config, d: Config)
    requires Splittable(f, plan, sibling, definition) && Split(f, plan, sibling, g) && !m.physical
    requires Executable(g) && InFunction(f, c) && InFunction(g, d) && Linked(plan, sibling, c, d)
    ensures Linked(plan, sibling, Next(f, m, c), Next(g, m, d))
  {
    hide SplitInstrs, ExecSeq;
    if c.Running? {
      if c.block == plan.block {
        BlockTracks(f, plan, sibling, definition, m, c.st, d.st);
      } else {
        OtherBlock(f, plan, sibling, definition, c.block);
        PlainTracks(m, f.blocks[c.block].instrs, {plan.parent, sibling}, sibling, plan.home, c.st, d.st);
      }
    }
  }

  lemma OtherBlock(f: Function, plan: Plan, sibling: nat, definition: nat, b: nat)
    requires Splittable(f, plan, sibling, definition) && b < |f.blocks| && b != plan.block
    ensures AllClean(f.blocks[b].instrs, {plan.parent, sibling}, sibling, plan.home)
  {
    forall i | 0 <= i < |f.blocks[b].instrs|
      ensures Clean(f.blocks[b].instrs[i], {plan.parent, sibling}, sibling, plan.home)
    {
      Mentioned(f.blocks[b].instrs[i], sibling);
      Mentioned(f.blocks[b].instrs[i], plan.parent);
    }
  }

  lemma {:induction false} RunsLinked(f: Function, plan: Plan, sibling: nat, definition: nat, g: Function,
                                      m: Machine, c: Config, d: Config, k: nat)
    returns (rc: Config, rd: Config)
    requires Splittable(f, plan, sibling, definition) && Split(f, plan, sibling, g) && !m.physical
    requires Executable(g) && InFunction(f, c) && InFunction(g, d) && Linked(plan, sibling, c, d)
    ensures rc == Run(f, m, c, k) && rd == Run(g, m, d, k) && Linked(plan, sibling, rc, rd)
    decreases k
  {
    hide Next, Split, Linked;
    if k == 0 {
      rc, rd := c, d;
    } else {
      StepLinked(f, plan, sibling, definition, g, m, c, d);
      rc, rd := RunsLinked(f, plan, sibling, definition, g, m, Next(f, m, c), Next(g, m, d), k - 1);
    }
  }

  /** Splitting a gap preserves behaviour from any configuration, whatever the parent, the sibling
      and the slot hold at the start. */
  lemma SplitPreservesRuns(f: Function, plan: Plan, sibling: nat, definition: nat, g: Function,
                           m: Machine, c: Config, d: Config, k: nat)
    requires Splittable(f, plan, sibling, definition) && Split(f, plan, sibling, g) && !m.physical
    requires InFunction(f, c) && InFunction(g, d) && Linked(plan, sibling, c, d)
    ensures Executable(g)
    ensures SameBehaviour(Run(f, m, c, k), Run(g, m, d, k))
  {
    SplitExecutable(f, plan, sibling, definition, g, m, c.st);
    var rc, rd := RunsLinked(f, plan, sibling, definition, g, m, c, d, k);
  }
}
