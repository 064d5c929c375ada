/**
 The spill-everywhere rewrite: every read of a spilled register becomes a reload into a
 fresh temporary, every write is followed by a store, and a register with a recorded
 constant is recomputed instead.
 */
module Spilling {
  import opened Target
  import opened Dataflow
  import opened MachineIR
  import opened Renaming

  /** Where a spilled register's value can be found again. */
  datatype Home = Slot(slot: nat) | Recipe(value: int)

  type Homes = map<nat, Home>

  // ----- Rematerialization analysis -----

  /** Operands of the whole function that define r. */
  function DefinitionCount(ops: seq<Operand>, r: nat): nat {
    if ops == [] then 0 else (if ops[0].isDef && ops[0].reg == r then 1 else 0) + DefinitionCount(ops[1..], r)
  }

  function InstrsDefinitionCount(instrs: seq<Instr>, r: nat): nat {
    if instrs == [] then 0 else DefinitionCount(instrs[0].operands, r) + InstrsDefinitionCount(instrs[1..], r)
  }

  function FunctionDefinitionCount(blocks: seq<Block>, r: nat): nat {
    if blocks == [] then 0 else InstrsDefinitionCount(blocks[0].instrs, r) + FunctionDefinitionCount(blocks[1..], r)
  }

  /** The instruction is a constant definition of r. */
  predicate DefinesConstant(ins: Instr, r: nat, n: int) {
    ins.op == MOVI(n) && |ins.operands| == 1 && ins.operands[0].isDef && ins.operands[0].reg == r
  }

  /** All definitions of r, searched block by block: the constant they give it, if every one
      of them is the same single instruction. */
  ghost predicate OnlyDefinition(f: Function, r: nat, n: int) {
    && FunctionDefinitionCount(f.blocks, r) == 1
    && exists b, i :: 0 <= b < |f.blocks| && 0 <= i < |f.blocks[b].instrs|
                      && DefinesConstant(f.blocks[b].instrs[i], r, n)
  }

  /** Every write of r anywhere is the constant definition. */
  ghost predicate DefinedOnlyAs(f: Function, r: nat, n: int) {
    forall b, i :: 0 <= b < |f.blocks| && 0 <= i < |f.blocks[b].instrs| && r in DefRegs(f.blocks[b].instrs[i]) ==>
                     DefinesConstant(f.blocks[b].instrs[i], r, n)
  }

  lemma {:induction false} CountedOperand(ops: seq<Operand>, r: nat, o: Operand)
    requires o in ops && o.isDef && o.reg == r
    ensures DefinitionCount(ops, r) >= 1
  {
    if ops[0] != o { CountedOperand(ops[1..], r, o); }
  }

  lemma {:induction false} CountedInstr(instrs: seq<Instr>, r: nat, i: nat)
    requires i < |instrs| && r in DefRegs(instrs[i])
    ensures InstrsDefinitionCount(instrs, r) >= 1
  {
    if i == 0 {
      var o :| o in instrs[0].operands && o.isDef && o.reg == r;
      CountedOperand(instrs[0].operands, r, o);
    } else {
      assert instrs[1..][i - 1] == instrs[i];
      CountedInstr(instrs[1..], r, i - 1);
    }
  }

  lemma {:induction false} CountedTwiceInBlock(instrs: seq<Instr>, r: nat, i: nat, j: nat)
    requires i < j < |instrs| && r in DefRegs(instrs[i]) && r in DefRegs(instrs[j])
    ensures InstrsDefinitionCount(instrs, r) >= 2
  {
    if i == 0 {
      var o :| o in instrs[0].operands && o.isDef && o.reg == r;
      CountedOperand(instrs[0].operands, r, o);
      assert instrs[1..][j - 1] == instrs[j];
      CountedInstr(instrs[1..], r, j - 1);
    } else {
      assert instrs[1..][i - 1] == instrs[i] && instrs[1..][j - 1] == instrs[j];
      CountedTwiceInBlock(instrs[1..], r, i - 1, j - 1);
    }
  }

  lemma {:induction false} CountedBlock(blocks: seq<Block>, r: nat, b: nat, i: nat)
    requires b < |blocks| && i < |blocks[b].instrs| && r in DefRegs(blocks[b].instrs[i])
    ensures FunctionDefinitionCount(blocks, r) >= 1
  {
    if b == 0 {
      CountedInstr(blocks[0].instrs, r, i);
    } else {
      assert blocks[1..][b - 1] == blocks[b];
      CountedBlock(blocks[1..], r, b - 1, i);
    }
  }

  lemma {:induction false} CountedTwice(blocks: seq<Block>, r: nat, b: nat, i: nat, c: nat, j: nat)
    requires b < |blocks| && i < |blocks[b].instrs| && r in DefRegs(blocks[b].instrs[i])
    requires c < |blocks| && j < |blocks[c].instrs| && r in DefRegs(blocks[c].instrs[j])
    requires b < c || (b == c && i < j)
    ensures FunctionDefinitionCount(blocks, r) >= 2
  {
    if b == 0 {
      if c == 0 {
        CountedTwiceInBlock(blocks[0].instrs, r, i, j);
      } else {
        CountedInstr(blocks[0].instrs, r, i);
        assert blocks[1..][c - 1] == blocks[c];
        CountedBlock(blocks[1..], r, c - 1, j);
      }
    } else {
      assert blocks[1..][b - 1] == blocks[b] && blocks[1..][c - 1] == blocks[c];
      CountedTwice(blocks[1..], r, b - 1, i, c - 1, j);
    }
  }

  /** A unique definition that is a constant is the only write there is. */
  lemma UniqueDefinitionDecides(f: Function, r: nat, n: int)
    requires OnlyDefinition(f, r, n)
    ensures DefinedOnlyAs(f, r, n)
  {
    var b, i :| 0 <= b < |f.blocks| && 0 <= i < |f.blocks[b].instrs| && DefinesConstant(f.blocks[b].instrs[i], r, n);
    var ins := f.blocks[b].instrs[i];
    assert ins.operands[0] in ins.operands;
    assert r in DefRegs(ins);
    forall c, j | 0 <= c < |f.blocks| && 0 <= j < |f.blocks[c].instrs| && r in DefRegs(f.blocks[c].instrs[j])
      ensures DefinesConstant(f.blocks[c].instrs[j], r, n)
    {
      if b < c || (b == c && i < j) {
        CountedTwice(f.blocks, r, b, i, c, j);
      } else if c < b || (b == c && j < i) {
        CountedTwice(f.blocks, r, c, j, b, i);
      }
    }
  }

  // ----- The rewrite of one instruction -----

  function LoadOf(r: nat, homes: Homes, cls: RegClass, temp: nat): Instr
    requires r in homes
  {
    match homes[r]
    case Slot(s) => Instr(SPILL_LOAD(s), [Operand(temp, cls, true)])
    case Recipe(n) => Instr(MOVI(n), [Operand(temp, cls, true)])
  }

  function LoadsOf(rs: seq<nat>, homes: Homes, cls: map<nat, RegClass>, temps: map<nat, nat>): (code: seq<Instr>)
    requires forall r :: r in rs ==> r in homes && r in cls && r in temps
    ensures |code| == |rs| && AllWellFormed(code)
  {
    seq(|rs|, i requires 0 <= i < |rs| => LoadOf(rs[i], homes, cls[rs[i]], temps[rs[i]]))
  }

  /** Stores of the registers that live in slots; recomputed registers need none. */
  function StoresOf(rs: seq<nat>, homes: Homes, cls: map<nat, RegClass>, temps: map<nat, nat>): (code: seq<Instr>)
    requires forall r :: r in rs ==> r in homes && r in cls && r in temps
    ensures AllWellFormed(code)
  {
    if rs == [] then []
    else (if homes[rs[0]].Slot? then [Instr(SPILL_STORE(homes[rs[0]].slot), [Operand(temps[rs[0]], cls[rs[0]], false)])]
          else []) + StoresOf(rs[1..], homes, cls, temps)
  }

  /** Constant definitions of recomputed registers disappear. */
  predicate Dead(ins: Instr, homes: Homes) {
    ins.op.MOVI? && |ins.operands| == 1 && ins.operands[0].isDef
    && ins.operands[0].reg in homes && homes[ins.operands[0].reg] == Recipe(ins.op.value)
  }

  /** Temporaries of one instruction: fresh, and different for different registers. */
  ghost predicate Temporaries(ins: Instr, homes: Homes, base: nat, temps: map<nat, nat>) {
    && temps.Keys == (UseRegs(ins) + DefRegs(ins)) * homes.Keys
    && (forall r :: r in temps ==> temps[r] >= base)
    && (forall r, q :: r in temps && q in temps && r != q ==> temps[r] != temps[q])
  }

  ghost predicate Lists(rs: seq<nat>, all: set<nat>) {
    forall r :: r in rs <==> r in all
  }

  ghost predicate Classified(ins: Instr, homes: Homes, cls: map<nat, RegClass>) {
    && WellFormed(ins) && homes.Keys <= cls.Keys
    && (forall o :: o in ins.operands && o.reg in homes ==> o.cls == cls[o.reg])
  }

  /** Reloads, the renamed instruction, stores: for any order of the reloads and of the stores. */
  ghost predicate Expands(ins: Instr, homes: Homes, cls: map<nat, RegClass>, base: nat, code: seq<Instr>)
    requires Classified(ins, homes, cls)
  {
    if Dead(ins, homes) then code == []
    else exists temps, loads, stores ::
        ExpandsWith(ins, homes, cls, base, code, temps, loads, stores)
  }

  ghost predicate ExpandsWith(ins: Instr, homes: Homes, cls: map<nat, RegClass>, base: nat, code: seq<Instr>,
                              temps: map<nat, nat>, loads: seq<nat>, stores: seq<nat>)
    requires Classified(ins, homes, cls)
  {
    && Temporaries(ins, homes, base, temps)
    && Lists(loads, UseRegs(ins) * homes.Keys) && Lists(stores, DefRegs(ins) * homes.Keys)
    && code == LoadsOf(loads, homes, cls, temps) + [RewriteInstr(ins, temps)] + StoresOf(stores, homes, cls, temps)
  }

  lemma RenamedWellFormed(ins: Instr, ren: map<nat, nat>)
    requires WellFormed(ins)
    ensures WellFormed(RewriteInstr(ins, ren))
  {
  }

  // ----- The simulation relation -----

  /** Different registers have different slots. */
  ghost predicate Separate(homes: Homes) {
    forall r, q :: r in homes && q in homes && r != q && homes[r].Slot? && homes[q].Slot? ==>
                     homes[r].slot != homes[q].slot
  }

  ghost predicate IsHomeSlot(homes: Homes, s: nat) {
    exists r :: r in homes && homes[r] == Slot(s)
  }

  /** The value r had before spilling can be read from its home. */
  ghost predicate AtHome(homes: Homes, cls: map<nat, RegClass>, r: nat, o: State, n: State)
    requires r in homes && r in cls
  {
    match homes[r]
    case Slot(s) => n.slots(s) == o.regs(r)
    case Recipe(c) => o.regs(r) == Typed(cls[r], c)
  }

  /** What an instruction reads from and writes to spill slots. */
  function SlotTraffic(ins: Instr): Access {
    match ins.op
    case SPILL_LOAD(s) => Access({s}, {})
    case SPILL_STORE(s) => Access({}, {s})
    case _ => Access({}, {})
  }

  function SlotTraffics(instrs: seq<Instr>): (a: seq<Access>)
    ensures |a| == |instrs|
    ensures forall i :: 0 <= i < |instrs| ==> a[i] == SlotTraffic(instrs[i])
  {
    seq(|instrs|, i requires 0 <= i < |instrs| => SlotTraffic(instrs[i]))
  }

  /** Slots that the original code still reads, slotsLive, hold the same on both sides even where
      they are homes: an earlier split of the register's range left them behind. */
  ghost predicate Mirrors(homes: Homes, cls: map<nat, RegClass>, base: nat, live: set<nat>, slotsLive: set<nat>,
                          o: State, n: State) {
    && homes.Keys <= cls.Keys
    && o.hist == n.hist
    && (forall r :: r in live ==> r < base)
    && (forall r :: r in live && r !in homes ==> n.regs(r) == o.regs(r))
    && (forall r :: r in live && r in homes ==> AtHome(homes, cls, r, o, n))
    && (forall s: nat :: !IsHomeSlot(homes, s) || s in slotsLive ==> n.slots(s) == o.slots(s))
  }

  /** A reload or recomputation brings the home's value and changes nothing else. */
  lemma LoadRuns(m: Machine, r: nat, homes: Homes, cls: map<nat, RegClass>, temp: nat, o: State, n: State)
    requires r in homes && r in cls && AtHome(homes, cls, r, o, n)
    ensures var n' := Exec(m, LoadOf(r, homes, cls[r], temp), n);
            && n'.hist == n.hist && n'.slots == n.slots && n'.regs(temp) == o.regs(r)
            && (forall x: nat :: x != temp ==> n'.regs(x) == n.regs(x))
  {
  }

  lemma {:induction false} LoadsRun(m: Machine, rs: seq<nat>, homes: Homes, cls: map<nat, RegClass>,
                                    temps: map<nat, nat>, o: State, n: State)
    requires homes.Keys <= cls.Keys
    requires forall r :: r in rs ==> r in homes && r in temps && AtHome(homes, cls, r, o, n)
    requires forall r, q :: r in temps && q in temps && r != q ==> temps[r] != temps[q]
    ensures var n' := ExecSeq(m, LoadsOf(rs, homes, cls, temps), n);
            && n'.hist == n.hist && n'.slots == n.slots
            && (forall x: nat :: (forall r :: r in rs ==> temps[r] != x) ==> n'.regs(x) == n.regs(x))
            && (forall r :: r in rs ==> n'.regs(temps[r]) == o.regs(r))
    decreases |rs|
  {
    if rs != [] {
      var code := LoadsOf(rs, homes, cls, temps);
      assert code[1..] == LoadsOf(rs[1..], homes, cls, temps);
      var n1 := Exec(m, code[0], n);
      LoadRuns(m, rs[0], homes, cls, temps[rs[0]], o, n);
      forall r | r in rs[1..] ensures AtHome(homes, cls, r, o, n1) {
        assert r in rs && AtHome(homes, cls, r, o, n);
      }
      LoadsRun(m, rs[1..], homes, cls, temps, o, n1);
    }
  }

  lemma {:induction false} StoresRun(m: Machine, rs: seq<nat>, homes: Homes, cls: map<nat, RegClass>,
                                     temps: map<nat, nat>, n: State)
    requires Separate(homes)
    requires forall r :: r in rs ==> r in homes && r in temps && r in cls
    ensures var n' := ExecSeq(m, StoresOf(rs, homes, cls, temps), n);
            && n'.hist == n.hist && n'.regs == n.regs
            && (forall s: nat :: (forall r :: r in rs ==> homes[r] != Slot(s)) ==> n'.slots(s) == n.slots(s))
            && (forall r :: r in rs && homes[r].Slot? ==> n'.slots(homes[r].slot) == n.regs(temps[r]))
    decreases |rs|
  {
    if rs != [] {
      var rest := StoresOf(rs[1..], homes, cls, temps);
      var code := StoresOf(rs, homes, cls, temps);
      if homes[rs[0]].Slot? {
        assert code[1..] == rest;
        StoresRun(m, rs[1..], homes, cls, temps, Exec(m, code[0], n));
        forall r | r in rs && homes[r].Slot?
          ensures r in rs[1..] || r == rs[0]
        {
        }
      } else {
        assert code == rest;
        StoresRun(m, rs[1..], homes, cls, temps, n);
      }
    }
  }

  /** The renamed instruction itself, between reloads and stores. */
  lemma MiddleRuns(m: Machine, ins: Instr, homes: Homes, temps: map<nat, nat>, base: nat, keep: set<nat>,
                   o: State, n: State)
    requires WellFormed(ins) && Temporaries(ins, homes, base, temps) && !m.physical
    requires o.hist == n.hist
    requires forall r :: r in UseRegs(ins) ==> n.regs(View(temps, r)) == o.regs(r)
    requires forall l :: l in keep ==> l < base && (l in homes ==> l in DefRegs(ins))
    requires forall d :: d in DefRegs(ins) ==> d < base
    requires forall l :: l in keep && l !in DefRegs(ins) ==> n.regs(l) == o.regs(l)
    requires forall s :: ins.op == SPILL_LOAD(s) ==> n.slots(s) == o.slots(s)
    ensures WellFormed(RewriteInstr(ins, temps))
    ensures var o', n' := Exec(m, ins, o), Exec(m, RewriteInstr(ins, temps), n);
            && o'.hist == n'.hist
            && (forall l :: l in keep ==> n'.regs(View(temps, l)) == o'.regs(l))
            && (forall s: nat :: n.slots(s) == o.slots(s) ==> n'.slots(s) == o'.slots(s))
            && (forall s: nat :: ins.op != SPILL_STORE(s) ==> n'.slots(s) == n.slots(s) && o'.slots(s) == o.slots(s))
            && (forall s: nat :: ins.op == SPILL_STORE(s) ==>
                  n'.slots(s) == o'.slots(s) == o.regs(ins.operands[0].reg))
  {
    RenamedWellFormed(ins, temps);
    forall d, l | d in DefRegs(ins) && l in keep && d != l ensures View(temps, d) != View(temps, l) {
    }
    forall l | l in keep && l !in DefRegs(ins) ensures View(temps, l) == l {
    }
    if IsMove(ins) {
      MoveReads(ins);
    } else {
      RenamedOp(ins, keep, temps, m, m, o, n);
    }
  }

  lemma MoveReads(ins: Instr)
    requires WellFormed(ins) && IsMove(ins)
    ensures ins.op.COPY? ==> ins.operands[1].reg in UseRegs(ins)
    ensures ins.op.SPILL_STORE? ==> ins.operands[0].reg in UseRegs(ins)
    ensures !ins.op.SPILL_STORE? ==> DefRegs(ins) == {ins.operands[0].reg}
  {
    var a := ins.operands[0];
    assert a in ins.operands;
    if ins.op.COPY? {
      assert ins.operands[1] in ins.operands;
    }
  }

  /** Only the register whose home a slot is may be stored there, nothing that is still to be read
      is in its home when it is defined, and recomputed registers are only ever defined by their
      constant. */
  ghost predicate SpillSafe(ins: Instr, homes: Homes, base: nat, slotsAfter: set<nat>) {
    && (forall s :: ins.op == SPILL_STORE(s) && IsHomeSlot(homes, s) ==> StoresItsOwn(ins, homes, s))
    && (forall d :: d in DefRegs(ins) && d in homes && homes[d].Slot? ==> homes[d].slot !in slotsAfter)
    && (forall d :: d in DefRegs(ins) ==> d < base)
    && (forall d :: d in DefRegs(ins) && d in homes && homes[d].Recipe? ==> DefinesConstant(ins, d, homes[d].value))
  }

  ghost predicate StoresItsOwn(ins: Instr, homes: Homes, s: nat) {
    |ins.operands| == 1 && ins.operands[0].reg in homes && homes[ins.operands[0].reg] == Slot(s)
  }

  /** Slots the code reads before it writes them, from this instruction on. */
  function SlotsBefore(ins: Instr, slotsAfter: set<nat>): set<nat> {
    SlotTraffic(ins).uses + (slotsAfter - SlotTraffic(ins).defs)
  }

  /** One original instruction against its expansion. */
  lemma ExpansionMirrors(m: Machine, ins: Instr, homes: Homes, cls: map<nat, RegClass>, base: nat,
                         code: seq<Instr>, after: set<nat>, slotsAfter: set<nat>, o: State, n: State)
    requires Classified(ins, homes, cls) && Expands(ins, homes, cls, base, code) && Separate(homes) && !m.physical
    requires SpillSafe(ins, homes, base, slotsAfter) && forall r :: r in after ==> r < base
    requires Mirrors(homes, cls, base, UseRegs(ins) + (after - DefRegs(ins)), SlotsBefore(ins, slotsAfter), o, n)
    ensures AllWellFormed(code)
    ensures Mirrors(homes, cls, base, after, slotsAfter, Exec(m, ins, o), ExecSeq(m, code, n))
  {
    if Dead(ins, homes) {
      var a := ins.operands[0];
      assert a in ins.operands && a.reg in DefRegs(ins) && DefRegs(ins) == {a.reg};
    } else {
      var temps, loads, stores :| ExpandsWith(ins, homes, cls, base, code, temps, loads, stores);
      LiveExpansionMirrors(m, ins, homes, cls, base, code, after, slotsAfter, o, n, temps, loads, stores);
    }
  }

  lemma SandwichRuns(m: Machine, first: seq<Instr>, middle: Instr, last: seq<Instr>, n: State)
    requires AllWellFormed(first) && WellFormed(middle) && AllWellFormed(last)
    ensures AllWellFormed(first + [middle] + last)
    ensures ExecSeq(m, first + [middle] + last, n) == ExecSeq(m, last, Exec(m, middle, ExecSeq(m, first, n)))
  {
    ExecSeqAppend(m, first, [middle], n);
    ExecSeqAppend(m, first + [middle], last, n);
    var n1 := ExecSeq(m, first, n);
    assert [middle][1..] == [];
    assert ExecSeq(m, [middle], n1) == Exec(m, middle, n1);
  }

  lemma LiveExpansionMirrors(m: Machine, ins: Instr, homes: Homes, cls: map<nat, RegClass>, base: nat,
                             code: seq<Instr>, after: set<nat>, slotsAfter: set<nat>, o: State, n: State,
                             temps: map<nat, nat>, loads: seq<nat>, stores: seq<nat>)
    requires Classified(ins, homes, cls) && Separate(homes) && !m.physical && !Dead(ins, homes)
    requires ExpandsWith(ins, homes, cls, base, code, temps, loads, stores)
    requires SpillSafe(ins, homes, base, slotsAfter) && forall r :: r in after ==> r < base
    requires Mirrors(homes, cls, base, UseRegs(ins) + (after - DefRegs(ins)), SlotsBefore(ins, slotsAfter), o, n)
    ensures AllWellFormed(code)
    ensures Mirrors(homes, cls, base, after, slotsAfter, Exec(m, ins, o), ExecSeq(m, code, n))
  {
    var first, last := LoadsOf(loads, homes, cls, temps), StoresOf(stores, homes, cls, temps);
    var middle := RewriteInstr(ins, temps);
    RenamedWellFormed(ins, temps);
    LoadsRun(m, loads, homes, cls, temps, o, n);
    var n1 := ExecSeq(m, first, n);
    forall r | r in UseRegs(ins) ensures n1.regs(View(temps, r)) == o.regs(r) {
      if r in homes { assert r in loads; }
    }
    var keep := (set l | l in after && l !in homes) + DefRegs(ins);
    MiddleRuns(m, ins, homes, temps, base, keep, o, n1);
    var n2 := Exec(m, middle, n1);
    StoresRun(m, stores, homes, cls, temps, n2);
    SandwichRuns(m, first, middle, last, n);
    StoredMirrors(m, ins, homes, cls, base, after, slotsAfter, temps, stores, o, n, n2, ExecSeq(m, last, n2));
  }

  /** After the stores every live register is mirrored again. */
  lemma StoredMirrors(m: Machine, ins: Instr, homes: Homes, cls: map<nat, RegClass>, base: nat, after: set<nat>,
                      slotsAfter: set<nat>,
                      temps: map<nat, nat>, stores: seq<nat>, o: State, n: State, n2: State, n3: State)
    requires Classified(ins, homes, cls) && Separate(homes) && SpillSafe(ins, homes, base, slotsAfter)
      && !Dead(ins, homes)
    requires !m.physical
    requires Temporaries(ins, homes, base, temps) && Lists(stores, DefRegs(ins) * homes.Keys)
    requires forall r :: r in after ==> r < base
    requires Mirrors(homes, cls, base, UseRegs(ins) + (after - DefRegs(ins)), SlotsBefore(ins, slotsAfter), o, n)
    requires var o' := Exec(m, ins, o);
             && o'.hist == n2.hist
             && (forall l :: (l in after && l !in homes) || l in DefRegs(ins) ==> n2.regs(View(temps, l)) == o'.regs(l))
             && (forall s: nat :: n.slots(s) == o.slots(s) ==> n2.slots(s) == o'.slots(s))
             && (forall s: nat :: ins.op != SPILL_STORE(s) ==> n2.slots(s) == n.slots(s) && o'.slots(s) == o.slots(s))
             && (forall s: nat :: ins.op == SPILL_STORE(s) ==>
                   n2.slots(s) == o'.slots(s) == o.regs(ins.operands[0].reg))
    requires n3.hist == n2.hist && n3.regs == n2.regs
    requires forall s: nat :: (forall r :: r in stores ==> homes[r] != Slot(s)) ==> n3.slots(s) == n2.slots(s)
    requires forall r :: r in stores && homes[r].Slot? ==> n3.slots(homes[r].slot) == n2.regs(temps[r])
    ensures Mirrors(homes, cls, base, after, slotsAfter, Exec(m, ins, o), n3)
  {
    var o' := Exec(m, ins, o);
    forall r | r in after && r in homes ensures AtHome(homes, cls, r, o', n3) {
      if r in DefRegs(ins) {
        assert r in stores;
        assert homes[r].Slot?;
      } else {
        UntouchedRegister(m, ins, o, r);
        if homes[r].Slot? {
          var s := homes[r].slot;
          assert IsHomeSlot(homes, s);
          if ins.op == SPILL_STORE(s) {
            assert StoresItsOwn(ins, homes, s);
            assert ins.operands[0].reg == r;
          }
          forall q | q in stores ensures homes[q] != Slot(s) {
            assert q in DefRegs(ins) * homes.Keys;
          }
        }
      }
    }
    forall s: nat | !IsHomeSlot(homes, s) || s in slotsAfter ensures n3.slots(s) == o'.slots(s) {
      forall q | q in stores ensures homes[q] != Slot(s) {
        assert q in DefRegs(ins) * homes.Keys;
      }
      if ins.op != SPILL_STORE(s) { assert !IsHomeSlot(homes, s) || s in SlotsBefore(ins, slotsAfter); }
    }
    forall l | l in after && l !in homes ensures n3.regs(l) == o'.regs(l) {
      assert View(temps, l) == l;
    }
  }
}
