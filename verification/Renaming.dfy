/** Renaming registers: used to replace virtual registers by colors and by spill temporaries. */
module Renaming {
  import opened Target
  import opened MachineIR

  function RewriteOperand(o: Operand, colors: map<nat, nat>): Operand {
    if o.reg in colors then o.(reg := colors[o.reg]) else o
  }

  function RewriteOperands(ops: seq<Operand>, colors: map<nat, nat>): (r: seq<Operand>)
    ensures |r| == |ops|
    ensures forall i :: 0 <= i < |ops| ==> r[i] == RewriteOperand(ops[i], colors)
  {
    seq(|ops|, i requires 0 <= i < |ops| => RewriteOperand(ops[i], colors))
  }

  function RewriteInstr(ins: Instr, colors: map<nat, nat>): Instr {
    ins.(operands := RewriteOperands(ins.operands, colors))
  }

  function RewriteInstrs(instrs: seq<Instr>, colors: map<nat, nat>): (r: seq<Instr>)
    ensures |r| == |instrs|
    ensures forall i :: 0 <= i < |instrs| ==> r[i] == RewriteInstr(instrs[i], colors)
  {
    seq(|instrs|, i requires 0 <= i < |instrs| => RewriteInstr(instrs[i], colors))
  }

  function RewriteFunction(f: Function, colors: map<nat, nat>): (r: Function)
    ensures |r.blocks| == |f.blocks|
    ensures forall b :: 0 <= b < |f.blocks| ==>
              r.blocks[b] == Block(RewriteInstrs(f.blocks[b].instrs, colors), f.blocks[b].succs)
  {
    Function(seq(|f.blocks|, b requires 0 <= b < |f.blocks| =>
               Block(RewriteInstrs(f.blocks[b].instrs, colors), f.blocks[b].succs)))
  }

  // ----- Renamed instructions compute the same -----

  /** Where register r lives after renaming. */
  function View(ren: map<nat, nat>, r: nat): nat {
    if r in ren then ren[r] else r
  }

  lemma {:induction false} RewrittenUses(ops: seq<Operand>, colors: map<nat, nat>)
    ensures |UseList(RewriteOperands(ops, colors))| == |UseList(ops)|
    ensures forall i :: 0 <= i < |UseList(ops)| ==>
              UseList(RewriteOperands(ops, colors))[i] == View(colors, UseList(ops)[i])
  {
    if ops != [] {
      assert RewriteOperands(ops, colors)[1..] == RewriteOperands(ops[1..], colors);
      RewrittenUses(ops[1..], colors);
    }
  }

  lemma {:induction false} RewrittenDefs(ops: seq<Operand>, colors: map<nat, nat>)
    ensures DefList(RewriteOperands(ops, colors)) == RewriteOperands(DefList(ops), colors)
  {
    if ops != [] {
      assert RewriteOperands(ops, colors)[1..] == RewriteOperands(ops[1..], colors);
      RewrittenDefs(ops[1..], colors);
      var head := if ops[0].isDef then [ops[0]] else [];
      assert RewriteOperands(head + DefList(ops[1..]), colors)
          == RewriteOperands(head, colors) + RewriteOperands(DefList(ops[1..]), colors);
    }
  }

  /** Both sides read the same values. */
  lemma RenamedReads(ops: seq<Operand>, ren: map<nat, nat>, v: File, p: File)
    requires forall o :: o in ops && !o.isDef ==> p(View(ren, o.reg)) == v(o.reg)
    ensures ReadAll(p, UseList(RewriteOperands(ops, ren))) == ReadAll(v, UseList(ops))
  {
    RewrittenUses(ops, ren);
    forall i | 0 <= i < |UseList(ops)|
      ensures p(UseList(RewriteOperands(ops, ren))[i]) == v(UseList(ops)[i])
    {
      UseListIsUses(ops, UseList(ops)[i]);
    }
  }

  /** Writing results keeps agreement on every register that no later result overwrites. */
  lemma {:induction false} RenamedWrites(m: Machine, pm: Machine, hist: seq<Event>, v: File, p: File,
                                         defs: seq<Operand>, k: nat, keep: set<nat>, ren: map<nat, nat>)
    requires k <= |defs| && pm.result == m.result
    requires forall d, l :: d in defs && l in keep && d.reg != l ==> View(ren, d.reg) != View(ren, l)
    requires forall l :: l in keep && (forall j :: k <= j < |defs| ==> defs[j].reg != l) ==> p(View(ren, l)) == v(l)
    ensures var v' := WriteDefs(m, hist, v, defs, k);
            var p' := WriteDefs(pm, hist, p, RewriteOperands(defs, ren), k);
            forall l :: l in keep ==> p'(View(ren, l)) == v'(l)
    decreases |defs| - k
  {
    if k < |defs| {
      var d := defs[k];
      assert d in defs;
      var val := Typed(d.cls, m.result(hist, k));
      var v1, p1 := Put(v, d.reg, val), Put(p, View(ren, d.reg), val);
      forall l | l in keep && (forall j :: k + 1 <= j < |defs| ==> defs[j].reg != l)
        ensures p1(View(ren, l)) == v1(l)
      {
        if l != d.reg {
          assert forall j :: k <= j < |defs| ==> defs[j].reg != l;
        }
      }
      RenamedWrites(m, pm, hist, v1, p1, defs, k + 1, keep, ren);
    }
  }

  /** An operation under a renaming: same event, and agreement on the registers to keep. */
  lemma RenamedOp(ins: Instr, keep: set<nat>, ren: map<nat, nat>, m: Machine, pm: Machine, v: State, p: State)
    requires !IsMove(ins) && WellFormed(ins) && WellFormed(RewriteInstr(ins, ren))
    requires pm.result == m.result && v.hist == p.hist
    requires forall r :: r in UseRegs(ins) ==> p.regs(View(ren, r)) == v.regs(r)
    requires forall d, l :: d in DefRegs(ins) && l in keep && d != l ==> View(ren, d) != View(ren, l)
    requires var hist := v.hist + [Event(ins.op, ReadAll(v.regs, UseList(ins.operands)))];
             forall l :: l in keep && l !in DefRegs(ins) ==>
                           Kept(pm, ins.op, hist, p.regs)(View(ren, l)) == Kept(m, ins.op, hist, v.regs)(l)
    ensures var v', p' := Exec(m, ins, v), Exec(pm, RewriteInstr(ins, ren), p);
            && v'.hist == p'.hist && v'.slots == v.slots && p'.slots == p.slots
            && forall l :: l in keep ==> p'.regs(View(ren, l)) == v'.regs(l)
  {
    forall o | o in ins.operands && !o.isDef ensures p.regs(View(ren, o.reg)) == v.regs(o.reg) {
      assert o.reg in UseRegs(ins);
    }
    RenamedReads(ins.operands, ren, v.regs, p.regs);
    RewrittenDefs(ins.operands, ren);
    var hist := v.hist + [Event(ins.op, ReadAll(v.regs, UseList(ins.operands)))];
    var defs := DefList(ins.operands);
    forall d | d in defs ensures d.reg in DefRegs(ins) {
      DefListIsDefs(ins.operands, d);
    }
    forall l | l in DefRegs(ins) ensures exists j :: 0 <= j < |defs| && defs[j].reg == l {
      var o :| o in ins.operands && o.isDef && o.reg == l;
      DefListIsDefs(ins.operands, o);
    }
    RenamedWrites(m, pm, hist, Kept(m, ins.op, hist, v.regs), Kept(pm, ins.op, hist, p.regs), defs, 0, keep, ren);
  }

  // ----- What an instruction leaves alone -----

  /** An instruction leaves registers it does not define alone. */
  lemma UntouchedRegister(m: Machine, ins: Instr, o: State, r: nat)
    requires WellFormed(ins) && r !in DefRegs(ins) && !(m.physical && ins.op.CALL?)
    ensures Exec(m, ins, o).regs(r) == o.regs(r)
  {
    if IsMove(ins) {
      assert ins.operands[0] in ins.operands;
    } else {
      var hist := o.hist + [Event(ins.op, ReadAll(o.regs, UseList(ins.operands)))];
      forall d | d in DefList(ins.operands) ensures d.reg != r {
        DefListIsDefs(ins.operands, d);
      }
      UnwrittenRegister(m, hist, Kept(m, ins.op, hist, o.regs), DefList(ins.operands), 0, r);
    }
  }

  lemma {:induction false} UnwrittenRegister(m: Machine, hist: seq<Event>, v: File, defs: seq<Operand>, k: nat, r: nat)
    requires k <= |defs| && forall d :: d in defs ==> d.reg != r
    ensures WriteDefs(m, hist, v, defs, k)(r) == v(r)
    decreases |defs| - k
  {
    if k < |defs| {
      assert defs[k] in defs;
      UnwrittenRegister(m, hist, Put(v, defs[k].reg, Typed(defs[k].cls, m.result(hist, k))), defs, k + 1, r);
    }
  }

  /** States that cannot be told apart. */
  ghost predicate Alike(s: State, t: State) {
    s.hist == t.hist && (forall r: nat :: s.regs(r) == t.regs(r)) && (forall k: nat :: s.slots(k) == t.slots(k))
  }

  lemma {:induction false} WritesCongruent(m: Machine, hist: seq<Event>, v: File, w: File, defs: seq<Operand>, k: nat)
    requires k <= |defs| && forall r: nat :: v(r) == w(r)
    ensures forall r: nat :: WriteDefs(m, hist, v, defs, k)(r) == WriteDefs(m, hist, w, defs, k)(r)
    decreases |defs| - k
  {
    if k < |defs| {
      var val := Typed(defs[k].cls, m.result(hist, k));
      WritesCongruent(m, hist, Put(v, defs[k].reg, val), Put(w, defs[k].reg, val), defs, k + 1);
    }
  }

  /** The effect of an instruction on registers and history does not depend on slots it does not load. */
  lemma ExecCongruent(m: Machine, ins: Instr, s: State, t: State)
    requires WellFormed(ins) && s.hist == t.hist && forall r: nat :: s.regs(r) == t.regs(r)
    requires ins.op.SPILL_LOAD? ==> s.slots(ins.op.slot) == t.slots(ins.op.slot)
    ensures var s', t' := Exec(m, ins, s), Exec(m, ins, t);
            && s'.hist == t'.hist && (forall r: nat :: s'.regs(r) == t'.regs(r))
            && (forall k: nat :: s.slots(k) == t.slots(k) ==> s'.slots(k) == t'.slots(k))
            && (ins.op.SPILL_STORE? ==> s'.slots(ins.op.slot) == t'.slots(ins.op.slot))
  {
    if !IsMove(ins) {
      var uses := UseList(ins.operands);
      assert ReadAll(s.regs, uses) == ReadAll(t.regs, uses);
      var hist := s.hist + [Event(ins.op, ReadAll(s.regs, uses))];
      WritesCongruent(m, hist, Kept(m, ins.op, hist, s.regs), Kept(m, ins.op, hist, t.regs), DefList(ins.operands), 0);
    }
  }
}
