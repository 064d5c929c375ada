/**
 Why a coloring is a correct allocation: the rewritten program goes through the same blocks
 with the same history as the virtual one, whatever operations and calls compute.
 */
module Allocation {
  import opened Target
  import opened Dataflow
  import opened MachineIR
  import opened Renaming

  /** Classes of virtual registers, and which spill slots hold 128-bit values. */
  datatype Typing = Typing(cls: map<nat, RegClass>, wideSlots: set<nat>)

  ghost predicate AllColored(instrs: seq<Instr>, colors: map<nat, nat>) {
    forall i, o :: 0 <= i < |instrs| && o in instrs[i].operands ==> o.reg in colors
  }

  /** Replaces every virtual register by its color; fails on a register without one. */
  method RewriteVirtualRegisters(f: Function, colors: map<nat, nat>) returns (ok: bool, r: Function)
    ensures ok <==> forall b :: 0 <= b < |f.blocks| ==> AllColored(f.blocks[b].instrs, colors)
    ensures ok ==> r == RewriteFunction(f, colors)
  {
    var blocks: seq<Block> := [];
    r := Function([]);
    for b := 0 to |f.blocks|
      invariant blocks == RewriteFunction(f, colors).blocks[..b]
      invariant forall a :: 0 <= a < b ==> AllColored(f.blocks[a].instrs, colors)
    {
      var instrs: seq<Instr> := [];
      for i := 0 to |f.blocks[b].instrs|
        invariant instrs == RewriteInstrs(f.blocks[b].instrs, colors)[..i]
        invariant forall j, o :: 0 <= j < i && o in f.blocks[b].instrs[j].operands ==> o.reg in colors
      {
        var ins := f.blocks[b].instrs[i];
        var ops := ins.operands;
        for k := 0 to |ops|
          invariant |ops| == |ins.operands|
          invariant forall j :: 0 <= j < k ==> ins.operands[j].reg in colors
          invariant forall j :: 0 <= j < |ops| ==>
                      ops[j] == if j < k then RewriteOperand(ins.operands[j], colors) else ins.operands[j]
        {
          if ops[k].reg !in colors {
            assert ins.operands[k] in f.blocks[b].instrs[i].operands;
            return false, r;
          }
          ops := ops[k := ops[k].(reg := colors[ops[k].reg])];
        }
        assert ops == RewriteOperands(ins.operands, colors);
        instrs := instrs + [ins.(operands := ops)];
      }
      assert instrs == RewriteInstrs(f.blocks[b].instrs, colors);
      blocks := blocks + [Block(instrs, f.blocks[b].succs)];
    }
    assert blocks == RewriteFunction(f, colors).blocks;
    return true, Function(blocks);
  }

  // ----- What a correct allocation satisfies at one instruction -----

  /** The operand's register has a color and its recorded class. */
  ghost predicate OperandOk(o: Operand, t: Typing, colors: map<nat, nat>) {
    o.reg in colors && o.reg in t.cls && o.cls == t.cls[o.reg]
  }

  /** Moves never change the width of a value. */
  ghost predicate MoveTyped(ins: Instr, t: Typing)
    requires WellFormed(ins)
  {
    match ins.op
    case COPY => (ins.operands[0].cls == NEON128) == (ins.operands[1].cls == NEON128)
    case SPILL_LOAD(s) => (ins.operands[0].cls == NEON128) == (s in t.wideSlots)
    case SPILL_STORE(s) => (ins.operands[0].cls == NEON128) == (s in t.wideSlots)
    case _ => true
  }

  /** A definition may share its color with a live register only across a copy of that register. */
  ghost predicate Separated(ins: Instr, after: set<nat>, colors: map<nat, nat>) {
    forall d, l :: (d in DefRegs(ins) && l in after && d != l && d in colors && l in colors
                    && !(ins.op.COPY? && l in UseRegs(ins))) ==> colors[d] != colors[l]
  }

  /** Whatever is live after a call sits in a preserved register and fits its preserved part. */
  ghost predicate SurvivesCall(ins: Instr, after: set<nat>, t: Typing, colors: map<nat, nat>) {
    ins.op.CALL? ==> forall l :: l in after && l in colors && l in t.cls ==>
                                   IsCalleeSaved(colors[l]) && t.cls[l] != NEON128
  }

  ghost predicate ProperAt(ins: Instr, after: set<nat>, t: Typing, colors: map<nat, nat>) {
    && WellFormed(ins) && MoveTyped(ins, t)
    && after <= colors.Keys && after <= t.cls.Keys
    && (forall o :: o in ins.operands ==> OperandOk(o, t, colors))
    && Separated(ins, after, colors)
    && SurvivesCall(ins, after, t, colors)
  }

  /** Live registers hold the same values on both sides, and slots are equal and well typed. */
  ghost predicate Agree(live: set<nat>, t: Typing, colors: map<nat, nat>, v: State, p: State) {
    && live <= colors.Keys && live <= t.cls.Keys
    && v.hist == p.hist
    && (forall s: nat :: v.slots(s) == p.slots(s) && (s !in t.wideSlots ==> v.slots(s).Scalar?))
    && (forall r :: r in live ==> p.regs(colors[r]) == v.regs(r) && (t.cls[r] != NEON128 ==> v.regs(r).Scalar?))
  }

  // ----- One instruction -----

  /** Results written to registers of narrow classes are scalars. */
  lemma {:induction false} WrittenTyped(m: Machine, hist: seq<Event>, v: File, defs: seq<Operand>, k: nat,
                                        l: nat, t: Typing)
    requires k <= |defs| && l in t.cls && t.cls[l] != NEON128
    requires forall d :: d in defs && d.reg == l ==> d.cls == t.cls[l]
    requires (forall j :: k <= j < |defs| ==> defs[j].reg != l) ==> v(l).Scalar?
    ensures WriteDefs(m, hist, v, defs, k)(l).Scalar?
    decreases |defs| - k
  {
    if k < |defs| {
      assert defs[k] in defs;
      var v1 := Put(v, defs[k].reg, Typed(defs[k].cls, m.result(hist, k)));
      if (forall j :: k + 1 <= j < |defs| ==> defs[j].reg != l) && defs[k].reg != l {
        assert forall j :: k <= j < |defs| ==> defs[j].reg != l;
      }
      WrittenTyped(m, hist, v1, defs, k + 1, l, t);
    }
  }

  lemma OpSimulates(ins: Instr, after: set<nat>, t: Typing, colors: map<nat, nat>, m: Machine, v: State, p: State)
    requires !IsMove(ins) && ProperAt(ins, after, t, colors) && !m.physical
    requires Agree(UseRegs(ins) + (after - DefRegs(ins)), t, colors, v, p)
    ensures Agree(after, t, colors, Exec(m, ins, v), Exec(m.(physical := true), RewriteInstr(ins, colors), p))
  {
    var pm := m.(physical := true);
    var hist := v.hist + [Event(ins.op, ReadAll(v.regs, UseList(ins.operands)))];
    var kept, vkept := Kept(pm, ins.op, hist, p.regs), Kept(m, ins.op, hist, v.regs);
    forall l | l in after && l !in DefRegs(ins)
      ensures kept(colors[l]) == vkept(l) && (t.cls[l] != NEON128 ==> vkept(l).Scalar?)
    {
      assert l in UseRegs(ins) + (after - DefRegs(ins));
      assert ins.op.CALL? ==> Preserved(colors[l], p.regs(colors[l]));
    }
    RenamedOp(ins, after, colors, m, pm, v, p);
    var defs := DefList(ins.operands);
    forall d | d in defs ensures d in ins.operands {
      DefListIsDefs(ins.operands, d);
    }
    forall l | l in DefRegs(ins) ensures exists j :: 0 <= j < |defs| && defs[j].reg == l {
      var o :| o in ins.operands && o.isDef && o.reg == l;
      DefListIsDefs(ins.operands, o);
    }
    forall l | l in after && t.cls[l] != NEON128 ensures Exec(m, ins, v).regs(l).Scalar? {
      WrittenTyped(m, hist, vkept, defs, 0, l, t);
    }
  }

  lemma MoveSimulates(ins: Instr, after: set<nat>, t: Typing, colors: map<nat, nat>, m: Machine, v: State, p: State)
    requires IsMove(ins) && ProperAt(ins, after, t, colors) && !m.physical
    requires Agree(UseRegs(ins) + (after - DefRegs(ins)), t, colors, v, p)
    ensures Agree(after, t, colors, Exec(m, ins, v), Exec(m.(physical := true), RewriteInstr(ins, colors), p))
  {
    var o := ins.operands[0];
    assert o in ins.operands;
    match ins.op {
      case COPY =>
        var u := ins.operands[1];
        assert u in ins.operands;
        assert u.reg in UseRegs(ins) && o.reg in DefRegs(ins);
        forall l | l in after && l != o.reg
          ensures colors[l] == colors[o.reg] ==> v.regs(l) == v.regs(u.reg)
        {
          if colors[l] == colors[o.reg] {
            assert l in UseRegs(ins);
            assert l == u.reg by {
              var x :| x in ins.operands && !x.isDef && x.reg == l;
            }
          }
        }
      case MOVI(_) =>
        assert o.reg in DefRegs(ins);
      case SPILL_LOAD(_) =>
        assert o.reg in DefRegs(ins);
      case SPILL_STORE(_) =>
        assert o.reg in UseRegs(ins);
    }
  }

  // ----- Blocks and runs -----

  ghost predicate ProperBlock(instrs: seq<Instr>, out: set<nat>, t: Typing, colors: map<nat, nat>) {
    forall i :: 0 <= i < |instrs| ==>
                  ProperAt(instrs[i], LiveBefore(Accesses(instrs[i + 1..]), out), t, colors)
  }

  lemma {:induction false} BlockSimulates(instrs: seq<Instr>, out: set<nat>, t: Typing, colors: map<nat, nat>,
                                          m: Machine, v: State, p: State)
    requires ProperBlock(instrs, out, t, colors) && !m.physical
    requires Agree(LiveBefore(Accesses(instrs), out), t, colors, v, p)
    ensures AllWellFormed(instrs) && AllWellFormed(RewriteInstrs(instrs, colors))
    ensures Agree(out, t, colors, ExecSeq(m, instrs, v),
                  ExecSeq(m.(physical := true), RewriteInstrs(instrs, colors), p))
    decreases |instrs|
  {
    forall i | 0 <= i < |instrs| ensures WellFormed(instrs[i]) && WellFormed(RewriteInstrs(instrs, colors)[i]) {
      assert ProperAt(instrs[i], LiveBefore(Accesses(instrs[i + 1..]), out), t, colors);
    }
    if instrs != [] {
      var after := LiveBefore(Accesses(instrs[1..]), out);
      assert Accesses(instrs)[1..] == Accesses(instrs[1..]);
      assert ProperAt(instrs[0], after, t, colors);
      if IsMove(instrs[0]) {
        MoveSimulates(instrs[0], after, t, colors, m, v, p);
      } else {
        OpSimulates(instrs[0], after, t, colors, m, v, p);
      }
      var rest := instrs[1..];
      forall i | 0 <= i < |rest|
        ensures ProperAt(rest[i], LiveBefore(Accesses(rest[i + 1..]), out), t, colors)
      {
        assert rest[i + 1..] == instrs[i + 2..];
        assert ProperAt(instrs[i + 1], LiveBefore(Accesses(instrs[i + 2..]), out), t, colors);
      }
      assert RewriteInstrs(instrs, colors)[1..] == RewriteInstrs(rest, colors);
      BlockSimulates(rest, out, t, colors, m, Exec(m, instrs[0], v),
                     Exec(m.(physical := true), RewriteInstr(instrs[0], colors), p));
    }
  }

  /** Live sets closed under control flow, and a proper coloring at every instruction. */
  ghost predicate ProperAllocation(f: Function, t: Typing, colors: map<nat, nat>, liveOut: seq<set<nat>>) {
    && ValidFunction(f) && |liveOut| == |f.blocks|
    && (forall b, s :: 0 <= b < |f.blocks| && s in f.blocks[b].succs ==>
                         LiveBefore(Accesses(f.blocks[s].instrs), liveOut[s]) <= liveOut[b])
    && (forall b :: 0 <= b < |f.blocks| ==> ProperBlock(f.blocks[b].instrs, liveOut[b], t, colors))
  }

  lemma ProperIsExecutable(f: Function, t: Typing, colors: map<nat, nat>, liveOut: seq<set<nat>>)
    requires ProperAllocation(f, t, colors, liveOut)
    ensures Executable(f) && Executable(RewriteFunction(f, colors))
  {
    forall b | 0 <= b < |f.blocks|
      ensures AllWellFormed(f.blocks[b].instrs) && AllWellFormed(RewriteInstrs(f.blocks[b].instrs, colors))
    {
      forall i | 0 <= i < |f.blocks[b].instrs|
        ensures WellFormed(f.blocks[b].instrs[i]) && WellFormed(RewriteInstrs(f.blocks[b].instrs, colors)[i])
      {
        assert ProperAt(f.blocks[b].instrs[i], LiveBefore(Accesses(f.blocks[b].instrs[i + 1..]), liveOut[b]), t,
                        colors);
      }
    }
  }

  /** Control at the same place, live values in their colors. */
  ghost predicate Linked(f: Function, t: Typing, colors: map<nat, nat>, liveOut: seq<set<nat>>, c: Config, d: Config)
    requires |liveOut| == |f.blocks|
  {
    match (c, d)
    case (Halted(v), Halted(p)) => v.hist == p.hist
    case (Running(b, v), Running(e, p)) =>
      b == e && b < |f.blocks| && Agree(LiveBefore(Accesses(f.blocks[b].instrs), liveOut[b]), t, colors, v, p)
    case _ => false
  }

  lemma StepLinked(f: Function, t: Typing, colors: map<nat, nat>, liveOut: seq<set<nat>>, m: Machine,
                   c: Config, d: Config)
    requires ProperAllocation(f, t, colors, liveOut) && !m.physical
    requires Executable(f) && Executable(RewriteFunction(f, colors))
    requires Linked(f, t, colors, liveOut, c, d)
    ensures Linked(f, t, colors, liveOut, Next(f, m, c), Next(RewriteFunction(f, colors), m.(physical := true), d))
  {
    if c.Running? {
      BlockSimulates(f.blocks[c.block].instrs, liveOut[c.block], t, colors, m, c.st, d.st);
    }
  }

  /** Register allocation preserves behaviour: after any number of blocks, physical and virtual
      code stand at the same block with the same history, for every meaning of operations,
      every branch behaviour and every value calls leave behind. */
  lemma AllocationPreservesRuns(f: Function, t: Typing, colors: map<nat, nat>, liveOut: seq<set<nat>>,
                                m: Machine, c: Config, d: Config, k: nat)
    requires ProperAllocation(f, t, colors, liveOut) && !m.physical
    requires Linked(f, t, colors, liveOut, c, d)
    ensures Executable(f) && Executable(RewriteFunction(f, colors))
    ensures SameBehaviour(Run(f, m, c, k), Run(RewriteFunction(f, colors), m.(physical := true), d, k))
  {
    var rc, rd := RunsLinked(f, t, colors, liveOut, m, c, d, k);
  }

  lemma {:induction false} RunsLinked(f: Function, t: Typing, colors: map<nat, nat>, liveOut: seq<set<nat>>,
                                      m: Machine, c: Config, d: Config, k: nat)
    returns (rc: Config, rd: Config)
    requires ProperAllocation(f, t, colors, liveOut) && !m.physical
    requires Linked(f, t, colors, liveOut, c, d)
    ensures Executable(f) && Executable(RewriteFunction(f, colors))
    ensures rc == Run(f, m, c, k) && rd == Run(RewriteFunction(f, colors), m.(physical := true), d, k)
    ensures Linked(f, t, colors, liveOut, rc, rd)
    decreases k
  {
    ProperIsExecutable(f, t, colors, liveOut);
    var g, pm := RewriteFunction(f, colors), m.(physical := true);
    if k == 0 {
      rc, rd := c, d;
    } else {
      StepLinked(f, t, colors, liveOut, m, c, d);
      rc, rd := RunsLinked(f, t, colors, liveOut, m, Next(f, m, c), Next(g, pm, d), k - 1);
    }
  }
}
