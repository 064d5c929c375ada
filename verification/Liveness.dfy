/**
 The two register liveness analyses.  Both run the loop of module Dataflow; they differ in
 how a block is scanned.  The physical analysis collects all reads of an instruction before
 its writes; the virtual one goes operand by operand and forgets a read that is listed
 after a write of the same register.
 */
module Liveness {
  import opened Target
  import opened Dataflow
  import opened MachineIR

  // ----- Physical registers -----

  /** An instruction's effect on physical registers beyond its explicit operands:
      a register mask names what a call preserves, and calls and returns read fixed registers. */
  datatype PhysicalInstr = PhysicalInstr(operands: seq<Operand>, mask: seq<set<nat>>, isCall: bool, isReturn: bool)

  const CALL_ARGUMENTS: set<nat> :=
    (set r: nat | X0 <= r <= X0 + 7) + (set r: nat | V0 <= r <= V7)

  const RETURN_READS: set<nat> := {X0, V0, X30}

  /** Sections 6.1.1 and 6.1.2 of AAPCS64: eight general and eight vector registers pass arguments. */
  predicate ArgumentRegister(r: nat) {
    X0 <= r < X0 + 8 || V0 <= r < V0 + 8
  }

  /** Registers X0..V31 outside SP and XZR that a mask does not preserve. */
  function ClobberedBy(preserved: set<nat>): set<nat> {
    set r: nat | X0 <= r <= V31 && r != SP && r != XZR && r !in preserved
  }

  /** The scan of one instruction: explicit operands first, then the implied ones. */
  method CollectPhysical(ins: PhysicalInstr) returns (a: Access)
    ensures a == PhysicalAccess(ins)
    ensures forall r: nat :: r in a.uses <==>
              (exists o :: o in ins.operands && !o.isDef && o.reg == r)
              || (ins.isCall && ArgumentRegister(r))
              || (!ins.isCall && ins.isReturn && (r == X0 || r == V0 || r == X30))
    ensures forall r: nat :: r in a.defs <==>
              (exists o :: o in ins.operands && o.isDef && o.reg == r)
              || exists p :: p in ins.mask && r !in p && (X0 <= r <= X30 || V0 <= r <= V31)
  {
    var uses: set<nat>, defs: set<nat> := {}, {};
    for i := 0 to |ins.operands|
      invariant uses == set o | o in ins.operands[..i] && !o.isDef :: o.reg
      invariant defs == set o | o in ins.operands[..i] && o.isDef :: o.reg
    {
      assert ins.operands[..i + 1] == ins.operands[..i] + [ins.operands[i]];
      if ins.operands[i].isDef {
        defs := defs + {ins.operands[i].reg};
      } else {
        uses := uses + {ins.operands[i].reg};
      }
    }
    assert ins.operands[..|ins.operands|] == ins.operands;
    for i := 0 to |ins.mask|
      invariant defs == (set o | o in ins.operands && o.isDef :: o.reg)
                        + (set p, r | p in ins.mask[..i] && r in ClobberedBy(p) :: r)
    {
      assert ins.mask[..i + 1] == ins.mask[..i] + [ins.mask[i]];
      defs := defs + ClobberedBy(ins.mask[i]);
    }
    assert ins.mask[..|ins.mask|] == ins.mask;
    if ins.isCall {
      uses := uses + CALL_ARGUMENTS;
    } else if ins.isReturn {
      uses := uses + RETURN_READS;
    }
    a := Access(uses, defs);
    forall r: nat
      ensures r in a.defs <==>
                (exists o :: o in ins.operands && o.isDef && o.reg == r)
                || exists p :: p in ins.mask && r !in p && (X0 <= r <= X30 || V0 <= r <= V31)
    {
      if p :| p in ins.mask && r !in p && (X0 <= r <= X30 || V0 <= r <= V31) { assert r in ClobberedBy(p); }
    }
  }

  /** The mask of a call: registers marked as preserved one by one. */
  method CallPreservedMask() returns (mask: set<nat>)
    ensures forall r: nat :: r in mask <==> r == SP || X18 <= r <= X29 || V8 <= r <= V15
    ensures forall r: nat :: IsCalleeSaved(r) ==> r in mask
  {
    mask := {SP};
    for r := X18 to X29 + 1
      invariant forall q: nat :: q in mask <==> q == SP || X18 <= q < r
    {
      mask := mask + {r};
    }
    for r := V8 to V15 + 1
      invariant forall q: nat :: q in mask <==> q == SP || X18 <= q <= X29 || V8 <= q < r
    {
      mask := mask + {r};
    }
  }

  /** A call with that mask writes, besides its operands, exactly the registers in which the procedure call
      standard lets a call leave anything: the caller-saved ones and the link register. */
  lemma CallWrites(ins: PhysicalInstr, mask: set<nat>, r: nat)
    requires ins.mask == [mask] && forall q: nat :: q in mask <==> q == SP || X18 <= q <= X29 || V8 <= q <= V15
    requires forall o :: o in ins.operands ==> !o.isDef
    ensures r in PhysicalAccess(ins).defs <==> IsCallerSaved(r) || r == X30
  {
    if IsCallerSaved(r) || r == X30 {
      assert mask in ins.mask && r in ClobberedBy(mask);
    }
  }

  function PhysicalAccess(ins: PhysicalInstr): Access {
    Access((set o | o in ins.operands && !o.isDef :: o.reg)
           + (if ins.isCall then CALL_ARGUMENTS else if ins.isReturn then RETURN_READS else {}),
           (set o | o in ins.operands && o.isDef :: o.reg)
           + (set p, r | p in ins.mask && r in ClobberedBy(p) :: r))
  }

  function PhysicalFlow(blocks: seq<seq<PhysicalInstr>>, succs: seq<seq<nat>>): (f: Flow)
    ensures |f.blocks| == |blocks| && f.succs == succs
    ensures forall b :: 0 <= b < |blocks| ==> |f.blocks[b]| == |blocks[b]|
    ensures forall b, i :: 0 <= b < |blocks| && 0 <= i < |blocks[b]| ==>
                             f.blocks[b][i] == PhysicalAccess(blocks[b][i])
  {
    Flow(seq(|blocks|, b requires 0 <= b < |blocks| =>
           seq(|blocks[b]|, i requires 0 <= i < |blocks[b]| => PhysicalAccess(blocks[b][i]))), succs)
  }

  /** The physical analysis is exact at every block end and before every instruction. */
  method AnalyzePhysical(blocks: seq<seq<PhysicalInstr>>, succs: seq<seq<nat>>)
    returns (liveIn: seq<set<nat>>, liveOut: seq<set<nat>>, before: seq<seq<set<nat>>>)
    requires |blocks| == |succs| && Wired(succs)
    ensures |liveIn| == |liveOut| == |before| == |blocks|
    ensures var f := PhysicalFlow(blocks, succs);
            && (forall b, r :: 0 <= b < |blocks| ==> (r in liveIn[b] <==> PathLive(f, b, 0, r)))
            && (forall b, r :: 0 <= b < |blocks| ==> (r in liveOut[b] <==> PathLive(f, b, |blocks[b]|, r)))
            && (forall b :: 0 <= b < |blocks| ==> |before[b]| == |blocks[b]| + 1)
            && (forall b, i, r :: 0 <= b < |blocks| && 0 <= i <= |blocks[b]| ==>
                                    (r in before[b][i] <==> PathLive(f, b, i, r)))
    ensures forall b, i :: 0 <= b < |blocks| && 0 <= i < |blocks[b]| ==>
              && |before[b]| == |blocks[b]| + 1
              && (blocks[b][i].isReturn && !blocks[b][i].isCall ==> {X0, V0, X30} <= before[b][i])
              && (blocks[b][i].isCall ==> forall r: nat :: ArgumentRegister(r) ==> r in before[b][i])
              && (forall o :: o in blocks[b][i].operands && !o.isDef ==> o.reg in before[b][i])
  {
    var flow: seq<seq<Access>> := [];
    for b := 0 to |blocks|
      invariant flow == PhysicalFlow(blocks, succs).blocks[..b]
    {
      var accs: seq<Access> := [];
      for i := 0 to |blocks[b]|
        invariant accs == PhysicalFlow(blocks, succs).blocks[b][..i]
      {
        var a := CollectPhysical(blocks[b][i]);
        accs := accs + [a];
      }
      assert accs == PhysicalFlow(blocks, succs).blocks[b];
      flow := flow + [accs];
    }
    var f := Flow(flow, succs);
    assert f == PhysicalFlow(blocks, succs);
    liveIn, liveOut, before := AnalyzeLiveness(f);
    forall b, i | 0 <= b < |blocks| && 0 <= i < |blocks[b]| ensures PhysicalAccess(blocks[b][i]).uses <= before[b][i] {
      forall r | r in PhysicalAccess(blocks[b][i]).uses ensures r in before[b][i] {
        PathLiveUnfolds(f, b, i, r);
      }
    }
    hide PathLive;
    forall b, i | 0 <= b < |blocks| && 0 <= i < |blocks[b]|
      ensures blocks[b][i].isReturn && !blocks[b][i].isCall ==> {X0, V0, X30} <= before[b][i]
      ensures blocks[b][i].isCall ==> forall r: nat :: ArgumentRegister(r) ==> r in before[b][i]
      ensures forall o :: o in blocks[b][i].operands && !o.isDef ==> o.reg in before[b][i]
    {
      PhysicalReads(blocks[b][i]);
    }
  }

  lemma PhysicalReads(ins: PhysicalInstr)
    ensures ins.isReturn && !ins.isCall ==> {X0, V0, X30} <= PhysicalAccess(ins).uses
    ensures ins.isCall ==> forall r: nat :: ArgumentRegister(r) ==> r in PhysicalAccess(ins).uses
    ensures forall o :: o in ins.operands && !o.isDef ==> o.reg in PhysicalAccess(ins).uses
  {
  }

  // ----- Virtual registers -----

  /** Reads that the operand-by-operand scan of one instruction still sees as exposed. */
  function OperandUses(ops: seq<Operand>): set<nat> {
    if ops == [] then {}
    else if ops[0].isDef then OperandUses(ops[1..]) - {ops[0].reg}
    else {ops[0].reg} + OperandUses(ops[1..])
  }

  function OperandDefs(ops: seq<Operand>): set<nat> {
    set o | o in ops && o.isDef :: o.reg
  }

  function ScannedUses(instrs: seq<Instr>): set<nat> {
    if instrs == [] then {}
    else OperandUses(instrs[0].operands) + (ScannedUses(instrs[1..]) - DefRegs(instrs[0]))
  }

  /** One instruction of the virtual scan. */
  method ScanOperands(ops: seq<Operand>, uses0: set<nat>, defs0: set<nat>)
    returns (uses: set<nat>, defs: set<nat>)
    ensures uses == uses0 + (OperandUses(ops) - defs0)
    ensures defs == defs0 + OperandDefs(ops)
  {
    uses, defs := uses0, defs0;
    for i := 0 to |ops|
      invariant uses0 + (OperandUses(ops) - defs0) == uses + (OperandUses(ops[i..]) - defs)
      invariant defs == defs0 + OperandDefs(ops[..i])
    {
      assert ops[i..][1..] == ops[i + 1..];
      assert ops[..i + 1] == ops[..i] + [ops[i]];
      if ops[i].isDef {
        defs := defs + {ops[i].reg};
      } else if ops[i].reg !in defs {
        uses := uses + {ops[i].reg};
      }
    }
    assert ops[..|ops|] == ops;
  }

  method ScanBlock(instrs: seq<Instr>) returns (uses: set<nat>, defs: set<nat>)
    ensures uses == ScannedUses(instrs)
    ensures defs == AllDefs(Accesses(instrs))
  {
    uses, defs := {}, {};
    for i := 0 to |instrs|
      invariant ScannedUses(instrs) == uses + (ScannedUses(instrs[i..]) - defs)
      invariant AllDefs(Accesses(instrs)) == defs + AllDefs(Accesses(instrs[i..]))
    {
      assert instrs[i..][1..] == instrs[i + 1..];
      assert Accesses(instrs[i..])[1..] == Accesses(instrs[i + 1..]);
      uses, defs := ScanOperands(instrs[i].operands, uses, defs);
    }
  }

  // ----- When the virtual scan is exact -----

  /** The first operand naming r is a definition. */
  predicate DefinesFirst(ops: seq<Operand>, r: nat) {
    ops != [] && (if ops[0].reg == r then ops[0].isDef else DefinesFirst(ops[1..], r))
  }

  /** The first instruction naming r lists a write of r before a read of r. */
  predicate Shadowed(instrs: seq<Instr>, r: nat) {
    instrs != []
    && (if r in UseRegs(instrs[0]) + DefRegs(instrs[0])
        then r in UseRegs(instrs[0]) && DefinesFirst(instrs[0].operands, r)
        else Shadowed(instrs[1..], r))
  }

  lemma {:induction false} OperandUsesMeaning(ops: seq<Operand>, r: nat)
    ensures r in OperandUses(ops) <==>
            (exists o :: o in ops && !o.isDef && o.reg == r) && !DefinesFirst(ops, r)
  {
    if ops != [] {
      assert ops == [ops[0]] + ops[1..];
      OperandUsesMeaning(ops[1..], r);
    }
  }

  /** The scan misses exactly the shadowed reads. */
  lemma {:induction false} ScannedMeaning(instrs: seq<Instr>, r: nat)
    ensures r in ScannedUses(instrs) <==> r in ExposedUses(Accesses(instrs)) && !Shadowed(instrs, r)
    ensures Shadowed(instrs, r) ==> r in ExposedUses(Accesses(instrs)) && r in AllDefs(Accesses(instrs))
  {
    if instrs != [] {
      assert Accesses(instrs)[1..] == Accesses(instrs[1..]);
      ScannedMeaning(instrs[1..], r);
      OperandUsesMeaning(instrs[0].operands, r);
      if DefinesFirst(instrs[0].operands, r) { DefinesFirstDefines(instrs[0].operands, r); }
      assert r in UseRegs(instrs[0]) <==> exists o :: o in instrs[0].operands && !o.isDef && o.reg == r;
    }
  }

  lemma {:induction false} DefinesFirstDefines(ops: seq<Operand>, r: nat)
    requires DefinesFirst(ops, r)
    ensures exists o :: o in ops && o.isDef && o.reg == r
  {
    if ops[0].reg == r {
      assert ops[0] in ops;
    } else {
      DefinesFirstDefines(ops[1..], r);
    }
  }

  /** No block shadows a read: what the virtual analysis needs. */
  ghost predicate NoShadowedReads(f: Function) {
    forall b, r :: 0 <= b < |f.blocks| ==> !Shadowed(f.blocks[b].instrs, r)
  }

  ghost predicate ExactAtBlockEnds(f: Function, liveIn: seq<set<nat>>, liveOut: seq<set<nat>>)
    requires ValidFunction(f)
  {
    |liveIn| == |liveOut| == |f.blocks|
    && (forall b, r :: 0 <= b < |f.blocks| ==> (r in liveIn[b] <==> PathLive(FlowOf(f), b, 0, r)))
    && (forall b, r :: 0 <= b < |f.blocks| ==>
                         (r in liveOut[b] <==> PathLive(FlowOf(f), b, |f.blocks[b].instrs|, r)))
  }

  function SuccsOf(f: Function): (s: seq<seq<nat>>)
    ensures s == FlowOf(f).succs
  {
    FlowOf(f).succs
  }

  /** The virtual analysis is exact if and only if no block shadows a read. */
  method AnalyzeVirtual(f: Function) returns (liveIn: seq<set<nat>>, liveOut: seq<set<nat>>)
    requires ValidFunction(f)
    ensures |liveIn| == |liveOut| == |f.blocks|
    ensures ExactAtBlockEnds(f, liveIn, liveOut) <==> NoShadowedReads(f)
  {
    var uses: seq<set<nat>>, defs: seq<set<nat>> := [], [];
    for b := 0 to |f.blocks|
      invariant |uses| == |defs| == b
      invariant forall a :: 0 <= a < b ==> uses[a] == ScannedUses(f.blocks[a].instrs)
      invariant forall a :: 0 <= a < b ==> defs[a] == AllDefs(Accesses(f.blocks[a].instrs))
    {
      var u, d := ScanBlock(f.blocks[b].instrs);
      uses, defs := uses + [u], defs + [d];
    }
    var succs := SuccsOf(f);
    liveIn, liveOut := SolveBackward(succs, uses, defs);
    if NoShadowedReads(f) {
      forall b, r | 0 <= b < |f.blocks|
        ensures r in uses[b] <==> r in ExposedUses(FlowOf(f).blocks[b])
      {
        ScannedMeaning(f.blocks[b].instrs, r);
      }
      assert Summarizes(FlowOf(f), uses, defs);
      forall b, r | 0 <= b < |f.blocks|
        ensures r in liveIn[b] <==> PathLive(FlowOf(f), b, 0, r)
      {
        ExposedIsPathLive(FlowOf(f), uses, defs, b, r);
      }
      forall b, r | 0 <= b < |f.blocks|
        ensures r in liveOut[b] <==> PathLive(FlowOf(f), b, |f.blocks[b].instrs|, r)
      {
        PathLiveUnfolds(FlowOf(f), b, |f.blocks[b].instrs|, r);
        assert Solved(succs, uses, defs, liveIn, liveOut, b);
      }
    } else {
      ghost var b, r :| 0 <= b < |f.blocks| && Shadowed(f.blocks[b].instrs, r);
      ScannedMeaning(f.blocks[b].instrs, r);
      assert Solved(succs, uses, defs, liveIn, liveOut, b);
      assert r !in liveIn[b];
      SummaryDecides(FlowOf(f), b, 0, r);
      assert FlowOf(f).blocks[b][0..] == Accesses(f.blocks[b].instrs);
    }
  }

  /** A one-instruction loop `v := op v` written definition first is a function the
      virtual scan gets wrong. */
  lemma ShadowingHappens()
    ensures !NoShadowedReads(Function([Block([Instr(OP(0), [Operand(1, GPR32, true), Operand(1, GPR32, false)])],
                                             [0])]))
  {
    var ops := [Operand(1, GPR32, true), Operand(1, GPR32, false)];
    var instrs := [Instr(OP(0), ops)];
    assert ops[1] in instrs[0].operands;
    assert 1 in UseRegs(instrs[0]);
    assert Shadowed(instrs, 1);
    assert Function([Block(instrs, [0])]).blocks[0].instrs == instrs;
  }

  // ----- Values live across calls -----

  function LiveAcross(instrs: seq<Instr>, out: set<nat>): set<nat> {
    if instrs == [] then {}
    else (if instrs[0].op.CALL? then LiveBefore(Accesses(instrs[1..]), out) else {}) + LiveAcross(instrs[1..], out)
  }

  /** The reverse walk that records what is live after each call of a block. */
  method CollectAcrossCalls(instrs: seq<Instr>, out: set<nat>, across0: set<nat>) returns (across: set<nat>)
    ensures across == across0 + LiveAcross(instrs, out)
  {
    var live := out;
    across := across0;
    for i := |instrs| downto 0
      invariant live == LiveBefore(Accesses(instrs[i..]), out)
      invariant across == across0 + LiveAcross(instrs[i..], out)
    {
      assert instrs[i..][1..] == instrs[i + 1..];
      assert Accesses(instrs[i..])[1..] == Accesses(instrs[i + 1..]);
      if instrs[i].op.CALL? {
        across := across + live;
      }
      live := (live - DefRegs(instrs[i])) + UseRegs(instrs[i]);
    }
    assert instrs[0..] == instrs;
  }
}
