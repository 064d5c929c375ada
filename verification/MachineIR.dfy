/**
 A small machine IR and its meaning.  Registers are numbers: virtual before allocation,
 physical afterwards.  What an operation computes is left open: every result is an
 arbitrary function of the history of operations executed so far, each with the values
 it read.  Moves, constants and spill accesses are silent.  This covers memory, calls and I/O at
 once, and two programs with the same history are indistinguishable to the outside.
 */
module MachineIR {
  import opened Target
  import opened Dataflow

  /** A register or slot value.  A Vector occupies 128 bits. */
  datatype Value = Scalar(n: int) | Vector(n: int)

  datatype Opcode =
    | COPY | MOVI(value: int) | SPILL_LOAD(slot: nat) | SPILL_STORE(slot: nat)
    | CALL(id: nat) | OP(id: nat)

  datatype Operand = Operand(reg: nat, cls: RegClass, isDef: bool)

  datatype Instr = Instr(op: Opcode, operands: seq<Operand>)

  datatype Block = Block(instrs: seq<Instr>, succs: seq<nat>)

  datatype Function = Function(blocks: seq<Block>)

  ghost predicate ValidFunction(f: Function) {
    forall b, s :: 0 <= b < |f.blocks| && s in f.blocks[b].succs ==> s < |f.blocks|
  }

  // ----- Registers an instruction reads and writes -----

  function UseList(ops: seq<Operand>): seq<nat> {
    if ops == [] then [] else (if ops[0].isDef then [] else [ops[0].reg]) + UseList(ops[1..])
  }

  function DefList(ops: seq<Operand>): seq<Operand> {
    if ops == [] then [] else (if ops[0].isDef then [ops[0]] else []) + DefList(ops[1..])
  }

  function UseRegs(ins: Instr): set<nat> {
    set o | o in ins.operands && !o.isDef :: o.reg
  }

  function DefRegs(ins: Instr): set<nat> {
    set o | o in ins.operands && o.isDef :: o.reg
  }

  lemma {:induction false} UseListIsUses(ops: seq<Operand>, r: nat)
    ensures r in UseList(ops) <==> exists o :: o in ops && !o.isDef && o.reg == r
  {
    if ops != [] {
      assert ops == [ops[0]] + ops[1..];
      UseListIsUses(ops[1..], r);
    }
  }

  lemma {:induction false} DefListIsDefs(ops: seq<Operand>, d: Operand)
    ensures d in DefList(ops) <==> d in ops && d.isDef
  {
    if ops != [] {
      assert ops == [ops[0]] + ops[1..];
      DefListIsDefs(ops[1..], d);
    }
  }

  function AccessOf(ins: Instr): Access {
    Access(UseRegs(ins), DefRegs(ins))
  }

  function Accesses(instrs: seq<Instr>): (a: seq<Access>)
    ensures |a| == |instrs|
    ensures forall i :: 0 <= i < |instrs| ==> a[i] == AccessOf(instrs[i])
  {
    seq(|instrs|, i requires 0 <= i < |instrs| => AccessOf(instrs[i]))
  }

  function FlowOf(f: Function): (g: Flow)
    ensures ValidFunction(f) ==> ValidFlow(g)
    ensures |g.blocks| == |g.succs| == |f.blocks|
    ensures forall b :: 0 <= b < |f.blocks| ==>
                          g.blocks[b] == Accesses(f.blocks[b].instrs) && g.succs[b] == f.blocks[b].succs
  {
    Flow(seq(|f.blocks|, b requires 0 <= b < |f.blocks| => Accesses(f.blocks[b].instrs)),
         seq(|f.blocks|, b requires 0 <= b < |f.blocks| => f.blocks[b].succs))
  }

  // ----- Execution -----

  datatype Event = Event(op: Opcode, args: seq<Value>)

  type File = nat -> Value

  datatype State = State(regs: File, slots: File, hist: seq<Event>)

  /** result: k-th result of the operation ending the history; branch: the successor taken;
      garbage: what a call leaves in a register it does not preserve. */
  datatype Machine = Machine(result: (seq<Event>, nat) -> int, branch: seq<Event> -> nat,
                             garbage: (seq<Event>, nat) -> Value, physical: bool)

  function Put(file: File, k: nat, v: Value): File {
    (x: nat) => if x == k then v else file(x)
  }

  function Typed(cls: RegClass, n: int): Value {
    if cls == NEON128 then Vector(n) else Scalar(n)
  }

  function ReadAll(file: File, regs: seq<nat>): (vs: seq<Value>)
    ensures |vs| == |regs|
    ensures forall i :: 0 <= i < |regs| ==> vs[i] == file(regs[i])
  {
    seq(|regs|, i requires 0 <= i < |regs| => file(regs[i]))
  }

  function WriteDefs(m: Machine, hist: seq<Event>, file: File, defs: seq<Operand>, k: nat): File
    requires k <= |defs|
    decreases |defs| - k
  {
    if k == |defs| then file
    else WriteDefs(m, hist, Put(file, defs[k].reg, Typed(defs[k].cls, m.result(hist, k))), defs, k + 1)
  }

  /** AAPCS64 sections 6.1.1 and 6.1.2: x19-x28 and the low halves of v8-v15 survive a call. */
  predicate Preserved(reg: nat, v: Value) {
    IsCalleeSaved(reg) && v.Scalar?
  }

  /** The registers an operation finds when it writes its results. */
  function Kept(m: Machine, op: Opcode, hist: seq<Event>, file: File): File {
    (x: nat) => if m.physical && op.CALL? && !Preserved(x, file(x)) then m.garbage(hist, x) else file(x)
  }

  predicate IsMove(ins: Instr) {
    match ins.op
    case COPY | MOVI(_) | SPILL_LOAD(_) | SPILL_STORE(_) => true
    case _ => false
  }

  /** Moves have the operands their opcode calls for. */
  predicate WellFormed(ins: Instr) {
    match ins.op
    case COPY => |ins.operands| == 2 && ins.operands[0].isDef && !ins.operands[1].isDef
    case MOVI(_) => |ins.operands| == 1 && ins.operands[0].isDef
    case SPILL_LOAD(_) => |ins.operands| == 1 && ins.operands[0].isDef
    case SPILL_STORE(_) => |ins.operands| == 1 && !ins.operands[0].isDef
    case _ => true
  }

  function ExecOp(m: Machine, ins: Instr, st: State): State {
    var hist := st.hist + [Event(ins.op, ReadAll(st.regs, UseList(ins.operands)))];
    State(WriteDefs(m, hist, Kept(m, ins.op, hist, st.regs), DefList(ins.operands), 0), st.slots, hist)
  }

  function Exec(m: Machine, ins: Instr, st: State): State
    requires WellFormed(ins)
  {
    match ins.op
    case COPY => st.(regs := Put(st.regs, ins.operands[0].reg, st.regs(ins.operands[1].reg)))
    case MOVI(n) => st.(regs := Put(st.regs, ins.operands[0].reg, Typed(ins.operands[0].cls, n)))
    case SPILL_LOAD(slot) => st.(regs := Put(st.regs, ins.operands[0].reg, st.slots(slot)))
    case SPILL_STORE(slot) => st.(slots := Put(st.slots, slot, st.regs(ins.operands[0].reg)))
    case _ => ExecOp(m, ins, st)
  }

  ghost predicate AllWellFormed(instrs: seq<Instr>) {
    forall i :: 0 <= i < |instrs| ==> WellFormed(instrs[i])
  }

  function ExecSeq(m: Machine, instrs: seq<Instr>, st: State): State
    requires AllWellFormed(instrs)
    decreases |instrs|
  {
    if instrs == [] then st else ExecSeq(m, instrs[1..], Exec(m, instrs[0], st))
  }

  lemma {:induction false} ExecSeqAppend(m: Machine, a: seq<Instr>, b: seq<Instr>, st: State)
    requires AllWellFormed(a) && AllWellFormed(b)
    ensures AllWellFormed(a + b)
    ensures ExecSeq(m, a + b, st) == ExecSeq(m, b, ExecSeq(m, a, st))
    decreases |a|
  {
    if a == [] {
      assert a + b == b;
    } else {
      assert (a + b)[1..] == a[1..] + b;
      ExecSeqAppend(m, a[1..], b, Exec(m, a[0], st));
    }
  }

  datatype Config = Running(block: nat, st: State) | Halted(st: State)

  ghost predicate Executable(f: Function) {
    ValidFunction(f) && forall b :: 0 <= b < |f.blocks| ==> AllWellFormed(f.blocks[b].instrs)
  }

  /** The block control goes to next, when there is one. */
  function Chosen(pick: nat, succs: seq<nat>): (s: nat)
    requires succs != []
    ensures s in succs
  {
    if pick < |succs| then succs[pick] else succs[0]
  }

  function Leave(m: Machine, succs: seq<nat>, st: State): Config {
    if succs == [] then Halted(st) else Running(Chosen(m.branch(st.hist), succs), st)
  }

  ghost predicate InFunction(f: Function, c: Config) {
    c.Running? ==> c.block < |f.blocks|
  }

  /** Executes one block and leaves it; a halted configuration stays. */
  function Next(f: Function, m: Machine, c: Config): (r: Config)
    requires Executable(f) && InFunction(f, c)
    ensures InFunction(f, r)
  {
    if c.Halted? then c
    else
      var block := f.blocks[c.block];
      var r := Leave(m, block.succs, ExecSeq(m, block.instrs, c.st));
      assert r.Running? ==> r.block in block.succs;
      r
  }

  /** The configuration after k blocks. */
  function Run(f: Function, m: Machine, c: Config, k: nat): (r: Config)
    requires Executable(f) && InFunction(f, c)
    ensures InFunction(f, r)
    decreases k
  {
    if k == 0 then c else Run(f, m, Next(f, m, c), k - 1)
  }

  /** What an observer can tell apart: where control is, and the history. */
  ghost predicate SameBehaviour(a: Config, b: Config) {
    a.st.hist == b.st.hist && a.Halted? == b.Halted? && (a.Running? ==> a.block == b.block)
  }
}
