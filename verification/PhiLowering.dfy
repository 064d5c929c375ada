/** SSA functions with PHIs, what their runs mean, and why copies on the edges replace the PHIs. */
module PhiLowering {
  import opened Target
  import opened MachineIR
  import opened Renaming
  import opened ParallelCopies
  import opened Spilling

  /** The value a PHI takes when control comes from a block. */
  datatype Incoming = Incoming(src: nat, block: nat)

  datatype Phi = Phi(dst: nat, incoming: seq<Incoming>)

  /** A block begins with its PHIs. */
  datatype PhiBlock = PhiBlock(phis: seq<Phi>, body: Block)

  type PhiFunction = seq<PhiBlock>

  function SourceFrom(phi: Phi, p: nat): nat {
    FirstFrom(phi.incoming, p)
  }

  function FirstFrom(incoming: seq<Incoming>, p: nat): nat {
    if incoming == [] then 0
    else if incoming[0].block == p then incoming[0].src
    else FirstFrom(incoming[1..], p)
  }

  /** The assignments of all PHIs for one predecessor. */
  function EdgeCopies(phis: seq<Phi>, p: nat): (copies: seq<Copy>)
    ensures |copies| == |phis|
    ensures forall i :: 0 <= i < |phis| ==> copies[i] == Copy(phis[i].dst, SourceFrom(phis[i], p))
  {
    seq(|phis|, i requires 0 <= i < |phis| => Copy(phis[i].dst, SourceFrom(phis[i], p)))
  }

  // ----- Valid SSA functions -----

  ghost predicate InstrBelow(ins: Instr, limit: nat) {
    WellFormed(ins) && forall o :: o in ins.operands ==> o.reg < limit
  }

  ghost predicate InstrsBelow(instrs: seq<Instr>, limit: nat) {
    forall i :: 0 <= i < |instrs| ==> InstrBelow(instrs[i], limit)
  }

  /** The PHI names every predecessor of its block once, and nothing else. */
  ghost predicate ValidPhi(f: PhiFunction, s: nat, phi: Phi, limit: nat) {
    && phi.dst < limit
    && (forall i :: 0 <= i < |phi.incoming| ==>
          && phi.incoming[i].src < limit && phi.incoming[i].block < |f|
          && s in f[phi.incoming[i].block].body.succs)
    && (forall i, j :: 0 <= i < j < |phi.incoming| ==> phi.incoming[i].block != phi.incoming[j].block)
    && (forall p: nat :: p < |f| && s in f[p].body.succs ==>
          exists i :: 0 <= i < |phi.incoming| && phi.incoming[i].block == p)
  }

  ghost predicate NoRepeats(succs: seq<nat>) {
    forall i, j :: 0 <= i < j < |succs| ==> succs[i] != succs[j]
  }

  ghost predicate ValidBlock(f: PhiFunction, s: nat, limit: nat)
    requires s < |f|
  {
    && InstrsBelow(f[s].body.instrs, limit)
    && (forall t :: t in f[s].body.succs ==> t < |f|) && NoRepeats(f[s].body.succs)
    && (forall i :: 0 <= i < |f[s].phis| ==> ValidPhi(f, s, f[s].phis[i], limit))
    && (forall i, j :: 0 <= i < j < |f[s].phis| ==> f[s].phis[i].dst != f[s].phis[j].dst)
  }

  ghost predicate ValidPhis(f: PhiFunction, limit: nat) {
    forall s: nat :: s < |f| ==> ValidBlock(f, s, limit)
  }

  // ----- Runs with PHIs -----

  ghost predicate InPhis(f: PhiFunction, c: Config) {
    c.Running? ==> c.block < |f|
  }

  /** Executes a block and enters the next: all its PHIs at once, from the values before. */
  ghost function NextPhi(f: PhiFunction, limit: nat, m: Machine, c: Config): (r: Config)
    requires ValidPhis(f, limit) && InPhis(f, c)
    ensures InPhis(f, r)
  {
    if c.Halted? then c
    else
      assert ValidBlock(f, c.block, limit);
      var body := f[c.block].body;
      var st := ExecSeq(m, body.instrs, c.st);
      if body.succs == [] then Halted(st)
      else
        var s := Chosen(m.branch(st.hist), body.succs);
        Running(s, st.(regs := Parallel(EdgeCopies(f[s].phis, c.block), st.regs)))
  }

  ghost function RunPhi(f: PhiFunction, limit: nat, m: Machine, c: Config, k: nat): (r: Config)
    requires ValidPhis(f, limit) && InPhis(f, c)
    ensures InPhis(f, r)
    decreases k
  {
    if k == 0 then c else RunPhi(f, limit, m, NextPhi(f, limit, m, c), k - 1)
  }

  // ----- Copies as instructions -----

  function CopyInstrs(code: seq<Copy>, cls: nat -> RegClass): (instrs: seq<Instr>)
    ensures |instrs| == |code| && AllWellFormed(instrs)
    ensures forall i :: 0 <= i < |code| ==> instrs[i] == CopyInstr(code[i], cls)
  {
    seq(|code|, i requires 0 <= i < |code| => CopyInstr(code[i], cls))
  }

  function CopyInstr(c: Copy, cls: nat -> RegClass): (ins: Instr)
    ensures WellFormed(ins)
  {
    Instr(COPY, [Operand(c.dst, cls(c.dst), true), Operand(c.src, cls(c.dst), false)])
  }

  lemma {:induction false} CopiesRun(m: Machine, code: seq<Copy>, cls: nat -> RegClass, st: State)
    ensures ExecSeq(m, CopyInstrs(code, cls), st) == st.(regs := RunCopies(code, st.regs))
    decreases |code|
  {
    if code != [] {
      assert CopyInstrs(code, cls)[1..] == CopyInstrs(code[1..], cls);
      CopiesRun(m, code[1..], cls, Exec(m, CopyInstr(code[0], cls), st));
    }
  }

  ghost predicate Sequenced(code: seq<Copy>, copies: seq<Copy>, limit: nat) {
    forall f: File, r: nat {:trigger RunCopies(code, f)(r)} ::
      r < limit ==> RunCopies(code, f)(r) == Parallel(copies, f)(r)
  }

  /** The instructions are copies that amount to the parallel assignment below limit. */
  ghost predicate EdgeCode(instrs: seq<Instr>, copies: seq<Copy>, limit: nat) {
    exists code: seq<Copy>, cls: nat -> RegClass :: instrs == CopyInstrs(code, cls) && Sequenced(code, copies, limit)
  }

  // ----- The lowered function -----

  /** Only an edge from a block with another way out needs a block of its own. */
  ghost predicate NeedsSplit(f: PhiFunction, p: nat, s: nat)
    requires p < |f| && s < |f|
  {
    f[s].phis != [] && |f[p].body.succs| > 1
  }

  type Splits = map<(nat, nat), nat>

  function Via(splits: Splits, p: nat, s: nat): nat {
    if (p, s) in splits then splits[(p, s)] else s
  }

  function Redirected(succs: seq<nat>, splits: Splits, p: nat): (r: seq<nat>)
    ensures |r| == |succs| && forall i :: 0 <= i < |succs| ==> r[i] == Via(splits, p, succs[i])
  {
    seq(|succs|, i requires 0 <= i < |succs| => Via(splits, p, succs[i]))
  }

  /** A split block holds the copies of its edge and goes on to the successor. */
  ghost predicate SplitLowered(f: PhiFunction, g: Function, splits: Splits, p: nat, s: nat, limit: nat)
    requires p < |f| && s < |f|
  {
    && ((p, s) in splits <==> NeedsSplit(f, p, s))
    && ((p, s) in splits ==>
          var e := splits[(p, s)];
          |f| <= e < |g.blocks| && g.blocks[e].succs == [s]
          && EdgeCode(g.blocks[e].instrs, EdgeCopies(f[s].phis, p), limit))
  }

  /** A block with one way out gets the copies of its edge at its end. */
  ghost predicate BlockLowered(f: PhiFunction, g: Function, splits: Splits, p: nat, limit: nat)
    requires p < |f| && (forall t :: t in f[p].body.succs ==> t < |f|)
  {
    && p < |g.blocks|
    && var body := f[p].body;
    && g.blocks[p].succs == Redirected(body.succs, splits, p)
    && exists tail ::
         && g.blocks[p].instrs == body.instrs + tail
         && TailLowered(f, p, tail, limit)
  }

  ghost predicate TailLowered(f: PhiFunction, p: nat, tail: seq<Instr>, limit: nat)
    requires p < |f|
  {
    var succs := f[p].body.succs;
    if |succs| == 1 && succs[0] < |f| then EdgeCode(tail, EdgeCopies(f[succs[0]].phis, p), limit) else tail == []
  }

  ghost predicate Lowered(f: PhiFunction, g: Function, splits: Splits, limit: nat)
    requires ValidPhis(f, limit)
  {
    && Executable(g)
    && (forall p: nat :: p < |f| ==>
          (assert ValidBlock(f, p, limit); BlockLowered(f, g, splits, p, limit)))
    && (forall p: nat, s: nat :: p < |f| && s in f[p].body.succs ==>
          (assert ValidBlock(f, p, limit); SplitLowered(f, g, splits, p, s, limit)))
  }

  // ----- Simulation -----

  /** Everything but the fresh temporaries is the same. */
  ghost predicate Below(limit: nat, o: State, n: State) {
    o.hist == n.hist && (forall r: nat :: r < limit ==> n.regs(r) == o.regs(r))
    && forall s: nat :: n.slots(s) == o.slots(s)
  }

  ghost predicate Linked(limit: nat, c: Config, d: Config) {
    && c.Halted? == d.Halted? && (c.Running? ==> c.block == d.block)
    && Below(limit, c.st, d.st)
  }

  lemma RegisterBelow(m: Machine, ins: Instr, limit: nat, o: State, n: State, r: nat)
    requires !m.physical && InstrBelow(ins, limit) && Below(limit, o, n)
    ensures var o', n' := Exec(m, ins, o), Exec(m, ins, n);
            o'.hist == n'.hist && (r < limit ==> n'.regs(r) == o'.regs(r))
            && forall s: nat :: n'.slots(s) == o'.slots(s)
  {
    if IsMove(ins) {
      MoveReads(ins);
      assert ins.operands[0] in ins.operands;
    } else {
      assert RewriteOperands(ins.operands, map[]) == ins.operands;
      RenamedOp(ins, if r < limit then {r} else {}, map[], m, m, o, n);
    }
  }

  lemma {:induction false} InstrsAgree(m: Machine, instrs: seq<Instr>, limit: nat, o: State, n: State)
    requires !m.physical && InstrsBelow(instrs, limit) && Below(limit, o, n)
    ensures AllWellFormed(instrs)
    ensures Below(limit, ExecSeq(m, instrs, o), ExecSeq(m, instrs, n))
    decreases |instrs|
  {
    if instrs != [] {
      assert InstrBelow(instrs[0], limit);
      var o1, n1 := Exec(m, instrs[0], o), Exec(m, instrs[0], n);
      InstrAgrees(m, instrs[0], limit, o, n);
      InstrsAgree(m, instrs[1..], limit, o1, n1);
    }
  }

  lemma InstrAgrees(m: Machine, ins: Instr, limit: nat, o: State, n: State)
    requires !m.physical && InstrBelow(ins, limit) && Below(limit, o, n)
    ensures Below(limit, Exec(m, ins, o), Exec(m, ins, n))
  {
    var o1, n1 := Exec(m, ins, o), Exec(m, ins, n);
    hide Exec;
    RegisterBelow(m, ins, limit, o, n, 0);
    forall r: nat | r < limit ensures n1.regs(r) == o1.regs(r) {
      RegisterBelow(m, ins, limit, o, n, r);
    }
  }

  ghost predicate CopiesBelow(copies: seq<Copy>, limit: nat) {
    DistinctTargets(copies) && forall i :: 0 <= i < |copies| ==> copies[i].dst < limit && copies[i].src < limit
  }

  lemma {:induction false} ParallelAgrees(copies: seq<Copy>, limit: nat, f: File, g: File, r: nat)
    requires CopiesBelow(copies, limit) && r < limit
    requires forall x: nat :: x < limit ==> f(x) == g(x)
    ensures Parallel(copies, f)(r) == Parallel(copies, g)(r)
  {
    if copies != [] {
      var rest := copies[1..];
      forall i, j | 0 <= i < j < |rest| ensures rest[i].dst != rest[j].dst {
        assert copies[i + 1].dst != copies[j + 1].dst;
      }
      ParallelAgrees(rest, limit, f, g, r);
    }
  }

  /** Emitted edge code against the PHIs of the edge. */
  lemma EdgeAgrees(m: Machine, instrs: seq<Instr>, copies: seq<Copy>, limit: nat, o: State, n: State)
    requires EdgeCode(instrs, copies, limit) && CopiesBelow(copies, limit) && Below(limit, o, n)
    ensures AllWellFormed(instrs)
    ensures Below(limit, o.(regs := Parallel(copies, o.regs)), ExecSeq(m, instrs, n))
  {
    var code: seq<Copy>, cls: nat -> RegClass :| instrs == CopyInstrs(code, cls) && Sequenced(code, copies, limit);
    CopiesRun(m, code, cls, n);
    forall r: nat | r < limit ensures RunCopies(code, n.regs)(r) == Parallel(copies, o.regs)(r) {
      ParallelAgrees(copies, limit, o.regs, n.regs, r);
    }
  }

  lemma PhiCopiesBelow(f: PhiFunction, p: nat, s: nat, limit: nat)
    requires ValidPhis(f, limit) && p < |f| && s < |f| && s in f[p].body.succs
    ensures CopiesBelow(EdgeCopies(f[s].phis, p), limit)
  {
    assert ValidBlock(f, s, limit);
    forall i | 0 <= i < |f[s].phis| ensures SourceFrom(f[s].phis[i], p) < limit {
      assert ValidPhi(f, s, f[s].phis[i], limit);
      FromBelow(f[s].phis[i].incoming, p, limit);
    }
  }

  lemma {:induction false} FromBelow(incoming: seq<Incoming>, p: nat, limit: nat)
    requires forall i :: 0 <= i < |incoming| ==> incoming[i].src < limit
    requires exists i :: 0 <= i < |incoming| && incoming[i].block == p
    ensures FirstFrom(incoming, p) < limit
  {
    if incoming[0].block != p {
      var i :| 0 <= i < |incoming| && incoming[i].block == p;
      assert incoming[1..][i - 1].block == p;
      FromBelow(incoming[1..], p, limit);
    }
  }

  /** One block of the SSA function takes one or two blocks of the lowered one. */
  lemma StepLowered(f: PhiFunction, g: Function, splits: Splits, limit: nat, m: Machine, c: Config, d: Config)
    returns (steps: nat)
    requires ValidPhis(f, limit) && Lowered(f, g, splits, limit) && !m.physical
    requires InPhis(f, c) && InFunction(g, d) && Linked(limit, c, d)
    ensures 1 <= steps <= 2
    ensures Linked(limit, NextPhi(f, limit, m, c), Run(g, m, d, steps))
  {
    if c.Halted? {
      assert Run(g, m, d, 1) == d;
      return 1;
    }
    assert ValidBlock(f, c.block, limit) && BlockLowered(f, g, splits, c.block, limit);
    if |f[c.block].body.succs| <= 1 {
      OneWayOut(f, g, splits, limit, m, c, d);
      steps := 1;
    } else {
      steps := ManyWaysOut(f, g, splits, limit, m, c, d);
    }
  }

  lemma OneWayOut(f: PhiFunction, g: Function, splits: Splits, limit: nat, m: Machine, c: Config, d: Config)
    requires ValidPhis(f, limit) && Lowered(f, g, splits, limit) && !m.physical
    requires InPhis(f, c) && InFunction(g, d) && Linked(limit, c, d) && c.Running?
    requires |f[c.block].body.succs| <= 1
    ensures Linked(limit, NextPhi(f, limit, m, c), Run(g, m, d, 1))
  {
    hide ExecSeq, Exec, EdgeCode, EdgeCopies;
    var p := c.block;
    assert ValidBlock(f, p, limit) && BlockLowered(f, g, splits, p, limit);
    var body := f[p].body;
    InstrsAgree(m, body.instrs, limit, c.st, d.st);
    var tail :| g.blocks[p].instrs == body.instrs + tail && TailLowered(f, p, tail, limit);
    assert Run(g, m, d, 1) == Next(g, m, d);
    var o1, n1 := ExecSeq(m, body.instrs, c.st), ExecSeq(m, body.instrs, d.st);
    if body.succs == [] {
      assert body.instrs + tail == body.instrs;
    } else {
      var s := body.succs[0];
      assert s in body.succs && SplitLowered(f, g, splits, p, s, limit);
      PhiCopiesBelow(f, p, s, limit);
      EdgeAgrees(m, tail, EdgeCopies(f[s].phis, p), limit, o1, n1);
      ExecSeqAppend(m, body.instrs, tail, d.st);
    }
  }

  lemma ManyWaysOut(f: PhiFunction, g: Function, splits: Splits, limit: nat, m: Machine, c: Config, d: Config)
    returns (steps: nat)
    requires ValidPhis(f, limit) && Lowered(f, g, splits, limit) && !m.physical
    requires InPhis(f, c) && InFunction(g, d) && Linked(limit, c, d) && c.Running?
    requires |f[c.block].body.succs| > 1
    ensures 1 <= steps <= 2
    ensures Linked(limit, NextPhi(f, limit, m, c), Run(g, m, d, steps))
  {
    hide ExecSeq, Exec, EdgeCode, EdgeCopies;
    var p := c.block;
    assert ValidBlock(f, p, limit) && BlockLowered(f, g, splits, p, limit);
    var body := f[p].body;
    InstrsAgree(m, body.instrs, limit, c.st, d.st);
    assert body.instrs + [] == body.instrs;
    var o1, n1 := ExecSeq(m, body.instrs, c.st), ExecSeq(m, body.instrs, d.st);
    var s := Chosen(m.branch(o1.hist), body.succs);
    var d1 := Next(g, m, d);
    assert d1 == Running(Via(splits, p, s), n1);
    assert s in body.succs && SplitLowered(f, g, splits, p, s, limit);
    PhiCopiesBelow(f, p, s, limit);
    if (p, s) in splits {
      var e := splits[(p, s)];
      EdgeAgrees(m, g.blocks[e].instrs, EdgeCopies(f[s].phis, p), limit, o1, n1);
      assert Next(g, m, d1) == Running(s, ExecSeq(m, g.blocks[e].instrs, n1));
      TwoSteps(g, m, d);
      steps := 2;
    } else {
      assert EdgeCopies(f[s].phis, p) == [];
      assert Run(g, m, d, 1) == d1;
      steps := 1;
    }
  }

  lemma TwoSteps(g: Function, m: Machine, d: Config)
    requires Executable(g) && InFunction(g, d)
    ensures Run(g, m, d, 2) == Next(g, m, Next(g, m, d))
  {
    assert Run(g, m, d, 2) == Run(g, m, Next(g, m, d), 1);
  }

  lemma {:induction false} RunSplits(g: Function, m: Machine, d: Config, a: nat, b: nat)
    requires Executable(g) && InFunction(g, d)
    ensures Run(g, m, d, a + b) == Run(g, m, Run(g, m, d, a), b)
    decreases a
  {
    if a > 0 { RunSplits(g, m, Next(g, m, d), a - 1, b); }
  }

  /** PHI lowering preserves behaviour: however many blocks the SSA function has run, the lowered
      one gets to the same block with the same history, in at most twice as many. */
  lemma {:induction false} LoweringPreservesRuns(f: PhiFunction, g: Function, splits: Splits, limit: nat, m: Machine,
                                                 c: Config, d: Config, k: nat) returns (j: nat)
    requires ValidPhis(f, limit) && Lowered(f, g, splits, limit) && !m.physical
    requires InPhis(f, c) && InFunction(g, d) && Linked(limit, c, d)
    ensures k <= j <= 2 * k
    ensures Linked(limit, RunPhi(f, limit, m, c, k), Run(g, m, d, j))
    ensures SameBehaviour(RunPhi(f, limit, m, c, k), Run(g, m, d, j))
    decreases k
  {
    hide NextPhi, Next, ValidPhis;
    if k == 0 {
      j := 0;
    } else {
      var steps := StepLowered(f, g, splits, limit, m, c, d);
      j := LoweringPreservesRuns(f, g, splits, limit, m, NextPhi(f, limit, m, c), Run(g, m, d, steps), k - 1);
      RunSplits(g, m, d, steps, j);
      j := steps + j;
    }
  }
}
