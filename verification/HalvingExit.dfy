/**
 What follows a batched loop.  At the exit the loop's own state and count registers, from which
 the edges computed, may differ from the original's: they say where the last trip began, and a
 batched trip stands for several.  The code after the exit must not read them.
 */
module HalvingExit {
  import opened Bits
  import opened Words
  import opened WordMachine
  import opened Halving
  import opened HalvingLoop
  import opened HalvingRewrite

  // ----- The two registers at the exit -----

  /** From state 4 with sentinel 1 the original loop leaves after two trips, the second of which
      began with 2; the batched loop leaves after one, which began with 4. */
  lemma ExitStateDiffers(l: Loop, b: Loop, nm: Names, count: Reg, junk: set<Reg>, m: Machine)
    requires Paired(l, b, nm, count, junk) && nm.sentinel == 1 && m.regs(nm.state) == 4
    ensures var o, p := Trips(l, nm.state, m, 2), Trip(b, nm.state, m);
      && o.Exited? && p.Exited? && o.m.regs(nm.state) == 2 && p.m.regs(nm.state) == 4
      && o.m.regs(nm.count) != p.m.regs(nm.count)
  {
    FourHalved();
    hide Run, U32, Halved, Ctz, Zeros, Compare32, OddMatched, OddKept, Trips, Leaves, CountedBefore;
    var y := AllHalvings(l, nm, count, junk, m);
    var z := Run(EvenPath(b), m);
    assert Arrives(nm, m, z, Halved(m.regs(nm.state), Zeros(4) % 32), count, U32(m.regs(nm.count) + Zeros(4)), junk);
    EvenOwn(l, b, nm, count, junk, m, m, y, z);
    assert Compare32(1, 1).z by { OneIsOne(); }
  }

  lemma FourHalved()
    ensures U32(4) == 4 && Ctz(4) == 2 && Zeros(4) == 2
    ensures Halved(4, 1) == 2 && Halved(4, 2) == 1
  {
    assert Ctz(4) == 2 && S32(4) == 4 && Pow2(1) == 2 && Pow2(2) == 4;
    ZerosCount(4);
  }

  lemma OneIsOne()
    ensures Compare32(1, 1).z
  {
  }

  /** When the odd computation leaves the state register alone. */
  ghost predicate StateUnwritten(l: Loop, nm: Names) {
    forall k :: 0 <= k < |l.oddCompute| ==> l.oddCompute[k].dst != nm.state || IsCompare(l.oddCompute[k].op)
  }

  lemma NeverMeets(l: Loop, b: Loop, nm: Names, count: Reg, junk: set<Reg>, last: Machine)
    requires OddMatched(l, b, nm, count, junk) && l.oddCompute == b.oddCompute && StateUnwritten(l, nm)
    ensures !StateMeets(l, b, nm, last)
  {
    var mid := Run(b.oddCompute, last);
    Unwritten(b.oddCompute, nm.state, last);
    if last.regs(nm.state) % 2 == 1 {
      OddState(l, b, nm, count, junk, last);
      var t := U32(mid.regs(nm.three) + 1);
      if t != 0 {
        ZerosCount(t);
        SomeZeros(t);
        hide Run, Halved, U32, Ctz, Zeros;
        if Zeros(t) > 1 { StillEven(t, Zeros(t) - 1); }
      } else {
        ZeroBefore();
        hide Run, U32, Zeros, Halved;
      }
    }
  }

  lemma ZeroBefore()
    ensures BeforeLast(0, Zeros(0)) == 0
  {
    assert U32(0) == 0;
    HalvedZero(0, if Zeros(0) <= 1 then 0 else Zeros(0) - 1);
    hide Halved, Zeros;
  }

  /** Where the two loops leave through the test, the state registers agree if and only if the last
      batched trip took one halving or an odd edge that was left as it was; the count registers
      then too, unless the loop's own count was reused: then they never agree. */
  lemma OwnRegistersAgree(l: Loop, b: Loop, nm: Names, onEdges: bool, reuse: bool, oddMatched: bool, f: Fresh,
                          m: Machine, n: Machine, i: nat) returns (j: nat, last: Machine)
    requires Rewritten(l, b, nm, onEdges, reuse, oddMatched, f) && Private(l, nm, onEdges, reuse, oddMatched, f)
    requires (reuse ==> oddMatched) && Agree(Junk(nm, onEdges, reuse, f), m, n) && StateUnwritten(l, nm)
    requires Trips(l, nm.state, m, i).Exited?
    ensures j > 0 && Trips(b, nm.state, n, j - 1) == Again(last) && Trips(b, nm.state, n, j).Exited?
    ensures var p, q := Trips(l, nm.state, m, i).m, Trips(b, nm.state, n, j).m;
      var unbatched := if last.regs(nm.state) % 2 == 0 then Zeros(last.regs(nm.state)) == 1 else !oddMatched;
      && (p.regs(nm.state) == q.regs(nm.state) <==> unbatched)
      && (p.regs(nm.count) == q.regs(nm.count) <==> unbatched && !reuse)
  {
    var junk, count := Junk(nm, onEdges, reuse, f), if reuse then nm.count else nm.edgeCount;
    assert nm.count != nm.edgeCount;
    SameOddPaths(l, b, nm, onEdges, reuse, oddMatched, f);
    RewritePairs(l, b, nm, onEdges, reuse, oddMatched, f);
    j, last := RewrittenLeaves(l, b, nm, onEdges, reuse, oddMatched, f, m, n, i);
    hide Run, Zeros, Rewritten, Private, Trips, SameExit, OddMatched, OddPath, Junk;
    if oddMatched { NeverMeets(l, b, nm, count, junk, last); } else { KeptNeverMeets(l, b, nm, last); }
  }

  lemma KeptNeverMeets(l: Loop, b: Loop, nm: Names, last: Machine)
    requires OddPath(l) == OddPath(b)
    ensures !StateMeets(l, b, nm, last)
  {
    hide Run, OddPath;
  }

  lemma SameOddPaths(l: Loop, b: Loop, nm: Names, onEdges: bool, reuse: bool, oddMatched: bool, f: Fresh)
    requires Rewritten(l, b, nm, onEdges, reuse, oddMatched, f) && Private(l, nm, onEdges, reuse, oddMatched, f)
    requires reuse ==> oddMatched
    ensures OddPath(l) == OddPath(b) <==> !oddMatched
    ensures oddMatched ==>
      OddMatched(l, b, nm, if reuse then nm.count else nm.edgeCount, Junk(nm, onEdges, reuse, f))
  {
    var junk, count := Junk(nm, onEdges, reuse, f), if reuse then nm.count else nm.edgeCount;
    if oddMatched {
      OddUnit(l, nm, onEdges, junk);
      OddBatched(b, nm, onEdges, reuse, f, junk);
      var at :| Triples(l.oddCompute, nm, at);
      forall m: Machine ensures Run(l.oddCompute, m).regs(nm.three) == U32(3 * m.regs(nm.state)) {
        TripleComputed(l.oddCompute, nm, at, m);
      }
      hide Run, UnitOdd, BatchOdd, U32, OddPath;
      MatchedDiffers(l, b, nm, count, junk);
    }
  }

  // ----- Registers nobody reads any more -----

  /** Of the registers that may differ, those code has not yet overwritten. */
  function StillGone(code: seq<Instr>, gone: set<Reg>): set<Reg> {
    if code == [] then gone
    else
      var i, before := code[|code| - 1], StillGone(code[..|code| - 1], gone);
      if IsCompare(i.op) then before else before - {i.dst}
  }

  /** No instruction reads a register that may differ before it is overwritten. */
  ghost predicate ReadsNotGone(code: seq<Instr>, gone: set<Reg>) {
    forall k, r :: 0 <= k < |code| && r in code[k].uses ==> r !in StillGone(code[..k], gone)
  }

  lemma {:induction false} StraightAlike(code: seq<Instr>, gone: set<Reg>, m: Machine, n: Machine)
    requires Agree(gone, m, n) && ReadsNotGone(code, gone)
    ensures Agree(StillGone(code, gone), Run(code, m), Run(code, n))
  {
    if code != [] {
      var i, init := code[|code| - 1], code[..|code| - 1];
      assert forall k :: 0 <= k < |init| ==> init[k] == code[k] && init[..k] == code[..k];
      StraightAlike(init, gone, m, n);
      var a, b := Run(init, m), Run(init, n);
      assert forall k: nat {:trigger Arg(a, i.uses, k)} :: k < |i.uses| ==> i.uses[k] in i.uses;
      assert forall k: nat :: Arg(a, i.uses, k) == Arg(b, i.uses, k);
      StepSettles(i, StillGone(init, gone), a, b);
    }
  }

  lemma StepSettles(i: Instr, gone: set<Reg>, a: Machine, b: Machine)
    requires Agree(gone, a, b) && forall k: nat :: Arg(a, i.uses, k) == Arg(b, i.uses, k)
    ensures Agree(if IsCompare(i.op) then gone else gone - {i.dst}, Step(i, a), Step(i, b))
  {
    hide Value, NewFlags, IsCompare;
  }

  // ----- Any code after the exit -----

  /** A block of the code that follows: it goes on to one of its successors by the flags and the
      tested registers, or returns the tested registers. */
  datatype Block = Block(code: seq<Instr>, tested: seq<Reg>, succs: seq<nat>, pick: (Flags, seq<nat>) -> nat)

  datatype Place = At(block: nat, m: Machine) | Returned(flags: Flags, values: seq<nat>)

  function Tests(m: Machine, tested: seq<Reg>): seq<nat> {
    seq<nat>(|tested|, k requires 0 <= k < |tested| => m.regs(tested[k]))
  }

  function Execute(block: Block, m: Machine): Place {
    var n := Run(block.code, m);
    var values := Tests(n, block.tested);
    if block.succs == [] then Returned(n.flags, values)
    else At(block.succs[block.pick(n.flags, values) % |block.succs|], n)
  }

  /** The place after k more blocks. */
  function Follow(blocks: seq<Block>, p: Place, k: nat): Place
    decreases k
  {
    if k == 0 || p.Returned? || p.block >= |blocks| then p else Follow(blocks, Execute(blocks[p.block], p.m), k - 1)
  }

  /** gone[b] may differ when block b starts; no block reads such a register before writing it. */
  ghost predicate NotRead(block: Block, before: set<Reg>, gone: seq<set<Reg>>) {
    && ReadsNotGone(block.code, before)
    && (forall r :: r in block.tested ==> r !in StillGone(block.code, before))
    && (forall s :: s in block.succs ==> s < |gone| && StillGone(block.code, before) <= gone[s])
  }

  ghost predicate NeverRead(blocks: seq<Block>, gone: seq<set<Reg>>) {
    |blocks| == |gone| && forall b :: 0 <= b < |blocks| ==> NotRead(blocks[b], gone[b], gone)
  }

  /** At the same block with the same registers but those nobody reads any more, or returned the same. */
  ghost predicate Alike(gone: seq<set<Reg>>, p: Place, q: Place) {
    match p
    case At(b, m) => q.At? && q.block == b && b < |gone| && Agree(gone[b], m, q.m)
    case Returned(_, _) => p == q
  }

  lemma ExecuteAlike(block: Block, before: set<Reg>, gone: seq<set<Reg>>, m: Machine, n: Machine)
    requires Agree(before, m, n) && NotRead(block, before, gone)
    ensures Alike(gone, Execute(block, m), Execute(block, n))
  {
    StraightAlike(block.code, before, m, n);
    TestedSame(block, StillGone(block.code, before), gone, Run(block.code, m), Run(block.code, n));
  }

  lemma TestedSame(block: Block, left: set<Reg>, gone: seq<set<Reg>>, x: Machine, y: Machine)
    requires Agree(left, x, y) && (forall r :: r in block.tested ==> r !in left)
    requires forall s :: s in block.succs ==> s < |gone| && left <= gone[s]
    ensures Tests(x, block.tested) == Tests(y, block.tested) && x.flags == y.flags
    ensures block.succs != [] ==>
      var s := block.succs[block.pick(x.flags, Tests(x, block.tested)) % |block.succs|];
      s < |gone| && Agree(gone[s], x, y)
  {
    assert forall k :: 0 <= k < |block.tested| ==> block.tested[k] in block.tested;
    assert Tests(x, block.tested) == Tests(y, block.tested);
    if block.succs != [] {
      var at := block.pick(x.flags, Tests(x, block.tested)) % |block.succs|;
      assert block.succs[at] in block.succs;
    }
  }

  lemma {:induction false} FollowAlike(blocks: seq<Block>, gone: seq<set<Reg>>, p: Place, q: Place, k: nat)
    requires NeverRead(blocks, gone) && Alike(gone, p, q)
    ensures Alike(gone, Follow(blocks, p, k), Follow(blocks, q, k))
    decreases k
  {
    if k > 0 && p.At? {
      ExecuteAlike(blocks[p.block], gone[p.block], gone, p.m, q.m);
      hide Execute;
      FollowAlike(blocks, gone, Execute(blocks[p.block], p.m), Execute(blocks[p.block], q.m), k - 1);
    }
  }

  // ----- The exit block -----

  /** The exit block with its copy of the count. */
  function ExitCode(before: seq<Instr>, dst: Reg, from: Reg, after: seq<Instr>): seq<Instr> {
    before + [Instr(COPY, dst, [from])] + after
  }

  /** What a reused count needs of the exit block around the redirected copy: registers that may
      differ are not read, and neither count is written before it is copied. */
  ghost predicate CopyRedirected(exit: Block, exit': Block, nm: Names, own: set<Reg>, gone: seq<set<Reg>>) {
    exists before, dst, after :: RedirectedBy(exit, exit', nm, own, gone, before, dst, after)
  }

  ghost predicate RedirectedBy(exit: Block, exit': Block, nm: Names, own: set<Reg>, gone: seq<set<Reg>>,
                               before: seq<Instr>, dst: Reg, after: seq<Instr>) {
    && exit.code == ExitCode(before, dst, nm.edgeCount, after)
      && exit' == exit.(code := ExitCode(before, dst, nm.count, after))
    && ReadsNotGone(before, own) && Keeps(before, nm.edgeCount) && Keeps(before, nm.count)
    && NotRead(exit.(code := after), StillGone(before, own) - {dst}, gone)
  }

  ghost predicate Keeps(code: seq<Instr>, r: Reg) {
    forall k :: 0 <= k < |code| ==> code[k].dst != r || IsCompare(code[k].op)
  }

  lemma RedirectedAlike(exit: Block, exit': Block, nm: Names, own: set<Reg>, gone: seq<set<Reg>>, p: Machine,
                        q: Machine)
    requires CopyRedirected(exit, exit', nm, own, gone) && Agree(own, p, q) && p.regs(nm.edgeCount) == q.regs(nm.count)
    ensures Alike(gone, Execute(exit, p), Execute(exit', q))
  {
    var before, dst, after :| RedirectedBy(exit, exit', nm, own, gone, before, dst, after);
    StraightAlike(before, own, p, q);
    Unwritten(before, nm.edgeCount, p);
    Unwritten(before, nm.count, q);
    var x, y := Run(before, p), Run(before, q);
    Copies(dst, nm.edgeCount, x);
    Copies(dst, nm.count, y);
    ExitRuns(before, dst, nm.edgeCount, after, p);
    ExitRuns(before, dst, nm.count, after, q);
    hide Run, Step, Keeps;
    ExecuteAlike(exit.(code := after), StillGone(before, own) - {dst}, gone,
                 Step(Instr(COPY, dst, [nm.edgeCount]), x), Step(Instr(COPY, dst, [nm.count]), y));
  }

  lemma ExitRuns(before: seq<Instr>, dst: Reg, from: Reg, after: seq<Instr>, m: Machine)
    ensures Run(ExitCode(before, dst, from, after), m) == Run(after, Step(Instr(COPY, dst, [from]), Run(before, m)))
  {
    hide Step;
    var copy := Instr(COPY, dst, [from]);
    RunConcat(before + [copy], after, m);
    RunConcat(before, [copy], m);
    RunTwo(copy, copy, Run(before, m));
  }

  /** What a caller can check of the code after the exit test: no path reads the loop's own state and
      count, or a register of the edges, before writing it. */
  ghost predicate ExitIgnores(exit: Block, exit': Block, nm: Names, onEdges: bool, reuse: bool, f: Fresh,
                              blocks: seq<Block>, gone: seq<set<Reg>>) {
    var own := Junk(nm, onEdges, reuse, f) + {nm.state, nm.count};
    && NeverRead(blocks, gone)
    && if reuse then CopyRedirected(exit, exit', nm, own, gone) else exit' == exit && NotRead(exit, own, gone)
  }

  /** Then nothing that follows can tell the two loops apart: wherever the original loop leaves by its
      test, the rewritten one does, and after any number of blocks both are at the same place. */
  lemma ExitFollowed(l: Loop, b: Loop, nm: Names, onEdges: bool, reuse: bool, oddMatched: bool, f: Fresh,
                     m: Machine, n: Machine, i: nat, exit: Block, exit': Block, blocks: seq<Block>, gone: seq<set<Reg>>,
                     k: nat) returns (j: nat)
    requires Rewritten(l, b, nm, onEdges, reuse, oddMatched, f) && Private(l, nm, onEdges, reuse, oddMatched, f)
    requires (reuse ==> oddMatched) && Agree(Junk(nm, onEdges, reuse, f), m, n)
    requires Trips(l, nm.state, m, i).Exited? && ExitIgnores(exit, exit', nm, onEdges, reuse, f, blocks, gone)
    ensures Trips(b, nm.state, n, j).Exited?
    ensures var p, q := Trips(l, nm.state, m, i).m, Trips(b, nm.state, n, j).m;
      Alike(gone, Follow(blocks, Execute(exit, p), k), Follow(blocks, Execute(exit', q), k))
  {
    hide Rewritten, Private, Trips, Execute, Follow, Alike, NeverRead, CopyRedirected, NotRead, Junk;
    var last;
    j, last := RewrittenLeaves(l, b, nm, onEdges, reuse, oddMatched, f, m, n, i);
    var p, q := Trips(l, nm.state, m, i).m, Trips(b, nm.state, n, j).m;
    var own := Junk(nm, onEdges, reuse, f) + {nm.state, nm.count};
    Retired(nm, onEdges, f);
    ExitAgrees(nm, if reuse then nm.count else nm.edgeCount, Junk(nm, onEdges, reuse, f), own, p, q);
    if reuse {
      RedirectedAlike(exit, exit', nm, own, gone, p, q);
    } else {
      ExecuteAlike(exit, own, gone, p, q);
    }
    FollowAlike(blocks, gone, Execute(exit, p), Execute(exit', q), k);
  }

  lemma Retired(nm: Names, onEdges: bool, f: Fresh)
    ensures nm.edgeCount in Junk(nm, onEdges, true, f)
  {
  }

  lemma ExitAgrees(nm: Names, count: Reg, junk: set<Reg>, own: set<Reg>, p: Machine, q: Machine)
    requires SameExit(nm, count, junk, p, q) && own == junk + {nm.state, nm.count}
    requires count == nm.edgeCount || nm.edgeCount in junk
    ensures Agree(own, p, q)
  {
  }

  /** Where the odd computation leaves the loop even these two registers agree. */
  lemma SideExitFollowed(l: Loop, b: Loop, nm: Names, onEdges: bool, reuse: bool, oddMatched: bool, f: Fresh,
                         m: Machine, n: Machine, i: nat, blocks: seq<Block>, gone: seq<set<Reg>>, target: nat, k: nat)
    returns (j: nat)
    requires Rewritten(l, b, nm, onEdges, reuse, oddMatched, f) && Private(l, nm, onEdges, reuse, oddMatched, f)
    requires (reuse ==> oddMatched) && Agree(Junk(nm, onEdges, reuse, f), m, n)
    requires Trips(l, nm.state, m, i).Left? && NeverRead(blocks, gone)
    requires target < |gone| && Junk(nm, onEdges, reuse, f) <= gone[target]
    ensures Trips(b, nm.state, n, j).Left?
    ensures var p, q := Trips(l, nm.state, m, i).m, Trips(b, nm.state, n, j).m;
      Alike(gone, Follow(blocks, At(target, p), k), Follow(blocks, At(target, q), k))
  {
    hide Rewritten, Private, Trips, Follow, NeverRead, Junk;
    var last;
    j, last := RewrittenLeaves(l, b, nm, onEdges, reuse, oddMatched, f, m, n, i);
    var p, q := Trips(l, nm.state, m, i).m, Trips(b, nm.state, n, j).m;
    FollowAlike(blocks, gone, At(target, p), At(target, q), k);
  }
}
