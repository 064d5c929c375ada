/**
 The rewrite of a matched halving loop. The even edge gets a count of trailing zeros, one
 variable shift and the batched increment; so does an odd edge that computes 3 * state + 1.
 Each rewritten edge carries its own copy of the latch's test.
 */
module HalvingRewrite {
  import opened Bits
  import opened Words
  import opened WordMachine
  import opened Halving
  import opened HalvingLoop

  function Compare(nm: Names): Instr {
    Instr(CMPWri(nm.sentinel), 0, [nm.latchState])
  }

  /** The matched blocks; the increment is either in the latch or on the edges. */
  function EvenCode(nm: Names, onEdges: bool): seq<Instr> {
    var shift, copy := Instr(ASRWri(1), nm.shifted, [nm.state]), Instr(COPY, nm.latchState, [nm.shifted]);
    if onEdges then
      [shift, Instr(ADDWri(1), nm.incremented, [nm.count]), Instr(COPY, nm.edgeCount, [nm.incremented]), copy]
    else
      [shift, copy]
  }

  function OddCode(nm: Names, onEdges: bool): seq<Instr> {
    var update, copy := Instr(ADDWri(1), nm.updated, [nm.three]), Instr(COPY, nm.latchState, [nm.updated]);
    if onEdges then
      [Instr(ADDWri(1), nm.oddCount, [nm.count]), update, Instr(COPY, nm.edgeCount, [nm.oddCount]), copy]
    else
      [update, copy]
  }

  function LatchCode(nm: Names, onEdges: bool): seq<Instr> {
    if onEdges then [Compare(nm)] else [Instr(ADDWri(1), nm.incremented, [nm.count]), Compare(nm)]
  }

  function ContinuationCode(nm: Names, countFirst: bool): seq<Instr> {
    var count, state := Instr(COPY, nm.count, [nm.edgeCount]), Instr(COPY, nm.state, [nm.latchState]);
    if countFirst then [count, state] else [state, count]
  }

  // Straight lines

  lemma RunFour(a: Instr, b: Instr, c: Instr, d: Instr, m: Machine)
    ensures Run([a, b, c, d], m) == Step(d, Step(c, Step(b, Step(a, m))))
    ensures Run([a, b, c], m) == Step(c, Step(b, Step(a, m)))
  {
    hide Step;
    RunTwo(a, b, m);
    RunTwo(c, d, Run([a, b], m));
    RunConcat([a, b], [c, d], m);
    RunConcat([a, b], [c], m);
    assert [a, b] + [c, d] == [a, b, c, d] && [a, b] + [c] == [a, b, c];
  }

  lemma RunSeven(a: Instr, b: Instr, c: Instr, d: Instr, e: Instr, f: Instr, g: Instr, m: Machine)
    ensures var n := Step(f, Step(e, Step(d, Step(c, Step(b, Step(a, m))))));
      Run([a, b, c, d, e, f], m) == n && Run([a, b, c, d, e, f, g], m) == Step(g, n)
  {
    hide Step;
    RunFour(a, b, c, d, m);
    var n := Run([a, b, c, d], m);
    RunFour(e, f, g, g, n);
    RunTwo(e, f, n);
    RunConcat([a, b, c, d], [e, f, g], m);
    RunConcat([a, b, c, d], [e, f], m);
    assert [a, b, c, d] + [e, f, g] == [a, b, c, d, e, f, g] && [a, b, c, d] + [e, f] == [a, b, c, d, e, f];
  }

  /** One register gets a value, nothing else changes. */
  ghost predicate Writes(m: Machine, n: Machine, dst: Reg, value: nat) {
    n.flags == m.flags && n.regs(dst) == value && forall r: Reg :: r != dst ==> n.regs(r) == m.regs(r)
  }

  lemma Unary(op: Op, dst: Reg, a: Reg, m: Machine)
    requires !IsCompare(op)
    ensures Writes(m, Step(Instr(op, dst, [a]), m), dst, Value(op, m.regs(a), 0, 0, m.flags))
  {
    hide Value;
  }

  lemma Binary(op: Op, dst: Reg, a: Reg, b: Reg, m: Machine)
    requires !IsCompare(op)
    ensures Writes(m, Step(Instr(op, dst, [a, b]), m), dst, Value(op, m.regs(a), m.regs(b), 0, m.flags))
  {
    hide Value;
  }

  lemma Tests(nm: Names, m: Machine)
    ensures Compared(nm, m, Step(Compare(nm), m))
  {
    hide Compare32;
  }

  /** The matched registers are all different. */
  ghost predicate Distinct(nm: Names) {
    && nm.state !in {nm.shifted, nm.latchState, nm.count, nm.edgeCount, nm.three, nm.updated, nm.oddCount}
    && nm.shifted !in {nm.latchState, nm.count, nm.edgeCount, nm.three, nm.updated, nm.oddCount}
    && nm.latchState !in {nm.count, nm.edgeCount, nm.three, nm.updated, nm.oddCount}
    && nm.count !in {nm.edgeCount, nm.three, nm.updated, nm.oddCount}
    && nm.edgeCount !in {nm.three, nm.updated, nm.oddCount}
    && nm.three !in {nm.updated, nm.oddCount} && nm.updated != nm.oddCount
  }

  ghost function Registers(nm: Names): set<Reg> {
    {nm.state, nm.shifted, nm.latchState, nm.count, nm.edgeCount, nm.three, nm.updated, nm.oddCount}
  }

  lemma ZerosValue(w: nat, f: Flags)
    ensures Value(CLZW, Value(RBITW, w, 0, 0, f), 0, 0, f) == Zeros(w) <= 32
    ensures U32(Zeros(w)) == Zeros(w)
  {
    ReversedWord(w);
    ZerosBounded(ReverseBits(U32(w), 32), 32);
    hide ReverseBits, LeadingZeros, Pow2;
    ReadsItself(Zeros(w));
  }

  lemma ReversedWord(w: nat)
    ensures U32(ReverseBits(U32(w), 32)) == ReverseBits(U32(w), 32)
  {
    ReversedBounded(U32(w), 32);
    Pow2Values();
    hide ReverseBits, Pow2;
    ReadsItself(ReverseBits(U32(w), 32));
  }

  lemma ReadsItself(w: nat)
    requires w < B32
    ensures U32(w) == w
  {
  }

  lemma {:induction false} ZerosBounded(w: nat, n: nat)
    ensures LeadingZeros(w, n) <= n
  {
    if n > 0 && w < Pow2(n - 1) { ZerosBounded(w, n - 1); }
  }

  /** What the shift and the sum make of the counted zeros. */
  lemma BatchValues(w: nat, c: nat, f: Flags)
    ensures var k := Value(CLZW, Value(RBITW, w, 0, 0, f), 0, 0, f);
      && k == Zeros(w)
      && Value(ASRWrr, w, k, 0, f) == Halved(w, k % 32)
      && Value(ADDWrr, c, k, 0, f) == U32(c + k)
  {
    ZerosValue(w, f);
    hide ReverseBits, LeadingZeros, Pow2;
  }

  lemma UnitValues(w: nat, c: nat, f: Flags)
    ensures Value(ASRWri(1), w, 0, 0, f) == Halved(w, 1) && Value(COPY, w, 0, 0, f) == w
    ensures Value(ADDWri(1), c, 0, 0, f) == U32(c + 1)
  {
    hide Pow2;
  }

  // The matched edges

  ghost predicate Usable(nm: Names, onEdges: bool, junk: set<Reg>) {
    && Distinct(nm)
    && nm.shifted in junk && nm.updated in junk && (onEdges ==> nm.oddCount in junk)
    && (if onEdges then nm.incremented !in Registers(nm) && nm.incremented in junk else nm.incremented == nm.edgeCount)
  }

  lemma EvenInLatch(nm: Names, junk: set<Reg>, m: Machine)
    requires Usable(nm, false, junk)
    ensures Arrives(nm, m, Run(EvenCode(nm, false) + LatchCode(nm, false), m),
                    Halved(m.regs(nm.state), 1), nm.edgeCount, U32(m.regs(nm.count) + 1), junk)
  {
    var e, l := EvenCode(nm, false), LatchCode(nm, false);
    assert e + l == [e[0], e[1], l[0], l[1]];
    RunFour(e[0], e[1], l[0], l[1], m);
    hide Run, Step, Value, U32, Halved, Compare32;
    UnitValues(m.regs(nm.state), m.regs(nm.count), m.flags);
    Unary(ASRWri(1), nm.shifted, nm.state, m);
    var m1 := Step(e[0], m);
    Unary(COPY, nm.latchState, nm.shifted, m1);
    CopyValue(m1.regs(nm.shifted), m1.flags);
    var m2 := Step(e[1], m1);
    Unary(ADDWri(1), nm.incremented, nm.count, m2);
    Tests(nm, Step(l[0], m2));
  }

  lemma CopyValue(w: nat, f: Flags)
    ensures Value(COPY, w, 0, 0, f) == w
  {
  }

  lemma EvenOnEdges(nm: Names, junk: set<Reg>, m: Machine)
    requires Usable(nm, true, junk)
    ensures Arrives(nm, m, Run(EvenCode(nm, true) + LatchCode(nm, true), m),
                    Halved(m.regs(nm.state), 1), nm.edgeCount, U32(m.regs(nm.count) + 1), junk)
  {
    var e, l := EvenCode(nm, true), LatchCode(nm, true);
    RunFour(e[0], e[1], e[2], e[3], m);
    RunConcat(e, l, m);
    RunTwo(l[0], l[0], Run(e, m));
    hide Run, Step, Value, U32, Halved, Compare32;
    UnitValues(m.regs(nm.state), m.regs(nm.count), m.flags);
    Unary(ASRWri(1), nm.shifted, nm.state, m);
    var m1 := Step(e[0], m);
    Unary(ADDWri(1), nm.incremented, nm.count, m1);
    var m2 := Step(e[1], m1);
    Unary(COPY, nm.edgeCount, nm.incremented, m2);
    CopyValue(m2.regs(nm.incremented), m2.flags);
    var m3 := Step(e[2], m2);
    Unary(COPY, nm.latchState, nm.shifted, m3);
    CopyValue(m3.regs(nm.shifted), m3.flags);
    Tests(nm, Step(e[3], m3));
  }

  lemma EvenUnit(l: Loop, nm: Names, onEdges: bool, junk: set<Reg>)
    requires l.even == EvenCode(nm, onEdges) && l.latch == LatchCode(nm, onEdges) && l.evenToLatch
    requires Usable(nm, onEdges, junk)
    ensures UnitEven(l, nm, junk)
  {
    hide U32, Halved, Compare32, Run, Usable, EvenCode, LatchCode, Arrives;
    forall m: Machine
      ensures Arrives(nm, m, Run(EvenPath(l), m), Halved(m.regs(nm.state), 1), nm.edgeCount,
                      U32(m.regs(nm.count) + 1), junk)
    {
      if onEdges { EvenOnEdges(nm, junk, m); } else { EvenInLatch(nm, junk, m); }
    }
  }

  lemma OddInLatch(nm: Names, junk: set<Reg>, m: Machine)
    requires Usable(nm, false, junk)
    ensures Arrives(nm, m, Run(OddCode(nm, false) + LatchCode(nm, false), m),
                    U32(m.regs(nm.three) + 1), nm.edgeCount, U32(m.regs(nm.count) + 1), junk)
  {
    var e, l := OddCode(nm, false), LatchCode(nm, false);
    assert e + l == [e[0], e[1], l[0], l[1]];
    RunFour(e[0], e[1], l[0], l[1], m);
    hide Run, Step, Value, U32, Compare32;
    UnitValues(0, m.regs(nm.three), m.flags);
    UnitValues(0, m.regs(nm.count), m.flags);
    Unary(ADDWri(1), nm.updated, nm.three, m);
    var m1 := Step(e[0], m);
    Unary(COPY, nm.latchState, nm.updated, m1);
    CopyValue(m1.regs(nm.updated), m1.flags);
    var m2 := Step(e[1], m1);
    Unary(ADDWri(1), nm.incremented, nm.count, m2);
    Tests(nm, Step(l[0], m2));
  }

  lemma OddOnEdges(nm: Names, junk: set<Reg>, m: Machine)
    requires Usable(nm, true, junk)
    ensures Arrives(nm, m, Run(OddCode(nm, true) + LatchCode(nm, true), m),
                    U32(m.regs(nm.three) + 1), nm.edgeCount, U32(m.regs(nm.count) + 1), junk)
  {
    var e, l := OddCode(nm, true), LatchCode(nm, true);
    RunFour(e[0], e[1], e[2], e[3], m);
    RunConcat(e, l, m);
    RunTwo(l[0], l[0], Run(e, m));
    hide Run, Step, Value, U32, Compare32;
    UnitValues(0, m.regs(nm.three), m.flags);
    UnitValues(0, m.regs(nm.count), m.flags);
    Unary(ADDWri(1), nm.oddCount, nm.count, m);
    var m1 := Step(e[0], m);
    Unary(ADDWri(1), nm.updated, nm.three, m1);
    var m2 := Step(e[1], m1);
    Unary(COPY, nm.edgeCount, nm.oddCount, m2);
    CopyValue(m2.regs(nm.oddCount), m2.flags);
    var m3 := Step(e[2], m2);
    Unary(COPY, nm.latchState, nm.updated, m3);
    CopyValue(m3.regs(nm.updated), m3.flags);
    Tests(nm, Step(e[3], m3));
  }

  lemma OddUnit(l: Loop, nm: Names, onEdges: bool, junk: set<Reg>)
    requires l.odd == OddCode(nm, onEdges) && l.latch == LatchCode(nm, onEdges) && l.oddToLatch
    requires Usable(nm, onEdges, junk)
    ensures UnitOdd(l, nm, junk)
  {
    hide U32, Compare32, Run, Usable, OddCode, LatchCode, Arrives;
    forall m: Machine
      ensures Arrives(nm, m, Run(OddPath(l), m), U32(m.regs(nm.three) + 1), nm.edgeCount, U32(m.regs(nm.count) + 1),
                      junk)
    {
      if onEdges { OddOnEdges(nm, junk, m); } else { OddInLatch(nm, junk, m); }
    }
  }

  // The rewritten edges

  /** The registers the rewrite creates. */
  datatype Fresh = Fresh(reversed: Reg, amount: Reg, oddReversed: Reg, oddAmount: Reg, batched: Reg)

  function EvenHead(nm: Names, f: Fresh): seq<Instr> {
    [Instr(RBITW, f.reversed, [nm.state]), Instr(CLZW, f.amount, [f.reversed]),
     Instr(ASRWrr, nm.shifted, [nm.state, f.amount])]
  }

  function EvenTail(nm: Names, onEdges: bool, reuse: bool, f: Fresh): seq<Instr> {
    var copy := Instr(COPY, nm.latchState, [nm.shifted]);
    var add := Instr(ADDWrr, if reuse then nm.count else nm.incremented, [nm.count, f.amount]);
    if !onEdges then [copy, add, Compare(nm)]
    else if reuse then [add, copy, Compare(nm)]
    else [add, Instr(COPY, nm.edgeCount, [nm.incremented]), copy, Compare(nm)]
  }

  function BatchedEven(nm: Names, onEdges: bool, reuse: bool, f: Fresh): seq<Instr> {
    EvenHead(nm, f) + EvenTail(nm, onEdges, reuse, f)
  }

  function BatchedOdd(nm: Names, onEdges: bool, reuse: bool, f: Fresh): seq<Instr> {
    var update := Instr(ADDWri(1), nm.updated, [nm.three]);
    var zeros := [Instr(RBITW, f.oddReversed, [nm.updated]), Instr(CLZW, f.oddAmount, [f.oddReversed])];
    var shift := Instr(ASRWrr, nm.latchState, [nm.updated, f.oddAmount]);
    if onEdges then
      [Instr(ADDWri(1), nm.oddCount, [nm.count]), update] + zeros +
      [Instr(ADDWrr, if reuse then nm.count else nm.edgeCount, [nm.oddCount, f.oddAmount]), shift, Compare(nm)]
    else
      [update] + zeros +
      [shift, Instr(ADDWrr, f.batched, [nm.count, f.oddAmount]), Instr(ADDWri(1), nm.incremented, [f.batched]),
       Compare(nm)]
  }

  ghost predicate NewRegisters(nm: Names, f: Fresh, junk: set<Reg>) {
    && f.reversed in junk && f.amount in junk && f.oddReversed in junk && f.oddAmount in junk && f.batched in junk
    && (forall r :: r in Registers(nm) ==> r !in {f.reversed, f.amount, f.oddReversed, f.oddAmount, f.batched})
    && nm.incremented !in {f.reversed, f.amount, f.oddReversed, f.oddAmount, f.batched}
    && f.reversed != f.amount && f.oddReversed != f.oddAmount && f.batched !in {f.oddReversed, f.oddAmount}
  }

  /** Counting the zeros of a register. */
  lemma CountZeros(reversed: Reg, amount: Reg, from: Reg, m: Machine)
    requires reversed != amount && from != reversed && from != amount
    ensures var n := Step(Instr(CLZW, amount, [reversed]), Step(Instr(RBITW, reversed, [from]), m));
      && n.flags == m.flags && n.regs(amount) == Zeros(m.regs(from))
      && forall r: Reg :: r != reversed && r != amount ==> n.regs(r) == m.regs(r)
  {
    hide Value, Zeros;
    BatchValues(m.regs(from), 0, m.flags);
    Unary(RBITW, reversed, from, m);
    Unary(CLZW, amount, reversed, Step(Instr(RBITW, reversed, [from]), m));
  }

  /** Counted and shifted, not yet handed on. */
  ghost predicate Shifted(nm: Names, f: Fresh, m: Machine, n: Machine) {
    && n.flags == m.flags && n.regs(f.amount) == Zeros(m.regs(nm.state))
    && n.regs(nm.shifted) == Halved(m.regs(nm.state), Zeros(m.regs(nm.state)) % 32)
    && (forall r: Reg :: r != f.reversed && r != f.amount && r != nm.shifted ==> n.regs(r) == m.regs(r))
  }

  lemma HeadShifts(nm: Names, onEdges: bool, f: Fresh, junk: set<Reg>, m: Machine)
    requires Usable(nm, onEdges, junk) && NewRegisters(nm, f, junk)
    ensures Shifted(nm, f, m, Run(EvenHead(nm, f), m))
  {
    var c := EvenHead(nm, f);
    RunFour(c[0], c[1], c[2], c[2], m);
    assert nm.state in Registers(nm) && nm.shifted in Registers(nm);
    assert nm.shifted !in {f.reversed, f.amount} && nm.state !in {f.reversed, f.amount, nm.shifted};
    hide Run, Step, Value, U32, Halved, Zeros, NewRegisters, Registers, Usable;
    CountZeros(f.reversed, f.amount, nm.state, m);
    BatchValues(m.regs(nm.state), 0, m.flags);
    Binary(ASRWrr, nm.shifted, nm.state, f.amount, Step(c[1], Step(c[0], m)));
  }

  ghost predicate EvenArrives(nm: Names, count: Reg, junk: set<Reg>, m: Machine, n: Machine) {
    var k := Zeros(m.regs(nm.state));
    Arrives(nm, m, n, Halved(m.regs(nm.state), k % 32), count, U32(m.regs(nm.count) + k), junk)
  }

  lemma AmountKept(nm: Names, f: Fresh, junk: set<Reg>)
    requires NewRegisters(nm, f, junk)
    ensures f.amount != nm.count && f.amount != nm.latchState && f.amount != nm.edgeCount && f.amount != nm.incremented
    ensures f.amount in junk && f.reversed in junk
    ensures nm.count != f.reversed && nm.state != f.reversed && nm.state != f.amount
  {
    assert nm.count in Registers(nm) && nm.latchState in Registers(nm) && nm.edgeCount in Registers(nm);
    assert nm.state in Registers(nm);
  }

  function CopyState(nm: Names): Instr {
    Instr(COPY, nm.latchState, [nm.shifted])
  }

  lemma TailRuns(nm: Names, f: Fresh, n: Machine)
    ensures Run(EvenTail(nm, false, false, f), n)
         == Step(Compare(nm), Step(Instr(ADDWrr, nm.incremented, [nm.count, f.amount]), Step(CopyState(nm), n)))
    ensures Run(EvenTail(nm, true, true, f), n)
         == Step(Compare(nm), Step(CopyState(nm), Step(Instr(ADDWrr, nm.count, [nm.count, f.amount]), n)))
    ensures Run(EvenTail(nm, true, false, f), n)
         == Step(Compare(nm), Step(CopyState(nm), Step(Instr(COPY, nm.edgeCount, [nm.incremented]),
              Step(Instr(ADDWrr, nm.incremented, [nm.count, f.amount]), n))))
  {
    hide Run, Step;
    var add, reuse := Instr(ADDWrr, nm.incremented, [nm.count, f.amount]),
      Instr(ADDWrr, nm.count, [nm.count, f.amount]);
    var copy, cmp := CopyState(nm), Compare(nm);
    RunFour(copy, add, cmp, cmp, n);
    RunFour(reuse, copy, cmp, cmp, n);
    RunFour(add, Instr(COPY, nm.edgeCount, [nm.incremented]), copy, cmp, n);
  }

  /** The batched sum. */
  lemma AddsZeros(nm: Names, f: Fresh, dst: Reg, m: Machine, n: Machine)
    requires n.regs(f.amount) == Zeros(m.regs(nm.state)) && n.regs(nm.count) == m.regs(nm.count)
    ensures Writes(n, Step(Instr(ADDWrr, dst, [nm.count, f.amount]), n), dst,
                   U32(m.regs(nm.count) + Zeros(m.regs(nm.state))))
  {
    hide Step, Value, U32, Zeros;
    BatchValues(m.regs(nm.state), m.regs(nm.count), n.flags);
    Binary(ADDWrr, dst, nm.count, f.amount, n);
  }

  lemma CopiesState(nm: Names, n: Machine)
    ensures Writes(n, Step(CopyState(nm), n), nm.latchState, n.regs(nm.shifted))
  {
    hide Step, Value;
    Unary(COPY, nm.latchState, nm.shifted, n);
    CopyValue(n.regs(nm.shifted), n.flags);
  }

  /** The differences the tails rely on. */
  lemma TailApart(nm: Names, onEdges: bool, junk: set<Reg>)
    requires Usable(nm, onEdges, junk)
    ensures nm.count != nm.shifted && nm.count != nm.latchState && nm.latchState != nm.edgeCount
    ensures nm.shifted != nm.edgeCount && nm.shifted != nm.latchState && nm.shifted in junk
    ensures if onEdges then nm.incremented != nm.shifted && nm.incremented in junk else nm.incremented == nm.edgeCount
  {
  }

  /** The flags are the comparison's, nothing else changes. */
  ghost predicate Compared(nm: Names, m: Machine, n: Machine) {
    n.flags == Compare32(m.regs(nm.latchState), nm.sentinel) && forall r: Reg :: n.regs(r) == m.regs(r)
  }

  lemma StateFirst(nm: Names, f: Fresh, junk: set<Reg>, m: Machine, n: Machine, n1: Machine, n2: Machine, n3: Machine)
    requires nm.count != nm.latchState && nm.latchState != nm.edgeCount && f.amount != nm.latchState
    requires nm.count != nm.shifted && nm.count != f.amount && nm.count != f.reversed
    requires nm.shifted in junk && f.amount in junk && f.reversed in junk && nm.shifted != nm.edgeCount
    requires Shifted(nm, f, m, n) && Writes(n, n1, nm.latchState, n.regs(nm.shifted))
    requires Writes(n1, n2, nm.edgeCount, U32(m.regs(nm.count) + Zeros(m.regs(nm.state)))) && Compared(nm, n2, n3)
    ensures EvenArrives(nm, nm.edgeCount, junk, m, n3)
  {
    hide U32, Halved, Zeros, Compare32;
  }

  lemma CountFirst(nm: Names, f: Fresh, junk: set<Reg>, m: Machine, n: Machine, n1: Machine, n2: Machine, n3: Machine)
    requires nm.count != nm.latchState && nm.count != nm.shifted
    requires nm.shifted in junk && f.amount in junk && f.reversed in junk
    requires Shifted(nm, f, m, n) && Writes(n, n1, nm.count, U32(m.regs(nm.count) + Zeros(m.regs(nm.state))))
    requires Writes(n1, n2, nm.latchState, n1.regs(nm.shifted)) && Compared(nm, n2, n3)
    ensures EvenArrives(nm, nm.count, junk, m, n3)
  {
    hide U32, Halved, Zeros, Compare32;
  }

  lemma CopiedCount(nm: Names, f: Fresh, junk: set<Reg>, m: Machine, n: Machine, n1: Machine, n2: Machine,
                    n3: Machine, n4: Machine)
    requires nm.edgeCount != nm.latchState && nm.shifted != nm.edgeCount && nm.shifted != nm.incremented
    requires nm.shifted in junk && f.amount in junk && f.reversed in junk && nm.incremented in junk
    requires Shifted(nm, f, m, n) && Writes(n, n1, nm.incremented, U32(m.regs(nm.count) + Zeros(m.regs(nm.state))))
    requires Writes(n1, n2, nm.edgeCount, n1.regs(nm.incremented))
    requires Writes(n2, n3, nm.latchState, n2.regs(nm.shifted)) && Compared(nm, n3, n4)
    ensures EvenArrives(nm, nm.edgeCount, junk, m, n4)
  {
    hide U32, Halved, Zeros, Compare32;
  }

  lemma TailInLatch(nm: Names, f: Fresh, junk: set<Reg>, m: Machine, n: Machine)
    requires Usable(nm, false, junk) && NewRegisters(nm, f, junk) && Shifted(nm, f, m, n)
    ensures EvenArrives(nm, nm.edgeCount, junk, m, Run(EvenTail(nm, false, false, f), n))
  {
    AmountKept(nm, f, junk);
    TailApart(nm, false, junk);
    var n1 := Step(CopyState(nm), n);
    CopiesState(nm, n);
    assert n1.regs(f.amount) == n.regs(f.amount) && n1.regs(nm.count) == m.regs(nm.count);
    assert n.regs(f.amount) == Zeros(m.regs(nm.state));
    hide *;
    TailRuns(nm, f, n);
    var add := Instr(ADDWrr, nm.edgeCount, [nm.count, f.amount]);
    AddsZeros(nm, f, nm.edgeCount, m, n1);
    var n2 := Step(add, n1);
    Tests(nm, n2);
    StateFirst(nm, f, junk, m, n, n1, n2, Step(Compare(nm), n2));
  }

  lemma TailReusing(nm: Names, f: Fresh, junk: set<Reg>, m: Machine, n: Machine)
    requires Usable(nm, true, junk) && NewRegisters(nm, f, junk) && Shifted(nm, f, m, n)
    ensures EvenArrives(nm, nm.count, junk, m, Run(EvenTail(nm, true, true, f), n))
  {
    AmountKept(nm, f, junk);
    TailApart(nm, true, junk);
    assert n.regs(f.amount) == Zeros(m.regs(nm.state)) && n.regs(nm.count) == m.regs(nm.count);
    hide *;
    TailRuns(nm, f, n);
    AddsZeros(nm, f, nm.count, m, n);
    var n1 := Step(Instr(ADDWrr, nm.count, [nm.count, f.amount]), n);
    CopiesState(nm, n1);
    var n2 := Step(CopyState(nm), n1);
    Tests(nm, n2);
    CountFirst(nm, f, junk, m, n, n1, n2, Step(Compare(nm), n2));
  }

  lemma TailOnEdges(nm: Names, f: Fresh, junk: set<Reg>, m: Machine, n: Machine)
    requires Usable(nm, true, junk) && NewRegisters(nm, f, junk) && Shifted(nm, f, m, n)
    ensures EvenArrives(nm, nm.edgeCount, junk, m, Run(EvenTail(nm, true, false, f), n))
  {
    AmountKept(nm, f, junk);
    TailApart(nm, true, junk);
    assert n.regs(f.amount) == Zeros(m.regs(nm.state)) && n.regs(nm.count) == m.regs(nm.count);
    hide *;
    TailRuns(nm, f, n);
    AddsZeros(nm, f, nm.incremented, m, n);
    var n1 := Step(Instr(ADDWrr, nm.incremented, [nm.count, f.amount]), n);
    CopiesCount(nm, n1);
    var n2 := Step(Instr(COPY, nm.edgeCount, [nm.incremented]), n1);
    CopiesState(nm, n2);
    var n3 := Step(CopyState(nm), n2);
    Tests(nm, n3);
    CopiedCount(nm, f, junk, m, n, n1, n2, n3, Step(Compare(nm), n3));
  }

  lemma CopiesCount(nm: Names, n: Machine)
    ensures Writes(n, Step(Instr(COPY, nm.edgeCount, [nm.incremented]), n), nm.edgeCount, n.regs(nm.incremented))
  {
    hide Step, Value;
    Unary(COPY, nm.edgeCount, nm.incremented, n);
    CopyValue(n.regs(nm.incremented), n.flags);
  }

  lemma EvenBatched(l: Loop, nm: Names, onEdges: bool, reuse: bool, f: Fresh, junk: set<Reg>)
    requires l.even == BatchedEven(nm, onEdges, reuse, f) && !l.evenToLatch && (reuse ==> onEdges)
    requires Usable(nm, onEdges, junk) && NewRegisters(nm, f, junk)
    ensures BatchEven(l, nm, if reuse then nm.count else nm.edgeCount, junk)
  {
    hide U32, Compare32, Run, Usable, NewRegisters, EvenHead, EvenTail, Arrives, Shifted, Zeros, Halved;
    forall m: Machine
      ensures EvenArrives(nm, if reuse then nm.count else nm.edgeCount, junk, m, Run(EvenPath(l), m))
    {
      var n := Run(EvenHead(nm, f), m);
      HeadShifts(nm, onEdges, f, junk, m);
      RunConcat(EvenHead(nm, f), EvenTail(nm, onEdges, reuse, f), m);
      if !onEdges { TailInLatch(nm, f, junk, m, n); }
      else if reuse { TailReusing(nm, f, junk, m, n); }
      else { TailOnEdges(nm, f, junk, m, n); }
    }
  }

  /** The zeros of one register counted into another. */
  ghost predicate Counted(reversed: Reg, amount: Reg, from: Reg, m: Machine, n: Machine) {
    && n.flags == m.flags && n.regs(amount) == Zeros(m.regs(from))
    && (forall r: Reg :: r != reversed && r != amount ==> n.regs(r) == m.regs(r))
  }

  ghost predicate OddArrives(nm: Names, count: Reg, junk: set<Reg>, m: Machine, n: Machine) {
    var t := U32(m.regs(nm.three) + 1);
    Arrives(nm, m, n, Halved(t, Zeros(t) % 32), count, U32(m.regs(nm.count) + 1 + Zeros(t)), junk)
  }

  lemma OddEdgesArrive(nm: Names, count: Reg, f: Fresh, junk: set<Reg>, m: Machine, m1: Machine, m2: Machine,
                       m3: Machine,
                       m4: Machine, m5: Machine, m6: Machine)
    requires nm.three != nm.oddCount && nm.oddCount != nm.updated && count != nm.latchState && count != nm.updated
    requires nm.oddCount != f.oddReversed && nm.oddCount != f.oddAmount
    requires nm.updated != f.oddReversed && nm.updated != f.oddAmount && count != f.oddAmount
    requires nm.updated in junk && nm.oddCount in junk && f.oddReversed in junk && f.oddAmount in junk
    requires Writes(m, m1, nm.oddCount, U32(m.regs(nm.count) + 1))
    requires Writes(m1, m2, nm.updated, U32(m1.regs(nm.three) + 1))
    requires Counted(f.oddReversed, f.oddAmount, nm.updated, m2, m3)
    requires Writes(m3, m4, count, U32(m3.regs(nm.oddCount) + m3.regs(f.oddAmount)))
    requires Writes(m4, m5, nm.latchState, Halved(m4.regs(nm.updated), m4.regs(f.oddAmount) % 32))
    requires Compared(nm, m5, m6)
    ensures OddArrives(nm, count, junk, m, m6)
  {
    U32Add(m.regs(nm.count) + 1, m3.regs(f.oddAmount));
    hide U32, Halved, Zeros, Compare32;
  }

  lemma OddLatchArrives(nm: Names, f: Fresh, junk: set<Reg>, m: Machine, m1: Machine, m2: Machine, m3: Machine,
                        m4: Machine, m5: Machine, m6: Machine)
    requires nm.count != nm.updated && nm.count != f.oddReversed && nm.count != f.oddAmount && nm.count != nm.latchState
    requires nm.updated != f.oddReversed && nm.updated != f.oddAmount && f.oddAmount != nm.latchState
    requires nm.latchState != f.batched && nm.latchState != nm.edgeCount
    requires nm.updated in junk && f.oddReversed in junk && f.oddAmount in junk && f.batched in junk
    requires Writes(m, m1, nm.updated, U32(m.regs(nm.three) + 1))
    requires Counted(f.oddReversed, f.oddAmount, nm.updated, m1, m2)
    requires Writes(m2, m3, nm.latchState, Halved(m2.regs(nm.updated), m2.regs(f.oddAmount) % 32))
    requires Writes(m3, m4, f.batched, U32(m3.regs(nm.count) + m3.regs(f.oddAmount)))
    requires Writes(m4, m5, nm.edgeCount, U32(m4.regs(f.batched) + 1))
    requires Compared(nm, m5, m6)
    ensures OddArrives(nm, nm.edgeCount, junk, m, m6)
  {
    U32Add(m.regs(nm.count) + m3.regs(f.oddAmount), 1);
    hide U32, Halved, Zeros, Compare32;
    assert m.regs(nm.count) + m3.regs(f.oddAmount) + 1 == m.regs(nm.count) + 1 + m3.regs(f.oddAmount);
  }

  /** One step of each kind. */
  lemma AddsOne(dst: Reg, a: Reg, m: Machine)
    ensures Writes(m, Step(Instr(ADDWri(1), dst, [a]), m), dst, U32(m.regs(a) + 1))
  {
    hide Step, Value, U32;
    UnitValues(0, m.regs(a), m.flags);
    Unary(ADDWri(1), dst, a, m);
  }

  lemma AddsTwo(dst: Reg, a: Reg, b: Reg, m: Machine)
    ensures Writes(m, Step(Instr(ADDWrr, dst, [a, b]), m), dst, U32(m.regs(a) + m.regs(b)))
  {
    hide Step, U32;
    Binary(ADDWrr, dst, a, b, m);
  }

  lemma ShiftsBy(dst: Reg, a: Reg, b: Reg, m: Machine)
    requires m.regs(b) <= 32
    ensures Writes(m, Step(Instr(ASRWrr, dst, [a, b]), m), dst, Halved(m.regs(a), m.regs(b) % 32))
  {
    ReadsItself(m.regs(b));
    hide Step, U32, S32, Pow2;
    Binary(ASRWrr, dst, a, b, m);
  }

  lemma CountsZeros(reversed: Reg, amount: Reg, from: Reg, m: Machine)
    requires reversed != amount && from != reversed && from != amount
    ensures var n := Step(Instr(CLZW, amount, [reversed]), Step(Instr(RBITW, reversed, [from]), m));
      Counted(reversed, amount, from, m, n) && n.regs(amount) <= 32
  {
    ZerosValue(m.regs(from), m.flags);
    CountZeros(reversed, amount, from, m);
    hide Step, Value, Zeros;
  }

  lemma OddFresh(nm: Names, f: Fresh, junk: set<Reg>)
    requires NewRegisters(nm, f, junk)
    ensures f.oddReversed != f.oddAmount && f.oddReversed in junk && f.oddAmount in junk && f.batched in junk
    ensures nm.oddCount != f.oddReversed && nm.oddCount != f.oddAmount && nm.updated != f.oddReversed
    ensures nm.updated != f.oddAmount && nm.count != f.oddReversed && nm.count != f.oddAmount
    ensures f.oddAmount != nm.latchState && nm.edgeCount != f.oddAmount && nm.latchState != f.batched
      && f.batched != f.oddAmount
    ensures nm.count != f.batched
  {
    assert nm.count in Registers(nm) && nm.latchState in Registers(nm) && nm.edgeCount in Registers(nm);
    assert nm.oddCount in Registers(nm) && nm.updated in Registers(nm);
  }

  lemma OddApart(nm: Names, onEdges: bool, junk: set<Reg>)
    requires Usable(nm, onEdges, junk)
    ensures nm.three != nm.oddCount && nm.oddCount != nm.updated && nm.edgeCount != nm.latchState
      && nm.count != nm.latchState
    ensures nm.count != nm.updated && nm.edgeCount != nm.updated && nm.updated in junk
      && (onEdges ==> nm.oddCount in junk)
    ensures !onEdges ==> nm.incremented == nm.edgeCount
  {
  }

  lemma BatchedOddRuns(nm: Names, reuse: bool, f: Fresh, m: Machine)
    ensures var m2 := Step(Instr(ADDWri(1), nm.updated, [nm.three]),
                           Step(Instr(ADDWri(1), nm.oddCount, [nm.count]), m));
      var m3 := Step(Instr(CLZW, f.oddAmount, [f.oddReversed]), Step(Instr(RBITW, f.oddReversed, [nm.updated]), m2));
      var m4 := Step(Instr(ADDWrr, if reuse then nm.count else nm.edgeCount, [nm.oddCount, f.oddAmount]), m3);
      Run(BatchedOdd(nm, true, reuse, f), m) ==
        Step(Compare(nm), Step(Instr(ASRWrr, nm.latchState, [nm.updated, f.oddAmount]), m4))
    ensures var m1 := Step(Instr(ADDWri(1), nm.updated, [nm.three]), m);
      var m2 := Step(Instr(CLZW, f.oddAmount, [f.oddReversed]), Step(Instr(RBITW, f.oddReversed, [nm.updated]), m1));
      var m4 := Step(Instr(ADDWrr, f.batched, [nm.count, f.oddAmount]),
                  Step(Instr(ASRWrr, nm.latchState, [nm.updated, f.oddAmount]), m2));
      Run(BatchedOdd(nm, false, reuse, f), m)
        == Step(Compare(nm), Step(Instr(ADDWri(1), nm.incremented, [f.batched]), m4))
  {
    hide Run, Step, Compare;
    var a, b := Instr(ADDWri(1), nm.oddCount, [nm.count]), Instr(ADDWri(1), nm.updated, [nm.three]);
    var c, d := Instr(RBITW, f.oddReversed, [nm.updated]), Instr(CLZW, f.oddAmount, [f.oddReversed]);
    var e := Instr(ADDWrr, if reuse then nm.count else nm.edgeCount, [nm.oddCount, f.oddAmount]);
    var s := Instr(ASRWrr, nm.latchState, [nm.updated, f.oddAmount]);
    RunSeven(a, b, c, d, e, s, Compare(nm), m);
    assert BatchedOdd(nm, true, reuse, f) == [a, b, c, d, e, s, Compare(nm)];
    var g, h := Instr(ADDWrr, f.batched, [nm.count, f.oddAmount]), Instr(ADDWri(1), nm.incremented, [f.batched]);
    RunSeven(b, c, d, s, g, h, Compare(nm), m);
    assert BatchedOdd(nm, false, reuse, f) == [b, c, d, s, g, h, Compare(nm)];
  }

  lemma OddBatchedOnEdges(nm: Names, reuse: bool, f: Fresh, junk: set<Reg>, m: Machine)
    requires Usable(nm, true, junk) && NewRegisters(nm, f, junk)
    ensures OddArrives(nm, if reuse then nm.count else nm.edgeCount, junk, m, Run(BatchedOdd(nm, true, reuse, f), m))
  {
    hide *;
    OddFresh(nm, f, junk);
    OddApart(nm, true, junk);
    BatchedOddRuns(nm, reuse, f, m);
    var count := if reuse then nm.count else nm.edgeCount;
    AddsOne(nm.oddCount, nm.count, m);
    var m1 := Step(Instr(ADDWri(1), nm.oddCount, [nm.count]), m);
    AddsOne(nm.updated, nm.three, m1);
    var m2 := Step(Instr(ADDWri(1), nm.updated, [nm.three]), m1);
    CountsZeros(f.oddReversed, f.oddAmount, nm.updated, m2);
    var m3 := Step(Instr(CLZW, f.oddAmount, [f.oddReversed]), Step(Instr(RBITW, f.oddReversed, [nm.updated]), m2));
    AddsTwo(count, nm.oddCount, f.oddAmount, m3);
    var m4 := Step(Instr(ADDWrr, count, [nm.oddCount, f.oddAmount]), m3);
    WritesKeeps(m3, m4, count, U32(m3.regs(nm.oddCount) + m3.regs(f.oddAmount)), f.oddAmount);
    ShiftsBy(nm.latchState, nm.updated, f.oddAmount, m4);
    var m5 := Step(Instr(ASRWrr, nm.latchState, [nm.updated, f.oddAmount]), m4);
    Tests(nm, m5);
    OddEdgesArrive(nm, count, f, junk, m, m1, m2, m3, m4, m5, Step(Compare(nm), m5));
  }

  lemma WritesKeeps(m: Machine, n: Machine, dst: Reg, value: nat, r: Reg)
    requires Writes(m, n, dst, value) && r != dst
    ensures n.regs(r) == m.regs(r)
  {
  }

  lemma OddBatchedInLatch(nm: Names, f: Fresh, junk: set<Reg>, m: Machine)
    requires Usable(nm, false, junk) && NewRegisters(nm, f, junk)
    ensures OddArrives(nm, nm.edgeCount, junk, m, Run(BatchedOdd(nm, false, false, f), m))
  {
    hide *;
    OddFresh(nm, f, junk);
    OddApart(nm, false, junk);
    BatchedOddRuns(nm, false, f, m);
    AddsOne(nm.updated, nm.three, m);
    var m1 := Step(Instr(ADDWri(1), nm.updated, [nm.three]), m);
    CountsZeros(f.oddReversed, f.oddAmount, nm.updated, m1);
    var m2 := Step(Instr(CLZW, f.oddAmount, [f.oddReversed]), Step(Instr(RBITW, f.oddReversed, [nm.updated]), m1));
    ShiftsBy(nm.latchState, nm.updated, f.oddAmount, m2);
    var m3 := Step(Instr(ASRWrr, nm.latchState, [nm.updated, f.oddAmount]), m2);
    AddsTwo(f.batched, nm.count, f.oddAmount, m3);
    var m4 := Step(Instr(ADDWrr, f.batched, [nm.count, f.oddAmount]), m3);
    AddsOne(nm.incremented, f.batched, m4);
    var m5 := Step(Instr(ADDWri(1), nm.incremented, [f.batched]), m4);
    Tests(nm, m5);
    OddLatchArrives(nm, f, junk, m, m1, m2, m3, m4, m5, Step(Compare(nm), m5));
  }

  lemma OddBatched(l: Loop, nm: Names, onEdges: bool, reuse: bool, f: Fresh, junk: set<Reg>)
    requires l.odd == BatchedOdd(nm, onEdges, reuse, f) && !l.oddToLatch && (reuse ==> onEdges)
    requires Usable(nm, onEdges, junk) && NewRegisters(nm, f, junk)
    ensures BatchOdd(l, nm, if reuse then nm.count else nm.edgeCount, junk)
  {
    hide U32, Compare32, Run, Usable, NewRegisters, BatchedOdd, Arrives, Zeros, Halved;
    forall m: Machine
      ensures OddArrives(nm, if reuse then nm.count else nm.edgeCount, junk, m, Run(OddPath(l), m))
    {
      if onEdges { OddBatchedOnEdges(nm, reuse, f, junk, m); } else { OddBatchedInLatch(nm, f, junk, m); }
    }
  }

  // The copies back, and the odd computation

  lemma Copies(dst: Reg, a: Reg, m: Machine)
    ensures Writes(m, Step(Instr(COPY, dst, [a]), m), dst, m.regs(a))
  {
    hide Step, Value;
    Unary(COPY, dst, a, m);
    CopyValue(m.regs(a), m.flags);
  }

  lemma ContinuesWith(l: Loop, nm: Names, countFirst: bool, onEdges: bool, junk: set<Reg>)
    requires l.continuation == ContinuationCode(nm, countFirst) && Usable(nm, onEdges, junk)
    ensures Continues(l, nm, nm.edgeCount)
  {
    hide Run, Step;
    var count, state := Instr(COPY, nm.count, [nm.edgeCount]), Instr(COPY, nm.state, [nm.latchState]);
    forall m: Machine
      ensures Run(l.continuation, m).flags == m.flags
      ensures forall r: Reg :: (Run(l.continuation, m).regs(r) ==
        if r == nm.state then m.regs(nm.latchState) else if r == nm.count then m.regs(nm.edgeCount) else m.regs(r))
    {
      var first, second := if countFirst then count else state, if countFirst then state else count;
      RunTwo(first, second, m);
      Copies(first.dst, first.uses[0], m);
      Copies(second.dst, second.uses[0], Step(first, m));
    }
  }

  lemma ContinuesReusing(l: Loop, nm: Names)
    requires l.continuation == [Instr(COPY, nm.state, [nm.latchState])] && nm.state != nm.count
    ensures Continues(l, nm, nm.count)
  {
    hide Run, Step;
    var state := Instr(COPY, nm.state, [nm.latchState]);
    forall m: Machine
      ensures Run(l.continuation, m).flags == m.flags
      ensures forall r: Reg :: (Run(l.continuation, m).regs(r) ==
        if r == nm.state then m.regs(nm.latchState) else if r == nm.count then m.regs(nm.count) else m.regs(r))
    {
      RunTwo(state, state, m);
      Copies(nm.state, nm.latchState, m);
    }
  }

  /** The odd computation holds the triple at one place, before which the state is not
      written and after which the triple is not. */
  ghost predicate Triples(code: seq<Instr>, nm: Names, at: nat) {
    && at < |code| && code[at] == Instr(ADDWlsl(1), nm.three, [nm.state, nm.state])
    && (forall k :: 0 <= k < at ==> code[k].dst != nm.state)
    && (forall k :: at < k < |code| ==> code[k].dst != nm.three || IsCompare(code[k].op))
  }

  lemma {:induction false} Unwritten(code: seq<Instr>, r: Reg, m: Machine)
    requires forall k :: 0 <= k < |code| ==> code[k].dst != r || IsCompare(code[k].op)
    ensures Run(code, m).regs(r) == m.regs(r)
  {
    if code != [] {
      Unwritten(code[..|code| - 1], r, m);
      hide Value, NewFlags;
    }
  }

  lemma TripleComputed(code: seq<Instr>, nm: Names, at: nat, m: Machine)
    requires Triples(code, nm, at)
    ensures Run(code, m).regs(nm.three) == U32(3 * m.regs(nm.state))
  {
    var head, tail := code[..at], code[at + 1..];
    assert code == head + ([code[at]] + tail);
    RunConcat(head, [code[at]] + tail, m);
    var h := Run(head, m);
    RunConcat([code[at]], tail, h);
    RunTwo(code[at], code[at], h);
    Unwritten(head, nm.state, m);
    Unwritten(tail, nm.three, Step(code[at], h));
    hide Run, Step;
    Binary(ADDWlsl(1), nm.three, nm.state, nm.state, h);
    TripleValue(m.regs(nm.state), h.flags);
  }

  lemma TripleValue(w: nat, f: Flags)
    ensures Value(ADDWlsl(1), w, w, 0, f) == U32(3 * w)
  {
    assert Pow2(1) == 2;
    var j := U32Split(w);
    U32Shift(w + U32(w) * 2, 2 * j);
  }

  // The rewrite

  class LoopBlocks {
    const oddCompute: seq<Instr>
    const sideExit: seq<Reg>
    var even: seq<Instr>
    var odd: seq<Instr>
    var latch: seq<Instr>
    var continuation: seq<Instr>
    var evenToLatch: bool
    var oddToLatch: bool
    /** The register the exit block copies the count from. */
    var exitCount: Reg
    var next: Reg

    constructor (oddCompute: seq<Instr>, sideExit: seq<Reg>, even: seq<Instr>, odd: seq<Instr>, latch: seq<Instr>,
                 continuation: seq<Instr>, exitCount: Reg, firstFree: Reg)
      ensures View() == Loop(oddCompute, sideExit, even, odd, latch, continuation, true, true)
      ensures this.exitCount == exitCount && next == firstFree
    {
      this.oddCompute, this.sideExit, this.even, this.odd := oddCompute, sideExit, even, odd;
      this.latch, this.continuation, this.exitCount, next := latch, continuation, exitCount, firstFree;
      evenToLatch, oddToLatch := true, true;
    }

    function View(): Loop
      reads this
    {
      Loop(oddCompute, sideExit, even, odd, latch, continuation, evenToLatch, oddToLatch)
    }

    /** What the matcher has established: the shapes of the blocks, and the odd edge's where it
        computes 3 * state + 1. */
    ghost predicate Matched(nm: Names, onEdges: bool, countFirst: bool, oddMatched: bool)
      reads this
    {
      && even == EvenCode(nm, onEdges) && latch == LatchCode(nm, onEdges) && evenToLatch && oddToLatch
      && continuation == ContinuationCode(nm, countFirst) && nm.sentinel % 2 == 1 && exitCount == nm.edgeCount
      && (oddMatched ==> odd == OddCode(nm, onEdges) && exists at :: Triples(oddCompute, nm, at))
    }

    method NewRegister() returns (r: Reg)
      modifies this`next
      ensures r == old(next) && next == r + 1
    {
      r := next;
      next := next + 1;
    }

    /** The even block: the count of zeros goes in before the shift, the shift takes it as its
        amount, the increment becomes a sum, and the latch's test follows. */
    method BatchEvenEdge(nm: Names, onEdges: bool, reuse: bool) returns (reversed: Reg, amount: Reg)
      requires even == EvenCode(nm, onEdges) && latch == LatchCode(nm, onEdges) && (reuse ==> onEdges)
      modifies this`even, this`evenToLatch, this`next
      ensures reversed == old(next) && amount == reversed + 1 && next == amount + 1 && !evenToLatch
      ensures forall f: Fresh :: f.reversed == reversed && f.amount == amount ==>
        even == BatchedEven(nm, onEdges, reuse, f)
    {
      reversed := NewRegister();
      even := [Instr(RBITW, reversed, [nm.state])] + even;
      amount := NewRegister();
      even := even[..1] + [Instr(CLZW, amount, [reversed])] + even[1..];
      even := even[2 := Instr(ASRWrr, nm.shifted, [nm.state, amount])];
      var increment := Instr(ADDWrr, if reuse then nm.count else nm.incremented, [nm.count, amount]);
      if onEdges {
        even := even[3 := increment];
        if reuse {
          even := even[..4] + even[5..];
        }
      } else {
        even := even + [increment];
      }
      even := even + [latch[|latch| - 1]];
      evenToLatch := false;
    }

    /** The odd block likewise, after its own increment. */
    method BatchOddEdge(nm: Names, onEdges: bool, reuse: bool) returns (reversed: Reg, amount: Reg, batched: Reg)
      requires odd == OddCode(nm, onEdges) && latch == LatchCode(nm, onEdges) && (reuse ==> onEdges)
      modifies this`odd, this`oddToLatch, this`next
      ensures reversed == old(next) && amount == reversed + 1 && batched == amount + 1 && next <= batched + 1
      ensures !oddToLatch
      ensures forall f: Fresh :: f.oddReversed == reversed && f.oddAmount == amount && f.batched == batched ==>
                odd == BatchedOdd(nm, onEdges, reuse, f)
    {
      var insert := if onEdges then 2 else 1;
      reversed := NewRegister();
      odd := odd[..insert] + [Instr(RBITW, reversed, [nm.updated])] + odd[insert..];
      amount := NewRegister();
      odd := odd[..insert + 1] + [Instr(CLZW, amount, [reversed])] + odd[insert + 1..];
      batched := next;
      odd := odd[|odd| - 1 := Instr(ASRWrr, nm.latchState, [nm.updated, amount])];
      if onEdges {
        odd := odd[4 := Instr(ADDWrr, if reuse then nm.count else nm.edgeCount, [nm.oddCount, amount])];
      } else {
        batched := NewRegister();
        odd := odd + [Instr(ADDWrr, batched, [nm.count, amount])];
        odd := odd + [Instr(ADDWri(1), nm.incremented, [batched])];
      }
      odd := odd + [latch[|latch| - 1]];
      oddToLatch := false;
    }

    /** The whole rewrite. Reusing the loop's own count also redirects the exit's copy and drops
        the count's copy back. */
    method Batch(nm: Names, onEdges: bool, reuse: bool, countFirst: bool, oddMatched: bool) returns (ghost f: Fresh)
      requires Matched(nm, onEdges, countFirst, oddMatched) && (reuse ==> onEdges)
      modifies this
      ensures Rewritten(old(View()), View(), nm, onEdges, reuse, oddMatched, f)
      ensures exitCount == (if reuse then nm.count else nm.edgeCount)
      ensures old(next) <= f.reversed < f.amount < f.oddReversed < f.oddAmount < f.batched
    {
      var reversed, amount := BatchEvenEdge(nm, onEdges, reuse);
      var oddReversed, oddAmount, batched := next, next + 1, next + 2;
      if oddMatched {
        oddReversed, oddAmount, batched := BatchOddEdge(nm, onEdges, reuse);
      }
      if reuse {
        exitCount := nm.count;
        continuation := if countFirst then continuation[1..] else continuation[..1];
      }
      f := Fresh(reversed, amount, oddReversed, oddAmount, batched);
    }
  }

  /** The original and the rewritten blocks, side by side. */
  ghost predicate Rewritten(l: Loop, b: Loop, nm: Names, onEdges: bool, reuse: bool, oddMatched: bool, f: Fresh) {
    && l.oddCompute == b.oddCompute && l.sideExit == b.sideExit && l.latch == b.latch == LatchCode(nm, onEdges)
    && nm.sentinel % 2 == 1 && (reuse ==> onEdges)
    && l.even == EvenCode(nm, onEdges) && l.evenToLatch && l.oddToLatch
    && b.even == BatchedEven(nm, onEdges, reuse, f) && !b.evenToLatch
    && (exists countFirst :: l.continuation == ContinuationCode(nm, countFirst)
         && b.continuation == if reuse then [Instr(COPY, nm.state, [nm.latchState])] else l.continuation)
    && (if oddMatched then
          && l.odd == OddCode(nm, onEdges) && (exists at :: Triples(l.oddCompute, nm, at))
          && b.odd == BatchedOdd(nm, onEdges, reuse, f) && !b.oddToLatch
        else b.odd == l.odd && b.oddToLatch)
  }

  /** Registers that only live on the edges, or that the rewrite created or retired. */
  ghost function Junk(nm: Names, onEdges: bool, reuse: bool, f: Fresh): set<Reg> {
    {nm.shifted, nm.updated, f.reversed, f.amount, f.oddReversed, f.oddAmount, f.batched}
    + (if onEdges then {nm.incremented, nm.oddCount} else {})
    + (if reuse then {nm.edgeCount} else {})
  }

  /** What the code around the loop has to respect: the matched registers differ, and nothing
      but the edges reads the registers of the edges. */
  ghost predicate Private(l: Loop, nm: Names, onEdges: bool, reuse: bool, oddMatched: bool, f: Fresh) {
    var junk := Junk(nm, onEdges, reuse, f);
    && Usable(nm, onEdges, junk) && NewRegisters(nm, f, junk)
    && ReadsNone(l.oddCompute, junk) && (forall r :: r in l.sideExit ==> r !in junk)
    && (!oddMatched ==> ReadsNone(OddPath(l), junk))
  }

  /** The rewrite pairs the loops, provided a reused count does not meet an odd edge that still
      counts into the retired register. */
  lemma RewritePairs(l: Loop, b: Loop, nm: Names, onEdges: bool, reuse: bool, oddMatched: bool, f: Fresh)
    requires Rewritten(l, b, nm, onEdges, reuse, oddMatched, f) && Private(l, nm, onEdges, reuse, oddMatched, f)
    requires reuse ==> oddMatched
    ensures Paired(l, b, nm, if reuse then nm.count else nm.edgeCount, Junk(nm, onEdges, reuse, f))
  {
    var junk, count := Junk(nm, onEdges, reuse, f), if reuse then nm.count else nm.edgeCount;
    EvenUnit(l, nm, onEdges, junk);
    EvenBatched(b, nm, onEdges, reuse, f, junk);
    JunkApart(nm, onEdges, reuse, f);
    var countFirst :| l.continuation == ContinuationCode(nm, countFirst)
         && b.continuation == if reuse then [Instr(COPY, nm.state, [nm.latchState])] else l.continuation;
    ContinuesWith(l, nm, countFirst, onEdges, junk);
    if reuse { ContinuesReusing(b, nm); } else { ContinuesWith(b, nm, countFirst, onEdges, junk); }
    if oddMatched {
      OddUnit(l, nm, onEdges, junk);
      OddBatched(b, nm, onEdges, reuse, f, junk);
      var at :| Triples(l.oddCompute, nm, at);
      forall m: Machine ensures Run(l.oddCompute, m).regs(nm.three) == U32(3 * m.regs(nm.state)) {
        TripleComputed(l.oddCompute, nm, at, m);
      }
    }
    hide UnitEven, BatchEven, UnitOdd, BatchOdd, Continues, Usable, NewRegisters, Junk, Apart, EvenCode, BatchedEven,
      OddCode, BatchedOdd, LatchCode, Triples, Run, ReadsNone, U32;
  }

  lemma JunkApart(nm: Names, onEdges: bool, reuse: bool, f: Fresh)
    requires Usable(nm, onEdges, Junk(nm, onEdges, reuse, f)) && NewRegisters(nm, f, Junk(nm, onEdges, reuse, f))
    ensures Apart(nm, if reuse then nm.count else nm.edgeCount, Junk(nm, onEdges, reuse, f))
  {
    assert nm.state in Registers(nm) && nm.latchState in Registers(nm) && nm.count in Registers(nm);
    assert nm.three in Registers(nm) && nm.edgeCount in Registers(nm);
  }

  /** Whenever the original loop leaves, the rewritten loop leaves by the same exit, with the edges'
      count and state and all other registers the same, but not always the loop's own two. */
  lemma RewrittenLeaves(l: Loop, b: Loop, nm: Names, onEdges: bool, reuse: bool, oddMatched: bool, f: Fresh, m: Machine,
                        n: Machine, i: nat) returns (j: nat, last: Machine)
    requires Rewritten(l, b, nm, onEdges, reuse, oddMatched, f) && Private(l, nm, onEdges, reuse, oddMatched, f)
    requires Agree(Junk(nm, onEdges, reuse, f), m, n)
    requires (reuse ==> oddMatched) && !Trips(l, nm.state, m, i).Again?
    ensures SameOutcome(nm, if reuse then nm.count else nm.edgeCount, Junk(nm, onEdges, reuse, f),
                        Trips(l, nm.state, m, i), Trips(b, nm.state, n, j))
    ensures LastTrip(l, b, nm, if reuse then nm.count else nm.edgeCount, n, j, last, Trips(l, nm.state, m, i))
  {
    hide *;
    RewritePairs(l, b, nm, onEdges, reuse, oddMatched, f);
    j, last := BatchedLeaves(l, b, nm, if reuse then nm.count else nm.edgeCount, Junk(nm, onEdges, reuse, f), m, n, i);
  }

  /** And whenever the rewritten loop leaves, so does the original: a state of zero, from which
      the counted zeros shift by nothing, keeps both going round for ever. */
  lemma OriginalLeft(l: Loop, b: Loop, nm: Names, onEdges: bool, reuse: bool, oddMatched: bool, f: Fresh, m: Machine,
                     n: Machine, j: nat) returns (i: nat)
    requires Rewritten(l, b, nm, onEdges, reuse, oddMatched, f) && Private(l, nm, onEdges, reuse, oddMatched, f)
    requires Agree(Junk(nm, onEdges, reuse, f), m, n)
    requires (reuse ==> oddMatched) && !Trips(b, nm.state, n, j).Again?
    ensures SameOutcome(nm, if reuse then nm.count else nm.edgeCount, Junk(nm, onEdges, reuse, f),
                        Trips(l, nm.state, m, i), Trips(b, nm.state, n, j))
  {
    hide *;
    RewritePairs(l, b, nm, onEdges, reuse, oddMatched, f);
    i := OriginalLeaves(l, b, nm, if reuse then nm.count else nm.edgeCount, Junk(nm, onEdges, reuse, f), m, n, j);
  }

  /** A reused count needs every edge into the latch to be rewritten: any other edge that still counts
      into the retired register loses its trip, be it an odd edge or a third way round. */
  lemma ReuseNeedsEveryEdge(l: Loop, b: Loop, nm: Names, oddMatched: bool, f: Fresh, junk: set<Reg>, edge: seq<Instr>,
                            m: Machine)
    requires Rewritten(l, b, nm, true, true, oddMatched, f) && Usable(nm, true, junk)
    requires var y := Run(edge + l.latch, m);
      y.regs(nm.edgeCount) == U32(m.regs(nm.count) + 1) && y.regs(nm.count) == m.regs(nm.count) && !y.flags.z
    ensures var y, z := Run(edge + l.latch, m), Run(edge + b.latch, m);
      && Tested(l, y).Again? && Tested(b, z).Again?
      && Tested(l, y).m.regs(nm.count) == U32(m.regs(nm.count) + 1) && Tested(b, z).m.regs(nm.count) == m.regs(nm.count)
  {
    var y := Run(edge + l.latch, m);
    var countFirst :| l.continuation == ContinuationCode(nm, countFirst)
                      && b.continuation == [Instr(COPY, nm.state, [nm.latchState])];
    ContinuesWith(l, nm, countFirst, true, junk);
    ContinuesReusing(b, nm);
    hide Run, U32, ContinuationCode;
    assert Run(l.continuation, y).regs(nm.count) == y.regs(nm.edgeCount);
    assert Run(b.continuation, y).regs(nm.count) == y.regs(nm.count);
  }

  /** Without the match of the odd edge a reused count is wrong: an odd trip then counts into a
      register nobody copies back any more. */
  lemma ReuseNeedsOddMatch(l: Loop, b: Loop, nm: Names, f: Fresh, junk: set<Reg>, m: Machine)
    requires Rewritten(l, b, nm, true, true, false, f) && l.odd == OddCode(nm, true) && Usable(nm, true, junk)
    requires nm.count !in junk && m.regs(nm.state) % 2 == 1 && !Leaves(l, Run(l.oddCompute, m))
    requires !Run(OddPath(l), Run(l.oddCompute, m)).flags.z
    ensures var mid, o, p := Run(l.oddCompute, m), Trip(l, nm.state, m), Trip(b, nm.state, m);
      && o.Again? && p.Again?
      && o.m.regs(nm.count) == U32(mid.regs(nm.count) + 1) && p.m.regs(nm.count) == mid.regs(nm.count)
  {
    var mid := Run(l.oddCompute, m);
    OddUnit(l, nm, true, junk);
    assert OddPath(l) == l.odd + l.latch && OddPath(b) == l.odd + b.latch && Leaves(b, mid) == Leaves(l, mid);
    hide Run, U32, Compare32, OddCode, Leaves;
    assert Arrives(nm, mid, Run(OddPath(l), mid), U32(mid.regs(nm.three) + 1), nm.edgeCount,
                   U32(mid.regs(nm.count) + 1), junk);
    hide OddPath, Tested, Rewritten;
    ReuseNeedsEveryEdge(l, b, nm, false, f, junk, l.odd, mid);
  }
}
