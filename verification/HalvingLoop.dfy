/**
 Batching of a loop that halves its state while it is even: the edges of the loop as
 straight-line code, the rewrite of the edges, and the proof that the loop still leaves
 from the same iteration's state with the same count.
 */
module HalvingLoop {
  import opened Bits
  import opened Words
  import opened WordMachine
  import opened Halving

  /** The registers of a matched loop. edgeCount is the count the edges hand to the latch. */
  datatype Names = Names(
    state: Reg, shifted: Reg, latchState: Reg,
    count: Reg, incremented: Reg, edgeCount: Reg,
    three: Reg, updated: Reg, oddCount: Reg,
    sentinel: nat)

  /** The blocks of the loop. An edge goes through the shared latch or carries its own copy. */
  datatype Loop = Loop(
    oddCompute: seq<Instr>, sideExit: seq<Reg>,
    even: seq<Instr>, odd: seq<Instr>, latch: seq<Instr>, continuation: seq<Instr>,
    evenToLatch: bool, oddToLatch: bool)

  function EvenPath(l: Loop): seq<Instr> {
    if l.evenToLatch then l.even + l.latch else l.even
  }

  function OddPath(l: Loop): seq<Instr> {
    if l.oddToLatch then l.odd + l.latch else l.odd
  }

  datatype Outcome = Again(m: Machine) | Exited(m: Machine) | Left(m: Machine)

  /** The test at the end of either edge. */
  ghost function Tested(l: Loop, m: Machine): Outcome {
    if m.flags.z then Exited(m) else Again(Run(l.continuation, m))
  }

  /** The odd computation may leave the loop where one of some registers is not zero. */
  ghost predicate Leaves(l: Loop, m: Machine) {
    exists r :: r in l.sideExit && m.regs(r) != 0
  }

  /** One trip from the parity test. */
  ghost function Trip(l: Loop, state: Reg, m: Machine): Outcome {
    if m.regs(state) % 2 == 0 then Tested(l, Run(EvenPath(l), m))
    else
      var mid := Run(l.oddCompute, m);
      if Leaves(l, mid) then Left(mid) else Tested(l, Run(OddPath(l), mid))
  }

  /** At most n trips. */
  ghost function Trips(l: Loop, state: Reg, m: Machine, n: nat): Outcome
    decreases n
  {
    if n == 0 then Again(m)
    else
      var o := Trip(l, state, m);
      if o.Again? then Trips(l, state, o.m, n - 1) else o
  }

  lemma {:induction false} TripsAdd(l: Loop, state: Reg, m: Machine, a: nat, b: nat)
    ensures var o := Trips(l, state, m, a);
      Trips(l, state, m, a + b) == if o.Again? then Trips(l, state, o.m, b) else o
    decreases a
  {
    hide Trip;
    if a > 0 {
      var o := Trip(l, state, m);
      if o.Again? { TripsAdd(l, state, o.m, a - 1, b); }
    }
  }

  lemma TripsOne(l: Loop, state: Reg, m: Machine)
    ensures Trips(l, state, m, 0) == Again(m) && Trips(l, state, m, 1) == Trip(l, state, m)
  {
    hide Trip;
  }

  // Agreement of two machines

  ghost predicate Agree(junk: set<Reg>, m: Machine, n: Machine) {
    m.flags == n.flags && forall r: Reg :: r !in junk ==> m.regs(r) == n.regs(r)
  }

  ghost predicate ReadsNone(code: seq<Instr>, junk: set<Reg>) {
    forall k, r :: 0 <= k < |code| && r in code[k].uses ==> r !in junk
  }

  lemma {:induction false} Congruent(code: seq<Instr>, junk: set<Reg>, m: Machine, n: Machine)
    requires Agree(junk, m, n) && ReadsNone(code, junk)
    ensures Agree(junk, Run(code, m), Run(code, n))
  {
    if code != [] {
      var i, init := code[|code| - 1], code[..|code| - 1];
      Congruent(init, junk, m, n);
      var a, b := Run(init, m), Run(init, n);
      assert forall k :: 0 <= k < |i.uses| ==> i.uses[k] in i.uses;
      assert forall k: nat :: Arg(a, i.uses, k) == Arg(b, i.uses, k);
      StepAgrees(i, junk, a, b);
    }
  }

  lemma StepAgrees(i: Instr, junk: set<Reg>, a: Machine, b: Machine)
    requires Agree(junk, a, b) && forall k: nat :: Arg(a, i.uses, k) == Arg(b, i.uses, k)
    ensures Agree(junk, Step(i, a), Step(i, b))
  {
    hide Value, NewFlags, IsCompare;
  }

  lemma {:induction false} RunConcat(a: seq<Instr>, b: seq<Instr>, m: Machine)
    ensures Run(a + b, m) == Run(b, Run(a, m))
    decreases |b|
  {
    hide Step;
    if b == [] {
      assert a + b == a;
    } else {
      var init := b[..|b| - 1];
      assert (a + b)[..|a + b| - 1] == a + init;
      RunConcat(a, init, m);
    }
  }

  lemma RunTwo(a: Instr, b: Instr, m: Machine)
    ensures Run([a], m) == Step(a, m)
    ensures Run([a, b], m) == Step(b, Step(a, m))
  {
    hide Step;
    assert [a][..0] == [];
    assert [a, b][..1] == [a];
  }

  // What an edge delivers to the test

  /** The edge delivers a state and a count, sets the flags by the sentinel, and otherwise
      writes scratch registers only. */
  ghost predicate Arrives(nm: Names, m: Machine, arrived: Machine, t: nat, count: Reg, c: nat, scratch: set<Reg>) {
    && arrived.regs(nm.latchState) == t && arrived.regs(count) == c
    && arrived.flags == Compare32(t, nm.sentinel)
    && (forall r: Reg :: r !in scratch && r != nm.latchState && r != count ==> arrived.regs(r) == m.regs(r))
  }

  function Zeros(w: nat): nat {
    LeadingZeros(ReverseBits(U32(w), 32), 32)
  }

  /** The even edge of the matched loop: one halving, one count. */
  ghost predicate UnitEven(l: Loop, nm: Names, scratch: set<Reg>) {
    forall m: Machine {:trigger Run(EvenPath(l), m)} ::
      Arrives(nm, m, Run(EvenPath(l), m), Halved(m.regs(nm.state), 1), nm.edgeCount, U32(m.regs(nm.count) + 1), scratch)
  }

  /** The batched even edge: all halvings at once, the shift amount modulo the word size. */
  ghost predicate BatchEven(l: Loop, nm: Names, count: Reg, scratch: set<Reg>) {
    forall m: Machine {:trigger Run(EvenPath(l), m)} ::
      var k := Zeros(m.regs(nm.state));
      Arrives(nm, m, Run(EvenPath(l), m), Halved(m.regs(nm.state), k % 32), count, U32(m.regs(nm.count) + k), scratch)
  }

  ghost predicate UnitOdd(l: Loop, nm: Names, scratch: set<Reg>) {
    forall m: Machine {:trigger Run(OddPath(l), m)} ::
      Arrives(nm, m, Run(OddPath(l), m), U32(m.regs(nm.three) + 1), nm.edgeCount, U32(m.regs(nm.count) + 1), scratch)
  }

  ghost predicate BatchOdd(l: Loop, nm: Names, count: Reg, scratch: set<Reg>) {
    forall m: Machine {:trigger Run(OddPath(l), m)} ::
      var t := U32(m.regs(nm.three) + 1);
      var k := Zeros(t);
      Arrives(nm, m, Run(OddPath(l), m), Halved(t, k % 32), count, U32(m.regs(nm.count) + 1 + k), scratch)
  }

  /** The copies back to the loop's own registers. */
  ghost predicate Continues(l: Loop, nm: Names, count: Reg) {
    forall m: Machine, r: Reg {:trigger Run(l.continuation, m).regs(r)} ::
      && Run(l.continuation, m).flags == m.flags
      && Run(l.continuation, m).regs(r) ==
           if r == nm.state then m.regs(nm.latchState) else if r == nm.count then m.regs(count) else m.regs(r)
  }

  /** The original loop and the batched one. Values that only live on the edges, and the
      edge count where the loop's own count replaces it, are junk. */
  ghost predicate Paired(l: Loop, b: Loop, nm: Names, count: Reg, junk: set<Reg>) {
    && nm.sentinel % 2 == 1
    && Apart(nm, count, junk)
    && l.oddCompute == b.oddCompute && l.sideExit == b.sideExit
    && ReadsNone(l.oddCompute, junk) && (forall r :: r in l.sideExit ==> r !in junk)
    && UnitEven(l, nm, junk) && BatchEven(b, nm, count, junk)
    && Continues(l, nm, nm.edgeCount) && Continues(b, nm, count)
    && (OddMatched(l, b, nm, count, junk) || OddKept(l, b, nm, count, junk))
  }

  ghost predicate Apart(nm: Names, count: Reg, junk: set<Reg>) {
    && nm.state !in junk && nm.latchState !in junk && nm.count !in junk && nm.three !in junk
    && nm.state != nm.latchState && nm.state != nm.count && nm.state != nm.edgeCount
    && nm.latchState != nm.count && nm.latchState != nm.edgeCount && nm.count != nm.edgeCount
    && count == (if nm.edgeCount in junk then nm.count else nm.edgeCount)
  }

  ghost predicate OddMatched(l: Loop, b: Loop, nm: Names, count: Reg, junk: set<Reg>) {
    && UnitOdd(l, nm, junk) && BatchOdd(b, nm, count, junk)
    && (forall m: Machine {:trigger Run(l.oddCompute, m)} ::
          Run(l.oddCompute, m).regs(nm.three) == U32(3 * m.regs(nm.state)))
  }

  ghost predicate OddKept(l: Loop, b: Loop, nm: Names, count: Reg, junk: set<Reg>) {
    count == nm.edgeCount && OddPath(l) == OddPath(b) && ReadsNone(OddPath(l), junk)
  }

  /** Equal at the exit: everything but junk and the loop's own registers, and the counts. */
  ghost predicate SameExit(nm: Names, count: Reg, junk: set<Reg>, m: Machine, n: Machine) {
    && m.flags == n.flags && m.regs(nm.edgeCount) == n.regs(count)
    && (forall r: Reg :: r !in junk && r != nm.state && r != nm.count && r != nm.edgeCount ==> m.regs(r) == n.regs(r))
  }

  ghost predicate SameOutcome(nm: Names, count: Reg, junk: set<Reg>, o: Outcome, p: Outcome) {
    match o
    case Again(m) => p.Again? && Agree(junk, m, p.m)
    case Exited(m) => p.Exited? && SameExit(nm, count, junk, m, p.m)
    case Left(m) => p.Left? && Agree(junk, m, p.m)
  }

  // The loop's own registers at the exit

  /** The last trip took one halving only, or an odd edge that was left as it was. */
  ghost predicate Unbatched(l: Loop, b: Loop, nm: Names, last: Machine) {
    if last.regs(nm.state) % 2 == 0 then Zeros(last.regs(nm.state)) == 1 else OddPath(l) == OddPath(b)
  }

  /** The odd computation itself wrote to the state register what the last single halving starts from. */
  ghost predicate StateMeets(l: Loop, b: Loop, nm: Names, last: Machine) {
    var mid := Run(b.oddCompute, last);
    var t := U32(mid.regs(nm.three) + 1);
    && last.regs(nm.state) % 2 == 1 && OddPath(l) != OddPath(b)
    && mid.regs(nm.state) == BeforeLast(t, Zeros(t))
  }

  /** State and count of the original (p) and the batched loop (q) after a last batched trip from
      machine last: they agree only where nothing was batched, a reused count never does. */
  ghost predicate OwnRegisters(l: Loop, b: Loop, nm: Names, count: Reg, last: Machine, p: Machine, q: Machine) {
    && (p.regs(nm.state) == q.regs(nm.state) <==> Unbatched(l, b, nm, last) || StateMeets(l, b, nm, last))
    && (p.regs(nm.count) == q.regs(nm.count) <==> Unbatched(l, b, nm, last) && count == nm.edgeCount)
  }

  ghost predicate OwnAtExit(l: Loop, b: Loop, nm: Names, count: Reg, last: Machine, o: Outcome, p: Outcome) {
    o.Exited? && p.Exited? ==> OwnRegisters(l, b, nm, count, last, o.m, p.m)
  }

  /** An even word halved is another word. */
  lemma HalvedMoves(w: nat, j: nat)
    requires U32(w) != 0 && w % 2 == 0 && 0 < j
    ensures Halved(w, j) != w
  {
    EvenSign(w);
    Shrinks(S32(w), j);
    S32Of(S32(w) / Pow2(j));
    QuotientMoves(S32(w), j);
    hide U32, S32, Pow2;
  }

  lemma EvenSign(w: nat)
    requires U32(w) != 0 && w % 2 == 0
    ensures S32(w) != 0 && S32(w) != -1
  {
  }

  lemma QuotientMoves(s: int, j: nat)
    requires s != 0 && s != -1 && 0 < j
    ensures s / Pow2(j) != s
  {
    var d := Pow2(j - 1);
    assert Pow2(j) == 2 * d;
    hide Pow2;
    DivDiv(s, 2, d);
    NoFurther(s / 2, d);
  }

  /** A quotient is no further from zero. */
  lemma NoFurther(x: int, d: nat)
    requires d > 0
    ensures if x >= 0 then 0 <= x / d <= x else x <= x / d <= -1
  {
    var q := x / d;
    assert q * d <= x < q * d + d;
    if q >= 0 {
      MulOrder(1, d, q);
    } else {
      MulOrder(1, d, -q - 1);
      assert (-q - 1) * d == -(q * d) - d;
    }
  }

  lemma CountMoves(c: nat, k: nat)
    requires 0 < k <= 32
    ensures U32(c + k) != c
    ensures U32(c + k) != CountedBefore(c, k)
    ensures U32(c + k) != U32(c + k - 1)
    ensures CountedBefore(c, k) == c <==> k == 1
  {
  }

  lemma EvenOwn(l: Loop, b: Loop, nm: Names, count: Reg, junk: set<Reg>, m: Machine, n: Machine, y: Machine, z: Machine)
    requires Apart(nm, count, junk) && Agree(junk, m, n)
    requires m.regs(nm.state) % 2 == 0 && U32(m.regs(nm.state)) != 0
    requires var k := Ctz(U32(m.regs(nm.state)));
      && y.regs(nm.state) == BeforeLast(m.regs(nm.state), k) && y.regs(nm.count) == CountedBefore(m.regs(nm.count), k)
      && Arrives(nm, n, z, Halved(n.regs(nm.state), k), count, U32(n.regs(nm.count) + k), junk)
    ensures OwnRegisters(l, b, nm, count, n, y, z)
  {
    var w := m.regs(nm.state);
    var k := Ctz(U32(w));
    ZerosCount(w);
    SomeZeros(w);
    CountMoves(m.regs(nm.count), k);
    if k > 1 { HalvedMoves(w, k - 1); }
    hide Halved, U32, Ctz, Zeros, Compare32, CountedBefore, Run, StateMeets;
    assert n.regs(nm.state) == w && z.regs(nm.state) == w;
    assert !StateMeets(l, b, nm, n) by { NotOdd(l, b, nm, n); }
  }

  lemma NotOdd(l: Loop, b: Loop, nm: Names, last: Machine)
    requires last.regs(nm.state) % 2 == 0
    ensures !StateMeets(l, b, nm, last)
  {
    hide Run, Zeros, U32;
  }

  lemma OddOwn(l: Loop, b: Loop, nm: Names, count: Reg, junk: set<Reg>, n: Machine, mid: Machine, mid': Machine,
               y: Machine, z: Machine)
    requires Apart(nm, count, junk) && Agree(junk, mid, mid') && mid' == Run(b.oddCompute, n)
    requires n.regs(nm.state) % 2 == 1 && OddPath(l) != OddPath(b)
    requires var t, c := U32(mid.regs(nm.three) + 1), mid.regs(nm.count);
      && t % 2 == 0 && U32(t) == t && t != 0
      && y.regs(nm.state) == BeforeLast(t, Ctz(t)) && y.regs(nm.count) == CountedBefore(U32(c + 1), Ctz(t))
      && Arrives(nm, mid', z, Halved(t, Ctz(t)), count, U32(mid'.regs(nm.count) + 1 + Ctz(t)), junk)
    ensures OwnRegisters(l, b, nm, count, n, y, z)
  {
    var t, c := U32(mid.regs(nm.three) + 1), mid.regs(nm.count);
    hide U32, Ctz, Zeros, Halved, Compare32, CountedBefore, BeforeLast, Run, OddPath, Arrives, Agree, Apart;
    ZerosCount(t);
    SomeZeros(t);
    OddCounts(c, Ctz(t));
    DeliveredOwn(nm, count, junk, mid, mid', z, Halved(t, Ctz(t)), U32(mid'.regs(nm.count) + 1 + Ctz(t)));
  }

  lemma DeliveredOwn(nm: Names, count: Reg, junk: set<Reg>, mid: Machine, mid': Machine, z: Machine, t: nat, c: nat)
    requires Apart(nm, count, junk) && Agree(junk, mid, mid') && Arrives(nm, mid', z, t, count, c, junk)
    ensures mid'.regs(nm.three) == mid.regs(nm.three) && mid'.regs(nm.count) == mid.regs(nm.count)
    ensures z.regs(nm.state) == mid'.regs(nm.state)
    ensures z.regs(nm.count) == if count == nm.count then c else mid.regs(nm.count)
  {
    hide Compare32;
  }

  lemma OddCounts(c: nat, k: nat)
    requires 0 < k < 32
    ensures CountedBefore(U32(c + 1), k) != c
    ensures CountedBefore(U32(c + 1), k) != U32(c + 1 + k)
  {
  }

  lemma EvenIsNotSentinel(t: nat, sentinel: nat)
    requires t % 2 == 0 && sentinel % 2 == 1
    ensures !Compare32(t, sentinel).z
  {
  }

  /** Machines that reach the test alike leave alike, or go round alike. */
  lemma TestedAlike(l: Loop, b: Loop, nm: Names, count: Reg, junk: set<Reg>, x: Machine, y: Machine)
    requires Apart(nm, count, junk) && Continues(l, nm, nm.edgeCount) && Continues(b, nm, count)
    requires SameExit(nm, count, junk, x, y)
    ensures SameOutcome(nm, count, junk, Tested(l, x), Tested(b, y))
  {
    hide Run;
    if !x.flags.z {
      var u, v := Run(l.continuation, x), Run(b.continuation, y);
      forall r: Reg | r !in junk ensures u.regs(r) == v.regs(r) {
        assert u.regs(r) ==
          if r == nm.state then x.regs(nm.latchState) else if r == nm.count then x.regs(nm.edgeCount) else x.regs(r);
        assert v.regs(r) ==
          if r == nm.state then y.regs(nm.latchState) else if r == nm.count then y.regs(count) else y.regs(r);
      }
      assert u.flags == x.flags by { assert u.regs(0) == u.regs(0); }
      assert v.flags == y.flags by { assert v.regs(0) == v.regs(0); }
    }
  }

  /** After j single halvings, seen from the start of the run of even states. */
  ghost predicate Halfway(nm: Names, junk: set<Reg>, m: Machine, x: Machine, j: nat) {
    && x.regs(nm.state) == Halved(m.regs(nm.state), j) && x.regs(nm.count) == U32(m.regs(nm.count) + j)
    && Untouched(nm, junk, m, x)
  }

  ghost predicate Untouched(nm: Names, junk: set<Reg>, m: Machine, x: Machine) {
    forall r: Reg :: r !in junk && r != nm.state && r != nm.count && r != nm.latchState && r != nm.edgeCount ==>
      x.regs(r) == m.regs(r)
  }

  /** At the test after j single halvings. */
  ghost predicate AtTest(nm: Names, junk: set<Reg>, m: Machine, x: Machine, t: nat, c: nat) {
    && x.regs(nm.latchState) == t && x.regs(nm.edgeCount) == c && x.flags == Compare32(t, nm.sentinel)
    && Untouched(nm, junk, m, x)
  }

  /** One more halving from half way. */
  lemma OneHalving(l: Loop, nm: Names, count: Reg, junk: set<Reg>, m: Machine, x: Machine, j: nat) returns (y: Machine)
    requires Apart(nm, count, junk) && UnitEven(l, nm, junk)
    requires x.regs(nm.state) % 2 == 0
    requires if j == 0 then x == m else Halfway(nm, junk, m, x, j)
    ensures Trip(l, nm.state, x) == Tested(l, y)
    ensures AtTest(nm, junk, m, y, Halved(m.regs(nm.state), j + 1), U32(m.regs(nm.count) + (j + 1)))
    ensures y.regs(nm.state) == x.regs(nm.state) && y.regs(nm.count) == x.regs(nm.count)
  {
    y := Run(EvenPath(l), x);
    Halves(m.regs(nm.state), j);
    HalvedOnce(m.regs(nm.state));
    HalvedOnce(x.regs(nm.state));
    U32Add(m.regs(nm.count) + j, 1);
    hide Halved, U32, S32, Compare32, Run;
    assert Arrives(nm, x, y, Halved(x.regs(nm.state), 1), nm.edgeCount, U32(x.regs(nm.count) + 1), junk);
  }

  /** State and count before the last of k single halvings. */
  function BeforeLast(w: nat, k: nat): nat {
    if k <= 1 then w else Halved(w, k - 1)
  }

  function CountedBefore(c: nat, k: nat): nat {
    if k <= 1 then c else U32(c + (k - 1))
  }

  lemma HalvedOnce(w: nat)
    ensures Halved(w, 1) == U32(S32(w) / 2)
  {
    assert Pow2(1) == 2;
  }

  lemma NextHalfway(l: Loop, nm: Names, count: Reg, junk: set<Reg>, m: Machine, y: Machine, j: nat)
    requires Apart(nm, count, junk) && Continues(l, nm, nm.edgeCount)
    requires AtTest(nm, junk, m, y, Halved(m.regs(nm.state), j), U32(m.regs(nm.count) + j))
    requires Halved(m.regs(nm.state), j) % 2 == 0 && nm.sentinel % 2 == 1
    ensures Tested(l, y).Again? && Halfway(nm, junk, m, Tested(l, y).m, j)
  {
    EvenIsNotSentinel(Halved(m.regs(nm.state), j), nm.sentinel);
    hide Halved, U32, Compare32, Run;
    var u := Run(l.continuation, y);
    forall r: Reg ensures u.regs(r) ==
      if r == nm.state then y.regs(nm.latchState) else if r == nm.count then y.regs(nm.edgeCount) else y.regs(r) {
    }
  }

  lemma HalvedWord(w: nat, j: nat)
    ensures Halved(U32(w), j) == Halved(w, j)
  {
    SignedOfWord(w);
    hide U32, S32;
  }

  lemma SignedOfWord(w: nat)
    ensures S32(U32(w)) == S32(w)
  {
  }

  lemma StillEven(w: nat, j: nat)
    requires w % 2 == 0 && U32(w) != 0 && j < Ctz(U32(w))
    ensures Halved(w, j) % 2 == 0
  {
    HalvedWord(w, j);
    EvenUntil(U32(w), j);
  }

  lemma SomeZeros(w: nat)
    requires w % 2 == 0 && U32(w) != 0
    ensures 0 < Ctz(U32(w)) < 32
  {
    assert U32(w) % 2 == 0;
    Pow2Values();
    TrailingZeros(U32(w), 32);
  }

  /** While the halvings stay even the loop goes round, one trip each. */
  lemma {:induction false} SomeHalvings(l: Loop, nm: Names, count: Reg, junk: set<Reg>, m: Machine, j: nat)
    returns (x: Machine)
    requires Apart(nm, count, junk) && UnitEven(l, nm, junk) && Continues(l, nm, nm.edgeCount) && nm.sentinel % 2 == 1
    requires m.regs(nm.state) % 2 == 0 && U32(m.regs(nm.state)) != 0 && j < Ctz(U32(m.regs(nm.state)))
    ensures Trips(l, nm.state, m, j) == Again(x) && x.regs(nm.state) % 2 == 0
    ensures if j == 0 then x == m else Halfway(nm, junk, m, x, j)
    decreases j
  {
    hide UnitEven, Continues, Halved, U32, Ctz, Run, Compare32, Trip, Tested, AtTest, Trips, Apart;
    if j == 0 {
      TripsOne(l, nm.state, m);
      return m;
    }
    StillEven(m.regs(nm.state), j);
    TripsAdd(l, nm.state, m, j - 1, 1);
    x := SomeHalvings(l, nm, count, junk, m, j - 1);
    TripsOne(l, nm.state, x);
    var y := OneHalving(l, nm, count, junk, m, x, j - 1);
    NextHalfway(l, nm, count, junk, m, y, j);
    x := Tested(l, y).m;
  }

  /** After as many trips as there are trailing zeros the original loop is at the test with an odd state. */
  lemma AllHalvings(l: Loop, nm: Names, count: Reg, junk: set<Reg>, m: Machine) returns (y: Machine)
    requires Apart(nm, count, junk) && UnitEven(l, nm, junk) && Continues(l, nm, nm.edgeCount) && nm.sentinel % 2 == 1
    requires m.regs(nm.state) % 2 == 0 && U32(m.regs(nm.state)) != 0
    ensures var k := Ctz(U32(m.regs(nm.state)));
      && 0 < k < 32
      && AtTest(nm, junk, m, y, Halved(m.regs(nm.state), k), U32(m.regs(nm.count) + k))
      && Trips(l, nm.state, m, k) == Tested(l, y)
      && y.regs(nm.state) == BeforeLast(m.regs(nm.state), k) && y.regs(nm.count) == CountedBefore(m.regs(nm.count), k)
      && forall j: nat :: j < k ==> Trips(l, nm.state, m, j).Again?
  {
    hide UnitEven, Continues, Halved, U32, Ctz, Run, Compare32, Trip, Tested, AtTest, Trips, Apart, Halfway;
    SomeZeros(m.regs(nm.state));
    var k := Ctz(U32(m.regs(nm.state)));
    forall j: nat | j < k ensures Trips(l, nm.state, m, j).Again? {
      var _ := SomeHalvings(l, nm, count, junk, m, j);
    }
    var x := SomeHalvings(l, nm, count, junk, m, k - 1);
    TripsAdd(l, nm.state, m, k - 1, 1);
    TripsOne(l, nm.state, x);
    y := OneHalving(l, nm, count, junk, m, x, k - 1);
    assert k > 1 ==> x.regs(nm.state) == Halved(m.regs(nm.state), k - 1) by {
      if k > 1 { HalfwayOwn(nm, junk, m, x, k - 1); }
    }
    assert k > 1 ==> x.regs(nm.count) == U32(m.regs(nm.count) + (k - 1)) by {
      if k > 1 { HalfwayOwn(nm, junk, m, x, k - 1); }
    }
  }

  lemma HalfwayOwn(nm: Names, junk: set<Reg>, m: Machine, x: Machine, j: nat)
    requires Halfway(nm, junk, m, x, j)
    ensures x.regs(nm.state) == Halved(m.regs(nm.state), j) && x.regs(nm.count) == U32(m.regs(nm.count) + j)
  {
  }

  /** From a zero state the even edge delivers zero again. */
  ghost predicate KeepsZero(l: Loop, nm: Names) {
    && (forall x: Machine {:trigger Run(EvenPath(l), x)} :: U32(x.regs(nm.state)) == 0 ==>
          Run(EvenPath(l), x).regs(nm.latchState) == 0 && Run(EvenPath(l), x).flags == Compare32(0, nm.sentinel))
    && (forall x: Machine {:trigger Run(l.continuation, x)} ::
          Run(l.continuation, x).regs(nm.state) == x.regs(nm.latchState))
  }

  /** A state of zero stays zero: the loop never leaves. */
  lemma {:induction false} ZeroNeverLeaves(l: Loop, nm: Names, m: Machine, n: nat)
    requires nm.sentinel % 2 == 1 && KeepsZero(l, nm) && U32(m.regs(nm.state)) == 0
    ensures Trips(l, nm.state, m, n).Again?
    decreases n
  {
    if n > 0 {
      EvenIsNotSentinel(0, nm.sentinel);
      SameParity(m.regs(nm.state));
      assert U32(0) == 0;
      hide Run, Compare32, U32;
      var y := Run(EvenPath(l), m);
      ZeroNeverLeaves(l, nm, Run(l.continuation, y), n - 1);
    }
  }

  lemma HalvedZero(w: nat, j: nat)
    requires U32(w) == 0
    ensures Halved(w, j) == 0
  {
    HalvedWord(w, j);
    var d := Pow2(j);
    hide Pow2;
    assert 0 / d == 0;
  }

  lemma BothKeepZero(l: Loop, b: Loop, nm: Names, count: Reg, junk: set<Reg>)
    requires Apart(nm, count, junk) && UnitEven(l, nm, junk) && BatchEven(b, nm, count, junk)
    requires Continues(l, nm, nm.edgeCount) && Continues(b, nm, count)
    ensures KeepsZero(l, nm) && KeepsZero(b, nm)
  {
    hide Run, Compare32, U32, Halved, Zeros;
    forall x: Machine ensures Run(l.continuation, x).regs(nm.state) == x.regs(nm.latchState) {
    }
    forall x: Machine ensures Run(b.continuation, x).regs(nm.state) == x.regs(nm.latchState) {
    }
    forall x: Machine | U32(x.regs(nm.state)) == 0
      ensures Run(EvenPath(l), x).regs(nm.latchState) == 0 && Run(EvenPath(l), x).flags == Compare32(0, nm.sentinel)
      ensures Run(EvenPath(b), x).regs(nm.latchState) == 0 && Run(EvenPath(b), x).flags == Compare32(0, nm.sentinel)
    {
      HalvedZero(x.regs(nm.state), 1);
      HalvedZero(x.regs(nm.state), Zeros(x.regs(nm.state)) % 32);
      assert Arrives(nm, x, Run(EvenPath(l), x), Halved(x.regs(nm.state), 1), nm.edgeCount,
                     U32(x.regs(nm.count) + 1), junk);
    }
  }

  lemma ZerosCount(w: nat)
    requires w % 2 == 0 && U32(w) != 0
    ensures Zeros(w) == Ctz(U32(w)) < 32
  {
    SomeZeros(w);
    Pow2Values();
    U32Idempotent(w);
    TrailingZeros(U32(w), 32);
  }

  /** Both loops never leave, or the batched loop's next trip ends like some number of the
      original loop's trips, none of which ends before. */
  ghost predicate Round(l: Loop, b: Loop, nm: Names, count: Reg, junk: set<Reg>, m: Machine, n: Machine,
                        stuck: bool, k: nat) {
    if stuck then
      forall i: nat :: Trips(l, nm.state, m, i).Again? && Trips(b, nm.state, n, i).Again?
    else
      && k > 0 && (forall j: nat :: j < k ==> Trips(l, nm.state, m, j).Again?)
      && SameOutcome(nm, count, junk, Trips(l, nm.state, m, k), Trip(b, nm.state, n))
      && OwnAtExit(l, b, nm, count, n, Trips(l, nm.state, m, k), Trip(b, nm.state, n))
  }

  lemma EvenRound(l: Loop, b: Loop, nm: Names, count: Reg, junk: set<Reg>, m: Machine, n: Machine)
    returns (stuck: bool, k: nat)
    requires Paired(l, b, nm, count, junk) && Agree(junk, m, n) && m.regs(nm.state) % 2 == 0
    ensures Round(l, b, nm, count, junk, m, n, stuck, k)
  {
    hide Run, Compare32, U32, Halved, Zeros, Ctz, Trips, OddMatched, OddKept, Leaves, OwnRegisters, CountedBefore;
    if U32(m.regs(nm.state)) == 0 {
      BothKeepZero(l, b, nm, count, junk);
      forall i: nat ensures Trips(l, nm.state, m, i).Again? && Trips(b, nm.state, n, i).Again? {
        ZeroNeverLeaves(l, nm, m, i);
        ZeroNeverLeaves(b, nm, n, i);
      }
      return true, 0;
    }
    ZerosCount(m.regs(nm.state));
    k := Ctz(U32(m.regs(nm.state)));
    var y := AllHalvings(l, nm, count, junk, m);
    var z := Run(EvenPath(b), n);
    assert Arrives(nm, n, z, Halved(n.regs(nm.state), k), count, U32(n.regs(nm.count) + k), junk);
    TestedAlike(l, b, nm, count, junk, y, z);
    EvenOwn(l, b, nm, count, junk, m, n, y, z);
    stuck := false;
  }

  /** After the odd edge the original loop goes round with an even state. */
  lemma OddGoesRound(l: Loop, nm: Names, count: Reg, junk: set<Reg>, mid: Machine) returns (x: Machine)
    requires Apart(nm, count, junk) && UnitOdd(l, nm, junk) && Continues(l, nm, nm.edgeCount) && nm.sentinel % 2 == 1
    requires U32(mid.regs(nm.three) + 1) % 2 == 0
    ensures Tested(l, Run(OddPath(l), mid)) == Again(x)
    ensures x.regs(nm.state) == U32(mid.regs(nm.three) + 1) && x.regs(nm.count) == U32(mid.regs(nm.count) + 1)
    ensures Untouched(nm, junk, mid, x)
  {
    hide U32, Compare32;
    var t, y := U32(mid.regs(nm.three) + 1), Run(OddPath(l), mid);
    assert Arrives(nm, mid, y, t, nm.edgeCount, U32(mid.regs(nm.count) + 1), junk);
    EvenIsNotSentinel(t, nm.sentinel);
    x := Run(l.continuation, y);
    hide Run;
    forall r: Reg ensures x.regs(r) ==
      if r == nm.state then y.regs(nm.latchState) else if r == nm.count then y.regs(nm.edgeCount) else y.regs(r) {
    }
  }

  /** The state after the odd computation and its increment is even. */
  lemma OddState(l: Loop, b: Loop, nm: Names, count: Reg, junk: set<Reg>, m: Machine)
    requires OddMatched(l, b, nm, count, junk) && m.regs(nm.state) % 2 == 1
    ensures var t := U32(Run(l.oddCompute, m).regs(nm.three) + 1);
      t % 2 == 0 && U32(t) == t
  {
    var mid := Run(l.oddCompute, m);
    assert mid.regs(nm.three) == U32(3 * m.regs(nm.state));
    U32Add(3 * m.regs(nm.state), 1);
    OddStepEven(m.regs(nm.state));
    U32Idempotent(mid.regs(nm.three) + 1);
  }

  lemma BatchedOddEdge(b: Loop, nm: Names, count: Reg, junk: set<Reg>, mid: Machine)
    requires BatchOdd(b, nm, count, junk)
    requires var t := U32(mid.regs(nm.three) + 1); t % 2 == 0 && U32(t) == t
    ensures var t, z := U32(mid.regs(nm.three) + 1), Run(OddPath(b), mid);
      if t == 0 then z.regs(nm.latchState) == 0 && z.flags == Compare32(0, nm.sentinel)
      else Arrives(nm, mid, z, Halved(t, Ctz(t)), count, U32(mid.regs(nm.count) + 1 + Ctz(t)), junk)
  {
    hide Run, Halved, Compare32, U32, Ctz, Zeros;
    var t := U32(mid.regs(nm.three) + 1);
    assert Arrives(nm, mid, Run(OddPath(b), mid), Halved(t, Zeros(t) % 32), count,
                   U32(mid.regs(nm.count) + 1 + Zeros(t)), junk);
    if t == 0 { HalvedZero(t, Zeros(t) % 32); } else { ZerosCount(t); }
  }

  ghost predicate OddReached(l: Loop, b: Loop, nm: Names, junk: set<Reg>, m: Machine, n: Machine) {
    var mid, mid' := Run(l.oddCompute, m), Run(b.oddCompute, n);
    && m.regs(nm.state) % 2 == 1 && n.regs(nm.state) % 2 == 1
    && Agree(junk, mid, mid') && !Leaves(l, mid) && !Leaves(b, mid')
  }

  /** The original loop's first trip, and the shape of the batched loop's. */
  lemma OddTrip(l: Loop, b: Loop, nm: Names, count: Reg, junk: set<Reg>, m: Machine, n: Machine) returns (x: Machine)
    requires Paired(l, b, nm, count, junk) && OddMatched(l, b, nm, count, junk) && OddReached(l, b, nm, junk, m, n)
    ensures var mid := Run(l.oddCompute, m);
      && Trips(l, nm.state, m, 1) == Again(x)
      && x.regs(nm.count) == U32(mid.regs(nm.count) + 1) && x.regs(nm.state) == U32(mid.regs(nm.three) + 1)
      && Untouched(nm, junk, mid, x)
    ensures Trip(b, nm.state, n) == Tested(b, Run(OddPath(b), Run(b.oddCompute, n)))
    ensures var mid, mid' := Run(l.oddCompute, m), Run(b.oddCompute, n);
      var t := U32(mid.regs(nm.three) + 1);
      && t % 2 == 0 && U32(t) == t && mid'.regs(nm.three) == mid.regs(nm.three)
      && n.regs(nm.state) % 2 == 1 && Agree(junk, mid, mid') && !Leaves(b, mid') && BatchOdd(b, nm, count, junk)
  {
    OddState(l, b, nm, count, junk, m);
    assert Run(b.oddCompute, n).regs(nm.three) == Run(l.oddCompute, m).regs(nm.three);
    hide Compare32, U32, Halved, Zeros, Ctz, Trips, Leaves, UnitEven, BatchEven, OddKept, UnitOdd, BatchOdd, Continues,
      Run, Agree, Tested, Untouched;
    x := OddGoesRound(l, nm, count, junk, Run(l.oddCompute, m));
    TripsOne(l, nm.state, m);
  }

  lemma TwoHalved()
    ensures U32(2) == 2 && Zeros(2) == 1 && Halved(2, 1) == 1
  {
    assert Ctz(2) == 1 && S32(2) == 2 && Pow2(1) == 2;
    ZerosCount(2);
    assert Halved(2, 1) == U32(1);
  }

  /** A batched odd edge is not the edge it replaces. */
  lemma MatchedDiffers(l: Loop, b: Loop, nm: Names, count: Reg, junk: set<Reg>)
    requires OddMatched(l, b, nm, count, junk)
    ensures OddPath(l) != OddPath(b)
  {
    var m := Machine(_ => 1, Compare32(0, 0));
    TwoHalved();
    hide Run, U32, Zeros, Halved, Compare32, OddPath, OddMatched;
    OddDelivers(l, b, nm, count, junk, m);
  }

  lemma OddDelivers(l: Loop, b: Loop, nm: Names, count: Reg, junk: set<Reg>, m: Machine)
    requires OddMatched(l, b, nm, count, junk)
    ensures Run(OddPath(l), m).regs(nm.latchState) == U32(m.regs(nm.three) + 1)
    ensures Run(OddPath(b), m).regs(nm.latchState)
         == Halved(U32(m.regs(nm.three) + 1), Zeros(U32(m.regs(nm.three) + 1)) % 32)
  {
    hide Run, U32, Zeros, Halved, Compare32, OddPath;
    var t := U32(m.regs(nm.three) + 1);
    assert Arrives(nm, m, Run(OddPath(l), m), t, nm.edgeCount, U32(m.regs(nm.count) + 1), junk);
    assert Arrives(nm, m, Run(OddPath(b), m), Halved(t, Zeros(t) % 32), count, U32(m.regs(nm.count) + 1 + Zeros(t)),
                   junk);
  }

  lemma OddMatchedRound(l: Loop, b: Loop, nm: Names, count: Reg, junk: set<Reg>, m: Machine, n: Machine)
    returns (stuck: bool, k: nat)
    requires Paired(l, b, nm, count, junk) && OddMatched(l, b, nm, count, junk) && OddReached(l, b, nm, junk, m, n)
    ensures Round(l, b, nm, count, junk, m, n, stuck, k)
  {
    hide *;
    var mid, mid' := Run(l.oddCompute, m), Run(b.oddCompute, n);
    var t := U32(mid.regs(nm.three) + 1);
    var x := OddTrip(l, b, nm, count, junk, m, n);
    BatchedOddEdge(b, nm, count, junk, mid');
    stuck, k := t == 0, if t == 0 then 0 else 1 + Ctz(t);
    MatchedDiffers(l, b, nm, count, junk);
    if t == 0 {
      ZeroOdd(l, b, nm, count, junk, m, n, x, mid');
    } else {
      NonZeroOdd(l, b, nm, count, junk, m, n, mid, mid', x);
    }
  }

  lemma NonZeroOdd(l: Loop, b: Loop, nm: Names, count: Reg, junk: set<Reg>, m: Machine, n: Machine, mid: Machine,
                   mid': Machine, x: Machine)
    requires Paired(l, b, nm, count, junk)
    requires Agree(junk, mid, mid') && Untouched(nm, junk, mid, x) && Trips(l, nm.state, m, 1) == Again(x)
    requires x.regs(nm.count) == U32(mid.regs(nm.count) + 1) && x.regs(nm.state) == U32(mid.regs(nm.three) + 1)
    requires var t := U32(mid.regs(nm.three) + 1);
      && t % 2 == 0 && U32(t) == t && t != 0
      && Arrives(nm, mid', Run(OddPath(b), mid'), Halved(t, Ctz(t)), count, U32(mid'.regs(nm.count) + 1 + Ctz(t)), junk)
    requires Trip(b, nm.state, n) == Tested(b, Run(OddPath(b), mid'))
    requires n.regs(nm.state) % 2 == 1 && mid' == Run(b.oddCompute, n) && OddPath(l) != OddPath(b)
    ensures Round(l, b, nm, count, junk, m, n, false, 1 + Ctz(U32(mid.regs(nm.three) + 1)))
  {
    hide Compare32, U32, Halved, Ctz, Trips, Trip, UnitEven, Continues, SameExit, Run, Arrives, AtTest, Agree, Tested,
      Apart, Untouched, SameOutcome, OddMatched, OddKept, OwnAtExit, OddPath;
    OddHalvings(l, b, nm, count, junk, m, n, mid, mid', x);
  }

  /** The odd edge's halvings, one trip each, against all of them at once. */
  lemma OddHalvings(l: Loop, b: Loop, nm: Names, count: Reg, junk: set<Reg>, m: Machine, n: Machine, mid: Machine,
                    mid': Machine, x: Machine)
    requires n.regs(nm.state) % 2 == 1 && mid' == Run(b.oddCompute, n) && OddPath(l) != OddPath(b)
    requires Apart(nm, count, junk) && UnitEven(l, nm, junk) && nm.sentinel % 2 == 1
    requires Continues(l, nm, nm.edgeCount) && Continues(b, nm, count)
    requires Agree(junk, mid, mid') && Untouched(nm, junk, mid, x) && Trips(l, nm.state, m, 1) == Again(x)
    requires x.regs(nm.count) == U32(mid.regs(nm.count) + 1) && x.regs(nm.state) == U32(mid.regs(nm.three) + 1)
    requires var t := U32(mid.regs(nm.three) + 1);
      && t % 2 == 0 && U32(t) == t && t != 0
      && Arrives(nm, mid', Run(OddPath(b), mid'), Halved(t, Ctz(t)), count, U32(mid'.regs(nm.count) + 1 + Ctz(t)), junk)
    ensures var k := 1 + Ctz(U32(mid.regs(nm.three) + 1));
      && (forall j: nat :: j < k ==> Trips(l, nm.state, m, j).Again?)
      && SameOutcome(nm, count, junk, Trips(l, nm.state, m, k), Tested(b, Run(OddPath(b), mid')))
      && OwnAtExit(l, b, nm, count, n, Trips(l, nm.state, m, k), Tested(b, Run(OddPath(b), mid')))
  {
    hide Compare32, U32, Halved, Ctz, Trips, UnitEven, Continues, SameExit, Run, Arrives, AtTest, Agree, Apart,
      Untouched, SameOutcome, OwnRegisters, OddPath, CountedBefore;
    var t := U32(mid.regs(nm.three) + 1);
    var y := AllHalvings(l, nm, count, junk, x);
    LaterTrips(l, nm, m, x, Ctz(t));
    SameAfterOdd(nm, count, junk, mid, mid', x, y, Run(OddPath(b), mid'));
    TestedAlike(l, b, nm, count, junk, y, Run(OddPath(b), mid'));
    OddOwn(l, b, nm, count, junk, n, mid, mid', y, Run(OddPath(b), mid'));
  }

  /** Trips that follow a first trip that goes round. */
  lemma LaterTrips(l: Loop, nm: Names, m: Machine, x: Machine, k: nat)
    requires Trips(l, nm.state, m, 1) == Again(x)
    requires forall j: nat :: j < k ==> Trips(l, nm.state, x, j).Again?
    ensures Trips(l, nm.state, m, 1 + k) == Trips(l, nm.state, x, k)
    ensures forall j: nat :: j < 1 + k ==> Trips(l, nm.state, m, j).Again?
  {
    hide Trip, Trips;
    TripsAdd(l, nm.state, m, 1, k);
    forall j: nat | j < 1 + k ensures Trips(l, nm.state, m, j).Again? {
      if j > 0 { TripsAdd(l, nm.state, m, 1, j - 1); } else { TripsOne(l, nm.state, m); }
    }
  }

  lemma SameAfterOdd(nm: Names, count: Reg, junk: set<Reg>, mid: Machine, mid': Machine, x: Machine, y: Machine,
                     z: Machine)
    requires Apart(nm, count, junk) && Agree(junk, mid, mid') && Untouched(nm, junk, mid, x)
    requires var t := U32(mid.regs(nm.three) + 1);
      && t != 0 && x.regs(nm.count) == U32(mid.regs(nm.count) + 1)
      && AtTest(nm, junk, x, y, Halved(t, Ctz(t)), U32(x.regs(nm.count) + Ctz(t)))
      && Arrives(nm, mid', z, Halved(t, Ctz(t)), count, U32(mid'.regs(nm.count) + 1 + Ctz(t)), junk)
    ensures SameExit(nm, count, junk, y, z)
  {
    var t := U32(mid.regs(nm.three) + 1);
    hide U32, Ctz, Halved, Compare32;
    U32Add(mid.regs(nm.count) + 1, Ctz(t));
  }

  lemma ZeroOdd(l: Loop, b: Loop, nm: Names, count: Reg, junk: set<Reg>, m: Machine, n: Machine, x: Machine,
                mid': Machine)
    requires Paired(l, b, nm, count, junk) && n.regs(nm.state) % 2 == 1
    requires mid' == Run(b.oddCompute, n) && !Leaves(b, mid')
    requires var z := Run(OddPath(b), mid'); z.regs(nm.latchState) == 0 && z.flags == Compare32(0, nm.sentinel)
    requires Trips(l, nm.state, m, 1) == Again(x) && x.regs(nm.state) == 0
    ensures Round(l, b, nm, count, junk, m, n, true, 0)
  {
    assert U32(0) == 0;
    EvenIsNotSentinel(0, nm.sentinel);
    hide Compare32, U32, Halved, Zeros, Ctz, Trips, Leaves, UnitEven, BatchEven, OddKept, OddMatched, Continues, Run;
    BothKeepZero(l, b, nm, count, junk);
    TripsOne(b, nm.state, n);
    var u := Run(b.continuation, Run(OddPath(b), mid'));
    assert u.regs(nm.state) == 0;
    forall i: nat ensures Trips(l, nm.state, m, i).Again? && Trips(b, nm.state, n, i).Again? {
      ZeroAfterOne(l, nm, m, x, i);
      ZeroAfterOne(b, nm, n, u, i);
    }
  }

  lemma ZeroAfterOne(l: Loop, nm: Names, m: Machine, x: Machine, i: nat)
    requires nm.sentinel % 2 == 1 && KeepsZero(l, nm) && Trips(l, nm.state, m, 1) == Again(x)
      && U32(x.regs(nm.state)) == 0
    ensures Trips(l, nm.state, m, i).Again?
  {
    hide KeepsZero, Trip, Trips, U32;
    if i > 0 {
      ZeroNeverLeaves(l, nm, x, i - 1);
      TripsAdd(l, nm.state, m, 1, i - 1);
    } else {
      TripsOne(l, nm.state, m);
    }
  }

  lemma KeptOwn(l: Loop, b: Loop, nm: Names, count: Reg, junk: set<Reg>, n: Machine, y: Machine, z: Machine)
    requires Apart(nm, count, junk) && OddKept(l, b, nm, count, junk) && Agree(junk, y, z) && n.regs(nm.state) % 2 == 1
    ensures OwnRegisters(l, b, nm, count, n, y, z)
  {
  }

  lemma OneRound(l: Loop, b: Loop, nm: Names, count: Reg, junk: set<Reg>, m: Machine, n: Machine)
    returns (stuck: bool, k: nat)
    requires Paired(l, b, nm, count, junk) && Agree(junk, m, n)
    ensures Round(l, b, nm, count, junk, m, n, stuck, k)
  {
    assert m.regs(nm.state) == n.regs(nm.state);
    if m.regs(nm.state) % 2 == 0 {
      stuck, k := EvenRound(l, b, nm, count, junk, m, n);
      return;
    }
    hide Run, Compare32, U32, Halved, Zeros, Ctz, Trips, UnitEven, BatchEven, Continues, OwnRegisters;
    var mid, mid' := Run(l.oddCompute, m), Run(b.oddCompute, n);
    Congruent(l.oddCompute, junk, m, n);
    assert Leaves(l, mid) <==> Leaves(b, mid');
    TripsOne(l, nm.state, m);
    if !Leaves(l, mid) {
      if OddMatched(l, b, nm, count, junk) {
        assert OddReached(l, b, nm, junk, m, n);
        stuck, k := OddMatchedRound(l, b, nm, count, junk, m, n);
        return;
      }
      Congruent(OddPath(l), junk, mid, mid');
      TestedAlike(l, b, nm, count, junk, Run(OddPath(l), mid), Run(OddPath(b), mid'));
      KeptOwn(l, b, nm, count, junk, n, Run(OddPath(l), mid), Run(OddPath(b), mid'));
    }
    stuck, k := false, 1;
  }

  /** The batched trip that leaves starts here; at the exit it decides about the loop's own registers. */
  ghost predicate LastTrip(l: Loop, b: Loop, nm: Names, count: Reg, n: Machine, j: nat, last: Machine, o: Outcome) {
    && j > 0 && Trips(b, nm.state, n, j - 1) == Again(last)
    && OwnAtExit(l, b, nm, count, last, o, Trips(b, nm.state, n, j))
  }

  /** Whenever the original loop leaves, the batched one leaves the same way. */
  lemma {:induction false} BatchedLeaves(l: Loop, b: Loop, nm: Names, count: Reg, junk: set<Reg>, m: Machine,
                                         n: Machine,
                                         i: nat) returns (j: nat, last: Machine)
    requires Paired(l, b, nm, count, junk) && Agree(junk, m, n) && !Trips(l, nm.state, m, i).Again?
    ensures SameOutcome(nm, count, junk, Trips(l, nm.state, m, i), Trips(b, nm.state, n, j))
    ensures LastTrip(l, b, nm, count, n, j, last, Trips(l, nm.state, m, i))
    decreases i
  {
    hide Paired, Agree, Trip, Trips, SameExit, OwnAtExit;
    var stuck, k := OneRound(l, b, nm, count, junk, m, n);
    assert !stuck && k <= i;
    TripsAdd(l, nm.state, m, k, i - k);
    TripsOne(b, nm.state, n);
    j, last := 1, n;
    if Trips(l, nm.state, m, k).Again? {
      var p := Trip(b, nm.state, n).m;
      j, last := BatchedLeaves(l, b, nm, count, junk, Trips(l, nm.state, m, k).m, p, i - k);
      TripsAdd(b, nm.state, n, 1, j);
      TripsAdd(b, nm.state, n, 1, j - 1);
      j := 1 + j;
    }
  }

  /** And the other way round: in particular both diverge from the same states. */
  lemma {:induction false} OriginalLeaves(l: Loop, b: Loop, nm: Names, count: Reg, junk: set<Reg>, m: Machine,
                                          n: Machine,
                                          j: nat) returns (i: nat)
    requires Paired(l, b, nm, count, junk) && Agree(junk, m, n) && !Trips(b, nm.state, n, j).Again?
    ensures SameOutcome(nm, count, junk, Trips(l, nm.state, m, i), Trips(b, nm.state, n, j))
    decreases j
  {
    hide Paired, Agree, Trip, Trips, SameExit, OwnAtExit;
    TripsOne(b, nm.state, n);
    var stuck, k := OneRound(l, b, nm, count, junk, m, n);
    assert !stuck && j > 0;
    TripsAdd(b, nm.state, n, 1, j - 1);
    i := k;
    if Trip(b, nm.state, n).Again? {
      var x := Trips(l, nm.state, m, k).m;
      i := OriginalLeaves(l, b, nm, count, junk, x, Trip(b, nm.state, n).m, j - 1);
      TripsAdd(l, nm.state, m, k, i);
      i := k + i;
    }
  }
}
