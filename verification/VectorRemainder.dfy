/** The remainder of four 32-bit lanes by a constant, with the vector instructions of section
    C7.2 of the Arm Architecture Reference Manual. */
module VectorRemainder {
  import opened Bits
  import opened Words
  import opened MagicNumbers
  import opened ConstantSelection

  type Reg = nat

  /** A 128-bit register as four words. */
  datatype Quad = Quad(w0: nat, w1: nat, w2: nat, w3: nat)

  datatype Op =
    | SPLAT(value: int) | ADDv4i32 | SSHRiv4i32(shift: nat) | USHRiv4i32(shift: nat) | MLSv4i32
    | SMULLv2i64 | SMULL2v2i64 | SSHRiv2i64(shift: nat) | XTNv2i32 | XTN2v4i32

  datatype Instr = Instr(op: Op, dst: Reg, uses: seq<Reg>)

  type Machine = Reg -> Quad

  function Lane(q: Quad, i: nat): nat {
    if i == 0 then q.w0 else if i == 1 then q.w1 else if i == 2 then q.w2 else q.w3
  }

  // Double words

  function Double(low: nat, high: nat): nat {
    U32(low) + U32(high) * B32
  }

  function Doubles(x: nat, y: nat): Quad {
    DivNatural(x, B32);
    DivNatural(y, B32);
    Quad(U32(x), U32(x / B32), U32(y), U32(y / B32))
  }

  lemma DoubleBack(x: nat)
    requires x < B64
    ensures Double(U32(x), U32(x / B32)) == x
  {
  }

  function Product(a: nat, b: nat): nat {
    U64(S32(a) * S32(b))
  }

  function ShiftDouble(x: nat, shift: nat): nat {
    U64(S64(x) / Pow2(shift))
  }

  function Shifted(a: nat, shift: nat): nat {
    U32(S32(a) / Pow2(shift))
  }

  function ShiftedUnsigned(a: nat, shift: nat): nat {
    DivNatural(U32(a), Pow2(shift));
    U32(a) / Pow2(shift)
  }

  function Value(op: Op, a: Quad, b: Quad, c: Quad): Quad {
    match op
    case SPLAT(value) => Quad(U32(value), U32(value), U32(value), U32(value))
    case ADDv4i32 => Quad(U32(a.w0 + b.w0), U32(a.w1 + b.w1), U32(a.w2 + b.w2), U32(a.w3 + b.w3))
    case SSHRiv4i32(k) => Quad(Shifted(a.w0, k), Shifted(a.w1, k), Shifted(a.w2, k), Shifted(a.w3, k))
    case USHRiv4i32(k) =>
      Quad(ShiftedUnsigned(a.w0, k), ShiftedUnsigned(a.w1, k), ShiftedUnsigned(a.w2, k), ShiftedUnsigned(a.w3, k))
    case MLSv4i32 =>
      Quad(U32(a.w0 - b.w0 * c.w0), U32(a.w1 - b.w1 * c.w1), U32(a.w2 - b.w2 * c.w2), U32(a.w3 - b.w3 * c.w3))
    case SMULLv2i64 => Doubles(Product(a.w0, b.w0), Product(a.w1, b.w1))
    case SMULL2v2i64 => Doubles(Product(a.w2, b.w2), Product(a.w3, b.w3))
    case SSHRiv2i64(k) => Doubles(ShiftDouble(Double(a.w0, a.w1), k), ShiftDouble(Double(a.w2, a.w3), k))
    case XTNv2i32 => Quad(U32(a.w0), U32(a.w2), 0, 0)
    case XTN2v4i32 => Quad(a.w0, a.w1, U32(b.w0), U32(b.w2))
  }

  function Arg(m: Machine, uses: seq<Reg>, k: nat): Quad {
    if k < |uses| then m(uses[k]) else NONE
  }

  function Step(i: Instr, m: Machine): Machine {
    var value := Value(i.op, Arg(m, i.uses, 0), Arg(m, i.uses, 1), Arg(m, i.uses, 2));
    (r: Reg) => if r == i.dst then value else m(r)
  }

  function Run(code: seq<Instr>, m: Machine): Machine {
    if code == [] then m else Step(code[|code| - 1], Run(code[..|code| - 1], m))
  }

  /** Right shifts encode amounts from one to the lane width; the accumulator of MLS and the
      low half of XTN2 are tied to the destination, so neither may be absent. */
  predicate Encodable(i: Instr) {
    match i.op
    case SSHRiv4i32(shift) => 1 <= shift <= 32
    case USHRiv4i32(shift) => 1 <= shift <= 32
    case SSHRiv2i64(shift) => 1 <= shift <= 64
    case MLSv4i32 => |i.uses| == 3
    case XTN2v4i32 => |i.uses| == 2
    case _ => true
  }

  // One lane

  /** The high word of the signed product, as the two long multiplications leave it. */
  function HighLane(a: nat, b: nat): nat {
    U32(S32(a) * S32(b) / B32)
  }

  lemma HighOfProduct(a: nat, b: nat)
    ensures U32(U32(ShiftDouble(Double(U32(Product(a, b)), U32(Product(a, b) / B32)), 32))) == HighLane(a, b)
  {
    Pow2Values();
    DoubleBack(Product(a, b));
    ProductFits(S32(a), S32(b));
    LowWord(S32(a) * S32(b) / B32);
    U32Idempotent(ShiftDouble(Product(a, b), 32));
  }

  function Corrected(high: nat, a: nat, strategy: Strategy): nat {
    if strategy == MultiplyAddShift then U32(high + a) else high
  }

  function Rounded(high: nat, shift: nat): nat {
    var shifted := if shift == 0 then high else Shifted(high, shift);
    U32(shifted + ShiftedUnsigned(shifted, 31))
  }

  lemma FlooredLane(n: Int32, m: nat, magic: MagicNumber, divisor: Int32) returns (h: int)
    requires divisor >= 3 && Reciprocal(divisor, m, magic.shift) && Signed(magic.multiplier, divisor, m)
    ensures h == n * magic.multiplier / B32 + if m < B31 then 0 else n
    ensures -B31 <= h < B31 && h / Pow2(magic.shift) == Floored(divisor, n)
  {
    hide Reciprocal, Floored, Pow2;
    h := n * magic.multiplier / B32 + if m < B31 then 0 else n;
    if m < B31 {
      assert magic.multiplier == m;
      HighWord(n, m, magic.shift);
      MagicDivides(divisor, m, magic.shift, n);
    } else {
      CorrectedQuotient(divisor, m, magic, n);
    }
  }

  /** The chain of one lane is the truncated quotient. */
  lemma LaneQuotient(a: nat, m: nat, magic: MagicNumber, divisor: Int32)
    requires divisor >= 3 && Reciprocal(divisor, m, magic.shift) && Signed(magic.multiplier, divisor, m)
    requires magic.strategy == StrategyFor(divisor, m)
    ensures Rounded(Corrected(HighLane(a, U32(magic.multiplier)), a, magic.strategy), magic.shift)
         == U32(TruncDiv(S32(a), divisor))
  {
    var n := S32(a);
    S32Of(magic.multiplier);
    var h := FlooredLane(n, m, magic, divisor);
    LaneHigh(n * magic.multiplier / B32, a);
    hide U32, S32, Reciprocal, Floored, TruncDiv, Signed;
    LaneRounds(h, magic.shift, divisor, n);
  }

  lemma LaneHigh(high: int, a: nat)
    ensures U32(U32(high) + a) == U32(high + S32(a))
  {
    SignedWord(high, a);
    SignedWord(a, high);
  }

  lemma LaneRounds(h: int, shift: nat, divisor: Int32, n: Int32)
    requires divisor >= 3 && -B31 <= h < B31 && h / Pow2(shift) == Floored(divisor, n)
    ensures Rounded(U32(h), shift) == U32(TruncDiv(n, divisor))
  {
    hide TruncDiv, Floored;
    S32Of(h);
    assert Pow2(0) == 1;
    var f := Floored(divisor, n);
    AddSign(divisor, n, f);
    hide U32, S32, Pow2;
    SignedWord(f, U32(f) / Pow2(31));
    U32Idempotent(f);
  }

  /** Subtracting the product leaves the truncated remainder. */
  lemma LaneRemainder(a: nat, q: nat, divisor: Int32)
    requires divisor != 0 && q == U32(TruncDiv(S32(a), divisor))
    ensures U32(a - q * U32(divisor)) == U32(TruncRem(S32(a), divisor))
  {
    hide U32, S32, TruncDiv;
    var quotient := TruncDiv(S32(a), divisor);
    U32Idempotent(quotient);
    U32Idempotent(divisor);
    SignedWord(a, 0);
    U32MulSub(q, U32(divisor), a, quotient, divisor, S32(a));
    assert S32(a) - quotient * divisor == TruncRem(S32(a), divisor);
  }

  // Four lanes

  const NONE := Quad(0, 0, 0, 0)

  function HighQuad(a: Quad, b: Quad): Quad {
    Quad(HighLane(a.w0, b.w0), HighLane(a.w1, b.w1), HighLane(a.w2, b.w2), HighLane(a.w3, b.w3))
  }

  lemma HighLanes(a: Quad, b: Quad)
    ensures (var low := Value(SSHRiv2i64(32), Value(SMULLv2i64, a, b, NONE), NONE, NONE);
             var high := Value(SSHRiv2i64(32), Value(SMULL2v2i64, a, b, NONE), NONE, NONE);
             Value(XTN2v4i32, Value(XTNv2i32, low, NONE, NONE), high, NONE)) == HighQuad(a, b)
  {
    hide U32, S32, HighLane, ShiftDouble, Double, Product;
    HighOfProduct(a.w0, b.w0);
    HighOfProduct(a.w1, b.w1);
    HighOfProduct(a.w2, b.w2);
    HighOfProduct(a.w3, b.w3);
  }

  /** The code selected so far, beside the machine it takes any starting machine to. */
  class Selection {
    var code: seq<Instr>
    var next: Reg
    ghost const start: Machine
    ghost var now: Machine

    ghost predicate Valid()
      reads this
    {
      now == Run(code, start) && forall k :: 0 <= k < |code| ==> Encodable(code[k])
    }

    constructor (firstFree: Reg, ghost start: Machine)
      ensures Valid() && code == [] && next == firstFree && now == start
    {
      code, next := [], firstFree;
      this.start := start;
      now := start;
    }

    method Emit(op: Op, dst: Reg, uses: seq<Reg>)
      requires Valid() && Encodable(Instr(op, dst, uses))
      modifies this
      ensures Valid() && code == old(code) + [Instr(op, dst, uses)] && next == old(next)
      ensures now(dst) == Value(op, Arg(old(now), uses, 0), Arg(old(now), uses, 1), Arg(old(now), uses, 2))
      ensures forall r: Reg :: r != dst ==> now(r) == old(now)(r)
    {
      var i := Instr(op, dst, uses);
      code := code + [i];
      now := Step(i, now);
      assert code[..|code| - 1] == old(code);
    }

    /** A definition of a fresh register. */
    method Temporary(op: Op, uses: seq<Reg>) returns (dst: Reg)
      requires Valid() && Encodable(Instr(op, next, uses))
      modifies this
      ensures Valid() && code == old(code) + [Instr(op, dst, uses)]
      ensures dst == old(next) && next == dst + 1
      ensures now(dst) == Value(op, Arg(old(now), uses, 0), Arg(old(now), uses, 1), Arg(old(now), uses, 2))
      ensures forall r: Reg :: r != dst ==> now(r) == old(now)(r)
    {
      dst := next;
      next := next + 1;
      Emit(op, dst, uses);
    }
  }

  /** What was selected stays, and no register in use changes but dst. */
  twostate predicate Extends(s: Selection, dst: Reg)
    reads s
  {
    && s.Valid() && old(s.next) <= s.next && old(s.code) <= s.code
    && (forall r: Reg :: r != dst && r < old(s.next) ==> s.now(r) == old(s.now)(r))
  }

  /** One long multiplication and the high words of its products. */
  method EmitHighHalf(s: Selection, op: Op, numerator: Reg, multiplier: Reg) returns (high: Reg)
    requires s.Valid() && numerator < s.next && multiplier < s.next && (op.SMULLv2i64? || op.SMULL2v2i64?)
    modifies s
    ensures Extends(s, high) && old(s.next) <= high < s.next
    ensures var a, b := old(s.now)(numerator), old(s.now)(multiplier);
            s.now(high) == Value(SSHRiv2i64(32), Value(op, a, b, NONE), NONE, NONE)
  {
    hide Value, Run;
    var product := s.Temporary(op, [numerator, multiplier]);
    high := s.Temporary(SSHRiv2i64(32), [product]);
  }

  method EmitProductHigh(s: Selection, numerator: Reg, multiplier: Reg) returns (lanes: Reg)
    requires s.Valid() && numerator < s.next && multiplier < s.next
    modifies s
    ensures Extends(s, lanes) && old(s.next) <= lanes < s.next
    ensures s.now(lanes) == HighQuad(old(s.now)(numerator), old(s.now)(multiplier))
  {
    hide Value, Run, HighQuad;
    HighLanes(s.now(numerator), s.now(multiplier));
    var lowHigh := EmitHighHalf(s, SMULLv2i64, numerator, multiplier);
    var highHigh := EmitHighHalf(s, SMULL2v2i64, numerator, multiplier);
    lanes := EmitNarrow(s, lowHigh, highHigh);
  }

  /** The low words of both, side by side; the second narrowing keeps what the first left. */
  method EmitNarrow(s: Selection, low: Reg, high: Reg) returns (lanes: Reg)
    requires s.Valid() && low < s.next && high < s.next
    modifies s
    ensures Extends(s, lanes) && old(s.next) <= lanes < s.next
    ensures s.now(lanes) == Value(XTN2v4i32, Value(XTNv2i32, old(s.now)(low), NONE, NONE), old(s.now)(high), NONE)
  {
    hide Value, Run;
    var lowLanes := s.Temporary(XTNv2i32, [low]);
    lanes := s.Temporary(XTN2v4i32, [lowLanes, high]);
  }

  function RoundedLanes(h: Quad, shift: nat): Quad {
    Quad(Rounded(h.w0, shift), Rounded(h.w1, shift), Rounded(h.w2, shift), Rounded(h.w3, shift))
  }

  function CorrectedLanes(h: Quad, a: Quad, strategy: Strategy): Quad {
    Quad(Corrected(h.w0, a.w0, strategy), Corrected(h.w1, a.w1, strategy),
         Corrected(h.w2, a.w2, strategy), Corrected(h.w3, a.w3, strategy))
  }

  lemma LanesOfChain(h: Quad, shifted: Quad, a: Quad, shift: nat)
    ensures Value(ADDv4i32, h, a, NONE) == CorrectedLanes(h, a, MultiplyAddShift)
    ensures shifted == (if shift == 0 then h else Value(SSHRiv4i32(shift), h, NONE, NONE)) ==>
            Value(ADDv4i32, shifted, Value(USHRiv4i32(31), shifted, NONE, NONE), NONE) == RoundedLanes(h, shift)
  {
    hide U32, S32, Shifted, ShiftedUnsigned;
  }

  /** Every lane of the destination is the truncated remainder of the numerator's lane.  A
      positive divisor never needs the subtracting strategy, so the emitter declines exactly the
      divisors below two and the powers of two. */
  method EmitRemainder(s: Selection, destination: Reg, numerator: Reg, divisor: Int32) returns (emitted: bool)
    requires s.Valid() && numerator < s.next && destination < s.next
    modifies s
    ensures emitted <==> divisor > 1 && !exists k: nat :: divisor == Pow2(k)
    ensures Extends(s, destination)
    ensures !emitted ==> s.code == old(s.code) && s.next == old(s.next)
    ensures emitted ==> forall i: nat :: i < 4 ==>
              Lane(s.now(destination), i) == U32(TruncRem(S32(Lane(old(s.now)(numerator), i)), divisor))
  {
    hide Value, Run, HighLane, Rounded, Corrected, U32, S32, TruncRem, TruncDiv, Pow2, And, Ctz, Enough, Signed;
    var info := AnalyzeSignedDivisor(divisor);
    if divisor > 1 { PowerOfTwoExactly(divisor); }
    if divisor <= 1 || !info.UsesMagic() {
      return false;
    }
    var magic, m := ComputeSignedMagic(divisor);
    if magic.strategy == MultiplySubShift {
      return false;
    }
    ghost var a := s.now(numerator);
    var multiplier := s.Temporary(SPLAT(magic.multiplier), []);
    SplatLanes(magic.multiplier);
    var quotient := EmitQuotient(s, numerator, multiplier, magic);
    var modulus := s.Temporary(SPLAT(divisor), []);
    SplatLanes(divisor);
    assert divisor >= 3 by { NotTwo(divisor); }
    RemainderLanes(a, m, magic, divisor, s.now(multiplier), s.now(quotient), s.now(modulus));
    s.Emit(MLSv4i32, destination, [numerator, quotient, modulus]);
    emitted := true;
  }

  lemma NotTwo(divisor: Int32)
    requires divisor > 1 && AnalyzeSignedDivisor(divisor).UsesMagic()
    ensures divisor >= 3
  {
    assert And(2, 1) == 0;
  }

  lemma SplatLanes(value: int)
    ensures forall a, b, c :: Value(SPLAT(value), a, b, c) == Quad(U32(value), U32(value), U32(value), U32(value))
  {
  }

  method EmitQuotient(s: Selection, numerator: Reg, multiplier: Reg, magic: MagicNumber) returns (quotient: Reg)
    requires s.Valid() && numerator < s.next && multiplier < s.next && magic.shift <= 31
    modifies s
    ensures Extends(s, quotient) && old(s.next) <= quotient < s.next
    ensures var a, b := old(s.now)(numerator), old(s.now)(multiplier);
            s.now(quotient) == RoundedLanes(CorrectedLanes(HighQuad(a, b), a, magic.strategy), magic.shift)
  {
    hide Value, Run, HighQuad, Rounded, RoundedLanes;
    ghost var a, b := s.now(numerator), s.now(multiplier);
    quotient := EmitProductHigh(s, numerator, multiplier);
    ghost var high := HighQuad(a, b);
    if magic.strategy == MultiplyAddShift {
      LanesOfChain(high, high, a, 0);
      quotient := s.Temporary(ADDv4i32, [quotient, numerator]);
    }
    assert s.now(quotient) == CorrectedLanes(high, a, magic.strategy);
    quotient := EmitRounding(s, quotient, magic.shift);
  }

  method EmitRounding(s: Selection, high: Reg, shift: nat) returns (quotient: Reg)
    requires s.Valid() && high < s.next && shift <= 31
    modifies s
    ensures Extends(s, quotient) && old(s.next) <= quotient < s.next
    ensures s.now(quotient) == RoundedLanes(old(s.now)(high), shift)
  {
    hide Value, Run, RoundedLanes;
    ghost var h := s.now(high);
    var shifted := high;
    if shift != 0 {
      shifted := s.Temporary(SSHRiv4i32(shift), [high]);
    }
    LanesOfChain(h, s.now(shifted), h, shift);
    var sign := s.Temporary(USHRiv4i32(31), [shifted]);
    quotient := s.Temporary(ADDv4i32, [shifted, sign]);
  }

  lemma RemainderLanes(a: Quad, m: nat, magic: MagicNumber, divisor: Int32, multiplier: Quad, q: Quad, modulus: Quad)
    requires divisor >= 3 && Reciprocal(divisor, m, magic.shift) && Signed(magic.multiplier, divisor, m)
    requires magic.strategy == StrategyFor(divisor, m)
    requires multiplier == Quad(U32(magic.multiplier), U32(magic.multiplier), U32(magic.multiplier),
                                U32(magic.multiplier))
    requires modulus == Quad(U32(divisor), U32(divisor), U32(divisor), U32(divisor))
    requires q == RoundedLanes(CorrectedLanes(HighQuad(a, multiplier), a, magic.strategy), magic.shift)
    ensures forall i: nat :: i < 4 ==>
              Lane(Value(MLSv4i32, a, q, modulus), i) == U32(TruncRem(S32(Lane(a, i)), divisor))
  {
    hide U32, S32, HighLane, Rounded, Corrected, Reciprocal, Signed, TruncRem, TruncDiv;
    forall i: nat | i < 4
      ensures Lane(Value(MLSv4i32, a, q, modulus), i) == U32(TruncRem(S32(Lane(a, i)), divisor))
    {
      LaneQuotient(Lane(a, i), m, magic, divisor);
      LaneRemainder(Lane(a, i), Lane(q, i), divisor);
    }
  }
}
