/** Selection of division and remainder by a constant. */
module ConstantSelection {
  import opened Bits
  import opened Words
  import opened MagicNumbers
  import opened WordMachine

  // Shifts

  lemma SignBit(a: nat)
    ensures U32(a) / Pow2(31) == if S32(a) < 0 then 1 else 0
    ensures U32(S32(a) / Pow2(31)) == if S32(a) < 0 then B32 - 1 else 0
  {
    Pow2Values();
  }

  lemma AllOnesAbove(high: nat, low: nat)
    requires low > 0 && high * low == B32
    ensures (B32 - 1) / low == high - 1
  {
    assert (high - 1) * low == high * low - low;
    QuotientIs(B32 - 1, low, high - 1);
  }

  lemma BiasMask(k: nat)
    requires 1 <= k <= 31
    ensures (B32 - 1) / Pow2(32 - k) == Pow2(k) - 1
  {
    Pow2Values();
    Pow2Add(k, 32 - k);
    AllOnesAbove(Pow2(k), Pow2(32 - k));
  }

  function Biased(n: int, k: nat): int {
    n + if n < 0 then Pow2(k) - 1 else 0
  }

  /** Biasing a negative numerator makes the arithmetic shift round towards zero. */
  lemma ShiftTruncates(n: int, k: nat)
    ensures Biased(n, k) / Pow2(k) == TruncDiv(n, Pow2(k))
  {
    var d := Pow2(k);
    if n < 0 {
      var q, r := (-n) / d, (-n) % d;
      assert -n == q * d + r;
      assert n + d - 1 == (-q) * d + (d - 1 - r);
      RemainderIs(n + d - 1, d, -q, d - 1 - r);
    }
  }

  lemma HalfAtMost(a: nat, b: nat)
    requires a <= B31 && b >= 2
    ensures a / b <= 0x4000_0000
  {
    assert a == (a / b) * b + a % b;
    MulOrder(2, b, a / b);
  }

  /** Every quotient by a magnitude of two or more has room to spare. */
  lemma QuotientFits(n: Int32, d: Int32)
    requires Abs(d) >= 2
    ensures -0x4000_0000 <= TruncDiv(n, d) <= 0x4000_0000
  {
    HalfAtMost(Abs(n), Abs(d));
  }

  lemma BiasAdded(a: nat, k: nat)
    requires 1 <= k <= 31
    ensures k == 1 ==> U32(a + U32(a) / Pow2(31)) == U32(Biased(S32(a), k))
    ensures U32(a + U32(U32(S32(a) / Pow2(31))) / Pow2(32 - k)) == U32(Biased(S32(a), k))
  {
    hide U32, S32;
    SignBit(a);
    BiasMask(k);
    Pow2Values();
    U32Idempotent(S32(a) / Pow2(31));
    var bias := if S32(a) < 0 then Pow2(k) - 1 else 0;
    SignedWord(a, bias);
    assert 0 / Pow2(32 - k) == 0;
  }

  lemma BiasSelected(a: nat, k: nat, f: Flags)
    requires 1 <= k <= 31
    ensures k == 1 ==> Value(ADDWrs(31), a, a, 0, f) == U32(Biased(S32(a), k))
    ensures var sign := Value(ASRWri(31), a, 0, 0, f); var bias := Value(LSRWri(32 - k), sign, 0, 0, f);
      Value(ADDWrr, a, bias, 0, f) == U32(Biased(S32(a), k))
  {
    hide U32, S32, Biased, Pow2;
    BiasAdded(a, k);
    var sign, bias := U32(S32(a) / Pow2(31)), U32(U32(S32(a) / Pow2(31))) / Pow2(32 - k);
    assert Value(ASRWri(31), a, 0, 0, f) == sign;
    assert Value(LSRWri(32 - k), sign, 0, 0, f) == bias;
  }

  lemma BiasedQuotient(n: Int32, k: nat)
    requires 1 <= k <= 30
    ensures var biased := Biased(n, k);
      && -B31 <= biased < B31
      && biased / Pow2(k) == TruncDiv(n, Pow2(k))
      && -0x4000_0000 <= TruncDiv(n, Pow2(k)) <= 0x4000_0000
  {
    ShiftTruncates(n, k);
    Pow2Values();
    Pow2Monotone(1, k);
    Pow2Monotone(k, 31);
    QuotientFits(n, Pow2(k));
  }

  lemma NegatedDivisor(n: int, d: int)
    requires d > 0
    ensures TruncDiv(n, -d) == -TruncDiv(n, d)
  {
  }

  // The magic sequences

  /** Adding the sign bit turns the floored quotient into the truncated one. */
  lemma AddSign(divisor: Int32, n: Int32, f: int)
    requires Abs(divisor) >= 3 && f == Floored(divisor, n)
    ensures S32(f) == f && S64(f) == f
    ensures U32(f + U32(f) / Pow2(31)) == U32(TruncDiv(n, divisor))
  {
    QuotientFits(n, divisor);
    SignOfQuotient(n, divisor);
    RoundUp(f);
  }

  lemma SignOfQuotient(n: int, d: int)
    requires d != 0
    ensures (n < 0) == (d < 0) ==> TruncDiv(n, d) >= 0
    ensures (n < 0) != (d < 0) ==> TruncDiv(n, d) <= 0
    ensures n == 0 ==> TruncDiv(n, d) == 0
  {
  }

  lemma RoundUp(f: int)
    requires -B31 <= f < B31
    ensures S32(f) == f && S64(f) == f
    ensures U32(f + U32(f) / Pow2(31)) == U32(if f < 0 then f + 1 else f)
  {
    S32Of(f);
    S64Of(f);
    SignBit(U32(f));
    SignedWord(f, 0);
    assert S32(U32(f)) == f;
    U32Idempotent(f);
    hide U32, S32, Pow2;
  }

  lemma ProductFits(a: Int32, b: Int32)
    ensures -0x4000_0000_0000_0000 <= a * b <= 0x4000_0000_0000_0000
    ensures S64(U64(a * b)) == a * b
  {
    MulOrder(Abs(a), B31, Abs(b));
    assert Abs(a) * Abs(b) <= B31 * B31;
    assert a * b == Abs(a) * Abs(b) || a * b == -(Abs(a) * Abs(b));
  }

  /** The high word of the product, corrected by the numerator, is the high word of the
      product with the unsigned multiplier. */
  lemma HighWord(n: Int32, m: nat, s: nat)
    requires m < B32
    ensures (n * (m - B32)) / B32 + n == n * m / B32
    ensures (-(n * (m - B32))) / B32 - n == (-(n * m)) / B32
    ensures -B31 <= n * m / B32 < B31 && -B31 <= (-(n * m)) / B32 < B31
    ensures n * m / B32 / Pow2(s) == n * m / Pow2(32 + s)
    ensures (-(n * m)) / B32 / Pow2(s) == (-(n * m)) / Pow2(32 + s)
  {
    assert n * (m - B32) == n * m - n * B32;
    Pow2Values();
    Pow2Add(32, s);
    DivDiv(n * m, B32, Pow2(s));
    DivDiv(-(n * m), B32, Pow2(s));
    MulOrder(Abs(n), B31, m);
    assert Abs(n) * m <= B31 * m;
    assert n * m == Abs(n) * m || n * m == -(Abs(n) * m);
  }

  // What the sequences leave in the destination

  lemma PowerSelected(n: Int32, k: nat, f: Flags)
    requires 1 <= k <= 30
    ensures var q := Value(ASRWri(k), U32(Biased(n, k)), 0, 0, f);
      q == U32(TruncDiv(n, Pow2(k))) && Value(NEGW, q, 0, 0, f) == U32(-TruncDiv(n, Pow2(k)))
  {
    hide U32, S32, TruncDiv, Pow2, Biased;
    BiasedQuotient(n, k);
    S32Of(Biased(n, k));
    var q := TruncDiv(n, Pow2(k));
    SignedWord(U32(q), 0);
    NegatedWord(q);
  }

  lemma UnitSelected(a: nat, f: Flags)
    ensures U32(Value(COPY, a, 0, 0, f)) == U32(TruncDiv(S32(a), 1))
    ensures U32(Value(NEGW, a, 0, 0, f)) == U32(TruncDiv(S32(a), -1))
  {
    SignedWord(a, 0);
    NegatedWord(a);
    U32Idempotent(0 - a);
    var n := S32(a);
    assert TruncDiv(n, 1) == n && TruncDiv(n, -1) == -n;
  }

  /** The scaled product is the floored quotient, read from the multiplier as a signed word. */
  lemma ShiftSelected(divisor: Int32, m: nat, magic: MagicNumber, a: nat, f: Flags)
    requires Abs(divisor) >= 3 && divisor != -0x8000_0000 && Reciprocal(divisor, m, magic.shift) && m < B31
    requires Signed(magic.multiplier, divisor, m)
    ensures var product := Value(SMULLXrr, a, Value(MOVi32(magic.multiplier), 0, 0, 0, f), 0, f);
      var shifted := Value(ASRXri(32 + magic.shift), product, 0, 0, f);
      Value(ADDWrsX(31), shifted, shifted, 0, f) == U32(TruncDiv(S32(a), divisor))
  {
    hide U32, S32, U64, S64, Pow2, Reciprocal, TruncDiv;
    var n := S32(a);
    S32Of(magic.multiplier);
    S32Of(m);
    ProductFits(n, magic.multiplier);
    MagicDivides(divisor, m, magic.shift, n);
    assert n * magic.multiplier == if divisor < 0 then -(n * m) else n * m;
    AddSign(divisor, n, Floored(divisor, n));
    LowWords(Floored(divisor, n));
  }

  /** A multiplier that reads as negative is short by 2^32 numerators, which the addition or
      subtraction of the numerator restores before the remaining shift. */
  lemma CorrectedQuotient(divisor: Int32, m: nat, magic: MagicNumber, n: Int32)
    requires Abs(divisor) >= 3 && divisor != -0x8000_0000 && Reciprocal(divisor, m, magic.shift) && m >= B31
    requires Signed(magic.multiplier, divisor, m)
    ensures var high := n * magic.multiplier / B32;
      var h := if divisor < 0 then high - n else high + n;
      && -B31 <= h < B31
      && h / Pow2(magic.shift) == Floored(divisor, n)
      && (magic.shift == 0 ==> h == Floored(divisor, n))
  {
    NotMinimum(divisor, m, magic.shift);
    HighReading(m);
    hide S32, Pow2, Reciprocal, TruncDiv, Floored, Abs;
    HighWord(n, m, magic.shift);
    MagicDivides(divisor, m, magic.shift, n);
    Pow2Values();
    ProductRead(n, magic.multiplier, m, divisor < 0);
  }

  lemma ProductRead(n: int, multiplier: int, m: int, negative: bool)
    requires multiplier == if negative then B32 - m else m - B32
    ensures n * multiplier == if negative then -(n * (m - B32)) else n * (m - B32)
  {
    if negative {
      assert n * (B32 - m) == -(n * (m - B32));
    }
  }

  lemma CorrectedSelected(divisor: Int32, m: nat, magic: MagicNumber, a: nat, f: Flags)
    requires Abs(divisor) >= 3 && divisor != -0x8000_0000 && Reciprocal(divisor, m, magic.shift) && m >= B31
    requires Signed(magic.multiplier, divisor, m)
    ensures var product := Value(SMULLXrr, a, Value(MOVi32(magic.multiplier), 0, 0, 0, f), 0, f);
      var high := Value(COPYXtoW, Value(ASRXri(32), product, 0, 0, f), 0, 0, f);
      var corrected := Value(if divisor > 0 then ADDWrr else SUBWrr, high, a, 0, f);
      var shifted := if magic.shift == 0 then corrected else Value(ASRWri(magic.shift), corrected, 0, 0, f);
      Value(ADDWrs(31), shifted, shifted, 0, f) == U32(TruncDiv(S32(a), divisor))
  {
    hide U32, S32, U64, S64, Pow2, Reciprocal, TruncDiv, Floored;
    var n := S32(a);
    S32Of(magic.multiplier);
    ProductFits(n, magic.multiplier);
    assert Pow2(32) == B32 by { Pow2Values(); }
    CorrectedQuotient(divisor, m, magic, n);
    var high := n * magic.multiplier / B32;
    Corrected(high, a, divisor);
    var h := if divisor < 0 then high - n else high + n;
    S32Of(h);
    var q := Floored(divisor, n);
    AddSign(divisor, n, q);
    SignedWord(q, U32(q) / Pow2(31));
    U32Idempotent(q);
  }

  lemma HighReading(m: nat)
    requires B31 <= m < B32
    ensures S32(m) == m - B32
  {
  }

  /** The low word of the high half, with the numerator added or taken away. */
  lemma Corrected(high: int, a: nat, divisor: Int32)
    ensures divisor > 0 ==> U32(U32(U64(high)) + a) == U32(high + S32(a))
    ensures divisor < 0 ==> U32(U32(U64(high)) - a) == U32(high - S32(a))
  {
    LowWord(high);
    SignedWord(high, a);
    SignedWord(a, high);
    var j := U32Split(high);
    var k := U32Split(a);
    U32Shift(high - S32(a), -j - k);
    U32Shift(high - S32(a), -j - k - 1);
  }

  /** A double word adds as its low word. */
  lemma LowWords(x: int)
    ensures U32(U64(x) + U32(U64(x)) / Pow2(31)) == U32(x + U32(x) / Pow2(31))
  {
    LowWord(x);
    var y := U32(x) / Pow2(31);
    SignedWord(U64(x), y);
    SignedWord(x, y);
  }

  // Selection

  /** Everything the emitters owe the code around them: what was selected stays, and no
      register in use changes but the destination. */
  twostate predicate Extends(s: Selection, dst: Reg)
    reads s
  {
    && s.Valid() && old(s.next) <= s.next
    && old(s.code) <= s.code
    && (forall r: Reg :: r != dst && r < old(s.next) ==> s.now.regs(r) == old(s.now).regs(r))
  }

  /** So many multiplications and divisions were selected, and at most so many instructions. */
  twostate predicate Costs(s: Selection, multiplies: nat, divides: nat, most: nat)
    reads s
  {
    && s.multiplies == old(s.multiplies) + multiplies && s.divides == old(s.divides) + divides
    && |s.code| <= |old(s.code)| + most
  }

  /** The sign of a negative numerator, then one less than the divisor where it is set. */
  method EmitBias(s: Selection, numerator: Reg, shift: nat) returns (adjusted: Reg)
    requires s.Valid() && numerator < s.next && 1 <= shift <= 30
    modifies s
    ensures Extends(s, adjusted) && s.encodable == old(s.encodable) && s.now.flags == old(s.now).flags
    ensures old(s.next) <= adjusted < s.next
    ensures s.now.regs(adjusted) == U32(Biased(S32(old(s.now).regs(numerator)), shift))
    ensures Costs(s, 0, 0, 3)
  {
    hide Selection.Valid, Value, Run, Biased;
    ghost var a, f := s.now.regs(numerator), s.now.flags;
    BiasSelected(a, shift, f);
    if shift == 1 {
      adjusted := s.Temporary(ADDWrs(31), [numerator, numerator]);
    } else {
      var sign := s.Temporary(ASRWri(31), [numerator]);
      var bias := s.Temporary(LSRWri(32 - shift), [sign]);
      adjusted := s.Temporary(ADDWrr, [numerator, bias]);
    }
  }

  /** Division of a 32-bit numerator by a known divisor. */
  method EmitDivision(s: Selection, destination: Reg, numerator: Reg, divisor: Int32) returns (ok: bool)
    requires s.Valid() && numerator < s.next && destination < s.next
    modifies s
    ensures ok <==> divisor != 0 && divisor != -0x8000_0000
    ensures Extends(s, destination) && s.encodable == old(s.encodable)
    ensures !ok ==> s.code == old(s.code) && s.now == old(s.now) && Costs(s, 0, 0, 0)
    ensures ok ==> U32(s.now.regs(destination)) == U32(TruncDiv(S32(old(s.now).regs(numerator)), divisor))
    ensures ok ==> Costs(s, if IsPower(Abs(divisor)) then 0 else 1, 0, 7)
  {
    hide Selection.Valid, Value, Run, U32, S32, TruncDiv, Pow2, And, Ctz, IsPower;
    var info := AnalyzeSignedDivisor(divisor);
    if !info.reducible {
      return false;
    }
    ok := true;
    PowerOfTwoExactly(divisor);
    Magnitudes(divisor);
    ghost var a, f := s.now.regs(numerator), s.now.flags;
    if divisor == 1 {
      UnitSelected(a, f);
      s.Emit(COPY, destination, [numerator]);
    } else if divisor == -1 {
      UnitSelected(a, f);
      s.Emit(NEGW, destination, [numerator]);
    } else if info.powerOfTwo {
      EmitPowerOfTwo(s, destination, numerator, divisor, info.shift);
    } else {
      EmitMagic(s, destination, numerator, divisor);
    }
  }

  ghost predicate IsPower(w: nat) {
    exists k: nat :: w == Pow2(k)
  }

  lemma Magnitudes(divisor: Int32)
    ensures var info := AnalyzeSignedDivisor(divisor);
      divisor != 0 && divisor != -0x8000_0000 ==>
        info.magnitude == Abs(divisor) && (info.powerOfTwo <==> IsPower(Abs(divisor)))
    ensures IsPower(1) && !IsPower(0)
  {
    assert Pow2(0) == 1;
    if divisor != 0 && divisor != -0x8000_0000 {
      PowerOfTwoExactly(divisor);
      hide Pow2, And, Ctz;
      var info := AnalyzeSignedDivisor(divisor);
      assert info.magnitude == Abs(divisor);
      if info.powerOfTwo {
        var n: nat :| info.magnitude == Pow2(n);
        assert Abs(divisor) == Pow2(n);
      } else {
        forall k: nat ensures Abs(divisor) != Pow2(k) {
          assert info.magnitude != Pow2(k);
        }
      }
    }
  }

  method EmitPowerOfTwo(s: Selection, destination: Reg, numerator: Reg, divisor: Int32, shift: nat)
    requires s.Valid() && numerator < s.next && destination < s.next
    requires 1 <= shift <= 30 && Abs(divisor) == Pow2(shift)
    modifies s
    ensures Extends(s, destination) && s.encodable == old(s.encodable)
    ensures U32(s.now.regs(destination)) == U32(TruncDiv(S32(old(s.now).regs(numerator)), divisor))
    ensures Costs(s, 0, 0, 5)
  {
    hide Selection.Valid, Value, Run, Biased, U32, S32, TruncDiv, Pow2;
    ghost var n := S32(s.now.regs(numerator));
    PowerSelected(n, shift, s.now.flags);
    NegatedDivisor(n, Pow2(shift));
    var adjusted := EmitBias(s, numerator, shift);
    if divisor < 0 {
      var quotient := s.Temporary(ASRWri(shift), [adjusted]);
      s.Emit(NEGW, destination, [quotient]);
    } else {
      s.Emit(ASRWri(shift), destination, [adjusted]);
    }
    U32Idempotent(TruncDiv(n, divisor));
  }

  method EmitMagic(s: Selection, destination: Reg, numerator: Reg, divisor: Int32)
    requires s.Valid() && numerator < s.next && destination < s.next
    requires AnalyzeSignedDivisor(divisor).UsesMagic()
    modifies s
    ensures Extends(s, destination) && s.encodable == old(s.encodable)
    ensures U32(s.now.regs(destination)) == U32(TruncDiv(S32(old(s.now).regs(numerator)), divisor))
    ensures Costs(s, 1, 0, 7)
  {
    hide Selection.Valid, Value, Run, U32, S32, TruncDiv, Pow2, And, Ctz, Enough, Excess, Signed;
    NeverExact(divisor, 0);
    var magic, m := ComputeSignedMagic(divisor);
    var multiplier := s.Temporary(MOVi32(magic.multiplier), []);
    var product := s.Temporary(SMULLXrr, [numerator, multiplier]);
    if magic.strategy == MultiplyShift {
      EmitShift(s, destination, numerator, product, divisor, magic, m);
    } else {
      EmitCorrected(s, destination, numerator, product, divisor, magic, m);
    }
  }

  ghost predicate ProductOf(s: Selection, product: Reg, numerator: Reg, magic: MagicNumber)
    reads s
  {
    var f := s.now.flags;
    s.now.regs(product) ==
      Value(SMULLXrr, s.now.regs(numerator), Value(MOVi32(magic.multiplier), 0, 0, 0, f), 0, f)
  }

  method EmitShift(s: Selection, destination: Reg, numerator: Reg, product: Reg, divisor: Int32,
                   magic: MagicNumber, ghost m: nat)
    requires s.Valid() && numerator < s.next && destination < s.next && product < s.next
    requires Abs(divisor) >= 3 && divisor != -0x8000_0000 && Reciprocal(divisor, m, magic.shift) && m < B31
    requires Signed(magic.multiplier, divisor, m) && ProductOf(s, product, numerator, magic)
    modifies s
    ensures Extends(s, destination) && s.encodable == old(s.encodable)
    ensures U32(s.now.regs(destination)) == U32(TruncDiv(S32(old(s.now).regs(numerator)), divisor))
    ensures Costs(s, 0, 0, 2)
  {
    hide Selection.Valid, Value, Run, U32, S32, TruncDiv, Pow2, Enough;
    ghost var a := s.now.regs(numerator);
    ShiftSelected(divisor, m, magic, a, s.now.flags);
    U32Idempotent(TruncDiv(S32(a), divisor));
    var shifted := s.Temporary(ASRXri(32 + magic.shift), [product]);
    s.Emit(ADDWrsX(31), destination, [shifted, shifted]);
  }

  method EmitCorrected(s: Selection, destination: Reg, numerator: Reg, product: Reg, divisor: Int32,
                       magic: MagicNumber, ghost m: nat)
    requires s.Valid() && numerator < s.next && destination < s.next && product < s.next
    requires Abs(divisor) >= 3 && divisor != -0x8000_0000 && Reciprocal(divisor, m, magic.shift) && m >= B31
    requires Signed(magic.multiplier, divisor, m) && ProductOf(s, product, numerator, magic)
    requires magic.strategy == StrategyFor(divisor, m)
    modifies s
    ensures Extends(s, destination) && s.encodable == old(s.encodable)
    ensures U32(s.now.regs(destination)) == U32(TruncDiv(S32(old(s.now).regs(numerator)), divisor))
    ensures Costs(s, 0, 0, 5)
  {
    hide Selection.Valid, Value, Run, U32, S32, TruncDiv, Pow2, Enough;
    ghost var a := s.now.regs(numerator);
    CorrectedSelected(divisor, m, magic, a, s.now.flags);
    U32Idempotent(TruncDiv(S32(a), divisor));
    var high := EmitHigh(s, numerator, product, magic.strategy);
    EmitRounded(s, destination, high, magic.shift);
  }

  method EmitHighWord(s: Selection, product: Reg) returns (word: Reg)
    requires s.Valid() && product < s.next
    modifies s
    ensures Extends(s, word) && s.encodable == old(s.encodable) && s.now.flags == old(s.now).flags
    ensures old(s.next) <= word < s.next
    ensures var m, f := old(s.now), old(s.now).flags;
      s.now.regs(word) == Value(COPYXtoW, Value(ASRXri(32), m.regs(product), 0, 0, f), 0, 0, f)
    ensures Costs(s, 0, 0, 2)
  {
    hide Selection.Valid, Value, Run;
    var highX := s.Temporary(ASRXri(32), [product]);
    word := s.Temporary(COPYXtoW, [highX]);
  }

  method EmitHigh(s: Selection, numerator: Reg, product: Reg, strategy: Strategy) returns (high: Reg)
    requires s.Valid() && numerator < s.next && product < s.next
    modifies s
    ensures Extends(s, high) && s.encodable == old(s.encodable) && s.now.flags == old(s.now).flags
    ensures old(s.next) <= high < s.next
    ensures var m, f := old(s.now), old(s.now).flags;
      var word := Value(COPYXtoW, Value(ASRXri(32), m.regs(product), 0, 0, f), 0, 0, f);
      s.now.regs(high) ==
        Value(if strategy == MultiplyAddShift then ADDWrr else SUBWrr, word, m.regs(numerator), 0, f)
    ensures Costs(s, 0, 0, 3)
  {
    hide Selection.Valid, Value, Run;
    var word := EmitHighWord(s, product);
    if strategy == MultiplyAddShift {
      high := s.Temporary(ADDWrr, [word, numerator]);
    } else {
      high := s.Temporary(SUBWrr, [word, numerator]);
    }
  }

  /** The remaining shift, if any, and the sign bit. */
  method EmitRounded(s: Selection, destination: Reg, high: Reg, shift: nat)
    requires s.Valid() && destination < s.next && high < s.next && shift <= 31
    modifies s
    ensures Extends(s, destination) && s.encodable == old(s.encodable)
    ensures var m, f := old(s.now), old(s.now).flags;
      var shifted := if shift == 0 then m.regs(high) else Value(ASRWri(shift), m.regs(high), 0, 0, f);
      s.now.regs(destination) == Value(ADDWrs(31), shifted, shifted, 0, f)
    ensures Costs(s, 0, 0, 2)
  {
    hide Selection.Valid, Value, Run;
    var shifted := high;
    if shift != 0 {
      shifted := s.Temporary(ASRWri(shift), [high]);
    }
    s.Emit(ADDWrs(31), destination, [shifted, shifted]);
  }
}
