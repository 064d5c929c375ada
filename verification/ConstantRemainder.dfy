/** Selection of the remainder by a constant, of one numerator and of a product. */
module ConstantRemainder {
  import opened Bits
  import opened Words
  import opened MagicNumbers
  import opened WordMachine
  import LogicalImmediate
  import opened ConstantSelection

  // The 32-bit remainder

  /** Masking the magnitude and giving it back the numerator's sign. */
  lemma MaskedRemainder(a: nat, k: nat, d: Int32)
    requires 1 <= k <= 30 && Abs(d) == Pow2(k)
    ensures var f := Compare32(a, 0);
      var magnitude := if k == 1 then a else Value(CNEGW(MI), a, 0, 0, f);
      var masked := Value(ANDWri(Pow2(k) - 1), magnitude, 0, 0, f);
      Value(CNEGW(MI), masked, 0, 0, f) == U32(TruncRem(S32(a), d))
  {
    hide Pow2, And, TruncRem;
    ConditionsCompare(a, 0);
    RemainderSign(S32(a), d);
    var f := Compare32(a, 0);
    var magnitude := if k == 1 then a else Value(CNEGW(MI), a, 0, 0, f);
    MaskIsRemainder(U32(magnitude), k);
    Magnitude(a);
    U32Idempotent(0 - a);
    U32Idempotent(a);
    if k == 1 {
      Pow2Values();
      SameParity(a);
    }
    hide U32, S32;
  }

  lemma SameParity(a: nat)
    ensures U32(a) % 2 == Abs(S32(a)) % 2
  {
  }

  /** Negating where the sign is set leaves the magnitude, of the least word too. */
  lemma Magnitude(a: nat)
    ensures (if S32(a) < 0 then U32(0 - a) else U32(a)) == Abs(S32(a))
  {
    NegatedWord(a);
  }

  lemma MulSubSelected(q: nat, rhs: nat, a: nat, quotient: int, d: int, f: Flags)
    requires U32(q) == U32(quotient) && U32(rhs) == U32(d)
    ensures Value(MSUBWrrr, q, rhs, a, f) == U32(S32(a) - quotient * d)
  {
    SignedWord(a, 0);
    U32MulSub(q, rhs, a, quotient, d, S32(a));
  }

  lemma QuotientSelected(a: nat, rhs: nat, d: Int32, f: Flags)
    requires U32(rhs) == U32(d)
    ensures Value(SDIVWrr, a, rhs, 0, f) == U32(SignedQuotient(S32(a), d))
  {
    S32Of(d);
  }

  /** The remainder of a 32-bit numerator by a known divisor, which is also in a register. A
      zero divisor leaves the numerator, as the division instruction answers zero. */
  method EmitRemainder(s: Selection, destination: Reg, numerator: Reg, rhs: Reg, divisor: Int32)
    requires s.Valid() && numerator < s.next && destination < s.next && rhs < s.next
    requires U32(s.now.regs(rhs)) == U32(divisor)
    modifies s
    ensures Extends(s, destination) && s.encodable == old(s.encodable)
    ensures U32(s.now.regs(destination)) ==
      U32(if divisor == 0 then S32(old(s.now).regs(numerator)) else TruncRem(S32(old(s.now).regs(numerator)), divisor))
    ensures divisor != -0x8000_0000 && IsPower(Abs(divisor)) ==> Costs(s, 0, 0, 4)
    ensures s.divides == old(s.divides) + (if divisor == 0 || divisor == -0x8000_0000 then 1 else 0)
    ensures s.multiplies <= old(s.multiplies) + 2 && |s.code| <= |old(s.code)| + 8
  {
    hide Selection.Valid, Value, Run, U32, S32, TruncRem, Pow2, And, Ctz, IsPower;
    var info := AnalyzeSignedDivisor(divisor);
    ghost var n := S32(s.now.regs(numerator));
    if divisor != 0 && divisor != -0x8000_0000 { PowerOfTwoExactly(divisor); }
    Magnitudes(divisor);
    if info.reducible && info.magnitude == 1 {
      UnitRemainder(n, divisor, s.now.flags);
      s.Emit(MOVi32(0), destination, []);
    } else if info.reducible && info.powerOfTwo {
      EmitMasked(s, destination, numerator, divisor, info.shift, info.magnitude);
    } else {
      EmitDivided(s, destination, numerator, rhs, divisor);
    }
  }

  lemma UnitRemainder(n: int, d: int, f: Flags)
    requires d == 1 || d == -1
    ensures U32(Value(MOVi32(0), 0, 0, 0, f)) == U32(TruncRem(n, d))
  {
    assert n / 1 == n && (-n) / 1 == -n;
  }

  method EmitMasked(s: Selection, destination: Reg, numerator: Reg, divisor: Int32, shift: nat, magnitude: nat)
    requires s.Valid() && numerator < s.next && destination < s.next
    requires 1 <= shift <= 30 && Abs(divisor) == Pow2(shift) == magnitude
    modifies s
    ensures Extends(s, destination) && s.encodable == old(s.encodable)
    ensures U32(s.now.regs(destination)) == U32(TruncRem(S32(old(s.now).regs(numerator)), divisor))
    ensures Costs(s, 0, 0, 4)
  {
    hide Selection.Valid, Value, Run, U32, S32, TruncRem, Pow2, Compare32, Encodable;
    ghost var a := s.now.regs(numerator);
    MaskedRemainder(a, shift, divisor);
    U32Idempotent(TruncRem(S32(a), divisor));
    var absolute := EmitAbsolute(s, numerator, shift);
    EmitMaskedSign(s, destination, absolute, shift, magnitude);
  }

  /** Compares with zero and takes the magnitude, which a mask of one bit does not need. */
  method EmitAbsolute(s: Selection, numerator: Reg, shift: nat) returns (absolute: Reg)
    requires s.Valid() && numerator < s.next
    modifies s
    ensures Extends(s, old(s.next)) && s.encodable == old(s.encodable) && absolute < s.next
    ensures s.now.flags == Compare32(old(s.now).regs(numerator), 0)
    ensures var a := old(s.now).regs(numerator);
      s.now.regs(absolute) == if shift == 1 then a else Value(CNEGW(MI), a, 0, 0, s.now.flags)
    ensures Costs(s, 0, 0, 2)
  {
    hide Selection.Valid, Value, Run, Compare32;
    s.Compare(CMPWri(0), [numerator]);
    absolute := numerator;
    if shift != 1 {
      absolute := s.Temporary(CNEGW(MI), [numerator]);
    }
  }

  method EmitMaskedSign(s: Selection, destination: Reg, absolute: Reg, shift: nat, magnitude: nat)
    requires s.Valid() && absolute < s.next && destination < s.next
    requires 1 <= shift <= 30 && magnitude == Pow2(shift)
    modifies s
    ensures Extends(s, destination) && s.encodable == old(s.encodable)
    ensures var f := s.now.flags;
      s.now.regs(destination) ==
        Value(CNEGW(MI), Value(ANDWri(Pow2(shift) - 1), old(s.now).regs(absolute), 0, 0, f), 0, 0, f)
    ensures s.now.flags == old(s.now).flags
    ensures Costs(s, 0, 0, 2)
  {
    hide Selection.Valid, Value, Run, Pow2;
    MaskEncodable(shift);
    var masked := s.Temporary(ANDWri(magnitude - 1), [absolute]);
    s.Emit(CNEGW(MI), destination, [masked]);
  }

  /** A mask of low ones is a bitmask immediate exactly when it is not empty. */
  lemma MaskEncodable(k: nat)
    requires k <= 30
    ensures Encodable(ANDWri(Pow2(k) - 1)) <==> k > 0
    ensures k > 0 <==> Pow2(k) != 1
  {
    hide LogicalImmediate.Bitmask;
    if k == 0 {
      if LogicalImmediate.Bitmask(0, 32) { LogicalImmediate.BitmaskMixed(0, 32); }
    } else {
      Pow2Monotone(1, k);
      LowMask(k);
    }
  }

  lemma LowMask(k: nat)
    requires 1 <= k < 32
    ensures LogicalImmediate.Bitmask(Pow2(k) - 1, 32)
  {
    hide Pow2, Bit;
    var mask := Pow2(k) - 1;
    forall i: nat | i < 32 ensures Bit(mask, i) <==> LogicalImmediate.Residue(i + 0, 32) < k {
      LogicalImmediate.LowOnesBits(k, i);
    }
    assert LogicalImmediate.Decodes(Pow2(k) - 1, 32, 32, k, 0);
  }

  method EmitDivided(s: Selection, destination: Reg, numerator: Reg, rhs: Reg, divisor: Int32)
    requires s.Valid() && numerator < s.next && destination < s.next && rhs < s.next
    requires U32(s.now.regs(rhs)) == U32(divisor)
    modifies s
    ensures Extends(s, destination) && s.encodable == old(s.encodable)
    ensures U32(s.now.regs(destination)) ==
      U32(if divisor == 0 then S32(old(s.now).regs(numerator)) else TruncRem(S32(old(s.now).regs(numerator)), divisor))
    ensures s.divides == old(s.divides) + (if divisor == 0 || divisor == -0x8000_0000 then 1 else 0)
            && old(s.multiplies) < s.multiplies <= old(s.multiplies) + 2 && |s.code| <= |old(s.code)| + 8
  {
    hide Selection.Valid, Value, Run, U32, S32, TruncDiv;
    ghost var a, b := s.now.regs(numerator), s.now.regs(rhs);
    ghost var quotientValue := SignedQuotient(S32(a), divisor);
    var quotient := s.Fresh();
    EmitQuotient(s, quotient, numerator, rhs, divisor);
    MulSubSelected(s.now.regs(quotient), b, a, quotientValue, divisor, s.now.flags);
    U32Idempotent(S32(a) - quotientValue * divisor);
    s.Emit(MSUBWrrr, destination, [quotient, rhs, numerator]);
  }

  method EmitQuotient(s: Selection, quotient: Reg, numerator: Reg, rhs: Reg, divisor: Int32)
    requires s.Valid() && numerator < s.next && quotient < s.next && rhs < s.next
    requires U32(s.now.regs(rhs)) == U32(divisor)
    modifies s
    ensures Extends(s, quotient) && s.encodable == old(s.encodable)
    ensures U32(s.now.regs(quotient)) == U32(SignedQuotient(S32(old(s.now).regs(numerator)), divisor))
    ensures s.divides == old(s.divides) + (if divisor == 0 || divisor == -0x8000_0000 then 1 else 0)
            && old(s.multiplies) <= s.multiplies <= old(s.multiplies) + 1 && |s.code| <= |old(s.code)| + 7
  {
    hide Selection.Valid, Value, Run, U32, S32, TruncDiv;
    ghost var a := s.now.regs(numerator);
    var reduced := EmitDivision(s, quotient, numerator, divisor);
    if !reduced {
      QuotientSelected(a, s.now.regs(rhs), divisor, s.now.flags);
      U32Idempotent(SignedQuotient(S32(a), divisor));
      s.Emit(SDIVWrr, quotient, [numerator, rhs]);
    }
  }

  // The remainder of a product

  /** The reciprocal of the modulus, scaled to a double word and rounded down. */
  function BarrettFactor(modulus: nat): (mu: nat)
    requires modulus > 1
  {
    B64 / modulus
  }

  /** The high word of the product with the reciprocal is the quotient or one less. */
  lemma QuotientOffByOne(x: nat, m: nat)
    requires x < B64 && m > 1
    ensures var q := x * BarrettFactor(m) / B64;
      x / m - 1 <= q <= x / m && 0 <= x - q * m < 2 * m
  {
    var mu, slack := B64 / m, B64 % m;
    assert mu * m == B64 - slack;
    var q := x * mu / B64;
    assert q * B64 <= x * mu < q * B64 + B64;
    assert x * mu * m == x * B64 - x * slack by {
      assert x * mu * m == x * (mu * m);
      assert x * (B64 - slack) == x * B64 - x * slack;
    }
    NotAbove(x, m, q, mu, slack);
    NotFarBelow(x, m, q, mu, slack);
    NearQuotient(x, m, q);
  }

  lemma NearQuotient(x: nat, m: nat, q: nat)
    requires m > 0 && 0 <= x - q * m < 2 * m
    ensures x / m - 1 <= q <= x / m
  {
    if x - q * m < m {
      QuotientIs(x, m, q);
    } else {
      assert (q + 1) * m == q * m + m;
      QuotientIs(x, m, q + 1);
    }
  }

  lemma NotAbove(x: nat, m: nat, q: nat, mu: nat, slack: nat)
    requires q * B64 <= x * mu && x * mu * m == x * B64 - x * slack
    ensures q * m <= x
  {
    MulOrder(q * B64, x * mu, m);
    assert q * B64 * m == (q * m) * B64;
    assert x * slack >= 0;
  }

  lemma NotFarBelow(x: nat, m: nat, q: nat, mu: nat, slack: nat)
    requires x * mu < q * B64 + B64 && x * mu * m == x * B64 - x * slack
    requires x < B64 && slack < m
    ensures x - q * m < 2 * m
  {
    MulOrder(x * mu + 1, q * B64 + B64, m);
    assert (x * mu + 1) * m == x * mu * m + m;
    assert (q * B64 + B64) * m == (q * m) * B64 + m * B64;
    MulOrder(x, B64, slack);
    assert x * slack <= B64 * slack;
    MulOrder(slack, m, B64);
    assert slack * B64 == B64 * slack;
  }

  predicate Product(w: nat, p: int) {
    w == U64(p) && -0x4000_0000_0000_0000 <= p <= 0x4000_0000_0000_0000
  }

  lemma ProductReads(w: nat, p: int)
    requires Product(w, p)
    ensures S64(w) == p && w < B64 && (w >= B63 <==> p < 0) && w == if p < 0 then p + B64 else p
  {
  }

  lemma AbsoluteSelected(w: nat, p: int)
    requires Product(w, p)
    ensures Value(CSELX(LT), Value(NEGX, w, 0, 0, Compare64(w, 0)), w, 0, Compare64(w, 0)) == Abs(p)
  {
    ProductReads(w, p);
    ConditionsCompare(w, 0);
    NegatedProduct(w, p);
    hide Compare64, Passes, U64, S64;
  }

  lemma NegatedProduct(w: nat, p: int)
    requires Product(w, p)
    ensures p < 0 ==> U64(0 - w) == -p
    ensures S64(0) == 0
  {
  }

  lemma SignSelected(w: nat, p: int, r: nat, f: Flags)
    requires Product(w, p) && r < B32
    ensures Value(COPYXtoW, Value(CSELX(LT), Value(NEGX, r, 0, 0, f), r, 0, Compare64(w, 0)), 0, 0, Compare64(w, 0))
      == U32(if p < 0 then 0 - r else r)
  {
    ProductReads(w, p);
    ConditionsCompare(w, 0);
    assert S64(0) == 0;
    LowWord(0 - r);
    hide Compare64, Passes, U64, U32, S64;
  }

  lemma DividedSelected(w: nat, p: int, m: Int32, f: Flags)
    requires Product(w, p) && m != 0
    ensures var modulus := Value(MOVi64(m), 0, 0, 0, f); var q := Value(SDIVXrr, w, modulus, 0, f);
      Value(COPYXtoW, Value(MSUBXrrr, q, modulus, w, f), 0, 0, f) == U32(TruncRem(p, m))
  {
    ProductReads(w, p);
    S64Of(m);
    hide U32, U64, S64, TruncDiv;
    var q := TruncDiv(p, m);
    LowWord(q);
    LowWord(m);
    LowWord(p);
    U32MulSub(U64(q), U64(m), w, q, m, p);
    LowWord(w - U64(q) * U64(m));
  }

  lemma MaskSelected(x: nat, k: nat, f: Flags)
    requires k <= 30
    ensures Value(UXTW, Value(ANDWri(Pow2(k) - 1), Value(COPYXtoW, x, 0, 0, f), 0, 0, f), 0, 0, f) == x % Pow2(k)
    ensures x % Pow2(k) < B32
  {
    hide U32, Pow2, And;
    U32Idempotent(x);
    MaskIsRemainder(U32(x), k);
    LowRemainder(x, k);
    Pow2Values();
    Pow2Monotone(k, 32);
    WordIs(x % Pow2(k));
  }

  lemma WordIs(x: int)
    requires 0 <= x < B32
    ensures U32(x) == x
  {
  }

  /** A low word has the same remainder by every smaller power of two. */
  lemma LowRemainder(x: nat, k: nat)
    requires k <= 32
    ensures U32(x) % Pow2(k) == x % Pow2(k)
  {
    var d, h := Pow2(k), Pow2(32 - k);
    assert d * h == B32 by {
      Pow2Add(k, 32 - k);
      Pow2Values();
    }
    DivDivisor(x, d, h);
  }

  lemma DivDivisor(x: nat, d: nat, h: nat)
    requires d * h == B32 && d > 0
    ensures U32(x) % d == x % d
  {
    var j := x / B32;
    var low := x % B32;
    hide U32;
    var q, r := low / d, low % d;
    assert low == q * d + r;
    assert j * B32 == (j * h) * d by { assert j * (d * h) == (j * h) * d; }
    assert (j * h + q) * d == (j * h) * d + q * d;
    RemainderIs(x, d, j * h + q, r);
    assert U32(x) == low by { LowIs(x); }
  }

  lemma LowIs(x: int)
    ensures U32(x) == x % B32
  {
  }

  lemma BarrettSelected(x: nat, m: nat, f: Flags)
    requires x <= 0x4000_0000_0000_0000 && 1 < m < B31
    ensures var mu := Value(MOVi64(BarrettFactor(m)), 0, 0, 0, f); var modulus := Value(MOVi64(m), 0, 0, 0, f);
      var q := Value(UMULHXrr, x, mu, 0, f);
      var provisional := Value(MSUBXrrr, q, modulus, x, f);
      var adjusted := Value(SUBXrr, provisional, modulus, 0, f);
      Value(CSELX(HS), adjusted, provisional, 0, Compare64(provisional, modulus)) == x % m
  {
    var mu := BarrettFactor(m);
    assert mu < B64 by { MulOrder(2, m, mu); }
    DoubleWordIs(mu);
    DoubleWordIs(m);
    DoubleWordIs(x);
    QuotientOffByOne(x, m);
    var q := x * mu / B64;
    var provisional := x - q * m;
    DoubleWordIs(provisional);
    ConditionsCompare(provisional, m);
    if provisional >= m { DoubleWordIs(provisional - m); }
    hide U64, S64, Compare64, Passes, BarrettFactor;
    if provisional >= m {
      assert (q + 1) * m == q * m + m;
      RemainderIs(x, m, q + 1, provisional - m);
    } else {
      RemainderIs(x, m, q, provisional);
    }
  }

  lemma DoubleWordIs(x: int)
    requires 0 <= x < B64
    ensures U64(x) == x
  {
  }

  method EmitAbsolute64(s: Selection, product: Reg, ghost p: int) returns (absolute: Reg)
    requires s.Valid() && product < s.next && Product(s.now.regs(product), p)
    modifies s
    ensures Extends(s, absolute) && s.encodable == old(s.encodable) && old(s.next) <= absolute < s.next
    ensures s.now.regs(absolute) == Abs(p)
    ensures Costs(s, 0, 0, 3)
  {
    hide Selection.Valid, Value, Run, Compare64, Product, Abs, S64, U64;
    AbsoluteSelected(s.now.regs(product), p);
    s.Compare(CMPXri(0), [product]);
    var negated := s.Temporary(NEGX, [product]);
    absolute := s.Temporary(CSELX(LT), [negated, product]);
    assert s.encodable == old(s.encodable);
    assert s.now.regs(absolute) == Abs(p);
  }

  method EmitMask64(s: Selection, absolute: Reg, shift: nat, magnitude: nat) returns (remainder: Reg)
    requires s.Valid() && absolute < s.next && shift <= 30 && magnitude == Pow2(shift)
    modifies s
    ensures Extends(s, remainder) && old(s.next) <= remainder < s.next
    ensures s.encodable == (old(s.encodable) && magnitude != 1)
    ensures s.now.regs(remainder) == old(s.now).regs(absolute) % magnitude < B32
    ensures Costs(s, 0, 0, 3)
  {
    hide Selection.Valid, Value, Run, Pow2;
    MaskSelected(s.now.regs(absolute), shift, s.now.flags);
    MaskEncodable(shift);
    var low := s.Temporary(COPYXtoW, [absolute]);
    var masked := s.Temporary(ANDWri(magnitude - 1), [low]);
    remainder := s.Temporary(UXTW, [masked]);
  }

  /** The provisional remainder, and one modulus less where that is not negative. */
  method EmitBarrett(s: Selection, absolute: Reg, modulus: nat) returns (remainder: Reg)
    requires s.Valid() && absolute < s.next && 1 < modulus < B31
    requires s.now.regs(absolute) <= 0x4000_0000_0000_0000
    modifies s
    ensures Extends(s, remainder) && s.encodable == old(s.encodable) && old(s.next) <= remainder < s.next
    ensures s.now.regs(remainder) == old(s.now).regs(absolute) % modulus < B32
    ensures Costs(s, 2, 0, 7)
  {
    hide Selection.Valid, Value, Run, Compare64, BarrettFactor;
    BarrettSelected(s.now.regs(absolute), modulus, s.now.flags);
    var provisional, divisor := EmitProvisional(s, absolute, modulus);
    var adjusted := s.Temporary(SUBXrr, [provisional, divisor]);
    s.Compare(CMPXrr, [provisional, divisor]);
    remainder := s.Temporary(CSELX(HS), [adjusted, provisional]);
  }

  method EmitProvisional(s: Selection, absolute: Reg, modulus: nat) returns (provisional: Reg, divisor: Reg)
    requires s.Valid() && absolute < s.next && modulus > 1
    modifies s
    ensures Extends(s, provisional) && s.encodable == old(s.encodable) && s.now.flags == old(s.now).flags
    ensures old(s.next) <= divisor < provisional < s.next
    ensures var x, f := old(s.now).regs(absolute), old(s.now).flags;
      && s.now.regs(divisor) == Value(MOVi64(modulus), 0, 0, 0, f)
      && var q := Value(UMULHXrr, x, Value(MOVi64(BarrettFactor(modulus)), 0, 0, 0, f), 0, f);
        s.now.regs(provisional) == Value(MSUBXrrr, q, Value(MOVi64(modulus), 0, 0, 0, f), x, f)
    ensures Costs(s, 2, 0, 4)
  {
    hide Selection.Valid, Value, Run, BarrettFactor;
    var mu;
    mu, divisor := EmitConstants(s, modulus);
    var quotient := s.Temporary(UMULHXrr, [absolute, mu]);
    provisional := s.Temporary(MSUBXrrr, [quotient, divisor, absolute]);
  }

  /** The Barrett factor and the modulus in registers. */
  method EmitConstants(s: Selection, modulus: nat) returns (mu: Reg, divisor: Reg)
    requires s.Valid() && modulus > 1
    modifies s
    ensures s.Valid() && s.encodable == old(s.encodable) && s.now.flags == old(s.now).flags
    ensures old(s.code) <= s.code && mu == old(s.next) && divisor == mu + 1 && s.next == mu + 2
    ensures forall r: Reg :: r < old(s.next) ==> s.now.regs(r) == old(s.now).regs(r)
    ensures s.now.regs(mu) == Value(MOVi64(BarrettFactor(modulus)), 0, 0, 0, old(s.now).flags)
    ensures s.now.regs(divisor) == Value(MOVi64(modulus), 0, 0, 0, old(s.now).flags)
    ensures Costs(s, 0, 0, 2)
  {
    hide Selection.Valid, Value, Run, BarrettFactor;
    mu := s.Temporary(MOVi64(BarrettFactor(modulus)), []);
    divisor := s.Temporary(MOVi64(modulus), []);
  }

  method EmitSign(s: Selection, destination: Reg, product: Reg, remainder: Reg, ghost p: int)
    requires s.Valid() && destination < s.next && product < s.next && remainder < s.next
    requires Product(s.now.regs(product), p) && s.now.regs(remainder) < B32
    modifies s
    ensures Extends(s, destination) && s.encodable == old(s.encodable)
    ensures s.now.regs(destination) ==
      U32(if p < 0 then 0 - old(s.now).regs(remainder) else old(s.now).regs(remainder))
    ensures Costs(s, 0, 0, 4)
  {
    hide Selection.Valid, Value, Run, Compare64, U32, Product;
    SignSelected(s.now.regs(product), p, s.now.regs(remainder), s.now.flags);
    var negated := s.Temporary(NEGX, [remainder]);
    var signed := EmitSelect(s, product, negated, remainder);
    s.Emit(COPYXtoW, destination, [signed]);
  }

  /** One register where another is negative, a third where it is not. */
  method EmitSelect(s: Selection, tested: Reg, negative: Reg, other: Reg) returns (selected: Reg)
    requires s.Valid() && tested < s.next && negative < s.next && other < s.next
    modifies s
    ensures Extends(s, selected) && s.encodable == old(s.encodable) && old(s.next) <= selected < s.next
    ensures var m := old(s.now);
      && s.now.flags == Compare64(m.regs(tested), 0)
      && s.now.regs(selected) == Value(CSELX(LT), m.regs(negative), m.regs(other), 0, s.now.flags)
    ensures Costs(s, 0, 0, 2)
  {
    hide Selection.Valid, Value, Run, Compare64;
    s.Compare(CMPXri(0), [tested]);
    selected := s.Temporary(CSELX(LT), [negative, other]);
  }

  method EmitDivided64(s: Selection, destination: Reg, product: Reg, modulus: Int32, ghost p: int)
    requires s.Valid() && destination < s.next && product < s.next && modulus != 0
    requires Product(s.now.regs(product), p)
    modifies s
    ensures Extends(s, destination) && s.encodable == old(s.encodable)
    ensures s.now.regs(destination) == U32(TruncRem(p, modulus))
    ensures Costs(s, 1, 1, 4)
  {
    hide Selection.Valid, Value, Run, U32, TruncRem, Product;
    DividedSelected(s.now.regs(product), p, modulus, s.now.flags);
    var quotient, divisor := EmitQuotient64(s, product, modulus);
    var remainder := s.Temporary(MSUBXrrr, [quotient, divisor, product]);
    s.Emit(COPYXtoW, destination, [remainder]);
  }

  method EmitQuotient64(s: Selection, product: Reg, modulus: Int32) returns (quotient: Reg, divisor: Reg)
    requires s.Valid() && product < s.next
    modifies s
    ensures Extends(s, quotient) && s.encodable == old(s.encodable) && s.now.flags == old(s.now).flags
    ensures old(s.next) <= divisor < quotient < s.next
    ensures var m, f := old(s.now), old(s.now).flags;
      && s.now.regs(divisor) == Value(MOVi64(modulus), 0, 0, 0, f)
      && s.now.regs(quotient) == Value(SDIVXrr, m.regs(product), Value(MOVi64(modulus), 0, 0, 0, f), 0, f)
    ensures Costs(s, 0, 1, 2)
  {
    hide Selection.Valid, Value, Run;
    divisor := s.Temporary(MOVi64(modulus), []);
    quotient := s.Temporary(SDIVXrr, [product, divisor]);
  }

  lemma ProductSelected(a: nat, b: nat, f: Flags)
    ensures Product(Value(SMULLXrr, a, b, 0, f), S32(a) * S32(b))
  {
    ProductFits(S32(a), S32(b));
  }

  /** The remainder of the 64-bit product of two 32-bit factors by a known modulus. Only the
      modulus one asks for a mask that has no encoding. */
  method EmitMulMod(s: Selection, destination: Reg, lhs: Reg, rhs: Reg, modulus: Int32)
    requires s.Valid() && destination < s.next && lhs < s.next && rhs < s.next && modulus != 0
    modifies s
    ensures Extends(s, destination) && s.encodable == (old(s.encodable) && modulus != 1)
    ensures s.now.regs(destination) ==
      U32(TruncRem(S32(old(s.now).regs(lhs)) * S32(old(s.now).regs(rhs)), modulus))
    ensures Costs(s, if modulus < 0 then 2 else if IsPower(modulus) then 1 else 3,
                  if modulus < 0 then 1 else 0, 15)
  {
    hide Selection.Valid, Value, Run, U32, S32, Product, And, Ctz, Pow2, TruncRem, IsPower;
    var info := AnalyzeSignedDivisor(modulus);
    ghost var p := S32(s.now.regs(lhs)) * S32(s.now.regs(rhs));
    ProductSelected(s.now.regs(lhs), s.now.regs(rhs), s.now.flags);
    var product := s.Temporary(SMULLXrr, [lhs, rhs]);
    if !info.reducible || modulus < 0 {
      EmitDivided64(s, destination, product, modulus, p);
    } else {
      EmitReduced(s, destination, product, modulus, p);
    }
  }

  method EmitReduced(s: Selection, destination: Reg, product: Reg, modulus: Int32, ghost p: int)
    requires s.Valid() && destination < s.next && product < s.next && modulus > 0
    requires Product(s.now.regs(product), p)
    modifies s
    ensures Extends(s, destination) && s.encodable == (old(s.encodable) && modulus != 1)
    ensures s.now.regs(destination) == U32(TruncRem(p, modulus))
    ensures Costs(s, if IsPower(modulus) then 0 else 2, 0, 14)
  {
    hide Selection.Valid, Value, Run, U32, And, Ctz, Pow2, TruncRem, AnalyzeSignedDivisor, IsPower;
    var info := AnalyzeSignedDivisor(modulus);
    InfoMagnitude(modulus);
    PowerOfTwoExactly(modulus);
    Magnitudes(modulus);
    RemainderSign(p, modulus);
    assert Abs(p) <= 0x4000_0000_0000_0000;
    var absolute := EmitAbsolute64(s, product, p);
    var remainder;
    if info.powerOfTwo {
      remainder := EmitMask64(s, absolute, info.shift, info.magnitude);
    } else {
      remainder := EmitBarrett(s, absolute, info.magnitude);
    }
    EmitSign(s, destination, product, remainder, p);
  }

  lemma InfoMagnitude(divisor: Int32)
    requires divisor > 0
    ensures AnalyzeSignedDivisor(divisor).magnitude == divisor
    ensures divisor == 1 ==> AnalyzeSignedDivisor(divisor).powerOfTwo
  {
    assert And(1, 0) == 0;
  }
}
