/** Selection of a 32-bit product with a constant factor. */
module ConstantProduct {
  import opened Bits
  import opened Words
  import opened MagicNumbers
  import opened WordMachine
  import opened ConstantSelection

  predicate IsPowerOfTwo(w: nat) {
    w > 0 && And(w, w - 1) == 0
  }

  lemma PowerExactly(w: nat)
    ensures IsPowerOfTwo(w) <==> exists k: nat :: w == Pow2(k)
  {
    hide And, Ctz, Pow2;
    if IsPowerOfTwo(w) {
      ShiftedOnce(w);
    } else {
      forall k: nat ensures w != Pow2(k) {
        PowerClears(k);
      }
    }
  }

  /** The exponent of a power of two, by halving. */
  method Log2Exact(value: nat) returns (result: nat)
    requires IsPowerOfTwo(value) && value <= B31
    ensures value == Pow2(result) && result <= 31
  {
    hide Pow2, And;
    PowerExactly(value);
    ghost var n: nat :| value == Pow2(n);
    var rest := value;
    result := 0;
    while rest > 1
      invariant result <= n && rest == Pow2(n - result)
    {
      Halved(n - result);
      rest, result := rest / 2, result + 1;
    }
    Halved(n - result);
    BelowLimit(n);
  }

  lemma Halved(k: nat)
    ensures Pow2(k) > 1 <==> k > 0
    ensures k > 0 ==> Pow2(k) / 2 == Pow2(k - 1)
  {
  }

  lemma BelowLimit(n: nat)
    requires Pow2(n) <= B31
    ensures n <= 31
  {
    hide Pow2;
    Pow2Values();
    Pow2Monotone(if n < 31 then n else 31, if n < 31 then 31 else n);
  }

  /** Factors that need no multiplication: zero, powers of two and their successors, of either sign. */
  ghost predicate Reducible(factor: int) {
    factor == 0 || exists k: nat :: Abs(factor) == Pow2(k) || Abs(factor) == Pow2(k) + 1
  }

  lemma ShiftProduct(a: nat, k: nat, f: Flags)
    ensures U32(Value(LSLWri(k), a, 0, 0, f)) == U32(S32(a) * Pow2(k))
    ensures U32(Value(ADDWlsl(k), a, a, 0, f)) == U32(S32(a) * (Pow2(k) + 1))
  {
    hide U32, S32, Pow2;
    var p, n := Pow2(k), S32(a);
    U32Idempotent(a);
    SignedWord(a, 0);
    U32MulSub(U32(a), p, 0, n, p, 0);
    NegatedProduct(U32(a) * p, n * p);
    U32Idempotent(U32(a) * p);
    SignedWord(a, U32(a) * p);
    SumWords(n, U32(a) * p, n * p);
    assert n * (p + 1) == n + n * p;
    U32Idempotent(a + U32(a) * p);
  }

  lemma NegatedProduct(x: int, y: int)
    requires U32(0 - x) == U32(0 - y)
    ensures U32(x) == U32(y)
  {
    var k := SameWord(0 - x, 0 - y);
    U32Shift(y, -k);
  }

  lemma SumWords(n: int, x: int, y: int)
    requires U32(x) == U32(y)
    ensures U32(n + x) == U32(n + y)
  {
    SignedWord(x, n);
    SignedWord(y, n);
  }

  /** Negating the product with the magnitude gives the product with the factor. */
  lemma NegatedFactor(product: nat, n: int, factor: int, f: Flags)
    requires factor < 0 && U32(product) == U32(n * Abs(factor))
    ensures U32(Value(NEGW, product, 0, 0, f)) == U32(n * factor)
  {
    assert n * factor == 0 - n * Abs(factor);
    hide S32;
    NegatedWord(product);
    NegatedWord(n * Abs(factor));
    U32Idempotent(0 - product);
  }

  lemma UnitProduct(a: nat, f: Flags)
    ensures U32(Value(COPY, a, 0, 0, f)) == U32(S32(a) * 1)
    ensures U32(Value(NEGW, a, 0, 0, f)) == U32(S32(a) * -1)
    ensures U32(Value(MOVi32(0), 0, 0, 0, f)) == U32(S32(a) * 0)
  {
    SignedWord(a, 0);
    NegatedWord(a);
    U32Idempotent(0 - a);
  }

  /** Multiplication by a known factor without a multiplier, when the factor allows it. */
  method EmitProduct(s: Selection, destination: Reg, variable: Reg, factor: Int32) returns (ok: bool)
    requires s.Valid() && variable < s.next && destination < s.next
    modifies s
    ensures ok <==> Reducible(factor)
    ensures Extends(s, destination) && s.encodable == old(s.encodable)
    ensures !ok ==> s.code == old(s.code)
    ensures ok ==> U32(s.now.regs(destination)) == U32(S32(old(s.now).regs(variable)) * factor)
    ensures ok ==> Costs(s, 0, 0, 2)
  {
    hide Selection.Valid, Value, Run, U32, S32, Pow2, And, Ctz;
    var magnitude := Abs(factor);
    ghost var a, f := s.now.regs(variable), s.now.flags;
    UnitProduct(a, f);
    PowerExactly(magnitude);
    if magnitude > 0 { PowerExactly(magnitude - 1); }
    assert Pow2(0) == 1 by { Pow2Values(); }
    if factor == 0 {
      s.Emit(MOVi32(0), destination, []);
    } else if magnitude == 1 {
      assert magnitude == Pow2(0);
      s.Emit(if factor < 0 then NEGW else COPY, destination, [variable]);
    } else if IsPowerOfTwo(magnitude) {
      var shift := Log2Exact(magnitude);
      ShiftProduct(a, shift, f);
      EmitSigned(s, destination, LSLWri(shift), [variable], a, factor);
    } else if IsPowerOfTwo(magnitude - 1) {
      var shift := Log2Exact(magnitude - 1);
      ShiftProduct(a, shift, f);
      EmitSigned(s, destination, ADDWlsl(shift), [variable, variable], a, factor);
    } else {
      assert !Reducible(factor) by {
        forall k: nat ensures magnitude != Pow2(k) && magnitude != Pow2(k) + 1 {
          assert magnitude - 1 != Pow2(k);
        }
      }
      return false;
    }
    assert Reducible(factor);
    ok := true;
  }

  /** The product with the magnitude, negated for a negative factor. */
  method EmitSigned(s: Selection, destination: Reg, op: Op, uses: seq<Reg>, ghost a: nat, factor: Int32)
    requires s.Valid() && destination < s.next && !IsCompare(op) && Encodable(op) && !IsMultiply(op) && !IsDivide(op)
    requires U32(Value(op, Arg(s.now, uses, 0), Arg(s.now, uses, 1), Arg(s.now, uses, 2), s.now.flags))
          == U32(S32(a) * Abs(factor))
    modifies s
    ensures Extends(s, destination) && s.encodable == old(s.encodable)
    ensures U32(s.now.regs(destination)) == U32(S32(a) * factor)
    ensures Costs(s, 0, 0, 2)
  {
    hide Selection.Valid, Value, Run, U32, S32;
    if factor < 0 {
      var temporary := s.Temporary(op, uses);
      NegatedFactor(s.now.regs(temporary), S32(a), factor, s.now.flags);
      s.Emit(NEGW, destination, [temporary]);
    } else {
      s.Emit(op, destination, uses);
    }
  }
}
