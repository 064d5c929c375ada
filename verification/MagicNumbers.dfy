/** Constants that turn a division by a known number into a multiplication. */
module MagicNumbers {
  import opened Bits
  import opened Words

  datatype DivisorInfo = DivisorInfo(value: Int32, magnitude: nat, reducible: bool, powerOfTwo: bool, shift: nat) {
    predicate UsesMagic() {
      reducible && magnitude > 1 && !powerOfTwo
    }
  }

  datatype Strategy = MultiplyShift | MultiplyAddShift | MultiplySubShift

  datatype MagicNumber = MagicNumber(multiplier: Int32, shift: nat, strategy: Strategy)

  function Abs(d: int): nat {
    if d < 0 then -d else d
  }

  function AnalyzeSignedDivisor(divisor: Int32): DivisorInfo {
    if divisor == 0 || divisor == -0x8000_0000 then
      DivisorInfo(divisor, 0, false, false, 0)
    else
      var magnitude := Abs(divisor);
      var powerOfTwo := And(magnitude, magnitude - 1) == 0;
      DivisorInfo(divisor, magnitude, true, powerOfTwo, if powerOfTwo then Ctz(magnitude) else 0)
  }

  // Powers of two

  lemma {:induction false} ShiftedOnce(w: nat)
    requires w > 0 && And(w, w - 1) == 0
    ensures w == Pow2(Ctz(w))
  {
    forall i: nat ensures Bit(w, i) <==> Bit(Pow2(Ctz(w)), i) {
      ClearLowest(w, i);
      ZeroHasNoBits(i);
      Pow2Bits(Ctz(w), i);
      CtzLowest(w, i);
    }
    BitsDetermine(w, Pow2(Ctz(w)));
  }

  lemma {:induction false} PowerClears(n: nat)
    ensures And(Pow2(n), Pow2(n) - 1) == 0 && Ctz(Pow2(n)) == n
  {
    var w := Pow2(n);
    CtzLowest(w, 0);
    Pow2Bits(n, Ctz(w));
    forall i: nat ensures Bit(And(w, w - 1), i) <==> Bit(0, i) {
      ClearLowest(w, i);
      Pow2Bits(n, i);
      ZeroHasNoBits(i);
    }
    BitsDetermine(And(w, w - 1), 0);
  }

  /** The bit test recognises exactly the powers of two, and the shift is the exponent. */
  lemma PowerOfTwoExactly(divisor: Int32)
    requires divisor != 0 && divisor != -0x8000_0000
    ensures var info := AnalyzeSignedDivisor(divisor);
      && (info.powerOfTwo <==> exists n: nat :: info.magnitude == Pow2(n))
      && (info.powerOfTwo ==> info.magnitude == Pow2(info.shift) && info.shift <= 30)
      && (info.powerOfTwo && info.magnitude > 1 ==> info.shift >= 1)
  {
    hide And, Ctz, Pow2;
    var magnitude := Abs(divisor);
    Pow2Values();
    if And(magnitude, magnitude - 1) == 0 {
      ShiftedOnce(magnitude);
      if Ctz(magnitude) > 30 { Pow2Monotone(31, Ctz(magnitude)); }
    } else {
      forall n: nat ensures magnitude != Pow2(n) {
        PowerClears(n);
      }
    }
  }

  /** Only powers of two divide a power of two. */
  lemma {:induction false} DividesPower(d: nat, q: nat, p: nat) returns (n: nat)
    requires d * q == Pow2(p)
    ensures d == Pow2(n)
    decreases p
  {
    if p == 0 {
      assert d == 1 by {
        assert d > 0 && q > 0;
        if d > 1 { MulOrder(2, d, q); }
      }
      return 0;
    }
    assert d * q == 2 * Pow2(p - 1);
    if d % 2 == 0 {
      assert d == 2 * (d / 2);
      assert (d / 2) * q == Pow2(p - 1);
      n := DividesPower(d / 2, q, p - 1);
      n := n + 1;
    } else {
      EvenFactor(d, q, Pow2(p - 1));
      assert d * q == 2 * (d * (q / 2)) by { assert q == 2 * (q / 2); }
      n := DividesPower(d, q / 2, p - 1);
    }
  }

  lemma EvenFactor(d: nat, q: nat, h: nat)
    requires d % 2 == 1 && d * q == 2 * h
    ensures q % 2 == 0
  {
    var c := d / 2;
    assert d == 2 * c + 1;
    assert d * q == 2 * (c * q) + q;
    assert q == 2 * (h - c * q);
  }

  // The search

  function SignAdjusted(divisor: Int32): nat {
    B31 + (if divisor < 0 then 1 else 0)
  }

  /** The largest numerator below the sign bound that leaves the largest remainder. */
  function Cutoff(divisor: Int32): int
    requires divisor != 0
  {
    SignAdjusted(divisor) - 1 - SignAdjusted(divisor) % Abs(divisor)
  }

  /** The distance from 2^p up to the next multiple of d. */
  function Excess(p: nat, d: nat): (e: nat)
    requires d > 0
    ensures 1 <= e <= d
  {
    d - Pow2(p) % d
  }

  /** 2^p is precise enough: the excess vanishes on every numerator up to the cutoff. */
  predicate Enough(divisor: Int32, p: nat)
    requires divisor != 0
  {
    Excess(p, Abs(divisor)) * Cutoff(divisor) < Pow2(p)
  }

  /** m / 2^(32 + shift) is the reciprocal of the divisor, rounded up closely enough. */
  predicate Reciprocal(divisor: Int32, m: nat, shift: nat)
    requires divisor != 0
  {
    && m * Abs(divisor) == Pow2(32 + shift) + Excess(32 + shift, Abs(divisor))
    && Enough(divisor, 32 + shift)
    && Excess(32 + shift, Abs(divisor)) < Abs(divisor)
    && m < B32 && shift <= 30
  }

  lemma CutoffFacts(divisor: Int32)
    requires Abs(divisor) >= 3 && divisor != -0x8000_0000
    ensures var d, c, t := Abs(divisor), Cutoff(divisor), SignAdjusted(divisor);
      c >= d - 1 && c + 1 == d * (t / d) && t - 1 == c + t % d && 2 <= c < B32
  {
    var d, t := Abs(divisor), SignAdjusted(divisor);
    assert t == d * (t / d) + t % d;
    assert t / d >= 1;
    MulOrder(1, t / d, d);
  }

  predicate Split(power: nat, n: nat, q: nat, r: nat) {
    power == q * n + r && r < n
  }

  method Begin(n: nat) returns (q: nat, r: nat)
    requires 2 <= n < B32
    ensures Split(B31, n, q, r) && 2 * q + 2 < B32
  {
    q := B31 / n;
    assert B31 == q * n + B31 % n;
    r := B31 - q * n;
    MulOrder(2, n, q);
  }

  /** Doubling the power doubles quotient and remainder, with one carry. */
  method Refine(ghost power: nat, n: nat, quotient: nat, remainder: nat) returns (q: nat, r: nat)
    requires Split(power, n, quotient, remainder) && n <= B31 && 2 * quotient + 1 < B32
    ensures Split(2 * power, n, q, r) && r < n && q < B32 && q <= 2 * quotient + 1
  {
    q := U32(quotient * 2);
    r := U32(remainder * 2);
    assert q == 2 * quotient && r == 2 * remainder;
    hide U32;
    assert (2 * quotient) * n == 2 * (quotient * n) && (2 * quotient + 1) * n == 2 * (quotient * n) + n;
    if r >= n {
      q := q + 1;
      r := r - n;
    }
  }

  /** The loop stops exactly when the power is precise enough. */
  lemma StopsWhenEnough(power: nat, q: nat, r: nat, c: nat, delta: nat)
    requires Split(power, c, q, r)
    ensures !(q < delta || (q == delta && r == 0)) <==> delta * c < power
  {
    if q < delta {
      MulOrder(q + 1, delta, c);
      assert (q + 1) * c == q * c + c;
    } else {
      MulOrder(delta, q, c);
      if q > delta {
        MulOrder(delta + 1, q, c);
        assert (delta + 1) * c == delta * c + c;
      }
    }
  }

  lemma QuotientBelow(d: nat, c: nat, q: nat, r: nat)
    requires 3 <= d <= B31 - 1 && d - 1 <= c <= B31 && 0 < r < d
    requires q * d + r <= (d - r) * c
    ensures 2 * q + 2 < B32
  {
    MulOrder(d - r, d - 1, c);
    assert (d - 1) * c == c * d - c;
    assert q * d < c * d - c;
    assert q < c by { if q >= c { MulOrder(c, q, d); } }
    if q >= c - 1 {
      assert (c - 1) * d == c * d - d;
      assert c < d;
    }
  }

  lemma ProductBelow(d: nat, c: nat, r: nat)
    requires 3 <= d <= B31 - 1 && c <= B31 && 0 < r < d
    ensures (d - r) * c < 0x4000_0000_0000_0000
  {
    MulOrder(c, B31, d - r);
    assert (d - r) * c <= (d - r) * B31;
  }

  /** While the power is not precise enough the next quotient still fits a word. */
  lemma NextFits(divisor: Int32, p: nat, q: nat, r: nat)
    requires Abs(divisor) >= 3 && divisor != -0x8000_0000
    requires Split(Pow2(p), Abs(divisor), q, r) && r > 0
    requires !Enough(divisor, p)
    ensures 2 * q + 2 < B32 && p <= 61
  {
    var d, c := Abs(divisor), Cutoff(divisor);
    CutoffFacts(divisor);
    RemainderIs(Pow2(p), d, q, r);
    QuotientBelow(d, c, q, r);
    ProductBelow(d, c, r);
    if p >= 62 {
      Pow2Values();
      Pow2Monotone(62, p);
    }
  }

  lemma NeverExact(divisor: Int32, p: nat)
    requires AnalyzeSignedDivisor(divisor).UsesMagic()
    ensures Abs(divisor) >= 3 && Excess(p, Abs(divisor)) < Abs(divisor)
  {
    hide And, Ctz;
    var d := Abs(divisor);
    PowerOfTwoExactly(divisor);
    assert forall n: nat :: d != Pow2(n);
    assert d != Pow2(0) && d != Pow2(1) by { Pow2Values(); }
    hide Pow2;
    if Pow2(p) % d == 0 {
      assert Pow2(p) == d * (Pow2(p) / d);
      var _ := DividesPower(d, Pow2(p) / d, p);
    }
  }

  /** The multiplier is never the one word whose negation overflows. */
  lemma NotMinimum(divisor: Int32, m: nat, shift: nat)
    requires divisor != 0 && divisor != -0x8000_0000 && Reciprocal(divisor, m, shift)
    ensures m != B31
  {
    var d := Abs(divisor);
    Pow2Values();
    Pow2Add(31, 1 + shift);
    var k := d - Pow2(1 + shift);
    assert B31 * d - Pow2(32 + shift) == B31 * k;
    assert k <= 0 || B31 * k >= B31;
  }

  lemma ExcessIs(p: nat, d: nat, q: nat, r: nat)
    requires d > 0 && Split(Pow2(p), d, q, r)
    ensures Excess(p, d) == d - r
  {
    RemainderIs(Pow2(p), d, q, r);
  }

  lemma StopsExactly(divisor: Int32, p: nat, q1: nat, r1: nat, q2: nat, r2: nat)
    requires Abs(divisor) >= 3 && divisor != -0x8000_0000 && Excess(p, Abs(divisor)) < Abs(divisor)
    requires Cutoff(divisor) >= 0 && Split(Pow2(p), Cutoff(divisor), q1, r1) && Split(Pow2(p), Abs(divisor), q2, r2)
    ensures var delta := Abs(divisor) - r2;
      !(q1 < delta || (q1 == delta && r1 == 0)) <==> Enough(divisor, p)
    ensures 0 < r2 < Abs(divisor)
  {
    ExcessIs(p, Abs(divisor), q2, r2);
    StopsWhenEnough(Pow2(p), q1, r1, Cutoff(divisor), Abs(divisor) - r2);
  }

  lemma RoundedUp(divisor: Int32, precision: nat, q: nat, r: nat)
    requires divisor != 0 && divisor != -0x8000_0000
    requires 32 <= precision <= 62 && q + 1 < B32 && r > 0
    requires Split(Pow2(precision), Abs(divisor), q, r) && Enough(divisor, precision)
    ensures Reciprocal(divisor, q + 1, precision - 32) && q + 1 != B31
  {
    ExcessIs(precision, Abs(divisor), q, r);
    assert (q + 1) * Abs(divisor) == q * Abs(divisor) + Abs(divisor);
    NotMinimum(divisor, q + 1, precision - 32);
  }

  predicate Signed(multiplier: Int32, divisor: Int32, m: nat) {
    && (divisor > 0 ==> multiplier == S32(m))
    && (divisor < 0 ==> multiplier + S32(m) == 0)
  }

  /** The signed multiplier and the correction its sign calls for. */
  method SignedMagic(divisor: Int32, word: nat, shift: nat) returns (magic: MagicNumber)
    requires divisor != 0 && word < B32 && word != B31
    ensures magic.shift == shift
    ensures Signed(magic.multiplier, divisor, word)
    ensures magic.strategy == StrategyFor(divisor, word)
  {
    var multiplier: Int32 := S32(word);
    if divisor < 0 {
      multiplier := -multiplier;
    }
    var strategy := MultiplyShift;
    if divisor > 0 && multiplier < 0 {
      strategy := MultiplyAddShift;
    } else if divisor < 0 && multiplier > 0 {
      strategy := MultiplySubShift;
    }
    magic := MagicNumber(multiplier, shift, strategy);
  }

  /** A multiplier of 2^31 or more reads as negative and needs the numerator added back. */
  function StrategyFor(divisor: Int32, word: nat): Strategy {
    if word < B31 then MultiplyShift
    else if divisor > 0 then MultiplyAddShift
    else MultiplySubShift
  }

  method ComputeSignedMagic(divisor: Int32) returns (magic: MagicNumber, ghost m: nat)
    requires AnalyzeSignedDivisor(divisor).UsesMagic()
    ensures Reciprocal(divisor, m, magic.shift)
    ensures forall p :: 32 <= p < 32 + magic.shift ==> !Enough(divisor, p)
    ensures Signed(magic.multiplier, divisor, m)
    ensures magic.strategy == StrategyFor(divisor, m)
  {
    hide And, Ctz, Pow2, Split, Excess, Enough, Reciprocal;
    NeverExact(divisor, 31);
    CutoffFacts(divisor);
    Pow2Values();
    var absoluteDivisor: nat := Abs(divisor);
    var precision: nat := 31;
    var signAdjusted: nat := SignAdjusted(divisor);
    var cutoff: nat := signAdjusted - 1 - signAdjusted % absoluteDivisor;
    var quotient1: nat, remainder1: nat := Begin(cutoff);
    var quotient2: nat, remainder2: nat := Begin(absoluteDivisor);
    var delta: nat := 0;
    while true
      invariant 31 <= precision <= 61
      invariant Split(Pow2(precision), cutoff, quotient1, remainder1)
      invariant Split(Pow2(precision), absoluteDivisor, quotient2, remainder2)
      invariant 2 * quotient1 + 1 < B32 && 2 * quotient2 + 2 < B32
      invariant forall p :: 32 <= p <= precision ==> !Enough(divisor, p)
      decreases 61 - precision
    {
      quotient1, remainder1 := Refine(Pow2(precision), cutoff, quotient1, remainder1);
      quotient2, remainder2 := Refine(Pow2(precision), absoluteDivisor, quotient2, remainder2);
      Pow2Next(precision);
      precision := precision + 1;
      delta := absoluteDivisor - remainder2;
      NeverExact(divisor, precision);
      StopsExactly(divisor, precision, quotient1, remainder1, quotient2, remainder2);
      if !(quotient1 < delta || (quotient1 == delta && remainder1 == 0)) {
        break;
      }
      NextFits(divisor, precision, quotient2, remainder2);
    }
    m := quotient2 + 1;
    RoundedUp(divisor, precision, quotient2, remainder2);
    magic := SignedMagic(divisor, quotient2 + 1, precision - 32);
  }

  // What the reciprocal computes

  /** Scaling by the reciprocal keeps a numerator inside its quotient's interval. */
  lemma InInterval(d: nat, m: nat, power: nat, e: nat, k: nat)
    requires d > 0 && m * d == power + e && power > 0
    ensures power * (k / d) <= m * k
    ensures e * k > 0 ==> power * (k / d) < m * k
    ensures e * k < power * (d - k % d) ==> m * k < power * (k / d) + power
    ensures e * k <= power * (d - k % d) ==> m * k <= power * (k / d) + power
  {
    var q, r := k / d, k % d;
    assert k == q * d + r;
    assert m * k * d == power * k + e * k by {
      assert m * k * d == (m * d) * k;
    }
    assert power * k == (power * q) * d + power * r by {
      assert power * (q * d) == (power * q) * d;
    }
    assert power * (d - r) == power * d - power * r;
    Cancel(power * q, m * k, d);
    Cancel(m * k, power * q + power, d);
    assert (power * q + power) * d == (power * q) * d + power * d;
  }

  lemma Cancel(a: int, b: int, d: nat)
    requires d > 0
    ensures a * d <= b * d <==> a <= b
    ensures a * d < b * d <==> a < b
  {
    if a <= b { MulOrder(a, b, d); }
    if a < b {
      MulOrder(a + 1, b, d);
      assert (a + 1) * d == a * d + d;
    }
    if b <= a { MulOrder(b, a, d); }
    if b < a {
      MulOrder(b + 1, a, d);
      assert (b + 1) * d == b * d + d;
    }
  }

  /** Past the cutoff the remainders are small, so the error has room. */
  lemma ErrorFits(d: nat, c: nat, power: nat, e: nat, k: nat)
    requires d > 0 && c >= d - 1 && e * c < power
    requires k <= c || (k <= c + d - 1 && k % d <= d - 2)
    ensures e * k < power * (d - k % d)
  {
    if k <= c {
      MulOrder(k, c, e);
      MulOrder(1, d - k % d, power);
    } else {
      assert e * k <= e * (c + (d - 1)) by { MulOrder(k, c + (d - 1), e); }
      assert e * (c + (d - 1)) == e * c + e * (d - 1);
      assert e * (d - 1) <= e * c by { MulOrder(d - 1, c, e); }
      MulOrder(2, d - k % d, power);
    }
  }

  /** A magnitude above the cutoff by i has remainder i - 1. */
  lemma PastCutoff(d: nat, c: nat, a: nat, k: nat)
    requires d > 0 && c + 1 == d * a && c < k <= c + d
    ensures k % d == k - c - 1
  {
    assert k == a * d + (k - c - 1) by { assert d * a == a * d; }
    RemainderIs(k, d, a, k - c - 1);
  }

  lemma Below(d: nat, c: nat, t: nat, m: nat, power: nat, e: nat, k: nat)
    requires d > 0 && c >= d - 1 && c + 1 == d * (t / d) && t - 1 == c + t % d && k < t
    requires m * d == power + e && e * c < power && e > 0
    ensures power * (k / d) <= m * k < power * (k / d) + power
    ensures k > 0 ==> power * (k / d) < m * k
  {
    if k > c {
      PastCutoff(d, c, t / d, k);
    }
    ErrorFits(d, c, power, e, k);
    assert k > 0 ==> e * k > 0;
    InInterval(d, m, power, e, k);
  }

  /** Every magnitude below the sign bound divides exactly, rounding down. */
  lemma BelowBound(divisor: Int32, m: nat, shift: nat, k: nat)
    requires Abs(divisor) >= 3 && divisor != -0x8000_0000 && Reciprocal(divisor, m, shift)
    requires k < SignAdjusted(divisor)
    ensures var power := Pow2(32 + shift); var q := k / Abs(divisor);
      power * q <= m * k < power * q + power && (k > 0 ==> power * q < m * k)
  {
    CutoffFacts(divisor);
    Below(Abs(divisor), Cutoff(divisor), SignAdjusted(divisor), m, Pow2(32 + shift),
          Excess(32 + shift, Abs(divisor)), k);
  }

  /** When the bound leaves the largest remainder, the excess is a small power of two. */
  lemma ExcessSmall(d: nat, m: nat, shift: nat, e: nat)
    requires d > 0 && m * d == Pow2(32 + shift) + e && 1 <= e <= d
    requires B31 % d == d - 1
    ensures e * B31 <= Pow2(32 + shift)
  {
    Pow2Values();
    Pow2Add(31, 1 + shift);
    ExcessCongruent(d, m, Pow2(1 + shift), e);
    MulOrder(e, Pow2(1 + shift), B31);
  }

  lemma ExcessCongruent(d: nat, m: nat, h: nat, e: nat)
    requires d > 0 && h > 0 && m * d == B31 * h + e && 1 <= e <= d
    requires B31 % d == d - 1
    ensures e <= h
  {
    var c := B31 / d + 1;
    assert B31 + 1 == c * d by {
      assert B31 == (B31 / d) * d + B31 % d;
      assert c * d == (B31 / d) * d + d;
    }
    var k := m - c * h;
    assert (c * h) * d == (c * d) * h;
    assert (c * d) * h == B31 * h + h;
    assert k * d == m * d - (c * h) * d;
    assert e == k * d + h;
    if k >= 1 { MulOrder(1, k, d); }
    else { MulOrder(k, 0, d); }
  }

  /** The least numerator is one past the bound of a positive divisor: it may land on the next multiple. */
  lemma AtBound(divisor: Int32, m: nat, shift: nat)
    requires divisor >= 3 && Reciprocal(divisor, m, shift)
    ensures var power := Pow2(32 + shift); var q := B31 / divisor;
      power * q < m * B31 <= power * q + power
  {
    var d, c := Abs(divisor), Cutoff(divisor);
    var power, e := Pow2(32 + shift), Excess(32 + shift, d);
    CutoffFacts(divisor);
    if B31 % d == d - 1 {
      ExcessSmall(d, m, shift, e);
    } else {
      ErrorFits(d, c, power, e, B31);
    }
    InInterval(d, m, power, e, B31);
  }

  /** The quotient rounded down from the scaled numerator: truncated for a numerator on
      the divisor's side, one below otherwise. */
  function Floored(divisor: Int32, n: Int32): int
    requires divisor != 0
  {
    if n != 0 && (n < 0) != (divisor < 0) then TruncDiv(n, divisor) - 1 else TruncDiv(n, divisor)
  }

  lemma ScaledDown(power: nat, x: int, q: int)
    requires power > 0 && power * q <= x < power * q + power
    ensures x / power == q
  {
    assert q * power == power * q;
    QuotientIs(x, power, q);
  }

  lemma ScaledUp(power: nat, x: int, q: int)
    requires power > 0 && power * q < x <= power * q + power
    ensures (-x) / power == -q - 1
  {
    assert power * (-q - 1) == -(power * q) - power;
    ScaledDown(power, -x, -q - 1);
  }

  /** Multiplying by the reciprocal and shifting gives the floored quotient, for every numerator. */
  lemma MagicDivides(divisor: Int32, m: nat, shift: nat, n: Int32)
    requires Abs(divisor) >= 3 && divisor != -0x8000_0000 && Reciprocal(divisor, m, shift)
    ensures (if divisor < 0 then -(n * m) else n * m) / Pow2(32 + shift) == Floored(divisor, n)
  {
    var k := Abs(n);
    var power, q := Pow2(32 + shift), k / Abs(divisor);
    if k < SignAdjusted(divisor) {
      BelowBound(divisor, m, shift, k);
    } else {
      AtBound(divisor, m, shift);
    }
    assert n * m == if n < 0 then -(m * k) else m * k;
    if n == 0 || (n < 0) == (divisor < 0) {
      ScaledDown(power, m * k, q);
    } else {
      ScaledUp(power, m * k, q);
    }
  }
}
