/** Arithmetic of repeated exact halving. */
module Halving {
  import opened Bits
  import opened Words
  import opened WordMachine

  lemma {:induction false} ReversedBounded(w: nat, n: nat)
    ensures ReverseBits(w, n) < Pow2(n)
  {
    if n > 0 { ReversedBounded(w / 2, n - 1); }
  }

  /** The leading zeros of the reversed word are the trailing zeros of the word; all n for zero. */
  lemma {:induction false} TrailingZeros(w: nat, n: nat)
    requires w < Pow2(n)
    ensures LeadingZeros(ReverseBits(w, n), n) == if w == 0 then n else Ctz(w)
    ensures w > 0 ==> Ctz(w) < n
  {
    if n > 0 {
      ReversedBounded(w / 2, n - 1);
      if w % 2 == 0 {
        TrailingZeros(w / 2, n - 1);
      }
    }
  }

  function {:induction false} OddPart(w: nat): (q: nat)
    requires w > 0
    ensures w == q * Pow2(Ctz(w)) && q % 2 == 1
  {
    if w % 2 == 1 then w
    else
      var q := OddPart(w / 2);
      assert q * Pow2(Ctz(w)) == 2 * (q * Pow2(Ctz(w / 2)));
      q
  }

  /** The word after j arithmetic right shifts by one. */
  function Halved(w: nat, j: nat): nat {
    U32(S32(w) / Pow2(j))
  }

  lemma Halves(w: nat, j: nat)
    ensures Halved(w, 0) == U32(w)
    ensures Halved(w, j + 1) == U32(S32(Halved(w, j)) / 2)
  {
    assert S32(w) / 1 == S32(w);
    SignedWord(w, 0);
    Shrinks(S32(w), j);
    S32Of(S32(w) / Pow2(j));
    DivDiv(S32(w), Pow2(j), 2);
    assert Pow2(j + 1) == Pow2(j) * 2;
  }

  lemma Shrinks(x: int, j: nat)
    requires -B31 <= x < B31
    ensures -B31 <= x / Pow2(j) < B31
  {
    var d := Pow2(j);
    hide Pow2;
    var q := x / d;
    assert q * d <= x < q * d + d;
    if q >= 0 { MulOrder(1, d, q); } else {
      MulOrder(1, d, -q - 1);
      assert (-q - 1) * d == -(q * d) - d;
    }
  }

  /** The signed reading is an odd multiple of the same power of two. */
  lemma SignedOddPart(w: nat) returns (s: int)
    requires 0 < w < B32
    ensures Ctz(w) < 32 && S32(w) == s * Pow2(Ctz(w)) && s % 2 == 1
  {
    Pow2Values();
    TrailingZeros(w, 32);
    Pow2Add(32 - Ctz(w), Ctz(w));
    Pow2Even(32 - Ctz(w));
    SignedWordIs(w);
    var q := OddPart(w);
    hide Pow2, Ctz, S32, OddPart;
    s := q;
    if w >= B31 { s := SubtractEven(w, q, Pow2(Ctz(w)), Pow2(32 - Ctz(w))); }
  }

  lemma Pow2Even(n: nat)
    ensures n > 0 ==> Pow2(n) % 2 == 0
    ensures Pow2(0) == 1
  {
  }

  lemma SubtractEven(w: nat, q: nat, p: nat, h: nat) returns (s: int)
    requires w == q * p && h * p == B32 && q % 2 == 1 && h % 2 == 0
    ensures w - B32 == s * p && s % 2 == 1
  {
    s := q - h;
    assert (q - h) * p == q * p - h * p;
  }

  lemma SignedWordIs(w: nat)
    requires w < B32
    ensures S32(w) == if w < B31 then w else w - B32
  {
  }

  lemma ExactQuotient(s: int, d: nat, e: nat)
    requires e > 0
    ensures s * (d * e) / e == s * d
  {
    assert s * (d * e) == (s * d) * e;
    QuotientIs(s * (d * e), e, s * d);
  }

  lemma EvenMultiple(s: int, d: nat)
    requires d % 2 == 0
    ensures (s * d) % 2 == 0
  {
    assert s * d == 2 * (s * (d / 2)) by { assert d == 2 * (d / 2); }
  }

  lemma SameParity(x: int)
    ensures U32(x) % 2 == x % 2
  {
  }

  /** Before the trailing zeros run out every halving is even; then the word is odd. */
  lemma EvenUntil(w: nat, j: nat)
    requires 0 < w < B32 && j <= Ctz(w)
    ensures Halved(w, j) % 2 == if j < Ctz(w) then 0 else 1
  {
    hide U32, S32;
    var k := Ctz(w);
    var s := SignedOddPart(w);
    assert k - j >= 0;
    Pow2Add(k - j, j);
    ExactQuotient(s, Pow2(k - j), Pow2(j));
    SameParity(S32(w) / Pow2(j));
    Pow2Even(k - j);
    hide Pow2, Ctz;
    if j < k {
      EvenMultiple(s, Pow2(k - j));
    }
  }

  /** Three times an odd word plus one is even, around the word size too. */
  lemma OddStepEven(w: nat)
    requires w % 2 == 1
    ensures U32(3 * w + 1) % 2 == 0
  {
    SameParity(3 * w + 1);
  }
}
