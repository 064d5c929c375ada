/** 32- and 64-bit words as integers, and the arithmetic facts about them. */
module Words {
  import opened Bits

  const B31: int := 0x8000_0000
  const B32: int := 0x1_0000_0000
  const B63: int := 0x8000_0000_0000_0000
  const B64: int := 0x1_0000_0000_0000_0000

  type Int32 = x: int | -0x8000_0000 <= x < 0x8000_0000

  function U32(x: int): (r: nat)
    ensures r < B32
  {
    x % B32
  }

  function S32(x: int): (r: int)
    ensures -B31 <= r < B31
  {
    if x % B32 < B31 then x % B32 else x % B32 - B32
  }

  function U64(x: int): (r: nat)
    ensures r < B64
  {
    x % B64
  }

  function S64(x: int): int {
    if x % B64 < B63 then x % B64 else x % B64 - B64
  }

  /** Division rounding towards zero, as the source language defines it. */
  function TruncDiv(n: int, d: int): int
    requires d != 0
  {
    var q := (if n < 0 then -n else n) / (if d < 0 then -d else d);
    if (n < 0) == (d < 0) then q else -q
  }

  function TruncRem(n: int, d: int): int
    requires d != 0
  {
    n - TruncDiv(n, d) * d
  }

  lemma {:induction false} Pow2Add(a: nat, b: nat)
    ensures Pow2(a + b) == Pow2(a) * Pow2(b)
    decreases a
  {
    if a > 0 {
      Pow2Add(a - 1, b);
      assert Pow2(a + b) == 2 * Pow2(a - 1 + b);
    }
  }

  lemma Pow2Next(n: nat)
    ensures Pow2(n + 1) == 2 * Pow2(n)
  {
  }

  lemma Pow2Values()
    ensures Pow2(0) == 1 && Pow2(1) == 2 && Pow2(5) == 32 && Pow2(31) == B31 && Pow2(32) == B32
    ensures Pow2(62) == 0x4000_0000_0000_0000 && Pow2(63) == B63 && Pow2(64) == B64
  {
    assert Pow2(2) == 4 && Pow2(3) == 8 && Pow2(4) == 16;
    assert Pow2(8) == 256 by { Pow2Add(4, 4); }
    assert Pow2(16) == 65536 by { Pow2Add(8, 8); }
    assert Pow2(32) == B32 by { Pow2Add(16, 16); }
    assert Pow2(32) == 2 * Pow2(31);
    assert Pow2(64) == B64 by { Pow2Add(32, 32); }
    assert Pow2(64) == 2 * Pow2(63) && Pow2(63) == 2 * Pow2(62);
  }

  lemma {:induction false} MulOrder(a: int, b: int, d: int)
    requires a <= b && d >= 0
    ensures a * d <= b * d
  {
    assert b * d == a * d + (b - a) * d;
    assert (b - a) * d >= 0;
  }

  lemma DivNatural(a: int, d: int)
    requires a >= 0 && d > 0
    ensures a / d >= 0
  {
  }

  /** The quotient is the one number with its product in reach. */
  lemma QuotientIs(n: int, d: int, q: int)
    requires d > 0 && q * d <= n < q * d + d
    ensures n / d == q
  {
    var k := n / d;
    assert k * d <= n < k * d + d;
    assert (k + 1) * d == k * d + d && (q + 1) * d == q * d + d;
    assert k + 1 <= q ==> (k + 1) * d <= q * d by {
      if k + 1 <= q { MulOrder(k + 1, q, d); }
    }
    assert q + 1 <= k ==> (q + 1) * d <= k * d by {
      if q + 1 <= k { MulOrder(q + 1, k, d); }
    }
  }

  lemma RemainderIs(n: int, d: int, q: int, r: int)
    requires d > 0 && n == q * d + r && 0 <= r < d
    ensures n % d == r && n / d == q
  {
    QuotientIs(n, d, q);
    assert n == (n / d) * d + n % d;
  }

  /** Dividing twice is dividing by the product. */
  lemma DivDiv(n: int, a: int, b: int)
    requires a > 0 && b > 0
    ensures a * b > 0 && n / a / b == n / (a * b)
  {
    var q := n / a / b;
    assert n == (n / a) * a + n % a;
    assert n / a == q * b + (n / a) % b;
    var r := (n / a) % b * a + n % a;
    assert (n / a) * a == q * b * a + (n / a) % b * a;
    assert n == q * (a * b) + r by {
      assert q * b * a == q * (a * b);
    }
    assert (n / a) % b * a <= (b - 1) * a;
    assert r < a * b by {
      assert (b - 1) * a == b * a - a;
    }
    assert a * b > 0;
    assert r >= 0 by { assert (n / a) % b * a >= 0; }
    RemainderIs(n, a * b, q, r);
  }

  /** A word in range is its own signed reading. */
  lemma S32Of(x: int)
    requires -B31 <= x < B31
    ensures S32(x) == x && S32(U32(x)) == x && U32(U32(x)) == U32(x)
  {
  }

  lemma S64Of(x: int)
    requires -B63 <= x < B63
    ensures S64(x) == x && S64(U64(x)) == x
  {
  }

  lemma U32Shift(x: int, k: int)
    ensures U32(x + k * B32) == U32(x)
  {
  }

  lemma U32Split(x: int) returns (k: int)
    ensures x == U32(x) + k * B32
  {
    k := x / B32;
  }

  lemma U32Idempotent(x: int)
    ensures U32(U32(x)) == U32(x)
  {
  }

  /** A word and its signed reading add alike. */
  lemma SignedWord(x: int, y: int)
    ensures U32(x + y) == U32(S32(x) + y) && U32(S32(x)) == U32(x) && U32(U32(x) + y) == U32(x + y)
  {
    var j := U32Split(x);
    U32Shift(U32(x) + y, j);
    U32Shift(U32(x) + y, -1);
    U32Shift(U32(x), -1);
  }

  lemma NegatedWord(x: int)
    ensures U32(0 - x) == U32(-S32(x)) && U32(0 - U32(x)) == U32(-x)
  {
    var j := U32Split(x);
    U32Shift(0 - U32(x), -j);
    U32Shift(0 - U32(x), 1);
  }

  /** Words compute modulo the word size. */
  lemma U32Add(x: int, y: int)
    ensures U32(U32(x) + U32(y)) == U32(x + y) && U32(U32(x) + y) == U32(x + y)
  {
    var j := U32Split(x);
    var k := U32Split(y);
    U32Shift(U32(x) + U32(y), j + k);
    U32Shift(U32(x) + y, j);
  }

  /** The low word of a double word. */
  lemma LowWord(x: int)
    ensures U32(U64(x)) == U32(x)
  {
    assert x == (x / B64) * B64 + x % B64;
    U32Shift(x % B64, (x / B64) * B32);
  }

  /** Multiply-subtract computes modulo the word size. */
  lemma U32MulSub(a: int, b: int, c: int, x: int, y: int, z: int)
    requires U32(a) == U32(x) && U32(b) == U32(y) && U32(c) == U32(z)
    ensures U32(c - a * b) == U32(z - x * y)
  {
    var i := SameWord(a, x);
    var j := SameWord(b, y);
    var k := SameWord(c, z);
    assert a * b == x * y + (x * j + i * y + i * j * B32) * B32 by {
      assert a * b == (x + i * B32) * (y + j * B32);
      assert (x + i * B32) * (y + j * B32) == x * y + x * (j * B32) + (i * B32) * y + (i * B32) * (j * B32);
      assert x * (j * B32) == (x * j) * B32 && (i * B32) * y == (i * y) * B32;
      assert (i * B32) * (j * B32) == (i * j * B32) * B32;
    }
    U32Shift(z - x * y, k - (x * j + i * y + i * j * B32));
  }

  lemma SameWord(a: int, x: int) returns (i: int)
    requires U32(a) == U32(x)
    ensures a == x + i * B32
  {
    i := a / B32 - x / B32;
  }

  /** The truncated remainder has the numerator's sign and the magnitudes' remainder. */
  lemma RemainderSign(n: int, d: int)
    requires d != 0
    ensures TruncRem(n, d) == if n < 0 then -((-n) % (if d < 0 then -d else d)) else n % (if d < 0 then -d else d)
  {
    var a, b := if n < 0 then -n else n, if d < 0 then -d else d;
    assert a == (a / b) * b + a % b;
    assert TruncDiv(n, d) * d == if n < 0 then -((a / b) * b) else (a / b) * b;
  }

  /** A mask of low ones keeps the remainder. */
  lemma {:induction false} MaskIsRemainder(w: nat, k: nat)
    ensures And(w, Pow2(k) - 1) == w % Pow2(k)
    decreases k
  {
    if k > 0 {
      var half := Pow2(k - 1);
      MaskIsRemainder(w / 2, k - 1);
      assert (2 * half - 1) / 2 == half - 1;
      HalvesRemain(w, half);
      if w > 0 && half == 1 { assert And(w / 2, 0) == 0; }
    }
  }

  lemma HalvesRemain(w: nat, half: nat)
    requires half > 0
    ensures w % (2 * half) == w % 2 + 2 * ((w / 2) % half)
  {
    var q, r := (w / 2) / half, (w / 2) % half;
    assert w / 2 == q * half + r;
    assert w == q * (2 * half) + (2 * r + w % 2);
    RemainderIs(w, 2 * half, q, 2 * r + w % 2);
  }
}
