/** The bitmask immediates a single ORR can materialize: the test of the expansion of wide
    constants against the DecodeBitMasks function of the Arm Architecture Reference Manual. */
module LogicalImmediate {
  import opened Bits
  import opened Words

  /** DecodeBitMasks, bit by bit: an element of size bits holds a run of low ones rotated right,
      and is repeated over the register. */
  ghost predicate Decodes(value: nat, width: nat, size: nat, ones: nat, rotation: nat) {
    && size in {2, 4, 8, 16, 32, 64} && size <= width
    && 1 <= ones < size && rotation < size
    && forall k: nat :: k < width ==> (Bit(value, k) <==> Residue(k + rotation, size) < ones)
  }

  ghost predicate Bitmask(value: nat, width: nat) {
    exists size: nat, ones: nat, rotation: nat :: Decodes(value, width, size, ones, rotation)
  }

  ghost predicate RotatedRun(element: nat, size: nat, ones: nat, rotation: nat) {
    && 1 <= ones < size && rotation < size
    && forall i: nat :: i < size ==> (Bit(element, i) <==> Residue(i + rotation, size) < ones)
  }

  ghost predicate Periodic(value: nat, size: nat, below: nat)
    requires size > 0
  {
    forall k: nat {:trigger Residue(k, size)} :: k < below ==> (Bit(value, k) <==> Bit(value, Residue(k, size)))
  }

  function Residue(k: nat, size: nat): (r: nat)
    requires size > 0
    ensures r < size
  {
    k % size
  }

  function LowOnes(n: nat): nat {
    Pow2(n) - 1
  }

  /** A run of low ones rotated right inside its element, in 64-bit words. */
  function Rotated(size: nat, ones: nat, rotation: nat): nat
    requires rotation < size
  {
    var run := LowOnes(ones);
    if rotation == 0 then run
    else And(Or(ShiftDown(run, rotation), U64(ShiftUp(run, size - rotation))), LowOnes(size))
  }

  function ShiftDown(w: nat, k: nat): nat {
    DivNatural(w, Pow2(k));
    w / Pow2(k)
  }

  function ShiftUp(w: nat, k: nat): nat {
    w * Pow2(k)
  }

  lemma {:induction false} ShiftDownBits(w: nat, k: nat, i: nat)
    ensures Bit(ShiftDown(w, k), i) <==> Bit(w, i + k)
    decreases k
  {
    if k > 0 {
      var h := Pow2(k - 1);
      assert ShiftDown(w, k) == ShiftDown(w / 2, k - 1) by { DivDiv(w, 2, h); }
      ShiftDownBits(w / 2, k - 1, i);
    }
  }

  lemma {:induction false} ShiftUpBits(w: nat, k: nat, i: nat)
    ensures Bit(ShiftUp(w, k), i) <==> i >= k && Bit(w, i - k)
    decreases k
  {
    if k > 0 {
      var h := Pow2(k - 1);
      assert ShiftUp(w, k) == 2 * ShiftUp(w, k - 1) by {
        assert w * (2 * h) == 2 * (w * h);
      }
      if i > 0 { ShiftUpBits(w, k - 1, i - 1); }
    }
  }

  lemma {:induction false} LowOnesBits(n: nat, i: nat)
    ensures Bit(LowOnes(n), i) <==> i < n
    decreases n
  {
    if n == 0 {
      ZeroHasNoBits(i);
    } else if i > 0 {
      assert LowOnes(n) / 2 == LowOnes(n - 1);
      LowOnesBits(n - 1, i - 1);
    }
  }

  /** Truncation to 64 bits leaves every bit of an element alone. */
  lemma TruncatedBits(w: nat, i: nat)
    requires i < 64
    ensures Bit(U64(w), i) <==> Bit(w, i)
  {
    Pow2Values();
    MaskIsRemainder(w, 64);
    AndBits(w, LowOnes(64), i);
    LowOnesBits(64, i);
  }

  lemma WrapOnce(i: nat, rotation: nat, size: nat)
    requires i < size && rotation < size
    ensures Residue(i + rotation, size) == if i + rotation < size then i + rotation else i + rotation - size
  {
    if i + rotation < size {
      RemainderIs(i + rotation, size, 0, i + rotation);
    } else {
      RemainderIs(i + rotation, size, 1, i + rotation - size);
    }
  }

  lemma RotatedBits(size: nat, ones: nat, rotation: nat, i: nat)
    requires 1 <= ones < size <= 64 && rotation < size
    ensures Bit(Rotated(size, ones, rotation), i) <==> i < size && Residue(i + rotation, size) < ones
  {
    var run := LowOnes(ones);
    LowOnesBits(ones, i);
    if i < size { WrapOnce(i, rotation, size); }
    if rotation != 0 {
      var down, up := ShiftDown(run, rotation), U64(ShiftUp(run, size - rotation));
      AndBits(Or(down, up), LowOnes(size), i);
      LowOnesBits(size, i);
      if i < size {
        OrBits(down, up, i);
        ShiftDownBits(run, rotation, i);
        LowOnesBits(ones, i + rotation);
        TruncatedBits(ShiftUp(run, size - rotation), i);
        ShiftUpBits(run, size - rotation, i);
        if i >= size - rotation { LowOnesBits(ones, i - (size - rotation)); }
      }
    }
  }

  /** Comparing the words compares the bits. */
  lemma SameRun(element: nat, size: nat, ones: nat, rotation: nat)
    requires 1 <= ones < size <= 64 && rotation < size && element < Pow2(size)
    ensures element == Rotated(size, ones, rotation) <==> RotatedRun(element, size, ones, rotation)
  {
    forall i: nat
      ensures Bit(Rotated(size, ones, rotation), i) <==> i < size && Residue(i + rotation, size) < ones
    {
      RotatedBits(size, ones, rotation, i);
    }
    if RotatedRun(element, size, ones, rotation) {
      forall i: nat ensures Bit(element, i) <==> Bit(Rotated(size, ones, rotation), i) {
        if i >= size { BoundedBits(element, size, i); }
      }
      BitsDetermine(element, Rotated(size, ones, rotation));
    }
  }

  lemma SliceResidue(offset: nat, size: nat, i: nat)
    requires size > 0 && offset % size == 0 && i < size
    ensures Residue(i + offset, size) == i
  {
    RemainderIs(i + offset, size, offset / size, i);
  }

  lemma SliceBits(value: nat, offset: nat, size: nat, i: nat)
    ensures Bit(And(ShiftDown(value, offset), LowOnes(size)), i) <==> i < size && Bit(value, i + offset)
  {
    AndBits(ShiftDown(value, offset), LowOnes(size), i);
    LowOnesBits(size, i);
    ShiftDownBits(value, offset, i);
  }

  predicate BitAbove(value: nat, offset: nat, i: nat) {
    Bit(value, i + offset)
  }

  ghost predicate SliceRepeats(value: nat, offset: nat, size: nat) {
    forall i: nat {:trigger BitAbove(value, offset, i)} :: i < size ==> (BitAbove(value, offset, i) <==> Bit(value, i))
  }

  /** The slice at an offset equals the lowest slice exactly when their bits agree. */
  lemma SameSlice(value: nat, offset: nat, size: nat)
    ensures And(ShiftDown(value, offset), LowOnes(size)) == And(value, LowOnes(size))
       <==> SliceRepeats(value, offset, size)
  {
    hide And, ShiftDown, LowOnes, Bit;
    var there, here := And(ShiftDown(value, offset), LowOnes(size)), And(value, LowOnes(size));
    forall i: nat
      ensures Bit(there, i) <==> i < size && BitAbove(value, offset, i)
      ensures Bit(here, i) <==> i < size && Bit(value, i)
    {
      SliceBits(value, offset, size, i);
      AndBits(value, LowOnes(size), i);
      LowOnesBits(size, i);
    }
    if SliceRepeats(value, offset, size) {
      BitsDetermine(there, here);
    }
  }

  lemma PeriodicStep(value: nat, size: nat, offset: nat)
    requires size > 0 && offset % size == 0
    ensures Periodic(value, size, offset + size)
       <==> Periodic(value, size, offset) && SliceRepeats(value, offset, size)
  {
    hide Bit, Residue;
    if Periodic(value, size, offset) && SliceRepeats(value, offset, size) {
      forall k: nat | k < offset + size ensures Bit(value, k) <==> Bit(value, Residue(k, size)) {
        if k >= offset {
          SliceResidue(offset, size, k - offset);
          assert BitAbove(value, offset, k - offset) <==> Bit(value, k - offset);
        }
      }
    }
    if Periodic(value, size, offset + size) {
      forall i: nat | i < size ensures BitAbove(value, offset, i) <==> Bit(value, i) {
        SliceResidue(offset, size, i);
      }
      assert Periodic(value, size, offset);
    }
  }

  lemma NextMultiple(offset: nat, size: nat, width: nat)
    requires 0 < size && offset % size == 0 && width % size == 0 && offset < width
    ensures offset + size <= width && (offset + size) % size == 0
  {
    var count, whole := offset / size, width / size;
    assert offset == count * size && width == whole * size;
    if count >= whole { MulOrder(whole, count, size); }
    MulOrder(count + 1, whole, size);
    assert (count + 1) * size == count * size + size;
    RemainderIs(offset + size, size, count + 1, 0);
  }

  lemma FirstPeriod(value: nat, size: nat)
    requires size > 0
    ensures Periodic(value, size, size)
  {
    forall k: nat | k < size ensures Residue(k, size) == k { RemainderIs(k, size, 0, k); }
  }

  method Repeats(value: nat, size: nat, width: nat) returns (repeats: bool)
    requires size > 0 && width % size == 0 && size <= width
    ensures repeats <==> Periodic(value, size, width)
  {
    hide Periodic, And, ShiftDown, LowOnes, SliceRepeats;
    repeats := true;
    var offset := size;
    FirstPeriod(value, size);
    RemainderIs(size, size, 1, 0);
    while offset < width
      invariant offset % size == 0 && offset <= width
      invariant repeats <==> Periodic(value, size, offset)
    {
      NextMultiple(offset, size, width);
      SameSlice(value, offset, size);
      PeriodicStep(value, size, offset);
      repeats := repeats && And(ShiftDown(value, offset), LowOnes(size)) == And(value, LowOnes(size));
      offset := offset + size;
    }
  }

  method MatchesRun(element: nat, size: nat) returns (found: bool)
    requires size <= 64 && element < Pow2(size)
    ensures found <==> exists ones: nat, rotation: nat :: RotatedRun(element, size, ones, rotation)
  {
    var ones := 1;
    while ones < size
      invariant 1 <= ones
      invariant forall n: nat, r: nat :: n < ones ==> !RotatedRun(element, size, n, r)
      decreases size - ones
    {
      var rotation := 0;
      while rotation < size
        invariant 0 <= rotation <= size
        invariant forall n: nat, r: nat :: n < ones || (n == ones && r < rotation)
                                          ==> !RotatedRun(element, size, n, r)
      {
        SameRun(element, size, ones, rotation);
        if Rotated(size, ones, rotation) == element { return true; }
        rotation := rotation + 1;
      }
      ones := ones + 1;
    }
    return false;
  }

  lemma RotatedRunMixed(element: nat, size: nat, ones: nat, rotation: nat)
    requires RotatedRun(element, size, ones, rotation)
    ensures element != 0 && element != LowOnes(size)
  {
    var one := if rotation == 0 then 0 else size - rotation;
    var zero := if ones >= rotation then ones - rotation else ones + size - rotation;
    WrapOnce(one, rotation, size);
    WrapOnce(zero, rotation, size);
    assert Bit(element, one) && !Bit(element, zero);
    ZeroHasNoBits(one);
    LowOnesBits(size, zero);
  }

  lemma SameResidue(k: nat, rotation: nat, size: nat)
    requires size > 0
    ensures Residue(k, size) < size && Residue(Residue(k, size) + rotation, size) == Residue(k + rotation, size)
  {
    var q, p := k / size, (k % size + rotation) / size;
    var r := Residue(Residue(k, size) + rotation, size);
    assert k == q * size + k % size && k % size + rotation == p * size + r;
    assert (q + p) * size == q * size + p * size;
    RemainderIs(k + rotation, size, q + p, r);
  }

  /** A value decodes with an element size exactly when it is periodic and its element is a run. */
  lemma DecodesByElement(value: nat, width: nat, size: nat, ones: nat, rotation: nat)
    requires size in {2, 4, 8, 16, 32, 64} && size <= width
    ensures Decodes(value, width, size, ones, rotation)
       <==> Periodic(value, size, width) && RotatedRun(And(value, LowOnes(size)), size, ones, rotation)
  {
    hide Bit, Residue;
    var element := And(value, LowOnes(size));
    forall i: nat | i < size ensures Bit(element, i) <==> Bit(value, i) {
      AndBits(value, LowOnes(size), i);
      LowOnesBits(size, i);
    }
    if Decodes(value, width, size, ones, rotation) {
      forall k: nat | k < width ensures Bit(value, k) <==> Bit(value, Residue(k, size)) {
        SameResidue(k, rotation, size);
      }
    } else if Periodic(value, size, width) && RotatedRun(element, size, ones, rotation) {
      forall k: nat | k < width ensures Bit(value, k) <==> Residue(k + rotation, size) < ones {
        SameResidue(k, rotation, size);
        assert Bit(value, k) <==> Bit(value, Residue(k, size));
        assert Bit(element, Residue(k, size)) <==> Bit(value, Residue(k, size));
      }
    }
  }

  lemma BitmaskMixed(value: nat, width: nat)
    requires Bitmask(value, width)
    ensures value != 0 && value != LowOnes(width)
  {
    var size: nat, ones: nat, rotation: nat :| Decodes(value, width, size, ones, rotation);
    DecodesByElement(value, width, size, ones, rotation);
    RotatedRunMixed(And(value, LowOnes(size)), size, ones, rotation);
    if value == LowOnes(width) {
      forall i: nat ensures Bit(And(value, LowOnes(size)), i) <==> Bit(LowOnes(size), i) {
        AndBits(value, LowOnes(size), i);
        LowOnesBits(width, i);
        LowOnesBits(size, i);
      }
      BitsDetermine(And(value, LowOnes(size)), LowOnes(size));
    }
  }

  method MatchesElement(value: nat, size: nat, width: nat) returns (found: bool)
    requires size in {2, 4, 8, 16, 32, 64} && size <= width && width in {32, 64}
    ensures found <==> exists ones: nat, rotation: nat :: Decodes(value, width, size, ones, rotation)
  {
    var element := And(value, LowOnes(size));
    var repeats := Repeats(value, size, width);
    forall ones: nat, rotation: nat
      ensures Decodes(value, width, size, ones, rotation)
         <==> repeats && RotatedRun(element, size, ones, rotation)
    {
      DecodesByElement(value, width, size, ones, rotation);
    }
    if !repeats || element == 0 || element == LowOnes(size) {
      forall ones: nat, rotation: nat ensures !Decodes(value, width, size, ones, rotation) {
        if RotatedRun(element, size, ones, rotation) {
          RotatedRunMixed(element, size, ones, rotation);
        }
      }
      return false;
    }
    assert element < Pow2(size) by { AndBelow(value, LowOnes(size)); }
    found := MatchesRun(element, size);
    if found {
      ghost var ones: nat, rotation: nat :| RotatedRun(element, size, ones, rotation);
      assert Decodes(value, width, size, ones, rotation);
    }
  }

  /** The search accepts exactly the values that DecodeBitMasks can produce. */
  method IsLogicalImmediate(value: nat, width: nat) returns (logical: bool)
    requires width in {32, 64}
    ensures logical <==> Bitmask(And(value, LowOnes(width)), width)
  {
    var masked := And(value, LowOnes(width));
    if masked == 0 || masked == LowOnes(width) {
      assert !Bitmask(masked, width) by {
        if Bitmask(masked, width) { BitmaskMixed(masked, width); }
      }
      return false;
    }
    var size := 2;
    while size <= width
      invariant size in {2, 4, 8, 16, 32, 64, 128}
      invariant forall s: nat, ones: nat, rotation: nat :: s < size ==> !Decodes(masked, width, s, ones, rotation)
      decreases 128 - size
    {
      var found := MatchesElement(masked, size, width);
      if found { return true; }
      size := size * 2;
    }
    return false;
  }
}
