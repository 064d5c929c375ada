/** The integer instructions of section C6.2 of the Arm Architecture Reference Manual that
    the selectors of constant arithmetic emit, and what they compute. */
module WordMachine {
  import opened Bits
  import opened Words
  import LogicalImmediate

  type Reg = nat

  datatype Flags = Flags(n: bool, z: bool, c: bool, v: bool)

  datatype Cond = LT | HS | MI

  predicate Passes(cond: Cond, f: Flags) {
    match cond
    case LT => f.n != f.v
    case HS => f.c
    case MI => f.n
  }

  /** The flags of a 64-bit subtraction. */
  function Compare64(a: nat, b: nat): Flags {
    var difference := U64(a - b);
    Flags(difference >= B63, difference == 0, U64(a) >= U64(b),
          S64(a) - S64(b) != S64(difference))
  }

  function Compare32(a: nat, b: nat): Flags {
    var difference := U32(a - b);
    Flags(difference >= B31, difference == 0, U32(a) >= U32(b),
          S32(a) - S32(b) != S32(difference))
  }

  datatype Op =
    | COPY | COPYXtoW | UXTW
    | MOVi32(value: int) | MOVi64(value: int)
    | NEGW | NEGX | ADDWrr | SUBWrr | SUBXrr
    | ADDWrs(shift: nat) | ADDWrsX(shift: nat)
    | LSLWri(shift: nat) | ASRWri(shift: nat) | LSRWri(shift: nat) | ASRXri(shift: nat)
    | ANDWri(mask: nat) | ADDWri(immediate: nat) | ADDWlsl(shift: nat)
    | ASRWrr | RBITW | CLZW
    | SMULLXrr | UMULHXrr | MSUBWrrr | MSUBXrrr | SDIVWrr | SDIVXrr
    | CSELX(cond: Cond) | CNEGW(cond: Cond)
    | CMPWri(immediate: nat) | CMPXri(immediate: nat) | CMPXrr

  predicate IsCompare(op: Op) {
    op.CMPWri? || op.CMPXri? || op.CMPXrr?
  }

  /** A definition of dst, or for a comparison of the flags alone. */
  datatype Instr = Instr(op: Op, dst: Reg, uses: seq<Reg>)

  datatype Machine = Machine(regs: Reg -> nat, flags: Flags)

  function Arg(m: Machine, uses: seq<Reg>, k: nat): nat {
    if k < |uses| then m.regs(uses[k]) else 0
  }

  /** Division by zero gives zero; the one overflowing quotient wraps. */
  function SignedQuotient(n: int, d: int): int {
    if d == 0 then 0 else TruncDiv(n, d)
  }

  /** The low n bits of w in the opposite order. */
  function ReverseBits(w: nat, n: nat): nat {
    if n == 0 then 0 else (if w % 2 == 1 then Pow2(n - 1) else 0) + ReverseBits(w / 2, n - 1)
  }

  /** The zeros above the highest set bit of an n-bit word. */
  function LeadingZeros(w: nat, n: nat): nat {
    if n == 0 || w >= Pow2(n - 1) then 0 else 1 + LeadingZeros(w, n - 1)
  }

  function ShiftRight(a: nat, shift: nat): nat {
    DivNatural(a, Pow2(shift));
    a / Pow2(shift)
  }

  function HighProduct(a: nat, b: nat): nat {
    a * b / B64
  }

  function Value(op: Op, a: nat, b: nat, c: nat, f: Flags): nat
    requires !IsCompare(op)
  {
    match op
    case COPY => a
    case COPYXtoW => U32(a)
    case UXTW => U32(a)
    case MOVi32(value) => U32(value)
    case MOVi64(value) => U64(value)
    case NEGW => U32(0 - a)
    case NEGX => U64(0 - a)
    case ADDWrr => U32(a + b)
    case SUBWrr => U32(a - b)
    case SUBXrr => U64(a - b)
    case ADDWrs(shift) => U32(a + U32(b) / Pow2(shift))
    case ADDWrsX(shift) => U32(a + U32(b) / Pow2(shift))
    case LSLWri(shift) => U32(U32(a) * Pow2(shift))
    case ASRWri(shift) => U32(S32(a) / Pow2(shift))
    case LSRWri(shift) => ShiftRight(U32(a), shift)
    case ASRXri(shift) => U64(S64(a) / Pow2(shift))
    case ANDWri(mask) => And(U32(a), mask)
    case ADDWri(immediate) => U32(a + immediate)
    case ADDWlsl(shift) => U32(a + U32(b) * Pow2(shift))
    case ASRWrr => U32(S32(a) / Pow2(U32(b) % 32))
    case RBITW => ReverseBits(U32(a), 32)
    case CLZW => LeadingZeros(U32(a), 32)
    case SMULLXrr => U64(S32(a) * S32(b))
    case UMULHXrr => HighProduct(U64(a), U64(b))
    case MSUBWrrr => U32(c - a * b)
    case MSUBXrrr => U64(c - a * b)
    case SDIVWrr => U32(SignedQuotient(S32(a), S32(b)))
    case SDIVXrr => U64(SignedQuotient(S64(a), S64(b)))
    case CSELX(cond) => if Passes(cond, f) then a else b
    case CNEGW(cond) => if Passes(cond, f) then U32(0 - a) else U32(a)
  }

  function NewFlags(op: Op, a: nat, b: nat): Flags
    requires IsCompare(op)
  {
    match op
    case CMPWri(immediate) => Compare32(a, immediate)
    case CMPXri(immediate) => Compare64(a, immediate)
    case CMPXrr => Compare64(a, b)
  }

  function Step(i: Instr, m: Machine): Machine {
    var a, b, c := Arg(m, i.uses, 0), Arg(m, i.uses, 1), Arg(m, i.uses, 2);
    if IsCompare(i.op) then
      m.(flags := NewFlags(i.op, a, b))
    else
      var value := Value(i.op, a, b, c, m.flags);
      m.(regs := r => if r == i.dst then value else m.regs(r))
  }

  function Run(code: seq<Instr>, m: Machine): Machine {
    if code == [] then m else Step(code[|code| - 1], Run(code[..|code| - 1], m))
  }

  /** The field widths of section C4.1: shifts stay inside the register, a mask is a bitmask immediate. */
  ghost predicate Encodable(op: Op) {
    match op
    case LSLWri(shift) => shift <= 31
    case ASRWri(shift) => shift <= 31
    case LSRWri(shift) => shift <= 31
    case ADDWrs(shift) => shift <= 31
    case ADDWrsX(shift) => shift <= 31
    case ASRXri(shift) => shift <= 63
    case ANDWri(mask) => LogicalImmediate.Bitmask(mask, 32)
    case CMPWri(immediate) => immediate <= 4095
    case CMPXri(immediate) => immediate <= 4095
    case ADDWri(immediate) => immediate <= 4095
    case ADDWlsl(shift) => shift <= 31
    case _ => true
  }

  /** After a comparison the conditions compare the signed and the unsigned readings. */
  lemma ConditionsCompare(a: nat, b: nat)
    ensures Passes(LT, Compare64(a, b)) <==> S64(a) < S64(b)
    ensures Passes(HS, Compare64(a, b)) <==> U64(a) >= U64(b)
    ensures b == 0 ==> (Passes(MI, Compare32(a, b)) <==> S32(a) < 0)
  {
  }

  /** Multiplications and divisions: what the selectors of constant arithmetic are there to avoid. */
  predicate IsMultiply(op: Op) {
    op.SMULLXrr? || op.UMULHXrr? || op.MSUBWrrr? || op.MSUBXrrr?
  }

  predicate IsDivide(op: Op) {
    op.SDIVWrr? || op.SDIVXrr?
  }

  ghost function Multiplies(code: seq<Instr>): nat {
    if code == [] then 0
    else Multiplies(code[..|code| - 1]) + if IsMultiply(code[|code| - 1].op) then 1 else 0
  }

  ghost function Divides(code: seq<Instr>): nat {
    if code == [] then 0 else Divides(code[..|code| - 1]) + if IsDivide(code[|code| - 1].op) then 1 else 0
  }

  ghost predicate AllEncodable(code: seq<Instr>) {
    forall k :: 0 <= k < |code| ==> Encodable(code[k].op)
  }

  lemma Appended(code: seq<Instr>, i: Instr, m: Machine)
    ensures AllEncodable(code + [i]) <==> AllEncodable(code) && Encodable(i.op)
    ensures Run(code + [i], m) == Step(i, Run(code, m))
    ensures Multiplies(code + [i]) == Multiplies(code) + if IsMultiply(i.op) then 1 else 0
    ensures Divides(code + [i]) == Divides(code) + if IsDivide(i.op) then 1 else 0
  {
    hide Step, Encodable;
    var longer := code + [i];
    assert longer[..|code|] == code && longer[|code|] == i;
    assert forall k :: 0 <= k < |code| ==> longer[k] == code[k];
  }

  /** The code selected so far, beside the machine it takes any starting machine to. */
  class Selection {
    var code: seq<Instr>
    var next: Reg
    ghost const start: Machine
    ghost var now: Machine
    ghost var encodable: bool
    ghost var multiplies: nat
    ghost var divides: nat

    ghost predicate Valid()
      reads this
    {
      && now == Run(code, start)
      && (encodable <==> AllEncodable(code))
      && multiplies == Multiplies(code) && divides == Divides(code)
    }

    constructor (firstFree: Reg, ghost start: Machine)
      ensures Valid() && code == [] && next == firstFree && now == start && encodable
      ensures multiplies == divides == 0
    {
      code, next := [], firstFree;
      this.start := start;
      now := start;
      encodable := true;
      multiplies, divides := 0, 0;
    }

    /** Appends a definition. */
    method Emit(op: Op, dst: Reg, uses: seq<Reg>)
      requires Valid() && !IsCompare(op)
      modifies this
      ensures Valid() && code == old(code) + [Instr(op, dst, uses)] && next == old(next)
      ensures now.flags == old(now).flags
      ensures now.regs(dst) ==
        Value(op, Arg(old(now), uses, 0), Arg(old(now), uses, 1), Arg(old(now), uses, 2), old(now).flags)
      ensures forall r: Reg :: r != dst ==> now.regs(r) == old(now).regs(r)
      ensures encodable == (old(encodable) && Encodable(op))
      ensures multiplies == old(multiplies) + (if IsMultiply(op) then 1 else 0)
      ensures divides == old(divides) + (if IsDivide(op) then 1 else 0)
    {
      hide Selection.Valid;
      Append(Instr(op, dst, uses));
    }

    method Fresh() returns (r: Reg)
      requires Valid()
      modifies this
      ensures Valid() && r == old(next) && next == r + 1
      ensures code == old(code) && now == old(now) && encodable == old(encodable)
      ensures multiplies == old(multiplies) && divides == old(divides)
    {
      r := next;
      next := next + 1;
    }

    /** Appends a definition of a fresh register. */
    method Temporary(op: Op, uses: seq<Reg>) returns (dst: Reg)
      requires Valid() && !IsCompare(op)
      modifies this
      ensures Valid() && code == old(code) + [Instr(op, dst, uses)]
      ensures dst == old(next) && next == dst + 1 && now.flags == old(now).flags
      ensures now.regs(dst) ==
        Value(op, Arg(old(now), uses, 0), Arg(old(now), uses, 1), Arg(old(now), uses, 2), old(now).flags)
      ensures forall r: Reg :: r != dst ==> now.regs(r) == old(now).regs(r)
      ensures encodable == (old(encodable) && Encodable(op))
      ensures multiplies == old(multiplies) + (if IsMultiply(op) then 1 else 0)
      ensures divides == old(divides) + (if IsDivide(op) then 1 else 0)
    {
      dst := Fresh();
      Emit(op, dst, uses);
    }

    /** Appends a comparison. */
    method Compare(op: Op, uses: seq<Reg>)
      requires Valid() && IsCompare(op)
      modifies this
      ensures Valid() && code == old(code) + [Instr(op, 0, uses)] && next == old(next)
      ensures now.flags == NewFlags(op, Arg(old(now), uses, 0), Arg(old(now), uses, 1))
      ensures forall r: Reg :: now.regs(r) == old(now).regs(r)
      ensures encodable == (old(encodable) && Encodable(op))
      ensures multiplies == old(multiplies) + (if IsMultiply(op) then 1 else 0)
      ensures divides == old(divides) + (if IsDivide(op) then 1 else 0)
    {
      Append(Instr(op, 0, uses));
    }

    method Append(i: Instr)
      requires Valid()
      modifies this
      ensures Valid() && code == old(code) + [i] && next == old(next) && now == Step(i, old(now))
      ensures encodable == (old(encodable) && Encodable(i.op))
      ensures multiplies == old(multiplies) + (if IsMultiply(i.op) then 1 else 0)
      ensures divides == old(divides) + (if IsDivide(i.op) then 1 else 0)
    {
      Appended(code, i, start);
      hide Step, Value, Encodable, AllEncodable, IsMultiply, IsDivide, Multiplies, Divides, Run;
      code := code + [i];
      now := Step(i, now);
      encodable := encodable && Encodable(i.op);
      if IsMultiply(i.op) { multiplies := multiplies + 1; }
      if IsDivide(i.op) { divides := divides + 1; }
    }
  }
}
