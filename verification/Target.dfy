/** Physical registers of the AArch64 target, numbered as the PhysReg enumeration numbers them. */
module Target {

  datatype RegClass = Invalid | GPR32 | GPR64 | FPR32 | NEON128 | CCR

  const X0: nat := 1
  const X17: nat := 18
  const X18: nat := 19
  const X19: nat := 20
  const X28: nat := 29
  const X29: nat := 30
  const X30: nat := 31
  const SP: nat := 32
  const XZR: nat := 33
  const V0: nat := 34
  const V7: nat := 41
  const V8: nat := 42
  const V15: nat := 49
  const V16: nat := 50
  const V31: nat := 65
  const NZCV: nat := 66

  predicate IsVectorClass(cls: RegClass) {
    cls == FPR32 || cls == NEON128
  }

  predicate IsGprClass(cls: RegClass) {
    cls == GPR32 || cls == GPR64
  }

  predicate SameBank(a: RegClass, b: RegClass) {
    (IsGprClass(a) && IsGprClass(b)) || (IsVectorClass(a) && IsVectorClass(b))
  }

  predicate IsReserved(reg: nat) {
    reg == 0 || reg == SP || reg == XZR || reg == X18 || reg == X29 || reg == X30 || reg == NZCV
  }

  predicate IsCallerSaved(reg: nat) {
    X0 <= reg <= X17 || V0 <= reg <= V7 || V16 <= reg <= V31
  }

  predicate IsCalleeSaved(reg: nat) {
    X19 <= reg <= X28 || V8 <= reg <= V15
  }

  /** The registers an operand of the given class can name. */
  predicate InBank(reg: nat, cls: RegClass) {
    if IsGprClass(cls) then X0 <= reg <= X28 && reg != X18
    else if IsVectorClass(cls) then V0 <= reg <= V31
    else false
  }

  /** Registers first .. first + count - 1. */
  function Ascending(first: nat, count: nat): (s: seq<nat>)
    ensures |s| == count
    ensures forall i :: 0 <= i < count ==> s[i] == first + i
  {
    seq(count, i requires 0 <= i < count => first + i)
  }

  /** Registers last, last - 1, ..., last - count + 1. */
  function Descending(last: nat, count: nat): (s: seq<nat>)
    requires count <= last + 1
    ensures |s| == count
    ensures forall i :: 0 <= i < count ==> s[i] == last - i
  {
    seq(count, i requires 0 <= i < count => (last - i) as nat)
  }

  /** The order in which the allocator tries the registers of a bank. */
  function AllocationOrder(cls: RegClass, preferCallerSaved: bool): seq<nat> {
    if IsGprClass(cls) then
      if preferCallerSaved
      then Ascending(X0 + 9, 9) + [X0 + 8] + Descending(X0 + 7, 8) + Ascending(X19, 10)
      else Ascending(X0 + 9, 9) + Ascending(X19, 10) + [X0 + 8] + Descending(X0 + 7, 8)
    else if IsVectorClass(cls) then
      if preferCallerSaved
      then Ascending(V16, 16) + Descending(V7, 8) + Ascending(V8, 8)
      else Ascending(V16, 16) + Ascending(V8, 8) + Descending(V7, 8)
    else []
  }

  /** The allocation order lists exactly the registers of the bank. */
  lemma AllocationOrderIsBank(cls: RegClass, preferCallerSaved: bool, reg: nat)
    ensures reg in AllocationOrder(cls, preferCallerSaved) <==> InBank(reg, cls)
  {
    var order := AllocationOrder(cls, preferCallerSaved);
    if IsGprClass(cls) {
      assert reg in Ascending(X0 + 9, 9) <==> X0 + 9 <= reg <= X17 by {
        if X0 + 9 <= reg <= X17 { assert Ascending(X0 + 9, 9)[reg - X0 - 9] == reg; }
      }
      assert reg in Ascending(X19, 10) <==> X19 <= reg <= X28 by {
        if X19 <= reg <= X28 { assert Ascending(X19, 10)[reg - X19] == reg; }
      }
      assert reg in Descending(X0 + 7, 8) <==> X0 <= reg <= X0 + 7 by {
        if X0 <= reg <= X0 + 7 { assert Descending(X0 + 7, 8)[X0 + 7 - reg] == reg; }
      }
    } else if IsVectorClass(cls) {
      assert reg in Ascending(V16, 16) <==> V16 <= reg <= V31 by {
        if V16 <= reg <= V31 { assert Ascending(V16, 16)[reg - V16] == reg; }
      }
      assert reg in Ascending(V8, 8) <==> V8 <= reg <= V15 by {
        if V8 <= reg <= V15 { assert Ascending(V8, 8)[reg - V8] == reg; }
      }
      assert reg in Descending(V7, 8) <==> V0 <= reg <= V7 by {
        if V0 <= reg <= V7 { assert Descending(V7, 8)[V7 - reg] == reg; }
      }
    }
  }

  /** A colour that is neither reserved nor caller-saved survives a call. */
  lemma UnreservedIsPreserved(reg: nat, cls: RegClass)
    requires InBank(reg, cls)
    ensures !IsReserved(reg)
    ensures IsCallerSaved(reg) <==> !IsCalleeSaved(reg)
  {
  }

  /** No register is listed twice. */
  lemma AllocationOrderDistinct(cls: RegClass, preferCallerSaved: bool, i: nat, j: nat)
    requires i < j < |AllocationOrder(cls, preferCallerSaved)|
    ensures AllocationOrder(cls, preferCallerSaved)[i] != AllocationOrder(cls, preferCallerSaved)[j]
  {
  }

  predicate PassesArguments(reg: nat) {
    X0 <= reg <= X0 + 8 || V0 <= reg <= V7
  }

  /** A function without calls tries every register it need not save before those it must; others keep the
      registers of arguments and results for last. */
  lemma AllocationOrderPrefers(cls: RegClass, preferCallerSaved: bool, i: nat, j: nat)
    requires i < j < |AllocationOrder(cls, preferCallerSaved)|
    ensures var order := AllocationOrder(cls, preferCallerSaved);
      if preferCallerSaved then IsCalleeSaved(order[i]) ==> !IsCallerSaved(order[j])
      else PassesArguments(order[i]) ==> PassesArguments(order[j])
  {
  }
}
