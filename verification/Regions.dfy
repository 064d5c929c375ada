/**
 What reordering a straight stretch of code means: instructions with registers, flags and
 byte-addressed memory, the dependences between two of them, and the proof that every
 order that keeps the dependences has the same effect.
 */
module Regions {

  /** Registers by key, physical ones and the flags included. */
  type Key = nat

  const FLAGS: Key := 0

  datatype Option<T> = None | Some(value: T)

  datatype Operand =
    | Register(key: Key, isDef: bool)
    | Immediate(value: int)
    | Symbol(name: nat)
    | Other

  datatype MemOperand = MemOperand(size: nat, frameIndex: Option<nat>, isVolatile: bool)

  /** base is the operand index of the base register in opcodes with a base and an immediate. */
  datatype Instr = Instr(
    op: nat, operands: seq<Operand>, base: Option<nat>, readsFlags: bool, definesFlags: bool,
    mayLoad: bool, mayStore: bool, memory: seq<MemOperand>,
    isTerminator: bool, isCall: bool, isPseudo: bool, hasSideEffects: bool, inParallelCopy: bool)

  /** Instructions that keep their place. */
  predicate Barrier(i: Instr) {
    || i.isTerminator || i.isCall || i.isPseudo || i.hasSideEffects || i.inParallelCopy
    || exists o :: o in i.memory && o.isVolatile
  }

  function DefKeys(i: Instr): set<Key> {
    (set o | o in i.operands && o.Register? && o.isDef :: o.key) + (if i.definesFlags then {FLAGS} else {})
  }

  function UseKeys(i: Instr): set<Key> {
    (set o | o in i.operands && o.Register? && !o.isDef :: o.key) + (if i.readsFlags then {FLAGS} else {})
  }

  /** The first symbol among the operands. */
  function SymbolOf(operands: seq<Operand>): Option<nat> {
    if operands == [] then None
    else if operands[0].Symbol? then Some(operands[0].name)
    else SymbolOf(operands[1..])
  }

  const MIN64: int := -0x8000_0000_0000_0000
  const MAX64: int := 0x7FFF_FFFF_FFFF_FFFF
  const SPAN: int := 0x1_0000_0000_0000_0000

  /** Does the instruction address memory by a register and an immediate? */
  predicate BaseForm(i: Instr) {
    && i.base.Some?
    && i.base.value + 1 < |i.operands|
    && i.operands[i.base.value].Register?
    && i.operands[i.base.value + 1].Immediate?
  }

  function Begin(i: Instr): int
    requires BaseForm(i)
  {
    i.operands[i.base.value + 1].value
  }

  /** May two accesses overlap? The end of a range may not leave the 64-bit integers. */
  predicate MayAlias(x: Instr, y: Instr) {
    if x.memory == [] || y.memory == [] then true
    else
      var a, b := x.memory[0], y.memory[0];
      if a.isVolatile || b.isVolatile then true
      else if a.frameIndex.Some? && b.frameIndex.Some? && a.frameIndex != b.frameIndex then false
      else
        var s, t := SymbolOf(x.operands), SymbolOf(y.operands);
        if s.Some? && t.Some? && s != t then false
        else if !BaseForm(x) || !BaseForm(y) then true
        else if x.operands[x.base.value].key != y.operands[y.base.value].key then true
        else if a.size == 0 || b.size == 0 then true
        else
          var aEnd, bEnd := Begin(x) + a.size, Begin(y) + b.size;
          if aEnd > MAX64 || bEnd > MAX64 then true
          else !(aEnd <= Begin(y) || bEnd <= Begin(x))
  }

  predicate RegisterDependence(x: Instr, y: Instr) {
    DefKeys(x) * UseKeys(y) != {} || UseKeys(x) * DefKeys(y) != {} || DefKeys(x) * DefKeys(y) != {}
  }

  predicate MemoryDependence(x: Instr, y: Instr) {
    (x.mayLoad || x.mayStore) && (y.mayLoad || y.mayStore) && (x.mayStore || y.mayStore) && MayAlias(x, y)
  }

  predicate Depends(x: Instr, y: Instr) {
    RegisterDependence(x, y) || MemoryDependence(x, y)
  }

  /** The instruction writes this register, or the flags. */
  ghost predicate Defines(i: Instr, k: Key) {
    (exists o :: o in i.operands && o.Register? && o.isDef && o.key == k) || (i.definesFlags && k == FLAGS)
  }

  /** The instruction reads this register, or the flags. */
  ghost predicate Reads(i: Instr, k: Key) {
    (exists o :: o in i.operands && o.Register? && !o.isDef && o.key == k) || (i.readsFlags && k == FLAGS)
  }

  /** One of the two writes what the other reads or writes. */
  ghost predicate Conflict(x: Instr, y: Instr, k: Key) {
    (Defines(x, k) && (Reads(y, k) || Defines(y, k))) || (Reads(x, k) && Defines(y, k))
  }

  lemma KeysExactly(i: Instr)
    ensures forall k: Key :: (k in DefKeys(i) <==> Defines(i, k)) && (k in UseKeys(i) <==> Reads(i, k))
  {
    forall k: Key ensures k in DefKeys(i) <==> Defines(i, k) { }
    forall k: Key ensures k in UseKeys(i) <==> Reads(i, k) { }
  }

  /** Two instructions are kept in order for registers exactly when they conflict. */
  lemma RegistersExactly(x: Instr, y: Instr)
    ensures RegisterDependence(x, y) <==> exists k :: Conflict(x, y, k)
  {
    KeysExactly(x);
    KeysExactly(y);
    hide Defines, Reads, DefKeys, UseKeys;
    if RegisterDependence(x, y) {
      var k :| k in DefKeys(x) * UseKeys(y) + UseKeys(x) * DefKeys(y) + DefKeys(x) * DefKeys(y);
      assert Conflict(x, y, k);
    }
    forall k: Key | Conflict(x, y, k) ensures RegisterDependence(x, y) {
      assert k in DefKeys(x) * UseKeys(y) || k in UseKeys(x) * DefKeys(y) || k in DefKeys(x) * DefKeys(y);
    }
  }

  /** And for memory when both access it, one of them stores, and they may alias. */
  lemma DependsExactly(x: Instr, y: Instr)
    ensures Depends(x, y) <==> (exists k :: Conflict(x, y, k)) || (OneStores(x, y) && MayAlias(x, y))
  {
    RegistersExactly(x, y);
    hide RegisterDependence, MayAlias, Conflict;
  }

  ghost predicate OneStores(x: Instr, y: Instr) {
    (x.mayStore && (y.mayLoad || y.mayStore)) || (x.mayLoad && y.mayStore)
  }

  // What the instructions do

  type Address = nat
  type Byte = nat

  datatype State = State(regs: imap<Key, nat>, mem: imap<Address, Byte>)

  /** Arbitrary meanings: the addresses an instruction touches and the values it computes are
      functions of its operands and of the bytes it touches. */
  datatype Machine = Machine(
    touched: (Instr, seq<nat>) -> set<Address>,
    computed: (Instr, seq<nat>, map<Address, Byte>, Key) -> nat,
    stored: (Instr, seq<nat>, map<Address, Byte>, Address) -> Byte,
    frameObject: nat -> iset<Address>,
    symbolObject: nat -> iset<Address>,
    opaque_: (Instr, State) -> State)

  ghost function Reg(s: State, k: Key): nat {
    if k in s.regs then s.regs[k] else 0
  }

  ghost function Mem(s: State, a: Address): Byte {
    if a in s.mem then s.mem[a] else 0
  }

  ghost function OperandValue(s: State, o: Operand): nat {
    if o.Register? && !o.isDef then Reg(s, o.key) else 0
  }

  /** The values an instruction reads: its flags input, then its operands in order. */
  ghost function Args(i: Instr, s: State): (args: seq<nat>)
    ensures |args| == |i.operands| + 1
  {
    [if i.readsFlags then Reg(s, FLAGS) else 0] +
    seq(|i.operands|, k requires 0 <= k < |i.operands| => OperandValue(s, i.operands[k]))
  }

  ghost function Touched(m: Machine, i: Instr, s: State): set<Address> {
    if i.mayLoad || i.mayStore then m.touched(i, Args(i, s)) else {}
  }

  ghost function Loaded(m: Machine, i: Instr, s: State): map<Address, Byte> {
    if i.mayLoad then map a | a in Touched(m, i, s) :: Mem(s, a) else map[]
  }

  /** What is not described here may do anything: leave the block, call, stand for other code, have side
      effects, or access memory that others watch. */
  ghost predicate Opaque(i: Instr) {
    i.isTerminator || i.isCall || i.isPseudo || i.hasSideEffects || exists o :: o in i.memory && o.isVolatile
  }

  ghost function Exec(m: Machine, i: Instr, s: State): State {
    if Opaque(i) then m.opaque_(i, s)
    else After(m, i, Args(i, s), Loaded(m, i, s), Touched(m, i, s), s)
  }

  /** The state after an instruction with the given inputs. */
  ghost function After(m: Machine, i: Instr, args: seq<nat>, loaded: map<Address, Byte>, touched: set<Address>,
                       s: State): State {
    State(imap k: Key | true ::
            if Defines(i, k) then m.computed(i, args, loaded, k) else if k in s.regs then s.regs[k] else 0,
          Written(if i.mayStore then touched else {}, a => m.stored(i, args, loaded, a), s.mem))
  }

  lemma AfterWrites(m: Machine, i: Instr, args: seq<nat>, loaded: map<Address, Byte>, touched: set<Address>, s: State)
    ensures After(m, i, args, loaded, touched, s).regs
         == Written(DefKeys(i), k => m.computed(i, args, loaded, k), s.regs)
  {
    forall k: Key ensures k in DefKeys(i) <==> Defines(i, k) {
    }
  }

  /** New values at some places, the old ones elsewhere. */
  ghost function Written(places: set<nat>, value: nat -> nat, old_: imap<nat, nat>): imap<nat, nat> {
    imap k: nat | true :: if k in places then value(k) else if k in old_ then old_[k] else 0
  }

  lemma WritesCommute(p: set<nat>, q: set<nat>, f: nat -> nat, g: nat -> nat, base: imap<nat, nat>)
    requires p !! q
    ensures Written(q, g, Written(p, f, base)) == Written(p, f, Written(q, g, base))
  {
  }

  ghost function Run(m: Machine, code: seq<Instr>, s: State): State {
    if code == [] then s else Run(m, code[1..], Exec(m, code[0], s))
  }

  // The hypotheses about memory operands

  /** Different frame objects, and different symbols, do not share bytes. */
  ghost predicate Laid(m: Machine) {
    && (forall f, g :: f != g ==> m.frameObject(f) !! m.frameObject(g))
    && (forall f, g :: f != g ==> m.symbolObject(f) !! m.symbolObject(g))
  }

  /** The access stays inside what its memory operand, symbol and addressing mode say. */
  ghost predicate Honest(m: Machine, i: Instr, s: State) {
    HonestAt(m, i, Touched(m, i, s), BaseValue(i, s))
  }

  ghost function BaseValue(i: Instr, s: State): nat {
    if BaseForm(i) then Reg(s, i.operands[i.base.value].key) else 0
  }

  ghost predicate HonestAt(m: Machine, i: Instr, touched: set<Address>, base: nat) {
    i.memory != [] ==>
      && (i.memory[0].frameIndex.Some? ==>
            forall a :: a in touched ==> a in m.frameObject(i.memory[0].frameIndex.value))
      && (SymbolOf(i.operands).Some? ==>
            forall a :: a in touched ==> a in m.symbolObject(SymbolOf(i.operands).value))
      && (BaseForm(i) && i.memory[0].size > 0 ==>
            forall a :: a in touched ==> InRange(a, base + Begin(i), i.memory[0].size))
  }

  /** One of size bytes from an address on, around the end of the address space. */
  ghost predicate InRange(a: Address, begin: int, size: nat) {
    a < SPAN && (a - begin) % SPAN < size
  }

  ghost predicate HonestRun(m: Machine, code: seq<Instr>, s: State) {
    code != [] ==> Honest(m, code[0], s) && HonestRun(m, code[1..], Exec(m, code[0], s))
  }

  /** Immediates are 64-bit integers and a base register is read. */
  predicate Encoded(i: Instr) {
    BaseForm(i) ==> !i.operands[i.base.value].isDef && MIN64 <= Begin(i) <= MAX64
  }

  // Independent instructions commute

  /** Two ranges from one base that stay apart as 64-bit integers share no byte. */
  lemma RangesApart(a: Address, base: int, x: int, y: int, sizeX: nat, sizeY: nat)
    requires MIN64 <= x && x + sizeX <= MAX64 && MIN64 <= y && y + sizeY <= MAX64
    requires x + sizeX <= y || y + sizeY <= x
    ensures !(InRange(a, base + x, sizeX) && InRange(a, base + y, sizeY))
  {
    var i, j := (a - (base + x)) % SPAN, (a - (base + y)) % SPAN;
    var q, r := (a - (base + x)) / SPAN, (a - (base + y)) / SPAN;
    assert x + i - (y + j) == (r - q) * SPAN;
  }

  /** The alias test is sound where both accesses see the same base value. */
  lemma AliasSound(m: Machine, x: Instr, y: Instr, s: State)
    requires Laid(m) && Honest(m, x, s) && Honest(m, y, s) && Encoded(x) && Encoded(y)
    requires !MayAlias(x, y)
    ensures Touched(m, x, s) !! Touched(m, y, s)
  {
    var a, b := x.memory[0], y.memory[0];
    forall t | t in Touched(m, x, s) ensures t !in Touched(m, y, s) {
      if a.frameIndex.Some? && b.frameIndex.Some? && a.frameIndex != b.frameIndex {
        assert t in m.frameObject(a.frameIndex.value);
        assert t !in m.frameObject(b.frameIndex.value);
      } else if SymbolOf(x.operands).Some? && SymbolOf(y.operands).Some?
        && SymbolOf(x.operands) != SymbolOf(y.operands) {
        assert t in m.symbolObject(SymbolOf(x.operands).value);
        assert t !in m.symbolObject(SymbolOf(y.operands).value);
      } else {
        RangesApart(t, BaseValue(x, s), Begin(x), Begin(y), a.size, b.size);
      }
    }
  }

  /** A range of one access is what its base register and its size say. */
  predicate Ranged(i: Instr) {
    i.memory != [] && BaseForm(i) && i.memory[0].size > 0
  }

  /** The value of a base register that puts a given offset at address zero. */
  function ZeroAt(offset: int): (v: nat)
    ensures (0 - (v + offset)) % SPAN == 0
  {
    (0 - offset) % SPAN
  }

  /** Base values under which two accesses that may alias both reach address zero. */
  function MeetingRegs(x: Instr, y: Instr): imap<Key, nat> {
    var kx := if Ranged(x) then x.operands[x.base.value].key else 0;
    var ky := if Ranged(y) then y.operands[y.base.value].key else 0;
    var atX, atY := if Ranged(x) then Begin(x) else 0, if Ranged(y) then Begin(y) else 0;
    if Ranged(x) && Ranged(y) && kx == ky then imap[kx := ZeroAt(if atX < atY then atY else atX)]
    else if Ranged(x) && Ranged(y) then imap[kx := ZeroAt(atX), ky := ZeroAt(atY)]
    else if Ranged(x) then imap[kx := ZeroAt(atX)]
    else imap[ky := ZeroAt(atY)]
  }

  lemma MeetsInRange(x: Instr, y: Instr)
    requires MayAlias(x, y) && Encoded(x) && Encoded(y)
    requires Ranged(x) ==> Begin(x) + x.memory[0].size <= MAX64
    requires Ranged(y) ==> Begin(y) + y.memory[0].size <= MAX64
    requires x.memory != [] && y.memory != [] ==> !x.memory[0].isVolatile && !y.memory[0].isVolatile
    requires x.memory != [] && y.memory != [] && x.memory[0].frameIndex.Some? && y.memory[0].frameIndex.Some? ==>
               x.memory[0].frameIndex == y.memory[0].frameIndex
    requires x.memory != [] && y.memory != [] && SymbolOf(x.operands).Some? && SymbolOf(y.operands).Some? ==>
               SymbolOf(x.operands) == SymbolOf(y.operands)
    ensures Ranged(x) ==> InRange(0, Base(MeetingRegs(x, y), x) + Begin(x), x.memory[0].size)
    ensures Ranged(y) ==> InRange(0, Base(MeetingRegs(x, y), y) + Begin(y), y.memory[0].size)
  {
    if Ranged(x) && Ranged(y) && x.operands[x.base.value].key == y.operands[y.base.value].key {
      var top := if Begin(x) < Begin(y) then Begin(y) else Begin(x);
      ShiftedMeets(ZeroAt(top), top, Begin(x), x.memory[0].size);
      ShiftedMeets(ZeroAt(top), top, Begin(y), y.memory[0].size);
    }
  }

  function Base(regs: imap<Key, nat>, i: Instr): nat
    requires Ranged(i)
  {
    var k := i.operands[i.base.value].key;
    if k in regs then regs[k] else 0
  }

  lemma ShiftedMeets(v: nat, top: int, begin: int, size: nat)
    requires (0 - (v + top)) % SPAN == 0 && begin <= top < begin + size && top - begin < SPAN
    ensures InRange(0, v + begin, size)
  {
    var q := (0 - (v + top)) / SPAN;
    assert 0 - (v + begin) == q * SPAN + (top - begin);
  }

  /** The alias test says no more than it has to: where it sees a possible overlap of two accesses that are
      not volatile and do not end beyond the 64-bit integers, some machine makes them meet. */
  lemma AliasNeeded(x: Instr, y: Instr) returns (m: Machine, s: State)
    requires MayAlias(x, y) && Encoded(x) && Encoded(y)
    requires (x.mayLoad || x.mayStore) && (y.mayLoad || y.mayStore)
    requires Ranged(x) ==> Begin(x) + x.memory[0].size <= MAX64
    requires Ranged(y) ==> Begin(y) + y.memory[0].size <= MAX64
    requires x.memory != [] && y.memory != [] ==> !x.memory[0].isVolatile && !y.memory[0].isVolatile
    ensures Laid(m) && Honest(m, x, s) && Honest(m, y, s) && !(Touched(m, x, s) !! Touched(m, y, s))
  {
    var frame := if x.memory != [] && x.memory[0].frameIndex.Some? then x.memory[0].frameIndex
                 else if y.memory != [] then y.memory[0].frameIndex else None;
    var symbol := if x.memory != [] && SymbolOf(x.operands).Some? then SymbolOf(x.operands)
                  else if y.memory != [] then SymbolOf(y.operands) else None;
    m := Machine((_, _) => {0}, (_, _, _, _) => 0, (_, _, _, _) => 0,
                 f => if frame == Some(f) then iset{0} else iset{},
                 f => if symbol == Some(f) then iset{0} else iset{}, (_, t) => t);
    s := State(MeetingRegs(x, y), imap[]);
    MeetsInRange(x, y);
    assert 0 in Touched(m, x, s) && 0 in Touched(m, y, s);
  }

  lemma RegKept(m: Machine, x: Instr, s: State, k: Key)
    requires !Barrier(x) && k !in DefKeys(x)
    ensures Reg(Exec(m, x, s), k) == Reg(s, k)
  {
    AfterWrites(m, x, Args(x, s), Loaded(m, x, s), Touched(m, x, s), s);
    hide DefKeys, Args, Touched, Loaded, Defines;
  }

  /** An instruction reads the same after another that writes none of its inputs. */
  lemma ArgsKept(m: Machine, x: Instr, y: Instr, s: State)
    requires !Barrier(x) && UseKeys(y) !! DefKeys(x)
    ensures Args(y, Exec(m, x, s)) == Args(y, s)
    ensures Touched(m, y, Exec(m, x, s)) == Touched(m, y, s)
  {
    var t := Exec(m, x, s);
    if y.readsFlags { RegKept(m, x, s, FLAGS); }
    forall k | 0 <= k < |y.operands| ensures OperandValue(t, y.operands[k]) == OperandValue(s, y.operands[k]) {
      var o := y.operands[k];
      if o.Register? && !o.isDef { RegKept(m, x, s, o.key); }
    }
    hide OperandValue, DefKeys, UseKeys, Exec, Reg;
    assert Args(y, t) == Args(y, s);
  }

  lemma HonestKept(m: Machine, x: Instr, y: Instr, s: State)
    requires !Barrier(x) && UseKeys(y) !! DefKeys(x) && Encoded(y)
    ensures Honest(m, y, Exec(m, x, s)) <==> Honest(m, y, s)
  {
    ArgsKept(m, x, y, s);
    if BaseForm(y) { BaseKept(m, x, y, s); }
    hide Exec, Touched, Reg, HonestAt;
  }

  lemma BaseKept(m: Machine, x: Instr, y: Instr, s: State)
    requires !Barrier(x) && UseKeys(y) !! DefKeys(x) && BaseForm(y) && Encoded(y)
    ensures BaseValue(y, Exec(m, x, s)) == BaseValue(y, s)
  {
    var o := y.operands[y.base.value];
    assert o in y.operands && o.key in UseKeys(y);
    RegKept(m, x, s, o.key);
  }

  /** And it finds the same bytes, if the other stores nothing it touches. */
  lemma LoadedKept(m: Machine, x: Instr, y: Instr, s: State)
    requires !Barrier(x) && UseKeys(y) !! DefKeys(x)
    requires y.mayLoad && x.mayStore ==> Touched(m, x, s) !! Touched(m, y, s)
    ensures Loaded(m, y, Exec(m, x, s)) == Loaded(m, y, s)
  {
    ArgsKept(m, x, y, s);
  }

  ghost predicate Independent(x: Instr, y: Instr) {
    !Barrier(x) && !Barrier(y) && !Depends(x, y) && Encoded(x) && Encoded(y)
  }

  lemma NoDependence(x: Instr, y: Instr)
    requires !RegisterDependence(x, y)
    ensures UseKeys(y) !! DefKeys(x) && UseKeys(x) !! DefKeys(y) && DefKeys(x) !! DefKeys(y)
  {
    hide UseKeys, DefKeys;
    forall k ensures !(k in UseKeys(y) && k in DefKeys(x)) {
      assert k !in DefKeys(x) * UseKeys(y);
    }
    forall k ensures !(k in UseKeys(x) && k in DefKeys(y)) {
      assert k !in UseKeys(x) * DefKeys(y);
    }
    forall k ensures !(k in DefKeys(x) && k in DefKeys(y)) {
      assert k !in DefKeys(x) * DefKeys(y);
    }
  }

  /** Neighbours that touch a common byte, one of them storing, depend on each other. */
  lemma StoresApart(m: Machine, x: Instr, y: Instr, s: State)
    requires Laid(m) && Independent(x, y) && Honest(m, x, s) && Honest(m, y, s)
    ensures x.mayStore || y.mayStore ==> Touched(m, x, s) !! Touched(m, y, s)
  {
    if (x.mayLoad || x.mayStore) && (y.mayLoad || y.mayStore) && (x.mayStore || y.mayStore) {
      AliasSound(m, x, y, s);
    }
  }

  /** Each of two neighbours works on the same inputs in either order. */
  lemma InputsKept(m: Machine, x: Instr, y: Instr, s: State)
    requires Laid(m) && Independent(x, y) && Honest(m, x, s) && Honest(m, y, s)
    ensures var t := Exec(m, x, s);
      Args(y, t) == Args(y, s) && Touched(m, y, t) == Touched(m, y, s) && Loaded(m, y, t) == Loaded(m, y, s)
    ensures Honest(m, y, Exec(m, x, s))
    ensures var t := Exec(m, y, s);
      Args(x, t) == Args(x, s) && Touched(m, x, t) == Touched(m, x, s) && Loaded(m, x, t) == Loaded(m, x, s)
    ensures Honest(m, x, Exec(m, y, s))
  {
    StoresApart(m, x, y, s);
    NoDependence(x, y);
    hide Touched, Loaded, DefKeys, UseKeys, Honest;
    ArgsKept(m, x, y, s);
    ArgsKept(m, y, x, s);
    HonestKept(m, x, y, s);
    HonestKept(m, y, x, s);
    LoadedKept(m, x, y, s);
    LoadedKept(m, y, x, s);
  }

  lemma AfterCommutes(m: Machine, x: Instr, y: Instr, argsX: seq<nat>, argsY: seq<nat>,
                      loadedX: map<Address, Byte>, loadedY: map<Address, Byte>,
                      touchedX: set<Address>, touchedY: set<Address>, s: State)
    requires DefKeys(x) !! DefKeys(y) && (x.mayStore || y.mayStore ==> touchedX !! touchedY)
    ensures After(m, y, argsY, loadedY, touchedY, After(m, x, argsX, loadedX, touchedX, s))
         == After(m, x, argsX, loadedX, touchedX, After(m, y, argsY, loadedY, touchedY, s))
  {
    var sx, sy := After(m, x, argsX, loadedX, touchedX, s), After(m, y, argsY, loadedY, touchedY, s);
    AfterWrites(m, x, argsX, loadedX, touchedX, s);
    AfterWrites(m, y, argsY, loadedY, touchedY, sx);
    AfterWrites(m, y, argsY, loadedY, touchedY, s);
    AfterWrites(m, x, argsX, loadedX, touchedX, sy);
    hide DefKeys, Written, Defines;
    var fx, fy := (k: nat) => m.computed(x, argsX, loadedX, k), (k: nat) => m.computed(y, argsY, loadedY, k);
    var gx, gy := (a: nat) => m.stored(x, argsX, loadedX, a), (a: nat) => m.stored(y, argsY, loadedY, a);
    WritesCommute(DefKeys(x), DefKeys(y), fx, fy, s.regs);
    WritesCommute(if x.mayStore then touchedX else {}, if y.mayStore then touchedY else {}, gx, gy, s.mem);
  }

  /** Exchanging two neighbours that do not depend on each other changes nothing. */
  lemma Commute(m: Machine, x: Instr, y: Instr, s: State)
    requires Laid(m) && Independent(x, y) && Honest(m, x, s) && Honest(m, y, s)
    ensures Exec(m, y, Exec(m, x, s)) == Exec(m, x, Exec(m, y, s))
  {
    InputsKept(m, x, y, s);
    StoresApart(m, x, y, s);
    NoDependence(x, y);
    hide Touched, Loaded, DefKeys, UseKeys, Honest, Args, Depends, After;
    AfterCommutes(m, x, y, Args(x, s), Args(y, s), Loaded(m, x, s), Loaded(m, y, s), Touched(m, x, s),
                  Touched(m, y, s), s);
  }

  // Every order that keeps the dependences has the same effect

  lemma {:induction false} RunAppend(m: Machine, a: seq<Instr>, b: seq<Instr>, s: State)
    ensures Run(m, a + b, s) == Run(m, b, Run(m, a, s))
    ensures HonestRun(m, a + b, s) <==> HonestRun(m, a, s) && HonestRun(m, b, Run(m, a, s))
    decreases |a|
  {
    if a == [] {
      assert a + b == b;
    } else {
      assert (a + b)[1..] == a[1..] + b;
      RunAppend(m, a[1..], b, Exec(m, a[0], s));
    }
  }

  ghost predicate IndependentOfAll(x: Instr, pre: seq<Instr>) {
    forall k :: 0 <= k < |pre| ==> Independent(x, pre[k])
  }

  /** An instruction moves past a stretch of code none of which depends on it. */
  lemma {:induction false} MovePast(m: Machine, x: Instr, pre: seq<Instr>, s: State)
    requires Laid(m) && IndependentOfAll(x, pre)
    requires Honest(m, x, s) && HonestRun(m, pre, Exec(m, x, s))
    ensures Exec(m, x, Run(m, pre, s)) == Run(m, pre, Exec(m, x, s))
    ensures HonestRun(m, pre, s) && Honest(m, x, Run(m, pre, s))
    decreases |pre|
  {
    hide Exec, Honest, Independent;
    if pre != [] {
      SwapFirst(m, x, pre[0], s);
      MovePast(m, x, pre[1..], Exec(m, pre[0], s));
    }
  }

  lemma SwapFirst(m: Machine, x: Instr, y: Instr, s: State)
    requires Laid(m) && Independent(x, y) && Honest(m, x, s) && Honest(m, y, Exec(m, x, s))
    ensures Exec(m, y, Exec(m, x, s)) == Exec(m, x, Exec(m, y, s))
    ensures Honest(m, y, s) && Honest(m, x, Exec(m, y, s))
  {
    assert !Barrier(x) && !Barrier(y) && !RegisterDependence(x, y) && Encoded(x) && Encoded(y);
    NoDependence(x, y);
    hide Independent, UseKeys, DefKeys, RegisterDependence, Honest, Exec, Encoded;
    HonestKept(m, x, y, s);
    HonestKept(m, y, x, s);
    Commute(m, x, y, s);
  }

  /** The instructions at the given positions, in the given order. */
  function Pick(code: seq<Instr>, order: seq<nat>): (r: seq<Instr>)
    requires Within(code, order)
    ensures |r| == |order| && forall k :: 0 <= k < |r| ==> r[k] == code[order[k]]
  {
    seq(|order|, k requires 0 <= k < |order| => code[order[k]])
  }

  /** No position twice, and whatever depends on an earlier instruction stays after it. */
  ghost predicate KeepsOrder(code: seq<Instr>, order: seq<nat>) {
    && Within(code, order)
    && (forall i, j :: 0 <= i < j < |order| ==> order[i] != order[j])
    && (forall i, j :: 0 <= i < j < |order| && order[j] < order[i] ==> !Depends(code[order[j]], code[order[i]]))
  }

  ghost predicate SameMembers(a: seq<nat>, b: seq<nat>) {
    |a| == |b| && forall x: nat :: x in a <==> x in b
  }

  ghost predicate Ascending(order: seq<nat>) {
    forall i, j :: 0 <= i < j < |order| ==> order[i] < order[j]
  }

  ghost predicate Schedulable(code: seq<Instr>) {
    forall k :: 0 <= k < |code| ==> !Barrier(code[k]) && Encoded(code[k])
  }

  /** Any order that keeps the dependences computes what the original order computes, and its
      accesses are as honest. */
  lemma {:induction false} OrderIrrelevant(m: Machine, code: seq<Instr>, sorted: seq<nat>, order: seq<nat>, s: State)
    requires Laid(m) && Schedulable(code) && KeepsOrder(code, sorted) && KeepsOrder(code, order) && Ascending(sorted)
    requires SameMembers(sorted, order)
    requires HonestRun(m, Pick(code, sorted), s)
    ensures Run(m, Pick(code, order), s) == Run(m, Pick(code, sorted), s)
    ensures HonestRun(m, Pick(code, order), s)
    decreases |sorted|
  {
    if sorted == [] {
      assert order == [];
    } else {
      var p := FindFirst(sorted, order);
      TakeFirst(code, sorted, order, p);
      FirstHonest(m, code, sorted, s);
      hide Without, Pick, Run, HonestRun, KeepsOrder, Schedulable, SameMembers, Ascending, Exec, IndependentOfAll;
      OrderIrrelevant(m, code, sorted[1..], Without(order, p), Exec(m, code[sorted[0]], s));
      OrderStep(m, code, sorted, order, p, s);
    }
  }

  function Without(order: seq<nat>, p: nat): seq<nat>
    requires p < |order|
  {
    order[..p] + order[p + 1..]
  }

  ghost predicate Within(code: seq<Instr>, order: seq<nat>) {
    forall k :: 0 <= k < |order| ==> order[k] < |code|
  }

  lemma FirstHonest(m: Machine, code: seq<Instr>, sorted: seq<nat>, s: State)
    requires sorted != [] && Within(code, sorted) && HonestRun(m, Pick(code, sorted), s)
    ensures Honest(m, code[sorted[0]], s)
    ensures HonestRun(m, Pick(code, sorted[1..]), Exec(m, code[sorted[0]], s))
    ensures Run(m, Pick(code, sorted), s) == Run(m, Pick(code, sorted[1..]), Exec(m, code[sorted[0]], s))
  {
    assert Pick(code, sorted)[1..] == Pick(code, sorted[1..]);
    assert Pick(code, sorted)[0] == code[sorted[0]];
    Unroll(m, Pick(code, sorted), s);
    hide Pick, Run, HonestRun, Exec, Honest;
  }

  lemma OrderStep(m: Machine, code: seq<Instr>, sorted: seq<nat>, order: seq<nat>, p: nat, s: State)
    requires Laid(m) && sorted != [] && Within(code, sorted) && Within(code, order)
    requires p < |order| && order[p] == sorted[0]
    requires Within(code, Without(order, p)) && Within(code, order[..p]) && Within(code, order[p + 1..])
    requires IndependentOfAll(code[sorted[0]], Pick(code, order[..p])) && Honest(m, code[sorted[0]], s)
    requires HonestRun(m, Pick(code, Without(order, p)), Exec(m, code[sorted[0]], s))
    ensures Run(m, Pick(code, order), s) == Run(m, Pick(code, Without(order, p)), Exec(m, code[sorted[0]], s))
    ensures HonestRun(m, Pick(code, order), s)
  {
    PickSplits(code, order, p);
    hide Pick, Run, HonestRun, Exec, Honest, IndependentOfAll, Without;
    PutBack(m, code[sorted[0]], Pick(code, order[..p]), Pick(code, order[p + 1..]), s);
  }

  lemma Unroll(m: Machine, code: seq<Instr>, s: State)
    requires code != []
    ensures Run(m, code, s) == Run(m, code[1..], Exec(m, code[0], s))
    ensures HonestRun(m, code, s) <==> Honest(m, code[0], s) && HonestRun(m, code[1..], Exec(m, code[0], s))
  {
  }

  lemma FindFirst(sorted: seq<nat>, order: seq<nat>) returns (p: nat)
    requires SameMembers(sorted, order) && sorted != []
    ensures p < |order| && order[p] == sorted[0]
  {
    assert sorted[0] in order;
    p :| 0 <= p < |order| && order[p] == sorted[0];
  }

  /** The first instruction goes back to where the order has it. */
  lemma PutBack(m: Machine, x: Instr, pre: seq<Instr>, post: seq<Instr>, s: State)
    requires Laid(m) && IndependentOfAll(x, pre) && Honest(m, x, s) && HonestRun(m, pre + post, Exec(m, x, s))
    ensures Run(m, pre + ([x] + post), s) == Run(m, pre + post, Exec(m, x, s))
    ensures HonestRun(m, pre + ([x] + post), s)
  {
    hide Exec, Honest, IndependentOfAll;
    RunAppend(m, pre, post, Exec(m, x, s));
    MovePast(m, x, pre, s);
    RunAppend(m, pre, [x] + post, s);
    assert ([x] + post)[1..] == post;
  }

  lemma PickSplits(code: seq<Instr>, order: seq<nat>, p: nat)
    requires Within(code, order) && p < |order|
    ensures Within(code, order[..p]) && Within(code, order[p + 1..]) && Within(code, Without(order, p))
    ensures var pre, post := Pick(code, order[..p]), Pick(code, order[p + 1..]);
      && Pick(code, Without(order, p)) == pre + post
      && Pick(code, order) == pre + ([code[order[p]]] + post)
  {
  }

  /** The first instruction of the original order can go first in any order. */
  lemma TakeFirst(code: seq<Instr>, sorted: seq<nat>, order: seq<nat>, p: nat)
    requires Schedulable(code) && KeepsOrder(code, sorted) && KeepsOrder(code, order) && Ascending(sorted)
    requires SameMembers(sorted, order)
    requires sorted != [] && p < |order| && order[p] == sorted[0]
    ensures var rest := Without(order, p);
      && KeepsOrder(code, sorted[1..]) && Ascending(sorted[1..]) && KeepsOrder(code, rest)
      && SameMembers(sorted[1..], rest)
      && Within(code, order[..p]) && Within(code, order[p + 1..])
      && IndependentOfAll(code[sorted[0]], Pick(code, order[..p]))
  {
    var rest := Without(order, p);
    forall x: nat ensures x in sorted[1..] <==> x in rest {
      if x in sorted[1..] {
        assert x in sorted && x in order && x != sorted[0];
      }
      if x in rest {
        assert x in order && x in sorted && x != sorted[0];
      }
    }
    forall k | 0 <= k < p ensures Independent(code[sorted[0]], code[order[k]]) {
      assert order[k] in sorted;
      assert sorted[0] < order[k];
    }
  }

  /** The original order of a stretch of n instructions. */
  function Original(n: nat): (r: seq<nat>)
    ensures |r| == n && forall k :: 0 <= k < n ==> r[k] == k
  {
    seq(n, k requires 0 <= k < n => k)
  }

  lemma OriginalOrder(code: seq<Instr>, order: seq<nat>)
    requires KeepsOrder(code, order) && |order| == |code| && forall x: nat :: x < |code| ==> x in order
    ensures var sorted := Original(|code|);
      && KeepsOrder(code, sorted) && Ascending(sorted) && SameMembers(sorted, order)
      && Pick(code, sorted) == code
  {
    var sorted := Original(|code|);
    assert KeepsOrder(code, sorted) && Ascending(sorted);
    assert Pick(code, sorted) == code;
    hide Depends, Pick;
    forall x: nat ensures x in sorted <==> x in order {
      if x < |code| { assert sorted[x] == x; }
    }
  }

  /** Scheduling: a permutation of the whole stretch that keeps the dependences. */
  lemma ScheduleIrrelevant(m: Machine, code: seq<Instr>, order: seq<nat>, s: State)
    requires Laid(m) && Schedulable(code) && KeepsOrder(code, order) && |order| == |code|
    requires forall x: nat :: x < |code| ==> x in order
    requires HonestRun(m, code, s)
    ensures Run(m, Pick(code, order), s) == Run(m, code, s) && HonestRun(m, Pick(code, order), s)
  {
    var sorted := Original(|code|);
    OriginalOrder(code, order);
    hide KeepsOrder, Ascending, Schedulable, SameMembers, Pick, Run, HonestRun;
    OrderIrrelevant(m, code, sorted, order, s);
  }
}
