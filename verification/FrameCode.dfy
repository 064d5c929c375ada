/** The code that sets up, uses and takes down a frame. */
module FrameCode {
  import opened FrameLayout
  import opened Encoding
  import opened Target

  const MAX_ADD_SUB: nat := 4095
  const ADD_SUB_SCALE: nat := 4096
  const LINK: nat := X30

  datatype Option<T> = None | Some(value: T)

  datatype Instr =
    | AddSp(amount: nat) | SubSp(amount: nat)
    | Store(reg: nat, offset: int, width: nat) | Load(reg: nat, offset: int, width: nat)
    | StorePair(first: nat, second: nat, offset: int) | LoadPair(first: nat, second: nat, offset: int)
    | PushLink | PopLink
    | MoveFromSp(dst: nat) | AddFromSp(dst: nat, amount: nat) | AddTo(dst: nat, amount: nat)

  /** Registers and memory cells hold numbers; a cell is named by the address of its access. */
  datatype Machine = Machine(sp: int, regs: nat -> int, mem: int -> int)

  function Set(f: nat -> int, k: nat, v: int): nat -> int {
    (x: nat) => if x == k then v else f(x)
  }

  function Put(f: int -> int, k: int, v: int): int -> int {
    x => if x == k then v else f(x)
  }

  function Step(i: Instr, m: Machine): Machine {
    match i
    case AddSp(amount) => m.(sp := m.sp + amount)
    case SubSp(amount) => m.(sp := m.sp - amount)
    case Store(reg, offset, _) => m.(mem := Put(m.mem, m.sp + offset, m.regs(reg)))
    case Load(reg, offset, _) => m.(regs := Set(m.regs, reg, m.mem(m.sp + offset)))
    case StorePair(a, b, offset) =>
      m.(mem := Put(Put(m.mem, m.sp + offset, m.regs(a)), m.sp + offset + 8, m.regs(b)))
    case LoadPair(a, b, offset) =>
      m.(regs := Set(Set(m.regs, a, m.mem(m.sp + offset)), b, m.mem(m.sp + offset + 8)))
    case PushLink => m.(sp := m.sp - 16, mem := Put(Put(m.mem, m.sp - 16, 0), m.sp - 8, m.regs(LINK)))
    case PopLink => m.(sp := m.sp + 16, regs := Set(m.regs, LINK, m.mem(m.sp + 8)))
    case MoveFromSp(dst) => m.(regs := Set(m.regs, dst, m.sp))
    case AddFromSp(dst, amount) => m.(regs := Set(m.regs, dst, m.sp + amount))
    case AddTo(dst, amount) => m.(regs := Set(m.regs, dst, m.regs(dst) + amount))
  }

  function Run(code: seq<Instr>, m: Machine): Machine {
    if code == [] then m else Run(code[1..], Step(code[0], m))
  }

  lemma {:induction false} RunAppend(a: seq<Instr>, b: seq<Instr>, m: Machine)
    ensures Run(a + b, m) == Run(b, Run(a, m))
    decreases |a|
  {
    if a == [] {
      assert a + b == b;
    } else {
      assert (a + b)[1..] == a[1..] + b;
      RunAppend(a[1..], b, Step(a[0], m));
    }
  }

  predicate IsPairOffsetEncodable(offset: int, scale: nat)
    requires scale > 0
  {
    offset % scale == 0 && -64 <= offset / scale <= 63
  }

  predicate IsScaledOffsetEncodable(offset: int, scale: nat)
    requires scale > 0
  {
    offset >= 0 && offset % scale == 0 && offset / scale <= 4095
  }

  predicate IsAddSubEncodable(amount: nat) {
    amount <= MAX_ADD_SUB || (amount % ADD_SUB_SCALE == 0 && amount / ADD_SUB_SCALE <= MAX_ADD_SUB)
  }

  // The fields of sections C4.1 and C6.2 of the Arm Architecture Reference Manual.

  /** ADD and SUB: twelve bits, shifted by twelve or not at all. */
  ghost predicate AddImmediate(amount: int) {
    exists imm :: UnsignedField(12, imm) && (amount == imm || amount == imm * 4096)
  }

  /** LDR and STR: twelve bits, in units of the access. */
  ghost predicate ScaledImmediate(offset: int, width: nat) {
    exists imm :: UnsignedField(12, imm) && offset == imm * width
  }

  /** LDP and STP: seven bits and a sign, in units of one register. */
  ghost predicate PairImmediate(offset: int, width: nat) {
    exists imm :: SignedField(7, imm) && offset == imm * width
  }

  /** A pair is of two general or of two vector registers. */
  predicate SameFile(a: nat, b: nat) {
    (X0 <= a <= X30 && X0 <= b <= X30) || (V0 <= a <= V31 && V0 <= b <= V31)
  }

  /** The code's tests decide exactly what the fields hold. */
  lemma TestsAreFields()
    ensures forall amount: nat :: IsAddSubEncodable(amount) <==> AddImmediate(amount)
    ensures forall offset: int, width: nat :: width > 0 ==>
              (IsScaledOffsetEncodable(offset, width) <==> ScaledImmediate(offset, width))
    ensures forall offset: int, width: nat :: width > 0 ==>
              (IsPairOffsetEncodable(offset, width) <==> PairImmediate(offset, width))
  {
    forall amount: nat ensures IsAddSubEncodable(amount) <==> AddImmediate(amount) {
      AddField(amount);
    }
    forall offset: int, width: nat | width > 0
      ensures IsScaledOffsetEncodable(offset, width) <==> ScaledImmediate(offset, width)
      ensures IsPairOffsetEncodable(offset, width) <==> PairImmediate(offset, width)
    {
      ScaledField(offset, width);
    }
  }

  lemma AddField(amount: nat)
    ensures IsAddSubEncodable(amount) <==> AddImmediate(amount)
  {
    FieldSizes();
    if IsAddSubEncodable(amount) {
      var imm := if amount <= MAX_ADD_SUB then amount else amount / ADD_SUB_SCALE;
      assert UnsignedField(12, imm) && (amount == imm || amount == imm * 4096);
    }
  }

  lemma ScaledField(offset: int, width: nat)
    requires width > 0
    ensures IsScaledOffsetEncodable(offset, width) <==> ScaledImmediate(offset, width)
    ensures IsPairOffsetEncodable(offset, width) <==> PairImmediate(offset, width)
  {
    FieldSizes();
    var imm := offset / width;
    assert offset == imm * width + offset % width;
    if offset % width == 0 {
      assert UnsignedField(12, imm) <==> 0 <= imm <= 4095;
      assert SignedField(7, imm) <==> -64 <= imm <= 63;
      assert offset == imm * width;
      assert offset >= 0 <==> imm >= 0 by { SignOfMultiple(imm, width); }
    }
    forall k: int | offset == k * width ensures k == imm && offset % width == 0 {
      UniqueQuotient(offset, width, k);
    }
  }

  lemma SignOfMultiple(k: int, width: nat)
    requires width > 0
    ensures k * width >= 0 <==> k >= 0
  {
    if k >= 0 { assert k * width >= 0; } else { assert (-k) * width > 0; }
  }

  lemma UniqueQuotient(offset: int, width: nat, k: int)
    requires width > 0 && offset == k * width
    ensures offset / width == k && offset % width == 0
  {
    var q, r := offset / width, offset % width;
    assert offset == q * width + r;
    assert (k - q) * width == r;
    SignOfMultiple(k - q - 1, width);
    SignOfMultiple(q - k, width);
  }

  /** The instruction can be encoded, and the stack pointer stays a multiple of 16 if it was. */
  ghost predicate Sound(i: Instr) {
    match i
    case AddSp(amount) => 0 < amount && AddImmediate(amount) && amount % 16 == 0
    case SubSp(amount) => 0 < amount && AddImmediate(amount) && amount % 16 == 0
    case Store(_, offset, width) => (width == 4 || width == 8 || width == 16) && ScaledImmediate(offset, width)
    case Load(_, offset, width) => (width == 4 || width == 8 || width == 16) && ScaledImmediate(offset, width)
    case StorePair(a, b, offset) => SameFile(a, b) && PairImmediate(offset, 8)
    case LoadPair(a, b, offset) => SameFile(a, b) && a != b && PairImmediate(offset, 8)
    case AddFromSp(_, amount) => 0 < amount && AddImmediate(amount)
    case AddTo(_, amount) => 0 < amount && AddImmediate(amount)
    case _ => true
  }

  ghost predicate AllSound(code: seq<Instr>) {
    forall k :: 0 <= k < |code| ==> Sound(code[k])
  }

  /** Sound code never lets the stack pointer off its alignment. */
  lemma {:induction false} StaysAligned(code: seq<Instr>, m: Machine, k: nat)
    requires AllSound(code) && k <= |code| && m.sp % STACK_ALIGNMENT == 0
    ensures Run(code[..k], m).sp % STACK_ALIGNMENT == 0
    decreases k
  {
    if k > 0 {
      assert code[..k][1..] == code[1..][..k - 1];
      assert forall i :: 0 <= i < |code[1..]| ==> code[1..][i] == code[i + 1];
      StaysAligned(code[1..], Step(code[0], m), k - 1);
    }
  }

  // Stack adjustments

  /** The largest encodable piece of an amount. */
  function NextAddSubImmediate(amount: nat): (chunk: nat)
    ensures chunk <= amount && IsAddSubEncodable(chunk) && (amount > 0 ==> chunk > 0)
    ensures amount % STACK_ALIGNMENT == 0 ==> chunk % STACK_ALIGNMENT == 0
  {
    if amount < ADD_SUB_SCALE then
      if amount < MAX_ADD_SUB then amount else MAX_ADD_SUB
    else
      var shifted := if amount / ADD_SUB_SCALE < MAX_ADD_SUB then amount / ADD_SUB_SCALE else MAX_ADD_SUB;
      ShiftedFits(shifted, amount);
      shifted * ADD_SUB_SCALE
  }

  /** No encodable piece of the amount is larger. */
  lemma LargestPiece(amount: nat, piece: nat)
    requires AddImmediate(piece) && piece <= amount
    ensures piece <= NextAddSubImmediate(amount)
  {
    FieldSizes();
    var imm :| UnsignedField(12, imm) && (piece == imm || piece == imm * 4096);
  }

  /** Instructions enough for an amount: one for each 4095 shifted units, one more for what they leave
      of a unit, and one for the rest. */
  function PiecesLeft(amount: nat): nat {
    (amount / ADD_SUB_SCALE + MAX_ADD_SUB - 1) / MAX_ADD_SUB + (if amount % ADD_SUB_SCALE > 0 then 1 else 0)
  }

  lemma FewerLeft(amount: nat)
    requires amount > 0
    ensures PiecesLeft(amount - NextAddSubImmediate(amount)) + 1 <= PiecesLeft(amount)
  {
    var units, rest := amount / ADD_SUB_SCALE, amount % ADD_SUB_SCALE;
    if units > 0 {
      var shifted := if units < MAX_ADD_SUB then units else MAX_ADD_SUB;
      assert amount - shifted * ADD_SUB_SCALE == (units - shifted) * ADD_SUB_SCALE + rest;
    }
  }

  lemma ShiftedFits(shifted: nat, amount: nat)
    requires 0 < shifted <= MAX_ADD_SUB && shifted <= amount / ADD_SUB_SCALE
    ensures 0 < shifted * ADD_SUB_SCALE <= amount && IsAddSubEncodable(shifted * ADD_SUB_SCALE)
    ensures (shifted * ADD_SUB_SCALE) % STACK_ALIGNMENT == 0
  {
  }

  /** Allocation moves the stack pointer down. */
  function Signed(allocate: bool, amount: int): int {
    if allocate then 0 - amount else amount
  }

  /** The code moves the stack pointer by delta and does nothing else. */
  ghost predicate Moves(code: seq<Instr>, delta: int) {
    forall m: Machine {:trigger Run(code, m)} :: Run(code, m) == m.(sp := m.sp + delta)
  }

  lemma MovesMore(code: seq<Instr>, delta: int, i: Instr, change: int)
    requires Moves(code, delta) && (i.AddSp? || i.SubSp?) && change == (if i.AddSp? then i.amount else 0 - i.amount)
    ensures Moves(code + [i], delta + change)
  {
    forall m: Machine ensures Run(code + [i], m) == m.(sp := m.sp + (delta + change)) {
      RunAppend(code, [i], m);
      RunOne(i, Run(code, m));
    }
  }

  lemma RunOne(i: Instr, m: Machine)
    ensures Run([i], m) == Step(i, m)
  {
    assert [i][1..] == [];
  }

  lemma NothingMoves()
    ensures Moves([], 0)
  {
  }

  lemma SoundAdjustment(left: nat)
    requires left > 0 && left % STACK_ALIGNMENT == 0
    ensures Sound(AddSp(NextAddSubImmediate(left))) && Sound(SubSp(NextAddSubImmediate(left)))
    ensures (left - NextAddSubImmediate(left)) % STACK_ALIGNMENT == 0
  {
    AddField(NextAddSubImmediate(left));
  }

  /** Splits an adjustment into encodable pieces, as few as the encoding allows. */
  method InsertStackAdjustment(allocate: bool, amount: nat) returns (code: seq<Instr>)
    requires amount % STACK_ALIGNMENT == 0
    ensures AllSound(code) && Moves(code, Signed(allocate, amount))
    ensures |code| <= PiecesLeft(amount)
  {
    hide AddImmediate, IsAddSubEncodable, PiecesLeft, Moves, Sound;
    code := [];
    NothingMoves();
    var left: nat := amount;
    while left > 0
      invariant left <= amount && left % STACK_ALIGNMENT == 0 && AllSound(code)
      invariant Moves(code, Signed(allocate, amount - left))
      invariant |code| + PiecesLeft(left) <= PiecesLeft(amount)
    {
      FewerLeft(left);
      SoundAdjustment(left);
      var chunk := NextAddSubImmediate(left);
      var adjust := if allocate then SubSp(chunk) else AddSp(chunk);
      MovesMore(code, Signed(allocate, amount - left), adjust, Signed(allocate, chunk));
      code := code + [adjust];
      left := left - chunk;
    }
  }

  // Frame accesses

  /** The code does what one access at an unlimited offset would do. */
  ghost predicate ActsAs(code: seq<Instr>, i: Instr) {
    forall m: Machine {:trigger Run(code, m)} :: SameMachine(Run(code, m), Step(i, m))
  }

  ghost predicate SameMachine(a: Machine, b: Machine) {
    a.sp == b.sp && (forall r: nat :: a.regs(r) == b.regs(r)) && forall x: int :: a.mem(x) == b.mem(x)
  }

  /** Moving there, accessing at what is left of the offset, and moving back. */
  lemma AroundAccess(up: seq<Instr>, near: Instr, down: seq<Instr>, far: Instr, amount: nat)
    requires Moves(up, amount) && Moves(down, 0 - amount)
    requires match far
      case Store(r, offset, w) => near == Store(r, offset - amount, w)
      case Load(r, offset, w) => near == Load(r, offset - amount, w)
      case StorePair(a, b, offset) => near == StorePair(a, b, offset - amount)
      case LoadPair(a, b, offset) => near == LoadPair(a, b, offset - amount)
      case _ => false
    ensures ActsAs(up + [near] + down, far)
  {
    forall m: Machine ensures SameMachine(Run(up + [near] + down, m), Step(far, m)) {
      RunAppend(up + [near], down, m);
      RunAppend(up, [near], m);
      RunOne(near, Run(up, m));
      assert Run(up, m) == m.(sp := m.sp + amount);
    }
  }

  lemma ActsAsItself(i: Instr)
    ensures ActsAs([i], i)
  {
    forall m: Machine ensures Run([i], m) == Step(i, m) { RunOne(i, m); }
  }

  /** What is left below the alignment fits every width. */
  lemma NearFits(offset: nat, width: nat)
    requires (width == 4 || width == 8 || width == 16) && offset % width == 0
    ensures var adjustment := offset / STACK_ALIGNMENT * STACK_ALIGNMENT;
      && adjustment % STACK_ALIGNMENT == 0 && adjustment <= offset
      && IsScaledOffsetEncodable(offset - adjustment, width)
      && (width == 8 ==> IsPairOffsetEncodable(offset - adjustment, 8))
  {
    var adjustment := offset / STACK_ALIGNMENT * STACK_ALIGNMENT;
    assert offset - adjustment == offset % 16;
  }

  /** A spill slot access. The slot lies at a multiple of its width above the stack pointer. */
  method LowerSpillAccess(load: bool, reg: nat, width: nat, offset: nat) returns (code: seq<Instr>)
    requires width == 4 || width == 8 || width == 16
    requires offset % width == 0
    ensures AllSound(code) && ActsAs(code, if load then Load(reg, offset, width) else Store(reg, offset, width))
    ensures ScaledImmediate(offset, width) ==> |code| == 1
  {
    hide ActsAs, Moves, ScaledImmediate, AddImmediate, PairImmediate;
    var far := if load then Load(reg, offset, width) else Store(reg, offset, width);
    NearFits(offset, width);
    ScaledField(offset, width);
    ScaledField(offset - offset / STACK_ALIGNMENT * STACK_ALIGNMENT, width);
    if IsScaledOffsetEncodable(offset, width) {
      ActsAsItself(far);
      return [far];
    }
    var adjustment := offset / STACK_ALIGNMENT * STACK_ALIGNMENT;
    var near := if load then Load(reg, offset - adjustment, width) else Store(reg, offset - adjustment, width);
    var up := InsertStackAdjustment(false, adjustment);
    var down := InsertStackAdjustment(true, adjustment);
    AroundAccess(up, near, down, far, adjustment);
    code := up + [near] + down;
  }

  /** The address of a frame object, built from encodable pieces. */
  method LowerFrameAddress(dst: nat, offset: nat) returns (code: seq<Instr>)
    ensures AllSound(code) && Addresses(code, dst, offset)
    ensures |code| <= if offset == 0 then 1 else PiecesLeft(offset)
  {
    assert PiecesLeft(0) == 0;
    hide AddImmediate, PiecesLeft, NextAddSubImmediate;
    if offset > 0 { FewerLeft(offset); }
    var amount := NextAddSubImmediate(offset);
    AddField(amount);
    var first := if amount == 0 then MoveFromSp(dst) else AddFromSp(dst, amount);
    code := [first];
    FirstAddress(first, dst, amount);
    var left: nat := offset - amount;
    while left > 0
      invariant left <= offset && AllSound(code) && Addresses(code, dst, offset - left)
      invariant |code| + PiecesLeft(left) <= if offset == 0 then 1 else PiecesLeft(offset)
    {
      FewerLeft(left);
      amount := NextAddSubImmediate(left);
      AddField(amount);
      AddressesMore(code, dst, offset - left, amount);
      code := code + [AddTo(dst, amount)];
      left := left - amount;
    }
  }

  /** One register holds the address, nothing else has changed. */
  ghost predicate Addressed(dst: nat, offset: int, m: Machine, n: Machine) {
    && n.sp == m.sp && n.mem == m.mem && n.regs(dst) == m.sp + offset
    && (forall r: nat :: r != dst ==> n.regs(r) == m.regs(r))
  }

  ghost predicate Addresses(code: seq<Instr>, dst: nat, offset: int) {
    forall m: Machine {:trigger Run(code, m)} :: Addressed(dst, offset, m, Run(code, m))
  }

  lemma FirstAddress(i: Instr, dst: nat, amount: nat)
    requires i == if amount == 0 then MoveFromSp(dst) else AddFromSp(dst, amount)
    ensures Addresses([i], dst, amount)
  {
    forall m: Machine ensures Addressed(dst, amount, m, Run([i], m)) { RunOne(i, m); }
  }

  lemma AddressesMore(code: seq<Instr>, dst: nat, offset: int, amount: nat)
    requires Addresses(code, dst, offset)
    ensures Addresses(code + [AddTo(dst, amount)], dst, offset + amount)
  {
    var more := code + [AddTo(dst, amount)];
    forall m: Machine ensures Addressed(dst, offset + amount, m, Run(more, m)) {
      RunAppend(code, [AddTo(dst, amount)], m);
      RunOne(AddTo(dst, amount), Run(code, m));
    }
  }

  // Saved registers

  datatype Group = Group(first: nat, second: Option<nat>, offset: int)

  predicate IsVectorRegister(reg: nat) {
    34 <= reg <= 65
  }

  predicate CanPair(saved: seq<nat>, offsets: map<nat, int>, i: nat, j: nat)
    requires i < |saved| && j < |saved| && saved[i] in offsets && saved[j] in offsets
  {
    var offset := offsets[saved[i]];
    if IsVectorRegister(saved[i]) != IsVectorRegister(saved[j]) || offsets[saved[j]] != offset + 8 then false
    else
      || IsPairOffsetEncodable(offset, 8)
      || !IsScaledOffsetEncodable(offset, 8) || !IsScaledOffsetEncodable(offset + 8, 8)
  }

  /** The registers of a list of groups, each with its place. */
  function Flatten(groups: seq<Group>): seq<(nat, int)> {
    if groups == [] then []
    else Flatten(groups[..|groups| - 1]) + Places(groups[|groups| - 1])
  }

  function Places(g: Group): seq<(nat, int)> {
    [(g.first, g.offset)] + if g.second.Some? then [(g.second.value, g.offset + 8)] else []
  }

  /** Registers i to j of the saved ones, each at its own offset. */
  function Slots(saved: seq<nat>, offsets: map<nat, int>, i: nat, j: nat): (r: seq<(nat, int)>)
    requires i <= j <= |saved| && forall k :: 0 <= k < |saved| ==> saved[k] in offsets
    ensures |r| == j - i && forall k :: 0 <= k < j - i ==> r[k] == (saved[i + k], offsets[saved[i + k]])
  {
    seq(j - i, k requires 0 <= k < j - i => (saved[i + k], offsets[saved[i + k]]))
  }

  /** General and vector registers: only those have save slots. */
  ghost predicate Savable(saved: seq<nat>) {
    forall k :: 0 <= k < |saved| ==> SameFile(saved[k], saved[k])
  }

  ghost predicate Uniform(groups: seq<Group>) {
    forall k :: 0 <= k < |groups| && groups[k].second.Some? ==> SameFile(groups[k].first, groups[k].second.value)
  }

  /** One instruction would do for two registers. */
  ghost predicate OnePair(a: nat, x: int, b: nat, y: int) {
    SameFile(a, b) && y == x + 8 && PairImmediate(x, 8)
  }

  /** No group of one register could have taken its neighbour in. */
  ghost predicate Paired(groups: seq<Group>) {
    forall k :: 0 < k < |groups| && groups[k - 1].second.None? ==>
      !OnePair(groups[k - 1].first, groups[k - 1].offset, groups[k].first, groups[k].offset)
  }

  lemma PairIsPair(saved: seq<nat>, offsets: map<nat, int>, i: nat, j: nat)
    requires i < |saved| && j < |saved| && saved[i] in offsets && saved[j] in offsets && Savable(saved)
    ensures CanPair(saved, offsets, i, j) ==>
              SameFile(saved[i], saved[j]) && offsets[saved[j]] == offsets[saved[i]] + 8
    ensures OnePair(saved[i], offsets[saved[i]], saved[j], offsets[saved[j]]) ==> CanPair(saved, offsets, i, j)
  {
    ScaledField(offsets[saved[i]], 8);
    hide PairImmediate;
  }

  /** From the front, in pairs where possible: every register once, at its offset, in order. */
  method GroupForSaving(saved: seq<nat>, offsets: map<nat, int>) returns (groups: seq<Group>)
    requires (forall k :: 0 <= k < |saved| ==> saved[k] in offsets) && Savable(saved)
    ensures Flatten(groups) == Slots(saved, offsets, 0, |saved|) && Uniform(groups) && Paired(groups)
  {
    hide CanPair, OnePair, SameFile;
    groups := [];
    var i: nat := 0;
    while i < |saved|
      invariant i <= |saved| && Flatten(groups) == Slots(saved, offsets, 0, i) && Uniform(groups) && Paired(groups)
      invariant i < |saved| && groups != [] && groups[|groups| - 1].second.None? ==>
        !OnePair(groups[|groups| - 1].first, groups[|groups| - 1].offset, saved[i], offsets[saved[i]])
    {
      var pair := i + 1 < |saved| && CanPair(saved, offsets, i, i + 1);
      if i + 1 < |saved| { PairIsPair(saved, offsets, i, i + 1); }
      var g := Group(saved[i], if pair then Some(saved[i + 1]) else None, offsets[saved[i]]);
      assert (groups + [g])[..|groups|] == groups;
      groups := groups + [g];
      i := i + if pair then 2 else 1;
    }
  }

  function ReversedPlaces(groups: seq<Group>): seq<(nat, int)> {
    if groups == [] then []
    else Places(groups[|groups| - 1]) + ReversedPlaces(groups[..|groups| - 1])
  }

  /** The last register of a group, and where it is. */
  function LastOf(g: Group): (nat, int) {
    if g.second.Some? then (g.second.value, g.offset + 8) else (g.first, g.offset)
  }

  ghost predicate PairedBack(groups: seq<Group>) {
    forall k :: 0 < k < |groups| && groups[k - 1].second.None? ==>
      !OnePair(LastOf(groups[k]).0, LastOf(groups[k]).1, groups[k - 1].first, groups[k - 1].offset)
  }

  lemma NoGroups(saved: seq<nat>, offsets: map<nat, int>)
    requires forall k :: 0 <= k < |saved| ==> saved[k] in offsets
    ensures ReversedPlaces([]) == Slots(saved, offsets, |saved|, |saved|)
  {
  }

  lemma GroupAdded(groups: seq<Group>, g: Group)
    ensures ReversedPlaces(groups + [g]) == Places(g) + ReversedPlaces(groups)
  {
    assert (groups + [g])[..|groups|] == groups;
  }

  lemma GroupSlots(saved: seq<nat>, offsets: map<nat, int>, at: nat, i: nat, g: Group)
    requires (forall k :: 0 <= k < |saved| ==> saved[k] in offsets) && at < i <= |saved|
    requires g.first == saved[at] && g.offset == offsets[saved[at]]
    requires if g.second.Some?
             then at + 2 == i && g.second.value == saved[at + 1] && offsets[saved[at + 1]] == g.offset + 8
             else at + 1 == i
    ensures Slots(saved, offsets, at, |saved|) == Places(g) + Slots(saved, offsets, i, |saved|)
    ensures LastOf(g) == (saved[i - 1], offsets[saved[i - 1]])
  {
    assert Slots(saved, offsets, at, |saved|) == Slots(saved, offsets, at, i) + Slots(saved, offsets, i, |saved|);
    assert Slots(saved, offsets, at, i) == Places(g);
  }

  /** From the back: the same registers at the same offsets, in groups of their own. */
  method GroupForRestoring(saved: seq<nat>, offsets: map<nat, int>) returns (groups: seq<Group>)
    requires (forall k :: 0 <= k < |saved| ==> saved[k] in offsets) && Savable(saved)
    ensures ReversedPlaces(groups) == Slots(saved, offsets, 0, |saved|) && Uniform(groups) && PairedBack(groups)
  {
    hide CanPair, OnePair, SameFile, ReversedPlaces, Places, Slots;
    groups := [];
    assert ReversedPlaces(groups) == Slots(saved, offsets, |saved|, |saved|) by { NoGroups(saved, offsets); }
    var i: nat := |saved|;
    while i > 0
      invariant i <= |saved| && ReversedPlaces(groups) == Slots(saved, offsets, i, |saved|)
      invariant Uniform(groups) && PairedBack(groups)
      invariant i > 0 && groups != [] && groups[|groups| - 1].second.None? ==>
        !OnePair(saved[i - 1], offsets[saved[i - 1]], groups[|groups| - 1].first, groups[|groups| - 1].offset)
    {
      var pair := i >= 2 && CanPair(saved, offsets, i - 2, i - 1);
      if i >= 2 { PairIsPair(saved, offsets, i - 2, i - 1); }
      var at: nat := if pair then i - 2 else i - 1;
      var g := Group(saved[at], if pair then Some(saved[i - 1]) else None, offsets[saved[at]]);
      GroupAdded(groups, g);
      GroupSlots(saved, offsets, at, i, g);
      groups := groups + [g];
      i := at;
    }
  }

  /** One access of a group: the far access at the group's own offset. */
  function FarAccess(load: bool, g: Group): Instr {
    match g.second
    case Some(second) => if load then LoadPair(g.first, second, g.offset) else StorePair(g.first, second, g.offset)
    case None => if load then Load(g.first, g.offset, 8) else Store(g.first, g.offset, 8)
  }

  method InsertSavedRegisterAccess(load: bool, g: Group) returns (code: seq<Instr>)
    requires g.offset >= 0 && g.offset % 8 == 0
    requires g.second.Some? ==> SameFile(g.first, g.second.value) && g.first != g.second.value
    ensures AllSound(code) && ActsAs(code, FarAccess(load, g))
    ensures (if g.second.Some? then PairImmediate(g.offset, 8) else ScaledImmediate(g.offset, 8)) ==> |code| == 1
  {
    hide ActsAs, Moves, ScaledImmediate, PairImmediate, AddImmediate, SameFile;
    NearFits(g.offset, 8);
    ScaledField(g.offset, 8);
    ScaledField(g.offset - g.offset / STACK_ALIGNMENT * STACK_ALIGNMENT, 8);
    var encodable := if g.second.Some? then IsPairOffsetEncodable(g.offset, 8)
      else IsScaledOffsetEncodable(g.offset, 8);
    if encodable {
      ActsAsItself(FarAccess(load, g));
      return [FarAccess(load, g)];
    }
    var adjustment := g.offset / STACK_ALIGNMENT * STACK_ALIGNMENT;
    var up := InsertStackAdjustment(false, adjustment);
    var near := FarAccess(load, g.(offset := g.offset - adjustment));
    var down := InsertStackAdjustment(true, adjustment);
    AroundAccess(up, near, down, FarAccess(load, g), adjustment);
    code := up + [near] + down;
  }

  // Prologue and epilogue

  /** The address of a slot. */
  function At(sp: int, slot: (nat, int)): int {
    sp + slot.1
  }

  /** Registers stored into their slots. */
  ghost predicate Stored(slots: set<(nat, int)>, m: Machine, n: Machine) {
    && n.sp == m.sp && (forall r: nat :: n.regs(r) == m.regs(r))
    && (forall p :: p in slots ==> n.mem(At(m.sp, p)) == m.regs(p.0))
    && (forall x: int :: (forall p :: p in slots ==> x != At(m.sp, p)) ==> n.mem(x) == m.mem(x))
  }

  /** Registers loaded from their slots. */
  ghost predicate Loaded(slots: set<(nat, int)>, m: Machine, n: Machine) {
    && n.sp == m.sp && (forall x: int :: n.mem(x) == m.mem(x))
    && (forall p :: p in slots ==> n.regs(p.0) == m.mem(At(m.sp, p)))
    && (forall r: nat :: (forall p :: p in slots ==> r != p.0) ==> n.regs(r) == m.regs(r))
  }

  ghost predicate Stores(code: seq<Instr>, slots: set<(nat, int)>) {
    forall m: Machine {:trigger Run(code, m)} :: Stored(slots, m, Run(code, m))
  }

  ghost predicate Loads(code: seq<Instr>, slots: set<(nat, int)>) {
    forall m: Machine {:trigger Run(code, m)} :: Loaded(slots, m, Run(code, m))
  }

  ghost function SetOf(slots: seq<(nat, int)>): set<(nat, int)> {
    set p | p in slots
  }

  lemma GroupStored(g: Group, m: Machine, n: Machine)
    requires SameMachine(n, Step(FarAccess(false, g), m))
    ensures Stored(SetOf(Places(g)), m, n)
  {
  }

  lemma GroupLoaded(g: Group, m: Machine, n: Machine)
    requires SameMachine(n, Step(FarAccess(true, g), m)) && (g.second.Some? ==> g.second.value != g.first)
    ensures Loaded(SetOf(Places(g)), m, n)
  {
  }

  ghost predicate OffsetsApart(s: set<(nat, int)>, t: set<(nat, int)>) {
    forall p, q :: p in s && q in t ==> p.1 != q.1
  }

  ghost predicate RegistersApart(s: set<(nat, int)>, t: set<(nat, int)>) {
    forall p, q :: p in s && q in t ==> p.0 != q.0
  }

  lemma StoredBoth(s: set<(nat, int)>, t: set<(nat, int)>, m: Machine, n: Machine, k: Machine)
    requires Stored(s, m, n) && Stored(t, n, k) && OffsetsApart(s, t)
    ensures Stored(s + t, m, k)
  {
    forall p | p in s ensures k.mem(At(m.sp, p)) == n.mem(At(m.sp, p)) {
      assert forall q :: q in t ==> At(m.sp, p) != At(n.sp, q);
    }
    hide At, OffsetsApart;
  }

  lemma LoadedBoth(s: set<(nat, int)>, t: set<(nat, int)>, m: Machine, n: Machine, k: Machine)
    requires Loaded(s, m, n) && Loaded(t, n, k) && RegistersApart(s, t)
    ensures Loaded(s + t, m, k)
  {
    forall p | p in s ensures k.regs(p.0) == n.regs(p.0) {
      assert forall q :: q in t ==> p.0 != q.0;
    }
  }

  lemma StoresBoth(a: seq<Instr>, b: seq<Instr>, s: set<(nat, int)>, t: set<(nat, int)>)
    requires Stores(a, s) && Stores(b, t) && OffsetsApart(s, t)
    ensures Stores(a + b, s + t)
  {
    hide Run, Stored, OffsetsApart;
    forall m: Machine ensures Stored(s + t, m, Run(a + b, m)) {
      RunAppend(a, b, m);
      StoredBoth(s, t, m, Run(a, m), Run(b, Run(a, m)));
    }
  }

  lemma LoadsBoth(a: seq<Instr>, b: seq<Instr>, s: set<(nat, int)>, t: set<(nat, int)>)
    requires Loads(a, s) && Loads(b, t) && RegistersApart(s, t)
    ensures Loads(a + b, s + t)
  {
    hide Run, Loaded, RegistersApart;
    forall m: Machine ensures Loaded(s + t, m, Run(a + b, m)) {
      RunAppend(a, b, m);
      LoadedBoth(s, t, m, Run(a, m), Run(b, Run(a, m)));
    }
  }

  lemma GroupStores(code: seq<Instr>, g: Group)
    requires ActsAs(code, FarAccess(false, g))
    ensures Stores(code, SetOf(Places(g)))
  {
    hide Run, Stored, SameMachine;
    forall m: Machine ensures Stored(SetOf(Places(g)), m, Run(code, m)) {
      GroupStored(g, m, Run(code, m));
    }
  }

  lemma GroupLoads(code: seq<Instr>, g: Group)
    requires ActsAs(code, FarAccess(true, g)) && (g.second.Some? ==> g.second.value != g.first)
    ensures Loads(code, SetOf(Places(g)))
  {
    hide Run, Loaded, SameMachine;
    forall m: Machine ensures Loaded(SetOf(Places(g)), m, Run(code, m)) {
      GroupLoaded(g, m, Run(code, m));
    }
  }

  /** Registers differ, offsets differ, and every offset is a multiple of eight in the frame. */
  ghost predicate Slotted(slots: seq<(nat, int)>, stackSize: nat) {
    && (forall i, j :: 0 <= i < j < |slots| ==> slots[i].0 != slots[j].0 && slots[i].1 != slots[j].1)
    && (forall i :: 0 <= i < |slots| ==> 0 <= slots[i].1 <= stackSize - 8 && slots[i].1 % 8 == 0)
  }

  lemma SplitSlots(s: seq<(nat, int)>, t: seq<(nat, int)>, stackSize: nat)
    requires Slotted(s + t, stackSize)
    ensures Slotted(s, stackSize) && Slotted(t, stackSize) && SetOf(s + t) == SetOf(s) + SetOf(t)
    ensures OffsetsApart(SetOf(s), SetOf(t)) && RegistersApart(SetOf(s), SetOf(t))
  {
    var u := s + t;
    assert forall i :: 0 <= i < |s| ==> u[i] == s[i];
    assert forall i :: 0 <= i < |t| ==> u[|s| + i] == t[i];
    forall p, q | p in SetOf(s) && q in SetOf(t) ensures p.0 != q.0 && p.1 != q.1 {
      var i :| 0 <= i < |s| && s[i] == p;
      var j :| 0 <= j < |t| && t[j] == q;
      assert u[i] == p && u[|s| + j] == q;
    }
  }

  lemma GroupPlaced(g: Group, stackSize: nat)
    requires Slotted(Places(g), stackSize)
    ensures g.offset >= 0 && g.offset % 8 == 0 && (g.second.Some? ==> g.second.value != g.first)
  {
    assert Places(g)[0] == (g.first, g.offset);
    if g.second.Some? { assert Places(g)[1] == (g.second.value, g.offset + 8); }
  }

  lemma {:induction false} FlattenPrefix(groups: seq<Group>, i: nat) returns (rest: seq<(nat, int)>)
    requires i <= |groups|
    ensures Flatten(groups) == Flatten(groups[..i]) + rest
    decreases |groups|
  {
    if i == |groups| {
      assert groups[..i] == groups;
      return [];
    }
    var init := groups[..|groups| - 1];
    assert init[..i] == groups[..i];
    rest := FlattenPrefix(init, i);
    rest := rest + Places(groups[|groups| - 1]);
  }

  lemma NextFlattened(groups: seq<Group>, i: nat) returns (rest: seq<(nat, int)>)
    requires i < |groups|
    ensures Flatten(groups) == Flatten(groups[..i + 1]) + rest
    ensures Flatten(groups[..i + 1]) == Flatten(groups[..i]) + Places(groups[i])
  {
    rest := FlattenPrefix(groups, i + 1);
    assert groups[..i + 1][..i] == groups[..i];
  }

  lemma NextReversed(groups: seq<Group>, i: nat) returns (rest: seq<(nat, int)>)
    requires i < |groups|
    ensures ReversedPlaces(groups) == rest + ReversedPlaces(groups[..i + 1])
    ensures ReversedPlaces(groups[..i + 1]) == Places(groups[i]) + ReversedPlaces(groups[..i])
  {
    rest := ReversedPrefix(groups, i + 1);
    assert groups[..i + 1][..i] == groups[..i];
  }

  /** The next group of a list with slots of its own. */
  lemma NextSaved(groups: seq<Group>, i: nat, stackSize: nat)
    requires i < |groups| && Slotted(Flatten(groups), stackSize)
    ensures var done, next := SetOf(Flatten(groups[..i])), SetOf(Places(groups[i]));
      && OffsetsApart(done, next) && SetOf(Flatten(groups[..i + 1])) == done + next
    ensures groups[i].offset >= 0 && groups[i].offset % 8 == 0
    ensures groups[i].second.Some? ==> groups[i].second.value != groups[i].first
  {
    hide *;
    var rest := NextFlattened(groups, i);
    SplitSlots(Flatten(groups[..i + 1]), rest, stackSize);
    SplitSlots(Flatten(groups[..i]), Places(groups[i]), stackSize);
    GroupPlaced(groups[i], stackSize);
  }

  method SaveRegisters(groups: seq<Group>, ghost stackSize: nat) returns (code: seq<Instr>)
    requires Slotted(Flatten(groups), stackSize) && Uniform(groups)
    ensures AllSound(code) && Stores(code, SetOf(Flatten(groups)))
  {
    code := [];
    for i := 0 to |groups|
      invariant AllSound(code) && Stores(code, SetOf(Flatten(groups[..i])))
    {
      hide Stores, Slotted, ActsAs, Flatten, SetOf, Sound, SameFile;
      NextSaved(groups, i, stackSize);
      var access := InsertSavedRegisterAccess(false, groups[i]);
      GroupStores(access, groups[i]);
      StoresBoth(code, access, SetOf(Flatten(groups[..i])), SetOf(Places(groups[i])));
      code := code + access;
    }
    assert groups[..|groups|] == groups;
  }

  lemma {:induction false} ReversedPrefix(groups: seq<Group>, i: nat) returns (rest: seq<(nat, int)>)
    requires i <= |groups|
    ensures ReversedPlaces(groups) == rest + ReversedPlaces(groups[..i])
    decreases |groups|
  {
    if i == |groups| {
      assert groups[..i] == groups;
      return [];
    }
    var init := groups[..|groups| - 1];
    assert init[..i] == groups[..i];
    rest := ReversedPrefix(init, i);
    rest := Places(groups[|groups| - 1]) + rest;
  }

  lemma NextRestored(groups: seq<Group>, i: nat, stackSize: nat)
    requires i < |groups| && Slotted(ReversedPlaces(groups), stackSize)
    ensures var done, next := SetOf(ReversedPlaces(groups[..i])), SetOf(Places(groups[i]));
      && RegistersApart(done, next) && SetOf(ReversedPlaces(groups[..i + 1])) == done + next
    ensures groups[i].offset >= 0 && groups[i].offset % 8 == 0
    ensures groups[i].second.Some? ==> groups[i].second.value != groups[i].first
  {
    hide *;
    var rest := NextReversed(groups, i);
    SplitSlots(rest, ReversedPlaces(groups[..i + 1]), stackSize);
    SplitSlots(Places(groups[i]), ReversedPlaces(groups[..i]), stackSize);
    SwapApart(SetOf(Places(groups[i])), SetOf(ReversedPlaces(groups[..i])));
    GroupPlaced(groups[i], stackSize);
  }

  lemma SwapApart(s: set<(nat, int)>, t: set<(nat, int)>)
    requires RegistersApart(s, t)
    ensures RegistersApart(t, s) && s + t == t + s
  {
  }

  method RestoreRegisters(groups: seq<Group>, ghost stackSize: nat) returns (code: seq<Instr>)
    requires Slotted(ReversedPlaces(groups), stackSize) && Uniform(groups)
    ensures AllSound(code) && Loads(code, SetOf(ReversedPlaces(groups)))
  {
    code := [];
    for i := 0 to |groups|
      invariant AllSound(code) && Loads(code, SetOf(ReversedPlaces(groups[..i])))
    {
      hide Loads, Slotted, ActsAs, ReversedPlaces, SetOf, Sound, SameFile;
      NextRestored(groups, i, stackSize);
      var access := InsertSavedRegisterAccess(true, groups[i]);
      GroupLoads(access, groups[i]);
      LoadsBoth(code, access, SetOf(ReversedPlaces(groups[..i])), SetOf(Places(groups[i])));
      code := code + access;
    }
    assert groups[..|groups|] == groups;
  }

  /** After the prologue: the frame is below, the slots hold the saved registers and, under a
      call, the link register is above the frame. */
  ghost predicate Entered(slots: set<(nat, int)>, stackSize: nat, hasCalls: bool, m: Machine, n: Machine) {
    var top := m.sp - if hasCalls then 16 else 0;
    && n.sp == top - stackSize && (forall r: nat :: n.regs(r) == m.regs(r))
    && (forall p :: p in slots ==> n.mem(At(n.sp, p)) == m.regs(p.0))
    && (hasCalls ==> n.mem(m.sp - 8) == m.regs(LINK))
    && (forall x: int :: x >= m.sp ==> n.mem(x) == m.mem(x))
  }

  /** After the epilogue: the frame is gone, the slots are back in their registers. */
  ghost predicate Left(slots: set<(nat, int)>, stackSize: nat, hasCalls: bool, m: Machine, n: Machine) {
    && n.sp == m.sp + stackSize + (if hasCalls then 16 else 0) && (forall x: int :: n.mem(x) == m.mem(x))
    && (forall p :: p in slots && !(hasCalls && p.0 == LINK) ==> n.regs(p.0) == m.mem(At(m.sp, p)))
    && (hasCalls ==> n.regs(LINK) == m.mem(m.sp + stackSize + 8))
    && (forall r: nat :: (forall p :: p in slots ==> r != p.0) && !(hasCalls && r == LINK) ==> n.regs(r) == m.regs(r))
  }

  ghost predicate Enters(code: seq<Instr>, slots: set<(nat, int)>, stackSize: nat, hasCalls: bool) {
    forall m: Machine {:trigger Run(code, m)} :: Entered(slots, stackSize, hasCalls, m, Run(code, m))
  }

  ghost predicate Leaves(code: seq<Instr>, slots: set<(nat, int)>, stackSize: nat, hasCalls: bool) {
    forall m: Machine {:trigger Run(code, m)} :: Left(slots, stackSize, hasCalls, m, Run(code, m))
  }

  ghost predicate InFrame(slots: set<(nat, int)>, stackSize: nat) {
    forall p :: p in slots ==> 0 <= p.1 <= stackSize - 8
  }

  lemma PrologueEnters(push: seq<Instr>, down: seq<Instr>, saves: seq<Instr>, slots: set<(nat, int)>, stackSize: nat,
                       hasCalls: bool)
    requires push == (if hasCalls then [PushLink] else []) && Moves(down, 0 - stackSize) && Stores(saves, slots)
    requires InFrame(slots, stackSize)
    ensures Enters(push + down + saves, slots, stackSize, hasCalls)
  {
    forall m: Machine ensures Entered(slots, stackSize, hasCalls, m, Run(push + down + saves, m)) {
      RunAppend(push + down, saves, m);
      RunAppend(push, down, m);
      RunOne(PushLink, m);
      var a := Run(push, m);
      var b := Run(down, a);
      assert b == a.(sp := a.sp - stackSize);
      var n := Run(saves, b);
      assert Stored(slots, b, n);
      hide Run, Stores, Moves;
      forall x: int | x >= a.sp ensures n.mem(x) == a.mem(x) {
        assert forall p :: p in slots ==> x != At(b.sp, p);
      }
    }
  }

  lemma EpilogueLeaves(restores: seq<Instr>, up: seq<Instr>, pop: seq<Instr>, slots: set<(nat, int)>, stackSize: nat,
                       hasCalls: bool)
    requires pop == (if hasCalls then [PopLink] else []) && Moves(up, stackSize) && Loads(restores, slots)
    ensures Leaves(restores + up + pop, slots, stackSize, hasCalls)
  {
    forall m: Machine ensures Left(slots, stackSize, hasCalls, m, Run(restores + up + pop, m)) {
      RunAppend(restores + up, pop, m);
      RunAppend(restores, up, m);
      var a := Run(restores, m);
      var b := Run(up, a);
      assert b == a.(sp := a.sp + stackSize);
      RunOne(PopLink, b);
      assert Loaded(slots, m, a);
      hide Run, Loads, Moves;
    }
  }

  method InsertPrologue(saved: seq<nat>, offsets: map<nat, int>, stackSize: nat, hasCalls: bool)
    returns (code: seq<Instr>)
    requires (forall k :: 0 <= k < |saved| ==> saved[k] in offsets) && stackSize % STACK_ALIGNMENT == 0
    requires Savable(saved)
    requires Slotted(Slots(saved, offsets, 0, |saved|), stackSize)
    ensures AllSound(code)
    ensures Enters(code, SetOf(Slots(saved, offsets, 0, |saved|)), stackSize, hasCalls)
  {
    hide Slots, Moves, Stores, Enters;
    InsideFrame(Slots(saved, offsets, 0, |saved|), stackSize);
    var push := if hasCalls then [PushLink] else [];
    var down := InsertStackAdjustment(true, stackSize);
    var groups := GroupForSaving(saved, offsets);
    var saves := SaveRegisters(groups, stackSize);
    PrologueEnters(push, down, saves, SetOf(Slots(saved, offsets, 0, |saved|)), stackSize, hasCalls);
    code := push + down + saves;
  }

  method InsertEpilogue(saved: seq<nat>, offsets: map<nat, int>, stackSize: nat, hasCalls: bool)
    returns (code: seq<Instr>)
    requires (forall k :: 0 <= k < |saved| ==> saved[k] in offsets) && stackSize % STACK_ALIGNMENT == 0
    requires Savable(saved)
    requires Slotted(Slots(saved, offsets, 0, |saved|), stackSize)
    ensures AllSound(code)
    ensures Leaves(code, SetOf(Slots(saved, offsets, 0, |saved|)), stackSize, hasCalls)
  {
    hide Slots, Moves, Loads, Leaves;
    var groups := GroupForRestoring(saved, offsets);
    var restores := RestoreRegisters(groups, stackSize);
    var up := InsertStackAdjustment(false, stackSize);
    var pop := if hasCalls then [PopLink] else [];
    EpilogueLeaves(restores, up, pop, SetOf(Slots(saved, offsets, 0, |saved|)), stackSize, hasCalls);
    code := restores + up + pop;
  }

  lemma InsideFrame(slots: seq<(nat, int)>, stackSize: nat)
    requires Slotted(slots, stackSize)
    ensures InFrame(SetOf(slots), stackSize)
  {
  }

  /** What a function body owes its frame: the stack pointer, the save slots and the return record. */
  ghost predicate KeepsFrame(slots: set<(nat, int)>, stackSize: nat, hasCalls: bool, n: Machine, body: Machine) {
    && body.sp == n.sp && (forall p :: p in slots ==> body.mem(At(n.sp, p)) == n.mem(At(n.sp, p)))
    && (hasCalls ==> body.mem(n.sp + stackSize + 8) == n.mem(n.sp + stackSize + 8))
  }

  /** It then gives its caller back the stack pointer, every saved register and the link register. */
  lemma CallPreserves(prologue: seq<Instr>, epilogue: seq<Instr>, slots: set<(nat, int)>, stackSize: nat,
                      hasCalls: bool,
                      m: Machine, body: Machine)
    requires Enters(prologue, slots, stackSize, hasCalls) && Leaves(epilogue, slots, stackSize, hasCalls)
    requires KeepsFrame(slots, stackSize, hasCalls, Run(prologue, m), body)
    ensures var n := Run(epilogue, body);
      && n.sp == m.sp && (hasCalls ==> n.regs(LINK) == m.regs(LINK))
      && (forall p :: p in slots ==> n.regs(p.0) == m.regs(p.0))
      && (forall x: int :: n.mem(x) == body.mem(x))
  {
    var n, k := Run(prologue, m), Run(epilogue, body);
    assert Entered(slots, stackSize, hasCalls, m, n) && Left(slots, stackSize, hasCalls, body, k);
    hide *;
    Preserved(slots, stackSize, hasCalls, m, n, body, k);
  }

  lemma Preserved(slots: set<(nat, int)>, stackSize: nat, hasCalls: bool, m: Machine, n: Machine, body: Machine,
                  k: Machine)
    requires Entered(slots, stackSize, hasCalls, m, n) && Left(slots, stackSize, hasCalls, body, k)
    requires KeepsFrame(slots, stackSize, hasCalls, n, body)
    ensures k.sp == m.sp && (hasCalls ==> k.regs(LINK) == m.regs(LINK))
    ensures forall p :: p in slots ==> k.regs(p.0) == m.regs(p.0)
    ensures forall x: int :: k.mem(x) == body.mem(x)
  {
    assert hasCalls ==> n.sp + stackSize + 8 == m.sp - 8;
    hide At;
    forall p | p in slots ensures k.regs(p.0) == m.regs(p.0) {
      assert n.mem(At(n.sp, p)) == m.regs(p.0);
      assert !(hasCalls && p.0 == LINK) ==> k.regs(p.0) == body.mem(At(body.sp, p));
    }
  }

  /** The callee-saved registers that any operand of the function names, in ascending order. */
  method DetermineCalleeSaves(named: seq<nat>) returns (saved: seq<nat>)
    ensures forall r :: r in saved <==> r in named && IsCalleeSaved(r)
    ensures forall i, j :: 0 <= i < j < |saved| ==> saved[i] < saved[j]
    ensures Savable(saved)
  {
    var used: set<nat> := {};
    for i := 0 to |named|
      invariant forall r :: r in used <==> r in named[..i] && IsCalleeSaved(r)
    {
      assert named[..i + 1] == named[..i] + [named[i]];
      if IsCalleeSaved(named[i]) { used := used + {named[i]}; }
    }
    assert named[..|named|] == named;
    saved := [];
    for r := 0 to V31 + 1
      invariant forall q :: q in saved <==> q in used && q < r
      invariant forall k :: 0 <= k < |saved| ==> saved[k] < r && IsCalleeSaved(saved[k])
      invariant forall i, j :: 0 <= i < j < |saved| ==> saved[i] < saved[j]
    {
      if r in used { saved := saved + [r]; }
    }
  }

  /** With these registers saved a call gives back every callee-saved register of the procedure call
      standard, if the body writes only registers that its operands name. */
  lemma CalleeSavesReturned(prologue: seq<Instr>, epilogue: seq<Instr>, named: seq<nat>, saved: seq<nat>,
                            offsets: map<nat, int>, stackSize: nat, hasCalls: bool, m: Machine, body: Machine, r: nat)
    requires (forall k :: 0 <= k < |saved| ==> saved[k] in offsets)
             && (forall q :: q in saved <==> q in named && IsCalleeSaved(q))
    requires Enters(prologue, SetOf(Slots(saved, offsets, 0, |saved|)), stackSize, hasCalls)
    requires Leaves(epilogue, SetOf(Slots(saved, offsets, 0, |saved|)), stackSize, hasCalls)
    requires KeepsFrame(SetOf(Slots(saved, offsets, 0, |saved|)), stackSize, hasCalls, Run(prologue, m), body)
    requires r !in named ==> body.regs(r) == Run(prologue, m).regs(r)
    requires X19 <= r <= X28 || V8 <= r <= V15
    ensures Run(epilogue, body).regs(r) == m.regs(r)
  {
    var slots := SetOf(Slots(saved, offsets, 0, |saved|));
    assert Entered(slots, stackSize, hasCalls, m, Run(prologue, m));
    assert Left(slots, stackSize, hasCalls, body, Run(epilogue, body));
    assert IsCalleeSaved(r) && r != LINK;
    hide *;
    CallPreserves(prologue, epilogue, slots, stackSize, hasCalls, m, body);
    SlotOf(saved, offsets, r);
    if r !in saved { Untouched(slots, stackSize, hasCalls, m, Run(prologue, m), body, Run(epilogue, body), r); }
  }

  lemma SlotOf(saved: seq<nat>, offsets: map<nat, int>, r: nat)
    requires forall k :: 0 <= k < |saved| ==> saved[k] in offsets
    ensures r in saved <==> r in offsets && (r, offsets[r]) in SetOf(Slots(saved, offsets, 0, |saved|))
    ensures r !in saved ==> forall p :: p in SetOf(Slots(saved, offsets, 0, |saved|)) ==> p.0 != r
  {
    if r in saved {
      var k :| 0 <= k < |saved| && saved[k] == r;
      assert Slots(saved, offsets, 0, |saved|)[k] == (r, offsets[r]);
    }
  }

  lemma Untouched(slots: set<(nat, int)>, stackSize: nat, hasCalls: bool, m: Machine, n: Machine, body: Machine,
                  k: Machine, r: nat)
    requires Entered(slots, stackSize, hasCalls, m, n) && Left(slots, stackSize, hasCalls, body, k)
    requires body.regs(r) == n.regs(r) && r != LINK && forall p :: p in slots ==> p.0 != r
    ensures k.regs(r) == m.regs(r)
  {
    hide At;
  }

  /** The layout's save slots are what the prologue and epilogue need. */
  lemma SavedSlotted(saved: seq<nat>, offsets: map<nat, int>, low: nat, top: nat, stackSize: nat)
    requires FrameLayout.Saved(saved, offsets, |saved|, low, top) && top <= stackSize
    requires forall i, j :: 0 <= i < j < |saved| ==> saved[i] != saved[j]
    ensures Slotted(Slots(saved, offsets, 0, |saved|), stackSize)
  {
  }

  /** Where an object lies above the stack pointer of the body. */
  function ResolvedFrameOffset(o: FrameLayout.StackObject, stackSize: nat, hasCalls: bool): int {
    if !o.fixed then o.offset else stackSize + (if hasCalls then STACK_ALIGNMENT else 0) + o.offset
  }

  /** A fixed object is found where the caller left it, and still holds what the caller put there;
      an object of the frame lies below everything the caller can see. */
  lemma ObjectsResolved(o: FrameLayout.StackObject, slots: set<(nat, int)>, stackSize: nat, hasCalls: bool,
                        m: Machine, n: Machine)
    requires Entered(slots, stackSize, hasCalls, m, n)
    requires o.fixed || o.offset + o.size <= stackSize
    ensures var at := n.sp + ResolvedFrameOffset(o, stackSize, hasCalls);
            if o.fixed then at == m.sp + o.offset && (o.offset >= 0 ==> n.mem(at) == m.mem(at))
            else at + o.size <= m.sp
  {
    hide At;
  }
}
