/**
 Branch relaxation: a conditional branch whose target is too far away is inverted to skip an
 unconditional branch, which goes into a block of its own right behind.
 */
module BranchRelaxation {
  import opened Encoding

  datatype CondCode = EQ | NE | HS | LO | MI | PL | VS | VC | HI | LS | GE | LT | GT | LE | AL

  function InverseCondition(c: CondCode): CondCode {
    match c
    case EQ => NE case NE => EQ case HS => LO case LO => HS
    case MI => PL case PL => MI case VS => VC case VC => VS
    case HI => LS case LS => HI case GE => LT case LT => GE
    case GT => LE case LE => GT case AL => AL
  }

  type Id = nat

  datatype Instr =
    | Bcc(cond: CondCode, target: Id)
    | CompareZero(nonzero: bool, reg: nat, target: Id)
    | TestBit(nonzero: bool, reg: nat, bit: nat, target: Id)
    | Jump(target: Id)
    | Return
    | NarrowCopy(dst: nat, src: nat) // register 0 is none
    | Plain

  datatype Block = Block(id: Id, code: seq<Instr>, successors: seq<Id>)

  predicate IsConditional(i: Instr) {
    i.Bcc? || i.CompareZero? || i.TestBit?
  }

  /** What the branches of a block get to see. */
  datatype Env = Env(n: bool, z: bool, c: bool, v: bool, zero: nat -> bool, bit: (nat, nat) -> bool)

  /** The conditions of section C1.2.4 of the Arm Architecture Reference Manual. */
  predicate Passes(cond: CondCode, e: Env) {
    match cond
    case EQ => e.z case NE => !e.z case HS => e.c case LO => !e.c
    case MI => e.n case PL => !e.n case VS => e.v case VC => !e.v
    case HI => e.c && !e.z case LS => !(e.c && !e.z)
    case GE => e.n == e.v case LT => e.n != e.v
    case GT => !e.z && e.n == e.v case LE => !(!e.z && e.n == e.v)
    case AL => true
  }

  predicate Taken(i: Instr, e: Env)
    requires IsConditional(i)
  {
    match i
    case Bcc(cond, _) => Passes(cond, e)
    case CompareZero(nonzero, reg, _) => e.zero(reg) != nonzero
    case TestBit(nonzero, reg, bit, _) => e.bit(reg, bit) == nonzero
  }

  /** Every condition but the one that always holds has an inverse. */
  lemma InverseExactly(c: CondCode)
    ensures (forall e: Env :: Passes(InverseCondition(c), e) <==> !Passes(c, e)) <==> c != AL
  {
    if c == AL {
      var e := Env(false, false, false, false, _ => false, (_, _) => false);
      assert Passes(InverseCondition(c), e) && Passes(c, e);
    }
  }

  function Inverted(i: Instr, target: Id): (r: Instr)
    requires IsConditional(i)
    ensures IsConditional(r) && r.target == target
  {
    match i
    case Bcc(cond, _) => Bcc(InverseCondition(cond), target)
    case CompareZero(nonzero, reg, _) => CompareZero(!nonzero, reg, target)
    case TestBit(nonzero, reg, bit, _) => TestBit(!nonzero, reg, bit, target)
  }

  lemma InvertedTaken(i: Instr, target: Id, e: Env)
    requires IsConditional(i) && !(i.Bcc? && i.cond == AL)
    ensures Taken(Inverted(i, target), e) <==> !Taken(i, e)
  {
  }

  // Sizes and displacements

  function Size(i: Instr): nat {
    if i.NarrowCopy? && i.dst != 0 && i.dst == i.src then 0 else 4
  }

  /** The bytes emitted for the code: four for an instruction, none for a copy of a register to its own
      low half. */
  ghost function CodeSize(code: seq<Instr>): nat {
    if code == [] then 0
    else
      var last := code[|code| - 1];
      CodeSize(code[..|code| - 1])
        + match last { case NarrowCopy(dst, src) => if dst == src != 0 then 0 else 4 case _ => 4 }
  }

  /** The offset of block k. */
  ghost function BlockOffset(f: seq<Block>, k: nat): nat
    requires k <= |f|
  {
    if k == 0 then 0 else BlockOffset(f, k - 1) + CodeSize(f[k - 1].code)
  }

  ghost function InstrOffset(f: seq<Block>, k: nat, i: nat): nat
    requires k < |f| && i <= |f[k].code|
  {
    BlockOffset(f, k) + CodeSize(f[k].code[..i])
  }

  predicate Fits(i: Instr, displacement: int) {
    var range := if i.TestBit? then 0x8000 else 0x10_0000;
    -range <= displacement <= range - 4 && displacement % 4 == 0
  }

  /** The displacement fields of section C6.2 of the Arm Architecture Reference Manual: fourteen bits for a
      bit test, nineteen for the other conditional branches, in units of one instruction. */
  ghost predicate Reaches(i: Instr, displacement: int) {
    exists imm :: SignedField(if i.TestBit? then 14 else 19, imm) && displacement == imm * 4
  }

  /** The code's test decides exactly what the field can hold. */
  lemma FitsIsField(i: Instr, displacement: int)
    ensures Fits(i, displacement) <==> Reaches(i, displacement)
  {
    FieldSizes();
    if Fits(i, displacement) {
      var imm := displacement / 4;
      assert SignedField(if i.TestBit? then 14 else 19, imm) && displacement == imm * 4;
    }
  }

  ghost predicate IsAt(f: seq<Block>, id: Id, k: nat) {
    k < |f| && f[k].id == id
  }

  /** The branch can be encoded. */
  ghost predicate InRange(f: seq<Block>, k: nat, i: nat)
    requires k < |f| && i < |f[k].code|
  {
    var b := f[k].code[i];
    b.Bcc? || b.CompareZero? || b.TestBit? ==>
      forall t :: IsAt(f, b.target, t) ==> Reaches(b, BlockOffset(f, t) - InstrOffset(f, k, i))
  }

  ghost predicate AllInRange(f: seq<Block>) {
    forall k, i :: 0 <= k < |f| && 0 <= i < |f[k].code| ==> InRange(f, k, i)
  }

  /** Every branch before instruction i of block k is in range. */
  ghost predicate FirstOut(f: seq<Block>, k: nat, i: nat) {
    forall p, q :: 0 <= p < |f| && 0 <= q < |f[p].code| && (p < k || (p == k && q < i)) ==> InRange(f, p, q)
  }

  lemma {:induction false} Aligned(f: seq<Block>, k: nat)
    requires k <= |f|
    ensures BlockOffset(f, k) % 4 == 0
  {
    if k > 0 {
      Aligned(f, k - 1);
      CodeAligned(f[k - 1].code);
    }
  }

  lemma {:induction false} CodeAligned(code: seq<Instr>)
    ensures CodeSize(code) % 4 == 0
  {
    if code != [] { CodeAligned(code[..|code| - 1]); }
  }

  // Control transfer

  datatype Exit = To(id: Id) | Returns | Through

  function Leave(code: seq<Instr>, e: Env): Exit {
    if code == [] then Through
    else if IsConditional(code[0]) then
      if Taken(code[0], e) then To(code[0].target) else Leave(code[1..], e)
    else if code[0].Jump? then To(code[0].target)
    else if code[0].Return? then Returns
    else Leave(code[1..], e)
  }

  /** Where block k goes; a block that falls off the end of the function returns. */
  function Transfer(f: seq<Block>, k: nat, e: Env): Exit
    requires k < |f|
  {
    var exit := Leave(f[k].code, e);
    if exit != Through then exit
    else if k + 1 < |f| then To(f[k + 1].id)
    else Returns
  }

  lemma {:induction false} LeaveAppend(a: seq<Instr>, b: seq<Instr>, e: Env)
    ensures Leave(a + b, e) == if Leave(a, e) == Through then Leave(b, e) else Leave(a, e)
  {
    if a == [] {
      assert a + b == b;
    } else {
      assert (a + b)[1..] == a[1..] + b;
      LeaveAppend(a[1..], b, e);
    }
  }

  // The split

  function Find(f: seq<Block>, id: Id): (k: nat)
    ensures k <= |f| && (k < |f| ==> f[k].id == id)
    ensures k == |f| ==> forall j :: 0 <= j < |f| ==> f[j].id != id
  {
    if f == [] then 0 else if f[0].id == id then 0 else 1 + Find(f[1..], id)
  }

  ghost predicate DistinctIds(f: seq<Block>) {
    forall j, k :: 0 <= j < k < |f| ==> f[j].id != f[k].id
  }

  lemma FindUnique(f: seq<Block>, k: nat)
    requires DistinctIds(f) && k < |f|
    ensures Find(f, f[k].id) == k
  {
    var j := Find(f, f[k].id);
    assert j < |f|;
  }

  function Without(ids: seq<Id>, id: Id): seq<Id> {
    if ids == [] then []
    else (if ids[0] == id then [] else [ids[0]]) + Without(ids[1..], id)
  }

  function Shortened(b: Block, i: nat, cont: Id): Block
    requires i < |b.code| && IsConditional(b.code[i])
  {
    Block(b.id, b.code[..i] + [Inverted(b.code[i], cont), Jump(b.code[i].target)], [b.code[i].target, cont])
  }

  function Continuation(b: Block, i: nat, cont: Id): Block
    requires i < |b.code| && IsConditional(b.code[i])
  {
    Block(cont, b.code[i + 1..], Without(b.successors, b.code[i].target))
  }

  function Split(f: seq<Block>, k: nat, i: nat, cont: Id): seq<Block>
    requires k < |f| && i < |f[k].code| && IsConditional(f[k].code[i])
  {
    f[..k] + [Shortened(f[k], i, cont), Continuation(f[k], i, cont)] + f[k + 1..]
  }

  /** An inverted branch over an unconditional one, to the block right behind. */
  ghost predicate Settled(f: seq<Block>, k: nat)
    requires k < |f|
  {
    var code := f[k].code;
    && k + 1 < |f| && |code| >= 2 && code[|code| - 1].Jump?
    && IsConditional(code[|code| - 2]) && code[|code| - 2].target == f[k + 1].id
  }

  ghost predicate HasConditional(b: Block) {
    exists i :: 0 <= i < |b.code| && IsConditional(b.code[i])
  }

  /** What the pass relies on: one conditional branch a block, never on the condition that always
      holds, with two successors, the target among them; and what it keeps: new blocks follow a
      settled branch, and only settled branches go to them. */
  ghost predicate BlockShape(f: seq<Block>, k: nat, n: nat)
    requires k < |f|
  {
    var b := f[k];
    && (forall i, j :: 0 <= i < j < |b.code| ==> !(IsConditional(b.code[i]) && IsConditional(b.code[j])))
    && (forall i :: 0 <= i < |b.code| && IsConditional(b.code[i]) ==>
          && !(b.code[i].Bcc? && b.code[i].cond == AL)
          && |b.successors| == 2 && b.code[i].target in b.successors
          && Find(f, b.code[i].target) < |f| && (b.code[i].target < n || Settled(f, k)))
    && (forall i :: 0 <= i < |b.code| && b.code[i].Jump? ==> b.code[i].target < n)
    && (b.id >= n ==> k > 0 && Settled(f, k - 1) && !HasConditional(b))
  }

  ghost predicate Shape(f: seq<Block>, n: nat, next: Id) {
    && n <= next && DistinctIds(f) && (forall k :: 0 <= k < |f| ==> f[k].id < next)
    && (forall k :: 0 <= k < |f| ==> BlockShape(f, k, n))
  }

  /** A settled branch skips exactly one instruction, however much code is added elsewhere. */
  lemma SettledInRange(f: seq<Block>, n: nat, next: Id, k: nat, i: nat)
    requires Shape(f, n, next) && k < |f| && i < |f[k].code| && IsConditional(f[k].code[i]) && Settled(f, k)
    ensures InRange(f, k, i) && Find(f, f[k].code[i].target) == k + 1
    ensures BlockOffset(f, k + 1) - InstrOffset(f, k, i) == 8
  {
    SettledAt(f, n, next, k, i);
    SettledDistance(f, k, i);
    FitsIsField(f[k].code[i], 8);
    assert DistinctIds(f);
    hide Reaches, Shape, Settled, CodeSize, BlockOffset, InstrOffset;
    FindUnique(f, k + 1);
    hide Find;
    forall t | IsAt(f, f[k].code[i].target, t) ensures t == k + 1 {
      FindUnique(f, t);
    }
  }

  lemma SettledAt(f: seq<Block>, n: nat, next: Id, k: nat, i: nat)
    requires Shape(f, n, next) && k < |f| && i < |f[k].code| && IsConditional(f[k].code[i]) && Settled(f, k)
    ensures k + 1 < |f| && i == |f[k].code| - 2 && f[k].code[i].target == f[k + 1].id && !f[k].code[i + 1].NarrowCopy?
  {
    assert BlockShape(f, k, n);
    hide Find;
  }

  lemma SettledDistance(f: seq<Block>, k: nat, i: nat)
    requires k + 1 < |f| && |f[k].code| >= 2 && i == |f[k].code| - 2
    requires !f[k].code[i].NarrowCopy? && !f[k].code[i + 1].NarrowCopy?
    ensures BlockOffset(f, k + 1) - InstrOffset(f, k, i) == 8
  {
    LastTwo(f[k].code);
    hide CodeSize;
  }

  lemma LastTwo(code: seq<Instr>)
    requires |code| >= 2 && !code[|code| - 1].NarrowCopy? && !code[|code| - 2].NarrowCopy?
    ensures CodeSize(code) == CodeSize(code[..|code| - 2]) + 8
  {
    assert code[..|code| - 1][..|code| - 2] == code[..|code| - 2];
    assert CodeSize(code) == CodeSize(code[..|code| - 1]) + 4;
  }

  // One split keeps the shape

  lemma SplitIds(f: seq<Block>, n: nat, next: Id, k: nat, i: nat)
    requires Shape(f, n, next) && k < |f| && i < |f[k].code| && IsConditional(f[k].code[i])
    ensures var g := Split(f, k, i, next);
      && |g| == |f| + 1 && DistinctIds(g)
      && (forall p :: 0 <= p < |g| ==> g[p].id < next + 1)
      && (forall p :: 0 <= p < k ==> g[p] == f[p])
      && (forall p :: k + 2 <= p < |g| ==> g[p] == f[p - 1])
      && g[k] == Shortened(f[k], i, next) && g[k + 1] == Continuation(f[k], i, next)
  {
    hide BlockShape;
  }

  ghost predicate Unsettled(f: seq<Block>, k: nat, i: nat) {
    k < |f| && i < |f[k].code| && IsConditional(f[k].code[i]) && !Settled(f, k)
  }

  lemma SettledKept(f: seq<Block>, n: nat, next: Id, k: nat, i: nat, p: nat)
    requires Shape(f, n, next) && Unsettled(f, k, i) && p < |f| && p != k
    ensures var g := Split(f, k, i, next); Settled(g, if p < k then p else p + 1) <==> Settled(f, p)
  {
    SplitIds(f, n, next, k, i);
    hide Shape;
  }

  lemma NewSettled(f: seq<Block>, n: nat, next: Id, k: nat, i: nat)
    requires Shape(f, n, next) && Unsettled(f, k, i)
    ensures Settled(Split(f, k, i, next), k)
  {
    SplitIds(f, n, next, k, i);
    hide Shape;
    var g := Split(f, k, i, next);
    assert g[k].code == f[k].code[..i] + [Inverted(f[k].code[i], next), Jump(f[k].code[i].target)];
  }

  /** The targets of other blocks are still there. */
  lemma FoundStill(f: seq<Block>, n: nat, next: Id, k: nat, i: nat, id: Id)
    requires Shape(f, n, next) && Unsettled(f, k, i) && Find(f, id) < |f|
    ensures var g := Split(f, k, i, next); var p := Find(f, id); Find(g, id) == if p <= k then p else p + 1
  {
    SplitIds(f, n, next, k, i);
    var g, p := Split(f, k, i, next), Find(f, id);
    FindUnique(g, if p <= k then p else p + 1);
    hide Shape;
  }

  lemma KeptShape(f: seq<Block>, n: nat, next: Id, k: nat, i: nat, p: nat)
    requires Shape(f, n, next) && Unsettled(f, k, i) && p < |f| && p != k
    ensures BlockShape(Split(f, k, i, next), if p < k then p else p + 1, n)
  {
    var g, q := Split(f, k, i, next), if p < k then p else p + 1;
    SplitIds(f, n, next, k, i);
    assert BlockShape(f, p, n);
    assert g[q] == f[p];
    SettledKept(f, n, next, k, i, p);
    forall j | 0 <= j < |f[p].code| && IsConditional(f[p].code[j]) ensures Find(g, f[p].code[j].target) < |g| {
      FoundStill(f, n, next, k, i, f[p].code[j].target);
    }
    if f[p].id >= n {
      if p - 1 != k { SettledKept(f, n, next, k, i, p - 1); }
      assert p != k + 1;
    }
    hide Shape, Settled;
  }

  lemma SourceShape(f: seq<Block>, n: nat, next: Id, k: nat, i: nat)
    requires Shape(f, n, next) && Unsettled(f, k, i)
    ensures BlockShape(Split(f, k, i, next), k, n) && BlockShape(Split(f, k, i, next), k + 1, n)
  {
    var g := Split(f, k, i, next);
    SplitIds(f, n, next, k, i);
    NewSettled(f, n, next, k, i);
    assert BlockShape(f, k, n);
    assert HasConditional(f[k]);
    FindUnique(g, k + 1);
    assert next >= n;
    hide Shape, Settled, Split, Find;
    var code := f[k].code;
    assert g[k].code == code[..i] + [Inverted(code[i], next), Jump(code[i].target)];
    assert g[k + 1].code == code[i + 1..];
  }

  lemma SplitShape(f: seq<Block>, n: nat, next: Id, k: nat, i: nat)
    requires Shape(f, n, next) && Unsettled(f, k, i)
    ensures Shape(Split(f, k, i, next), n, next + 1)
  {
    var g := Split(f, k, i, next);
    SplitIds(f, n, next, k, i);
    SourceShape(f, n, next, k, i);
    forall q | 0 <= q < |g| ensures BlockShape(g, q, n) {
      if q != k && q != k + 1 { KeptShape(f, n, next, k, i, if q < k then q else q - 1); }
    }
    hide BlockShape, Split;
  }

  // Termination: the split settles one more branch

  ghost function UnsettledIds(f: seq<Block>): set<Id> {
    set k | 0 <= k < |f| && HasConditional(f[k]) && !Settled(f, k) :: f[k].id
  }

  lemma SplitSettles(f: seq<Block>, n: nat, next: Id, k: nat, i: nat)
    requires Shape(f, n, next) && Unsettled(f, k, i)
    ensures UnsettledIds(Split(f, k, i, next)) == UnsettledIds(f) - {f[k].id}
    ensures f[k].id in UnsettledIds(f)
  {
    var g := Split(f, k, i, next);
    SplitIds(f, n, next, k, i);
    NewSettled(f, n, next, k, i);
    SourceShape(f, n, next, k, i);
    assert !HasConditional(g[k + 1]);
    assert HasConditional(f[k]);
    forall p | 0 <= p < k ensures Settled(g, p) <==> Settled(f, p) {
      SettledKept(f, n, next, k, i, p);
    }
    forall p | k < p < |f| ensures (Settled(g, p + 1) <==> Settled(f, p)) && g[p + 1] == f[p] {
      SettledKept(f, n, next, k, i, p);
    }
    assert DistinctIds(f);
    hide Settled, BlockShape, Split, HasConditional, Shape;
    SettlesOne(f, g, k);
  }

  lemma SettlesOne(f: seq<Block>, g: seq<Block>, k: nat)
    requires k < |f| && |g| == |f| + 1 && DistinctIds(f)
    requires Settled(g, k) && !HasConditional(g[k + 1]) && HasConditional(f[k]) && !Settled(f, k)
    requires forall p :: 0 <= p < k ==> g[p] == f[p] && (Settled(g, p) <==> Settled(f, p))
    requires forall p :: k < p < |f| ==> g[p + 1] == f[p] && (Settled(g, p + 1) <==> Settled(f, p))
    ensures UnsettledIds(g) == UnsettledIds(f) - {f[k].id} && f[k].id in UnsettledIds(f)
  {
    hide Settled, HasConditional;
    var a, b := UnsettledIds(g), UnsettledIds(f) - {f[k].id};
    forall id | id in a ensures id in b {
      var q :| 0 <= q < |g| && HasConditional(g[q]) && !Settled(g, q) && g[q].id == id;
      var p := if q < k then q else q - 1;
      assert f[p] == g[q] && p != k;
    }
    forall id | id in b ensures id in a {
      var p :| 0 <= p < |f| && HasConditional(f[p]) && !Settled(f, p) && f[p].id == id;
      var q := if p < k then p else p + 1;
      assert f[p] == g[q];
    }
  }

  // Meaning

  /** Where a block goes once the new blocks behind settled branches are passed through. */
  ghost function Resolve(f: seq<Block>, n: nat, id: Id, e: Env): Exit
    requires Find(f, id) < |f|
  {
    var exit := Transfer(f, Find(f, id), e);
    if exit.To? && exit.id >= n && Find(f, exit.id) < |f| then Transfer(f, Find(f, exit.id), e) else exit
  }

  /** All other blocks go where they went. */
  lemma OthersTransfer(f: seq<Block>, n: nat, next: Id, k: nat, i: nat, p: nat, e: Env)
    requires Shape(f, n, next) && Unsettled(f, k, i) && p < |f| && p != k
    ensures Transfer(Split(f, k, i, next), if p < k then p else p + 1, e) == Transfer(f, p, e)
  {
    SplitIds(f, n, next, k, i);
    hide Shape, Leave;
  }

  /** The split block goes to the branch's target, or to the new block, which goes on as the old. */
  lemma SourceTransfer(f: seq<Block>, n: nat, next: Id, k: nat, i: nat, e: Env)
    requires Shape(f, n, next) && Unsettled(f, k, i)
    ensures var g := Split(f, k, i, next);
      Transfer(g, k, e) == Transfer(f, k, e)
        || (Transfer(g, k, e) == To(next) && Transfer(g, k + 1, e) == Transfer(f, k, e))
  {
    var g, code := Split(f, k, i, next), f[k].code;
    SplitIds(f, n, next, k, i);
    assert BlockShape(f, k, n);
    assert !(code[i].Bcc? && code[i].cond == AL);
    hide Shape, BlockShape, Split, Settled, Find, Taken, Inverted;
    var pre, post := code[..i], code[i + 1..];
    assert code == pre + ([code[i]] + post) && ([code[i]] + post)[1..] == post;
    LeaveAppend(pre, [code[i]] + post, e);
    var tail := [Inverted(code[i], next), Jump(code[i].target)];
    LeaveAppend(pre, tail, e);
    InvertedTaken(code[i], next, e);
    assert tail[1..] == [Jump(code[i].target)];
    assert g[k].code == pre + tail && g[k + 1].code == post;
  }

  /** What an unsettled block goes to is an original block. */
  lemma {:induction false} LeaveBounded(code: seq<Instr>, n: nat, e: Env)
    requires forall i :: 0 <= i < |code| && (IsConditional(code[i]) || code[i].Jump?) ==> code[i].target < n
    ensures Leave(code, e).To? ==> Leave(code, e).id < n
  {
    if code != [] {
      assert forall i :: 0 <= i < |code[1..]| ==> code[1..][i] == code[i + 1];
      LeaveBounded(code[1..], n, e);
    }
  }

  lemma UnsettledStays(f: seq<Block>, n: nat, next: Id, k: nat, i: nat, e: Env)
    requires Shape(f, n, next) && Unsettled(f, k, i)
    ensures f[k].id < n && (Transfer(f, k, e).To? ==> Transfer(f, k, e).id < n)
  {
    assert BlockShape(f, k, n);
    assert HasConditional(f[k]);
    if k + 1 < |f| { assert BlockShape(f, k + 1, n); }
    LeaveBounded(f[k].code, n, e);
    hide Leave, Find, Settled;
  }

  /** A split changes where no original block goes. */
  lemma SplitResolves(f: seq<Block>, n: nat, next: Id, k: nat, i: nat, id: Id, e: Env)
    requires Shape(f, n, next) && Unsettled(f, k, i) && Find(f, id) < |f| && id < n
    ensures var g := Split(f, k, i, next); Find(g, id) < |g| && Resolve(g, n, id, e) == Resolve(f, n, id, e)
  {
    FoundStill(f, n, next, k, i, id);
    SplitIds(f, n, next, k, i);
    if Find(f, id) == k {
      SourceResolves(f, n, next, k, i, e);
    } else {
      OtherResolves(f, n, next, k, i, id, e);
    }
    hide Shape, Split, Transfer, Settled, Resolve;
  }

  lemma SourceResolves(f: seq<Block>, n: nat, next: Id, k: nat, i: nat, e: Env)
    requires Shape(f, n, next) && Unsettled(f, k, i) && Find(f, f[k].id) == k
    ensures var g := Split(f, k, i, next);
      Find(g, f[k].id) == k && Resolve(g, n, f[k].id, e) == Resolve(f, n, f[k].id, e)
  {
    var g := Split(f, k, i, next);
    SplitIds(f, n, next, k, i);
    FoundStill(f, n, next, k, i, f[k].id);
    UnsettledStays(f, n, next, k, i, e);
    assert next >= n && DistinctIds(g) && g[k + 1].id == next;
    FindUnique(g, k + 1);
    SourceTransfer(f, n, next, k, i, e);
    hide Shape, Split, Transfer, Settled, Find, Shortened, Continuation;
  }

  lemma SplitSize(f: seq<Block>, n: nat, next: Id, k: nat, i: nat)
    requires Shape(f, n, next) && Unsettled(f, k, i)
    ensures |Split(f, k, i, next)| == |f| + 1
  {
    SplitIds(f, n, next, k, i);
  }

  lemma OtherResolves(f: seq<Block>, n: nat, next: Id, k: nat, i: nat, id: Id, e: Env)
    requires Shape(f, n, next) && Unsettled(f, k, i) && Find(f, id) < |f| && Find(f, id) != k
    ensures var g := Split(f, k, i, next); Find(g, id) < |g| && Resolve(g, n, id, e) == Resolve(f, n, id, e)
  {
    hide Shape, Split, Transfer, Settled, Find;
    var p := Find(f, id);
    FoundStill(f, n, next, k, i, id);
    SplitSize(f, n, next, k, i);
    OthersTransfer(f, n, next, k, i, p, e);
    var exit := Transfer(f, p, e);
    if exit.To? && exit.id >= n {
      SameHop(f, n, next, k, i, p, e);
    }
  }

  lemma {:induction false} LeaveTarget(code: seq<Instr>, e: Env) returns (i: nat)
    requires Leave(code, e).To?
    ensures i < |code| && (IsConditional(code[i]) || code[i].Jump?) && code[i].target == Leave(code, e).id
  {
    if code[0].Jump? || (IsConditional(code[0]) && Taken(code[0], e)) { return 0; }
    i := LeaveTarget(code[1..], e);
    i := i + 1;
  }

  /** A block never goes to a new block that does not exist. */
  lemma HopExists(f: seq<Block>, n: nat, next: Id, p: nat, e: Env)
    requires Shape(f, n, next) && p < |f| && Transfer(f, p, e).To? && Transfer(f, p, e).id >= n
    ensures Find(f, Transfer(f, p, e).id) < |f|
  {
    if Leave(f[p].code, e).To? {
      var i := LeaveTarget(f[p].code, e);
      assert BlockShape(f, p, n);
    } else {
      FindUnique(f, p + 1);
    }
    hide Leave, Settled;
  }

  /** The second hop, through a new block, is unchanged too. */
  lemma SameHop(f: seq<Block>, n: nat, next: Id, k: nat, i: nat, p: nat, e: Env)
    requires Shape(f, n, next) && Unsettled(f, k, i) && p < |f| && Transfer(f, p, e).To? && Transfer(f, p, e).id >= n
    ensures var g, id := Split(f, k, i, next), Transfer(f, p, e).id;
      Find(f, id) < |f| && Find(g, id) < |g| && Transfer(g, Find(g, id), e) == Transfer(f, Find(f, id), e)
  {
    HopExists(f, n, next, p, e);
    SplitIds(f, n, next, k, i);
    UnsettledStays(f, n, next, k, i, e);
    var id := Transfer(f, p, e).id;
    FoundStill(f, n, next, k, i, id);
    OthersTransfer(f, n, next, k, i, Find(f, id), e);
    hide Shape, Split, Transfer, Settled;
  }

  ghost predicate SameTransfer(original: seq<Block>, f: seq<Block>, n: nat, id: Id, e: Env)
    requires Find(original, id) < |original|
  {
    Find(f, id) < |f| && Resolve(f, n, id, e) == Resolve(original, n, id, e)
  }

  /** Every original block still goes where it went, for every outcome of the tests. */
  ghost predicate SameTransfers(original: seq<Block>, f: seq<Block>, n: nat) {
    forall id: Id, e: Env :: id < n && Find(original, id) < |original| ==> SameTransfer(original, f, n, id, e)
  }

  lemma SplitKeepsTransfers(original: seq<Block>, f: seq<Block>, n: nat, next: Id, k: nat, i: nat)
    requires Shape(f, n, next) && Unsettled(f, k, i) && SameTransfers(original, f, n)
    ensures SameTransfers(original, Split(f, k, i, next), n)
  {
    var g := Split(f, k, i, next);
    hide Shape, Resolve, Split, Find, Settled;
    forall id: Id, e: Env | id < n && Find(original, id) < |original|
      ensures SameTransfer(original, g, n, id, e)
    {
      assert SameTransfer(original, f, n, id, e);
      SplitResolves(f, n, next, k, i, id, e);
    }
  }

  // The pass

  class Layout {
    var blocks: seq<Block>
    var nextId: Id

    constructor (blocks: seq<Block>, nextId: Id)
      ensures this.blocks == blocks && this.nextId == nextId
    {
      this.blocks, this.nextId := blocks, nextId;
    }

    /** The offsets of all blocks and instructions. */
    method ComputeOffsets() returns (blockOffsets: seq<nat>, instructionOffsets: seq<seq<nat>>)
      ensures |blockOffsets| == |instructionOffsets| == |blocks|
      ensures forall k :: 0 <= k < |blocks| ==> blockOffsets[k] == BlockOffset(blocks, k)
      ensures forall k :: 0 <= k < |blocks| ==> |instructionOffsets[k]| == |blocks[k].code|
      ensures forall k, i :: 0 <= k < |blocks| && 0 <= i < |blocks[k].code| ==>
                instructionOffsets[k][i] == InstrOffset(blocks, k, i)
    {
      hide CodeSize, BlockOffset;
      var offset: nat := 0;
      NextOffset(blocks, 0);
      blockOffsets, instructionOffsets := [], [];
      for k := 0 to |blocks|
        invariant |blockOffsets| == |instructionOffsets| == k && offset == BlockOffset(blocks, k)
        invariant forall j :: 0 <= j < k ==> blockOffsets[j] == BlockOffset(blocks, j)
        invariant forall j :: 0 <= j < k ==> |instructionOffsets[j]| == |blocks[j].code|
        invariant forall j, i :: 0 <= j < k && 0 <= i < |blocks[j].code| ==>
                    instructionOffsets[j][i] == InstrOffset(blocks, j, i)
      {
        blockOffsets := blockOffsets + [offset];
        var inside: seq<nat>, size: nat := CodeOffsets(blocks[k].code, offset);
        NextOffset(blocks, k + 1);
        assert forall i :: 0 <= i < |blocks[k].code| ==> inside[i] == InstrOffset(blocks, k, i);
        instructionOffsets := instructionOffsets + [inside];
        offset := size;
      }
    }

    /** The first conditional branch whose target is out of its range. */
    method FindOutOfRange(n: nat) returns (found: bool, k: nat, i: nat)
      requires Shape(blocks, n, nextId)
      ensures !found ==> AllInRange(blocks)
      ensures found ==>
        k < |blocks| && i < |blocks[k].code| && IsConditional(blocks[k].code[i]) && !InRange(blocks, k, i)
      ensures found ==> FirstOut(blocks, k, i)
    {
      hide Shape, BlockOffset, InstrOffset, Fits, Reaches;
      var blockOffsets: seq<nat>, instructionOffsets: seq<seq<nat>> := ComputeOffsets();
      for b := 0 to |blocks|
        invariant forall p, q :: 0 <= p < b && 0 <= q < |blocks[p].code| ==> InRange(blocks, p, q)
      {
        for j := 0 to |blocks[b].code|
          invariant forall q :: 0 <= q < j ==> InRange(blocks, b, q)
        {
          var instruction := blocks[b].code[j];
          if IsConditional(instruction) {
            TargetKnown(blocks, n, nextId, b, j);
            var displacement := blockOffsets[Find(blocks, instruction.target)] as int - instructionOffsets[b][j];
            FitsIsField(instruction, displacement);
            if !Fits(instruction, displacement) {
              return true, b, j;
            }
          }
        }
      }
      return false, 0, 0;
    }

    /** Relaxes until every conditional branch is in range. With n blocks to begin with and a
        well-formed function it never gives up, and no block goes anywhere else than before.  Every step
        splits the first branch that is out of range, so nothing changes where none is. */
    method Relax(n: nat) returns (ok: bool, ghost steps: seq<seq<Block>>)
      requires Shape(blocks, n, nextId)
      modifies this
      ensures ok && AllInRange(blocks) && Shape(blocks, n, nextId)
      ensures SameTransfers(old(blocks), blocks, n)
      ensures OnlyNeeded(steps, old(nextId)) && steps[0] == old(blocks) && steps[|steps| - 1] == blocks
      ensures AllInRange(old(blocks)) ==> blocks == old(blocks)
    {
      ok := true;
      steps := [blocks];
      assert OnlyNeeded(steps, old(nextId)) && SameTransfers(old(blocks), blocks, n);
      hide Shape, SameTransfers, Split, UnsettledIds, InRange, AllInRange, OnlyNeeded, FirstOut;
      while true
        invariant Shape(blocks, n, nextId)
        invariant SameTransfers(old(blocks), blocks, n)
        invariant OnlyNeeded(steps, old(nextId)) && steps[0] == old(blocks) && steps[|steps| - 1] == blocks
        invariant nextId == old(nextId) + |steps| - 1
        invariant AllInRange(old(blocks)) ==> blocks == old(blocks)
        decreases UnsettledIds(blocks)
      {
        var found: bool, k: nat, i: nat := FindOutOfRange(n);
        if !found {
          return;
        }
        RelaxStep(old(blocks), blocks, n, nextId, k, i);
        var source := blocks[k];
        if |source.successors| != 2 || source.code[i].target !in source.successors {
          return false, steps;
        }
        StepNeeded(steps, old(nextId), k, i);
        SplitAt(k, i);
        steps := steps + [blocks];
      }
    }

    /** The edit itself: a new block behind the source takes what follows the branch, the branch
        is inverted to skip a long one. */
    method SplitAt(k: nat, i: nat)
      requires k < |blocks| && i < |blocks[k].code| && IsConditional(blocks[k].code[i])
      modifies this
      ensures blocks == Split(old(blocks), k, i, old(nextId)) && nextId == old(nextId) + 1
    {
      var source := blocks[k];
      var target := source.code[i].target;
      var rest := [];
      for j := 0 to |source.successors|
        invariant rest + Without(source.successors[j..], target) == Without(source.successors, target)
      {
        assert source.successors[j..][1..] == source.successors[j + 1..];
        if source.successors[j] != target { rest := rest + [source.successors[j]]; }
      }
      assert rest == Without(source.successors, target);
      var continuation := Block(nextId, source.code[i + 1..], rest);
      var code := source.code[..i] + [Inverted(source.code[i], nextId)] + [Jump(target)];
      blocks := blocks[..k] + [Block(source.id, code, [target, nextId])] + [continuation] + blocks[k + 1..];
      nextId := nextId + 1;
      assert code == source.code[..i] + [Inverted(source.code[i], old(nextId)), Jump(target)];
    }
  }

  lemma RelaxStep(original: seq<Block>, f: seq<Block>, n: nat, next: Id, k: nat, i: nat)
    requires Shape(f, n, next) && SameTransfers(original, f, n)
    requires k < |f| && i < |f[k].code| && IsConditional(f[k].code[i]) && !InRange(f, k, i)
    ensures |f[k].successors| == 2 && f[k].code[i].target in f[k].successors
    ensures Shape(Split(f, k, i, next), n, next + 1) && SameTransfers(original, Split(f, k, i, next), n)
    ensures UnsettledIds(Split(f, k, i, next)) < UnsettledIds(f) && !AllInRange(f)
  {
    OutOfRangeUnsettled(f, n, next, k, i);
    SplitSettles(f, n, next, k, i);
    SplitShape(f, n, next, k, i);
    SplitKeepsTransfers(original, f, n, next, k, i);
    hide Shape, SameTransfers, Split, UnsettledIds, InRange, Settled;
  }

  /** Each function comes from the one before by a split of its first branch out of range. */
  ghost predicate OnlyNeeded(steps: seq<seq<Block>>, next: Id) {
    && steps != []
    && forall j :: 0 < j < |steps| ==> SplitNeeded(steps[j - 1], steps[j], next + j - 1)
  }

  ghost predicate SplitNeeded(f: seq<Block>, g: seq<Block>, next: Id) {
    exists k: nat, i: nat :: Needed(f, g, next, k, i)
  }

  ghost predicate Needed(f: seq<Block>, g: seq<Block>, next: Id, k: nat, i: nat) {
    && k < |f| && i < |f[k].code| && IsConditional(f[k].code[i]) && !InRange(f, k, i) && FirstOut(f, k, i)
    && g == Split(f, k, i, next)
  }

  lemma StepNeeded(steps: seq<seq<Block>>, next: Id, k: nat, i: nat)
    requires OnlyNeeded(steps, next)
    requires var f := steps[|steps| - 1];
      k < |f| && i < |f[k].code| && IsConditional(f[k].code[i]) && !InRange(f, k, i) && FirstOut(f, k, i)
    ensures OnlyNeeded(steps + [Split(steps[|steps| - 1], k, i, next + |steps| - 1)], next)
  {
    hide InRange, FirstOut, Split;
    var f := steps[|steps| - 1];
    var more := steps + [Split(f, k, i, next + |steps| - 1)];
    forall j | 0 < j < |more| ensures SplitNeeded(more[j - 1], more[j], next + j - 1) {
      if j == |steps| {
        assert Needed(more[j - 1], more[j], next + j - 1, k, i);
      } else {
        assert SplitNeeded(steps[j - 1], steps[j], next + j - 1);
      }
    }
  }

  lemma NextOffset(f: seq<Block>, k: nat)
    requires k <= |f|
    ensures BlockOffset(f, k) == if k == 0 then 0 else BlockOffset(f, k - 1) + CodeSize(f[k - 1].code)
  {
  }

  method CodeOffsets(code: seq<Instr>, start: nat) returns (offsets: seq<nat>, end: nat)
    ensures |offsets| == |code| && end == start + CodeSize(code)
    ensures forall i :: 0 <= i < |code| ==> offsets[i] == start + CodeSize(code[..i])
  {
    offsets, end := [], start;
    for i := 0 to |code|
      invariant |offsets| == i && end == start + CodeSize(code[..i])
      invariant forall j :: 0 <= j < i ==> offsets[j] == start + CodeSize(code[..j])
    {
      offsets := offsets + [end];
      end := end + Size(code[i]);
      assert code[..i + 1][..i] == code[..i];
    }
    assert code[..|code|] == code;
  }

  lemma TargetKnown(f: seq<Block>, n: nat, next: Id, k: nat, i: nat)
    requires Shape(f, n, next) && k < |f| && i < |f[k].code| && IsConditional(f[k].code[i])
    ensures Find(f, f[k].code[i].target) < |f|
    ensures forall t :: IsAt(f, f[k].code[i].target, t) ==> t == Find(f, f[k].code[i].target)
  {
    assert BlockShape(f, k, n);
    forall t | IsAt(f, f[k].code[i].target, t) ensures t == Find(f, f[k].code[i].target) {
      FindUnique(f, t);
    }
    hide Settled, Find;
  }

  /** Only unsettled branches are ever out of range, and they have the successors the pass wants. */
  lemma OutOfRangeUnsettled(f: seq<Block>, n: nat, next: Id, k: nat, i: nat)
    requires Shape(f, n, next) && k < |f| && i < |f[k].code| && IsConditional(f[k].code[i]) && !InRange(f, k, i)
    ensures Unsettled(f, k, i) && |f[k].successors| == 2 && f[k].code[i].target in f[k].successors
  {
    assert BlockShape(f, k, n);
    hide InRange, Find;
    if Settled(f, k) { SettledInRange(f, n, next, k, i); }
  }

  /** For a function without new blocks, where a block resolves to is simply where it goes. */
  lemma OriginalResolves(f: seq<Block>, n: nat, id: Id, e: Env)
    requires (forall k :: 0 <= k < |f| ==> f[k].id < n) && Find(f, id) < |f|
    ensures Resolve(f, n, id, e) == Transfer(f, Find(f, id), e)
  {
  }
}
