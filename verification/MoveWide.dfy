/** Wide constants built from 16-bit slices: MOVZ, MOVN and MOVK of section C6.2 of the Arm
    Architecture Reference Manual, the sequences built from them, and why none is shorter. */
module MoveWide {
  import opened Bits
  import opened Words
  import opened LogicalImmediate

  const ONES := 0xffff

  /** A move-wide instruction, or an ORR of an immediate with the zero register. */
  datatype Move =
    | MOVZ(slice: nat, immediate: nat)
    | MOVN(slice: nat, immediate: nat)
    | MOVK(slice: nat, immediate: nat)
    | ORR(value: nat)

  predicate IsSlices(s: seq<nat>) {
    forall i: nat :: i < |s| ==> s[i] <= ONES
  }

  function Word(s: seq<nat>): nat {
    if s == [] then 0 else s[0] + (ONES + 1) * Word(s[1..])
  }

  /** The lowest n slices of w, lowest first. */
  function Slices(w: nat, n: nat): (s: seq<nat>)
    ensures |s| == n && IsSlices(s)
  {
    if n == 0 then [] else [w % (ONES + 1)] + Slices(w / (ONES + 1), n - 1)
  }

  /** Slice i of w, by shift and mask. */
  function Piece(w: nat, i: nat): nat {
    And(ShiftDown(w, 16 * i), ONES)
  }

  predicate Fits(move: Move, n: nat) {
    match move
    case ORR(value) => value < Pow2(16 * n)
    case _ => move.slice < n && move.immediate <= ONES
  }

  /** The register of n slices after one instruction. */
  function Exec(move: Move, r: nat, n: nat): nat
    requires Fits(move, n)
  {
    match move
    case MOVZ(slice, immediate) => Word(Slices(0, n)[slice := immediate])
    case MOVN(slice, immediate) => Inverted(Word(Slices(0, n)[slice := immediate]), n)
    case MOVK(slice, immediate) => Word(Slices(r, n)[slice := immediate])
    case ORR(value) => value
  }

  function Inverted(r: nat, n: nat): nat {
    if r < Pow2(16 * n) then Pow2(16 * n) - 1 - r else 0
  }

  predicate AllFit(moves: seq<Move>, n: nat) {
    forall i: nat :: i < |moves| ==> Fits(moves[i], n)
  }

  function ExecAll(moves: seq<Move>, r: nat, n: nat): nat
    requires AllFit(moves, n)
  {
    if moves == [] then r else Exec(moves[|moves| - 1], ExecAll(moves[..|moves| - 1], r, n), n)
  }

  lemma SliceLimit(n: nat)
    ensures Pow2(16 * 0) == 1 && Pow2(16) == ONES + 1
    ensures n > 0 ==> Pow2(16 * n) == (ONES + 1) * Pow2(16 * (n - 1))
  {
    Pow2Add(8, 8);
    assert Pow2(8) == 256;
    if n > 0 { Pow2Add(16, 16 * (n - 1)); }
  }

  lemma {:induction false} WordBounded(s: seq<nat>)
    requires IsSlices(s)
    ensures Word(s) < Pow2(16 * |s|)
  {
    SliceLimit(|s|);
    if s != [] { WordBounded(s[1..]); }
  }

  lemma LowSlice(low: nat, rest: nat)
    requires low <= ONES
    ensures (low + (ONES + 1) * rest) % (ONES + 1) == low
    ensures (low + (ONES + 1) * rest) / (ONES + 1) == rest
  {
  }

  lemma {:induction false} SlicesOfWord(s: seq<nat>)
    requires IsSlices(s)
    ensures Slices(Word(s), |s|) == s
  {
    if s != [] {
      SlicesOfWord(s[1..]);
      LowSlice(s[0], Word(s[1..]));
    }
  }

  lemma {:induction false} WordOfSlices(w: nat, n: nat)
    requires w < Pow2(16 * n)
    ensures Word(Slices(w, n)) == w
    decreases n
  {
    SliceLimit(n);
    if n > 0 { WordOfSlices(w / (ONES + 1), n - 1); }
  }

  lemma {:induction false} PieceOfSlices(w: nat, n: nat, i: nat)
    requires i < n
    ensures Slices(w, n)[i] == Piece(w, i)
    decreases n
  {
    SliceLimit(i);
    MaskIsRemainder(w, 16);
    if i > 0 {
      PieceOfSlices(w / (ONES + 1), n - 1, i - 1);
      assert w / Pow2(16 * i) == (w / (ONES + 1)) / Pow2(16 * (i - 1)) by {
        DivDiv(w, ONES + 1, Pow2(16 * (i - 1)));
      }
    } else {
      assert w / Pow2(16 * i) == w;
    }
  }

  lemma InvertLow(w: nat, rest: nat)
    requires w < (ONES + 1) * rest
    ensures w / (ONES + 1) < rest
    ensures ((ONES + 1) * rest - 1 - w) % (ONES + 1) == ONES - w % (ONES + 1)
    ensures ((ONES + 1) * rest - 1 - w) / (ONES + 1) == rest - 1 - w / (ONES + 1)
  {
  }

  lemma {:induction false} InvertedSlices(w: nat, n: nat, i: nat)
    requires w < Pow2(16 * n) && i < n
    ensures Slices(Inverted(w, n), n)[i] == ONES - Slices(w, n)[i]
    decreases n
  {
    SliceLimit(n);
    var rest, low := w / (ONES + 1), w % (ONES + 1);
    InvertLow(w, Pow2(16 * (n - 1)));
    assert Slices(w, n) == [low] + Slices(rest, n - 1);
    assert Slices(Inverted(w, n), n) == [ONES - low] + Slices(Inverted(rest, n - 1), n - 1);
    if i > 0 { InvertedSlices(rest, n - 1, i - 1); }
  }

  lemma {:induction false} SlicesOfZero(n: nat, i: nat)
    requires i < n
    ensures Slices(0, n)[i] == 0
    decreases n
  {
    if i > 0 { SlicesOfZero(n - 1, i - 1); }
  }

  /** What one move-wide leaves in slice i. */
  function Left(move: Move, r: nat, i: nat): nat
    requires !move.ORR? && move.immediate <= ONES
  {
    match move
    case MOVZ(slice, immediate) => if i == slice then immediate else 0
    case MOVN(slice, immediate) => if i == slice then ONES - immediate else ONES
    case MOVK(slice, immediate) => if i == slice then immediate else Piece(r, i)
  }

  lemma ExecPieces(move: Move, r: nat, n: nat, i: nat)
    requires Fits(move, n) && !move.ORR? && i < n
    ensures Piece(Exec(move, r, n), i) == Left(move, r, i)
    ensures Exec(move, r, n) < Pow2(16 * n)
  {
    hide Piece;
    var before := if move.MOVK? then Slices(r, n) else Slices(0, n);
    var after := before[move.slice := move.immediate];
    WordBounded(after);
    SlicesOfWord(after);
    PieceOfSlices(r, n, i);
    SlicesOfZero(n, i);
    PieceOfSlices(Exec(move, r, n), n, i);
    if move.MOVN? { InvertedSlices(Word(after), n, i); }
  }

  lemma {:induction false} SlicesAgree(a: nat, b: nat, n: nat)
    requires a < Pow2(16 * n) && b < Pow2(16 * n)
    requires forall i: nat :: i < n ==> Piece(a, i) == Piece(b, i)
    ensures a == b
  {
    forall i: nat | i < n ensures Slices(a, n)[i] == Slices(b, n)[i] {
      PieceOfSlices(a, n, i);
      PieceOfSlices(b, n, i);
    }
    WordOfSlices(a, n);
    WordOfSlices(b, n);
    assert Slices(a, n) == Slices(b, n);
  }

  /** The number of the lowest n slices of w that are not skip. */
  function Different(w: nat, n: nat, skip: nat): nat {
    if n == 0 then 0 else Different(w, n - 1, skip) + if Piece(w, n - 1) != skip then 1 else 0
  }

  lemma {:induction false} NoneDifferent(w: nat, n: nat, skip: nat)
    ensures Different(w, n, skip) == 0 <==> forall i: nat :: i < n ==> Piece(w, i) == skip
  {
    if n > 0 { NoneDifferent(w, n - 1, skip); }
  }

  /** Words that agree outside one slice differ by at most one in the count. */
  lemma {:induction false} OneSliceApart(a: nat, b: nat, n: nat, slice: nat, skip: nat)
    requires forall i: nat :: i < n && i != slice ==> Piece(a, i) == Piece(b, i)
    ensures Different(a, n, skip) <= Different(b, n, skip) + 1
    ensures slice >= n ==> Different(a, n, skip) == Different(b, n, skip)
  {
    if n > 0 { OneSliceApart(a, b, n - 1, slice, skip); }
  }

  lemma {:induction false} OneSliceSet(a: nat, n: nat, slice: nat, skip: nat)
    requires forall i: nat :: i < n && i != slice ==> Piece(a, i) == skip
    ensures Different(a, n, skip) <= 1
    ensures slice >= n ==> Different(a, n, skip) == 0
  {
    if n > 0 { OneSliceSet(a, n - 1, slice, skip); }
  }

  function AtLeastOne(n: nat): (m: nat)
    ensures m >= 1 && m >= n
  {
    if n == 0 then 1 else n
  }

  /** A sequence that builds its value without reading the register, by move-wides alone. */
  predicate Builds(moves: seq<Move>) {
    && moves != [] && !moves[0].MOVK?
    && forall i: nat :: i < |moves| ==> !moves[i].ORR?
  }

  /** No sequence of move-wides is shorter than the cheaper of the two families. */
  lemma {:induction false} NoneShorter(moves: seq<Move>, r: nat, n: nat)
    requires Builds(moves) && AllFit(moves, n)
    ensures var w := ExecAll(moves, r, n);
            |moves| >= AtLeastOne(Different(w, n, 0)) || |moves| >= AtLeastOne(Different(w, n, ONES))
    decreases |moves|
  {
    hide Piece, Exec;
    var last := moves[|moves| - 1];
    var before := ExecAll(moves[..|moves| - 1], r, n);
    var after := Exec(last, before, n);
    forall i: nat | i < n ensures Piece(after, i) == Left(last, before, i) {
      ExecPieces(last, before, n, i);
    }
    match last {
      case MOVZ(slice, immediate) => OneSliceSet(after, n, slice, 0);
      case MOVN(slice, immediate) => OneSliceSet(after, n, slice, ONES);
      case MOVK(slice, immediate) =>
        OneSliceApart(after, before, n, slice, 0);
        OneSliceApart(after, before, n, slice, ONES);
        NoneShorter(moves[..|moves| - 1], r, n);
    }
  }

  /** The slices set so far: those below index and the first; the others hold skip. */
  ghost predicate BuiltUpTo(r: nat, value: nat, n: nat, first: nat, index: nat, skip: nat) {
    && r < Pow2(16 * n)
    && forall i: nat :: i < n ==> Piece(r, i) == if i < index || i == first then Piece(value, i) else skip
  }

  /** The first slice that needs an instruction, or the lowest when none does. */
  ghost predicate Seed(value: nat, n: nat, first: nat, skip: nat) {
    && first < n
    && (forall i: nat :: i < first ==> Piece(value, i) == skip)
    && (Piece(value, first) == skip ==> first == 0 && forall i: nat :: i < n ==> Piece(value, i) == skip)
  }

  /** The instructions needed up to index. */
  function Needed(value: nat, first: nat, index: nat, skip: nat): nat {
    if Piece(value, first) == skip then 1
    else Different(value, index, skip) + if first < index then 0 else 1
  }

  method CountDifferent(value: nat, n: nat, skip: nat) returns (count: nat)
    ensures count == Different(value, n, skip)
  {
    count := 0;
    for index := 0 to n
      invariant count == Different(value, index, skip)
    {
      if Piece(value, index) != skip { count := count + 1; }
    }
  }

  method FindSeed(value: nat, n: nat, skip: nat) returns (first: nat)
    requires n > 0
    ensures Seed(value, n, first, skip)
  {
    hide Piece;
    for index := 0 to n
      invariant forall i: nat :: i < index ==> Piece(value, i) == skip
    {
      if Piece(value, index) != skip { return index; }
    }
    return 0;
  }

  lemma PieceBounded(w: nat, i: nat)
    ensures Piece(w, i) <= ONES
  {
    hide And, ShiftDown;
    AndBelow(ShiftDown(w, 16 * i), ONES);
  }

  lemma SeedBuilds(seed: Move, r: nat, value: nat, n: nat, skip: nat)
    requires Fits(seed, n)
    requires (skip == 0 && seed.MOVZ? && seed.immediate == Piece(value, seed.slice))
          || (skip == ONES && seed.MOVN? && seed.immediate + Piece(value, seed.slice) == ONES)
    ensures BuiltUpTo(Exec(seed, r, n), value, n, seed.slice, 0, skip)
  {
    hide Piece, Exec;
    forall i: nat | i < n ensures Piece(Exec(seed, r, n), i) == Left(seed, r, i) {
      ExecPieces(seed, r, n, i);
    }
    ExecPieces(seed, r, n, seed.slice);
  }

  lemma KeepBuilds(r: nat, value: nat, n: nat, first: nat, index: nat, skip: nat)
    requires BuiltUpTo(r, value, n, first, index, skip) && index < n && index != first
    ensures BuiltUpTo(Exec(MOVK(index, (PieceBounded(value, index); Piece(value, index))), r, n),
                      value, n, first, index + 1, skip)
  {
    hide Piece, Exec;
    PieceBounded(value, index);
    var move := MOVK(index, Piece(value, index));
    forall i: nat | i < n ensures Piece(Exec(move, r, n), i) == Left(move, r, i) {
      ExecPieces(move, r, n, i);
    }
    ExecPieces(move, r, n, index);
  }

  /** The length that covers every slice is the cost of the family. */
  lemma NeededIsCost(value: nat, n: nat, first: nat, skip: nat)
    requires Seed(value, n, first, skip)
    ensures Needed(value, first, n, skip) == AtLeastOne(Different(value, n, skip))
  {
    hide Piece;
    NoneDifferent(value, n, skip);
  }

  lemma NeededStep(value: nat, n: nat, first: nat, index: nat, skip: nat)
    requires Seed(value, n, first, skip) && index < n
    ensures Needed(value, first, index + 1, skip) == Needed(value, first, index, skip)
              + if index == first || Piece(value, index) == skip then 0 else 1
  {
    hide Piece;
  }

  lemma NeededFirst(value: nat, n: nat, first: nat, skip: nat)
    requires Seed(value, n, first, skip)
    ensures Needed(value, first, 0, skip) == 1
  {
  }

  lemma BuiltAll(r: nat, value: nat, n: nat, first: nat, skip: nat)
    requires BuiltUpTo(r, value, n, first, n, skip) && value < Pow2(16 * n)
    ensures r == value
  {
    hide Piece;
    SlicesAgree(r, value, n);
  }

  /** The sequence of one family: its seed, then a MOVK for every other slice that needs one. */
  method BuildMoves(value: nat, n: nat, useMovn: bool) returns (moves: seq<Move>)
    requires n > 0 && value < Pow2(16 * n)
    ensures Builds(moves) && AllFit(moves, n)
    ensures |moves| == AtLeastOne(Different(value, n, if useMovn then ONES else 0))
    ensures forall r: nat :: ExecAll(moves, r, n) == value
  {
    hide Piece, Exec, Needed, BuiltUpTo, Different;
    var skip := if useMovn then ONES else 0;
    var first := FindSeed(value, n, skip);
    PieceBounded(value, first);
    var seed := if useMovn then MOVN(first, ONES - Piece(value, first)) else MOVZ(first, Piece(value, first));
    moves := [seed];
    forall r: nat ensures BuiltUpTo(ExecAll(moves, r, n), value, n, first, 0, skip) {
      assert moves[..0] == [];
      SeedBuilds(seed, r, value, n, skip);
    }
    NeededFirst(value, n, first, skip);
    for index := 0 to n
      invariant Builds(moves) && AllFit(moves, n)
      invariant |moves| == Needed(value, first, index, skip)
      invariant forall r: nat {:trigger ExecAll(moves, r, n)} ::
                  BuiltUpTo(ExecAll(moves, r, n), value, n, first, index, skip)
    {
      NeededStep(value, n, first, index, skip);
      if index == first || Piece(value, index) == skip {
        forall r: nat ensures BuiltUpTo(ExecAll(moves, r, n), value, n, first, index + 1, skip) {
          SkipBuilds(ExecAll(moves, r, n), value, n, first, index, skip);
        }
      } else {
        PieceBounded(value, index);
        ghost var before := moves;
        moves := moves + [MOVK(index, Piece(value, index))];
        forall r: nat ensures BuiltUpTo(ExecAll(moves, r, n), value, n, first, index + 1, skip) {
          assert moves[..|moves| - 1] == before;
          KeepBuilds(ExecAll(before, r, n), value, n, first, index, skip);
        }
      }
    }
    NeededIsCost(value, n, first, skip);
    forall r: nat ensures ExecAll(moves, r, n) == value {
      BuiltAll(ExecAll(moves, r, n), value, n, first, skip);
    }
  }

  lemma SkipBuilds(r: nat, value: nat, n: nat, first: nat, index: nat, skip: nat)
    requires BuiltUpTo(r, value, n, first, index, skip)
    requires index == first || Piece(value, index) == skip
    ensures BuiltUpTo(r, value, n, first, index + 1, skip)
  {
    hide Piece;
  }

  /** The X registers; a W destination clears its upper half. */
  type Registers = map<nat, nat>

  datatype Instr =
    | MOVi(reg: nat, wide: bool, immediate: int)
    | Wide(reg: nat, wide: bool, move: Move)
    | Other(id: nat)

  function SliceCount(wide: bool): nat {
    if wide then 4 else 2
  }

  predicate WellFormed(i: Instr) {
    i.Wide? ==> Fits(i.move, SliceCount(i.wide))
  }

  predicate AllWellFormed(code: seq<Instr>) {
    forall k: nat :: k < |code| ==> WellFormed(code[k])
  }

  function Read(m: Registers, reg: nat): nat {
    if reg in m then m[reg] else 0
  }

  function Constant(wide: bool, immediate: int): nat {
    if wide then U64(immediate) else U32(immediate)
  }

  /** One instruction; what the others do is arbitrary. */
  function Step(effect: (nat, Registers) -> Registers, i: Instr, m: Registers): Registers
    requires WellFormed(i)
  {
    match i
    case MOVi(reg, wide, immediate) => m[reg := Constant(wide, immediate)]
    case Wide(reg, wide, move) => m[reg := Exec(move, Read(m, reg), SliceCount(wide))]
    case Other(id) => effect(id, m)
  }

  function Run(effect: (nat, Registers) -> Registers, code: seq<Instr>, m: Registers): Registers
    requires AllWellFormed(code)
  {
    if code == [] then m
    else Step(effect, code[|code| - 1], Run(effect, code[..|code| - 1], m))
  }

  function OnRegister(reg: nat, wide: bool, moves: seq<Move>): (code: seq<Instr>)
    requires AllFit(moves, SliceCount(wide))
    ensures |code| == |moves| && AllWellFormed(code)
  {
    seq(|moves|, k requires 0 <= k < |moves| => Wide(reg, wide, moves[k]))
  }

  lemma {:induction false} RunMoves(effect: (nat, Registers) -> Registers, reg: nat, wide: bool,
                                    moves: seq<Move>, m: Registers)
    requires moves != [] && AllFit(moves, SliceCount(wide))
    ensures Run(effect, OnRegister(reg, wide, moves), m)
         == m[reg := ExecAll(moves, Read(m, reg), SliceCount(wide))]
    decreases |moves|
  {
    hide Exec;
    var code := OnRegister(reg, wide, moves);
    var front := moves[..|moves| - 1];
    assert code[..|code| - 1] == OnRegister(reg, wide, front);
    if front == [] {
      assert Run(effect, code[..|code| - 1], m) == m;
    } else {
      RunMoves(effect, reg, wide, front, m);
    }
  }

  lemma {:induction false} RunAppend(effect: (nat, Registers) -> Registers, a: seq<Instr>, b: seq<Instr>, m: Registers)
    requires AllWellFormed(a) && AllWellFormed(b)
    ensures AllWellFormed(a + b)
    ensures Run(effect, a + b, m) == Run(effect, b, Run(effect, a, m))
    decreases |b|
  {
    hide Step, WellFormed;
    if b == [] {
      assert a + b == a;
    } else {
      RunAppend(effect, a, b[..|b| - 1], m);
      assert (a + b)[..|a + b| - 1] == a + b[..|b| - 1];
    }
  }

  function Cheaper(value: nat, n: nat, enableMovn: bool): nat {
    var movz, movn := AtLeastOne(Different(value, n, 0)), AtLeastOne(Different(value, n, ONES));
    if enableMovn && movn < movz then movn else movz
  }

  lemma ConstantBounded(wide: bool, immediate: int)
    ensures Constant(wide, immediate) < Pow2(16 * SliceCount(wide))
  {
    Pow2Values();
  }

  lemma LogicalValue(value: nat, width: nat)
    requires value < Pow2(width)
    ensures And(value, LowOnes(width)) == value
  {
    MaskIsRemainder(value, width);
    RemainderIs(value, Pow2(width), 0, value);
  }

  /** The expansion of one constant: a bitmask immediate when that is shorter and exists, and
      otherwise the cheaper move-wide family. */
  method ExpandIntegerImmediate(reg: nat, wide: bool, immediate: int, enableMovn: bool, enableLogical: bool)
    returns (code: seq<Instr>)
    ensures AllWellFormed(code) && forall k: nat :: k < |code| ==> code[k].Wide? && code[k].reg == reg
    ensures forall effect, m :: Run(effect, code, m) == m[reg := Constant(wide, immediate)]
    ensures var value, n := Constant(wide, immediate), SliceCount(wide);
            if enableLogical && Cheaper(value, n, enableMovn) > 1 && Bitmask(value, 16 * n)
            then code == [Wide(reg, wide, ORR(value))]
            else |code| == Cheaper(value, n, enableMovn)
                 && forall k: nat :: k < |code| ==> !code[k].move.ORR?
  {
    hide Different, Bitmask, ExecAll, Exec, Pow2;
    var value, n := Constant(wide, immediate), SliceCount(wide);
    ConstantBounded(wide, immediate);
    var nonzero := CountDifferent(value, n, 0);
    var nonOnes := CountDifferent(value, n, ONES);
    var movzCost, movnCost := AtLeastOne(nonzero), AtLeastOne(nonOnes);
    var useMovn := enableMovn && movnCost < movzCost;
    var moveWideCost := if useMovn then movnCost else movzCost;
    if enableLogical && moveWideCost > 1 {
      var logical := IsLogicalImmediate(value, if wide then 64 else 32);
      LogicalValue(value, 16 * n);
      if logical {
        code := OnRegister(reg, wide, [ORR(value)]);
        forall effect, m ensures Run(effect, code, m) == m[reg := value] {
          LogicalRun(effect, reg, wide, value, m);
        }
        return;
      }
    }
    var moves := BuildMoves(value, n, useMovn);
    code := OnRegister(reg, wide, moves);
    forall effect, m ensures Run(effect, code, m) == m[reg := value] {
      RunMoves(effect, reg, wide, moves, m);
    }
  }

  lemma LogicalRun(effect: (nat, Registers) -> Registers, reg: nat, wide: bool, value: nat, m: Registers)
    requires value < Pow2(16 * SliceCount(wide))
    ensures Run(effect, OnRegister(reg, wide, [ORR(value)]), m) == m[reg := value]
  {
    var moves := [ORR(value)];
    assert moves[..0] == [];
    RunMoves(effect, reg, wide, moves, m);
  }

  ghost predicate SameRuns(a: seq<Instr>, b: seq<Instr>)
    requires AllWellFormed(a) && AllWellFormed(b)
  {
    forall effect, m :: Run(effect, a, m) == Run(effect, b, m)
  }

  predicate NoConstants(code: seq<Instr>) {
    forall k: nat :: k < |code| ==> !code[k].MOVi?
  }

  lemma ExpandedStep(done: seq<Instr>, before: seq<Instr>, i: Instr, expanded: seq<Instr>)
    requires AllWellFormed(done) && AllWellFormed(before) && WellFormed(i) && AllWellFormed(expanded)
    requires SameRuns(done, before)
    requires forall effect, m :: Run(effect, expanded, m) == Step(effect, i, m)
    ensures AllWellFormed(done + expanded) && AllWellFormed(before + [i])
    ensures SameRuns(done + expanded, before + [i])
  {
    hide Step, WellFormed;
    assert (before + [i])[..|before|] == before;
    forall effect, m ensures Run(effect, done + expanded, m) == Run(effect, before + [i], m) {
      RunAppend(effect, done, expanded, m);
      assert Run(effect, done, m) == Run(effect, before, m);
    }
  }

  lemma SingleRuns(i: Instr)
    requires WellFormed(i)
    ensures forall effect, m :: Run(effect, [i], m) == Step(effect, i, m)
  {
    assert [i][..0] == [];
  }

  lemma ConstantSteps(i: Instr)
    requires i.MOVi?
    ensures forall effect, m :: Step(effect, i, m) == m[i.reg := Constant(i.wide, i.immediate)]
  {
  }

  /** The pass over a block removes every constant and changes no run. */
  method ExpandConstantMaterializations(code: seq<Instr>) returns (expanded: seq<Instr>, changed: bool)
    requires AllWellFormed(code)
    ensures AllWellFormed(expanded) && SameRuns(expanded, code)
    ensures NoConstants(expanded)
    ensures changed <==> !NoConstants(code)
    ensures !changed ==> expanded == code
  {
    hide Run, Step, WellFormed, Cheaper, Bitmask;
    expanded, changed := [], false;
    assert code[..0] == [];
    for at := 0 to |code|
      invariant AllWellFormed(expanded) && AllWellFormed(code[..at]) && SameRuns(expanded, code[..at])
      invariant NoConstants(expanded)
      invariant changed <==> !NoConstants(code[..at])
      invariant !changed ==> expanded == code[..at]
    {
      assert code[..at + 1] == code[..at] + [code[at]];
      ghost var before := expanded;
      if code[at].MOVi? {
        var current := code[at];
        var moves := ExpandIntegerImmediate(current.reg, current.wide, current.immediate, true, true);
        ConstantSteps(current);
        ExpandedStep(expanded, code[..at], current, moves);
        expanded, changed := expanded + moves, true;
        assert !NoConstants(code[..at + 1]) by { assert code[..at + 1][at].MOVi?; }
      } else {
        SingleRuns(code[at]);
        ExpandedStep(expanded, code[..at], code[at], [code[at]]);
        expanded := expanded + [code[at]];
        NoConstantsStep(code[..at], code[at]);
      }
    }
    assert code[..|code|] == code;
  }

  lemma NoConstantsStep(before: seq<Instr>, i: Instr)
    ensures NoConstants(before + [i]) <==> NoConstants(before) && !i.MOVi?
  {
    if NoConstants(before + [i]) {
      forall k: nat | k < |before| ensures !before[k].MOVi? { assert !(before + [i])[k].MOVi?; }
      assert !(before + [i])[|before|].MOVi?;
    }
  }
}
