/** The spill-everywhere pass over a whole function, and its effect on runs. */
module SpillPass {
  import opened Target
  import opened Dataflow
  import opened MachineIR
  import opened Renaming
  import opened Spilling

  ghost predicate AllClassified(instrs: seq<Instr>, homes: Homes, cls: map<nat, RegClass>) {
    forall i :: 0 <= i < |instrs| ==> Classified(instrs[i], homes, cls)
  }

  function Flatten(pieces: seq<seq<Instr>>): seq<Instr> {
    if pieces == [] then [] else pieces[0] + Flatten(pieces[1..])
  }

  lemma {:induction false} FlattenAppend(pieces: seq<seq<Instr>>, piece: seq<Instr>)
    ensures Flatten(pieces + [piece]) == Flatten(pieces) + piece
  {
    if pieces == [] {
      assert [piece][1..] == [];
    } else {
      assert (pieces + [piece])[1..] == pieces[1..] + [piece];
      FlattenAppend(pieces[1..], piece);
    }
  }

  /** One expansion per instruction. */
  ghost predicate PiecesExpand(instrs: seq<Instr>, homes: Homes, cls: map<nat, RegClass>, base: nat,
                               pieces: seq<seq<Instr>>)
    requires AllClassified(instrs, homes, cls)
  {
    |pieces| == |instrs|
    && forall i {:trigger pieces[i]} :: 0 <= i < |instrs| ==> Expands(instrs[i], homes, cls, base, pieces[i])
  }

  /** code is the concatenation of one expansion per instruction. */
  ghost predicate BlockExpands(instrs: seq<Instr>, homes: Homes, cls: map<nat, RegClass>, base: nat, code: seq<Instr>)
    requires AllClassified(instrs, homes, cls)
  {
    exists pieces :: PiecesExpand(instrs, homes, cls, base, pieces) && Flatten(pieces) == code
  }

  ghost predicate AllSafe(instrs: seq<Instr>, homes: Homes, base: nat, slotsOut: set<nat>) {
    forall i :: 0 <= i < |instrs| ==> SpillSafe(instrs[i], homes, base, SlotsAt(instrs, i + 1, slotsOut))
  }

  /** Slots read from instruction i on before they are written. */
  function SlotsAt(instrs: seq<Instr>, i: nat, slotsOut: set<nat>): set<nat>
    requires i <= |instrs|
  {
    LiveBefore(SlotTraffics(instrs[i..]), slotsOut)
  }

  lemma {:induction false} BlockMirrors(m: Machine, instrs: seq<Instr>, homes: Homes, cls: map<nat, RegClass>,
                                        base: nat, pieces: seq<seq<Instr>>, out: set<nat>, slotsOut: set<nat>,
                                        o: State, n: State)
    requires AllClassified(instrs, homes, cls) && PiecesExpand(instrs, homes, cls, base, pieces)
    requires Separate(homes) && !m.physical && AllSafe(instrs, homes, base, slotsOut)
    requires forall r :: r in out ==> r < base
    requires UsesBelow(instrs, base)
    requires Mirrors(homes, cls, base, LiveBefore(Accesses(instrs), out), LiveBefore(SlotTraffics(instrs), slotsOut),
                     o, n)
    ensures AllWellFormed(instrs) && AllWellFormed(Flatten(pieces))
    ensures Mirrors(homes, cls, base, out, slotsOut, ExecSeq(m, instrs, o), ExecSeq(m, Flatten(pieces), n))
    decreases |instrs|
  {
    if instrs != [] {
      var rest, after := instrs[1..], LiveBefore(Accesses(instrs[1..]), out);
      assert Accesses(instrs)[1..] == Accesses(rest) && SlotTraffics(instrs)[1..] == SlotTraffics(rest);
      LiveBelow(rest, out, base);
      var piece := pieces[0];
      assert Expands(instrs[0], homes, cls, base, piece);
      assert SpillSafe(instrs[0], homes, base, SlotsAt(instrs, 1, slotsOut));
      ExpansionMirrors(m, instrs[0], homes, cls, base, piece, after, SlotsAt(instrs, 1, slotsOut), o, n);
      SafeRest(instrs, homes, base, slotsOut);
      BlockMirrors(m, rest, homes, cls, base, pieces[1..], out, slotsOut, Exec(m, instrs[0], o), ExecSeq(m, piece, n));
      ExecSeqAppend(m, piece, Flatten(pieces[1..]), n);
    }
  }

  lemma SafeRest(instrs: seq<Instr>, homes: Homes, base: nat, slotsOut: set<nat>)
    requires instrs != [] && AllSafe(instrs, homes, base, slotsOut)
    ensures AllSafe(instrs[1..], homes, base, slotsOut)
  {
    var rest := instrs[1..];
    forall i | 0 <= i < |rest| ensures SpillSafe(rest[i], homes, base, SlotsAt(rest, i + 1, slotsOut)) {
      assert rest[i + 1..] == instrs[i + 2..];
      assert SpillSafe(instrs[i + 1], homes, base, SlotsAt(instrs, i + 2, slotsOut));
    }
  }

  ghost predicate UsesBelow(instrs: seq<Instr>, base: nat) {
    forall i, r :: 0 <= i < |instrs| && r in UseRegs(instrs[i]) ==> r < base
  }

  lemma {:induction false} LiveBelow(instrs: seq<Instr>, out: set<nat>, base: nat)
    requires forall r :: r in out ==> r < base
    requires UsesBelow(instrs, base)
    ensures forall r :: r in LiveBefore(Accesses(instrs), out) ==> r < base
  {
    if instrs != [] {
      assert Accesses(instrs)[1..] == Accesses(instrs[1..]);
      LiveBelow(instrs[1..], out, base);
    }
  }

  /** Operands carry the class of their register. */
  ghost predicate FunctionClassified(f: Function, homes: Homes, cls: map<nat, RegClass>) {
    ValidFunction(f) && forall b :: 0 <= b < |f.blocks| ==> AllClassified(f.blocks[b].instrs, homes, cls)
  }

  /** The function before spilling, together with what the pass relies on: fresh registers are
      unused, a home slot is stored to by its own register only and nobody waits for its content
      where that register is defined, recomputed registers are defined by their constant only. */
  ghost predicate Spillable(f: Function, homes: Homes, cls: map<nat, RegClass>, base: nat, slotsOut: seq<set<nat>>) {
    && FunctionClassified(f, homes, cls) && Separate(homes) && SlotsClosed(f, slotsOut)
    && (forall b :: 0 <= b < |f.blocks| ==>
          && AllSafe(f.blocks[b].instrs, homes, base, slotsOut[b])
          && UsesBelow(f.blocks[b].instrs, base))
  }

  /** Sets of slots closed under control flow. */
  ghost predicate SlotsClosed(f: Function, slotsOut: seq<set<nat>>) {
    && |slotsOut| == |f.blocks|
    && (forall b, s :: 0 <= b < |f.blocks| && s in f.blocks[b].succs && s < |f.blocks| ==>
                         LiveBefore(SlotTraffics(f.blocks[s].instrs), slotsOut[s]) <= slotsOut[b])
  }

  ghost predicate Spilled(f: Function, homes: Homes, cls: map<nat, RegClass>, base: nat, g: Function)
    requires FunctionClassified(f, homes, cls)
  {
    && |g.blocks| == |f.blocks|
    && (forall b :: 0 <= b < |f.blocks| ==>
          g.blocks[b].succs == f.blocks[b].succs
          && BlockExpands(f.blocks[b].instrs, homes, cls, base, g.blocks[b].instrs))
  }

  /** Live sets closed under control flow. */
  ghost predicate LiveClosed(f: Function, liveOut: seq<set<nat>>, base: nat) {
    && |liveOut| == |f.blocks|
    && (forall b, r :: 0 <= b < |f.blocks| && r in liveOut[b] ==> r < base)
    && (forall b, s :: 0 <= b < |f.blocks| && s in f.blocks[b].succs && s < |f.blocks| ==>
                         LiveBefore(Accesses(f.blocks[s].instrs), liveOut[s]) <= liveOut[b])
  }

  lemma {:induction false} PiecesWellFormed(instrs: seq<Instr>, homes: Homes, cls: map<nat, RegClass>, base: nat,
                                            pieces: seq<seq<Instr>>)
    requires AllClassified(instrs, homes, cls) && PiecesExpand(instrs, homes, cls, base, pieces)
    ensures AllWellFormed(Flatten(pieces))
    decreases |instrs|
  {
    if instrs != [] {
      PieceWellFormed(instrs[0], homes, cls, base, pieces[0]);
      PiecesWellFormed(instrs[1..], homes, cls, base, pieces[1..]);
    }
  }

  lemma PieceWellFormed(ins: Instr, homes: Homes, cls: map<nat, RegClass>, base: nat, piece: seq<Instr>)
    requires Classified(ins, homes, cls) && Expands(ins, homes, cls, base, piece)
    ensures AllWellFormed(piece)
  {
    if !Dead(ins, homes) {
      var temps, loads, stores :| ExpandsWith(ins, homes, cls, base, piece, temps, loads, stores);
      RenamedWellFormed(ins, temps);
    }
  }

  lemma SpilledExecutable(f: Function, homes: Homes, cls: map<nat, RegClass>, base: nat, slotsOut: seq<set<nat>>,
                          g: Function)
    requires Spillable(f, homes, cls, base, slotsOut) && Spilled(f, homes, cls, base, g)
    ensures Executable(f) && Executable(g)
  {
    forall b | 0 <= b < |f.blocks|
      ensures AllWellFormed(f.blocks[b].instrs) && AllWellFormed(g.blocks[b].instrs)
    {
      var pieces :| PiecesExpand(f.blocks[b].instrs, homes, cls, base, pieces) && Flatten(pieces) == g.blocks[b].instrs;
      PiecesWellFormed(f.blocks[b].instrs, homes, cls, base, pieces);
      forall i | 0 <= i < |f.blocks[b].instrs| ensures WellFormed(f.blocks[b].instrs[i]) {
        assert Classified(f.blocks[b].instrs[i], homes, cls);
      }
    }
    forall b, s | 0 <= b < |g.blocks| && s in g.blocks[b].succs ensures s < |g.blocks| {
      assert s in f.blocks[b].succs;
    }
  }

  /** Control at the same place, live values mirrored. */
  ghost predicate Linked(f: Function, homes: Homes, cls: map<nat, RegClass>, base: nat, slotsOut: seq<set<nat>>,
                         liveOut: seq<set<nat>>, c: Config, d: Config)
    requires |liveOut| == |slotsOut| == |f.blocks|
  {
    match (c, d)
    case (Halted(o), Halted(n)) => o.hist == n.hist
    case (Running(b, o), Running(e, n)) =>
      b == e && b < |f.blocks|
      && Mirrors(homes, cls, base, LiveBefore(Accesses(f.blocks[b].instrs), liveOut[b]),
                 LiveBefore(SlotTraffics(f.blocks[b].instrs), slotsOut[b]), o, n)
    case _ => false
  }

  lemma StepLinked(f: Function, homes: Homes, cls: map<nat, RegClass>, base: nat, slotsOut: seq<set<nat>>, g: Function,
                   liveOut: seq<set<nat>>, m: Machine, c: Config, d: Config)
    requires Spillable(f, homes, cls, base, slotsOut) && Spilled(f, homes, cls, base, g) && LiveClosed(f, liveOut, base)
    requires !m.physical && Executable(f) && Executable(g)
    requires Linked(f, homes, cls, base, slotsOut, liveOut, c, d)
    ensures Linked(f, homes, cls, base, slotsOut, liveOut, Next(f, m, c), Next(g, m, d))
  {
    if c.Running? {
      hide Expands, Classified, AllSafe, LiveBefore, ExecSeq, Mirrors, UsesBelow, AllWellFormed;
      var b, instrs := c.block, f.blocks[c.block].instrs;
      var pieces :| PiecesExpand(instrs, homes, cls, base, pieces) && Flatten(pieces) == g.blocks[b].instrs;
      BlockMirrors(m, instrs, homes, cls, base, pieces, liveOut[b], slotsOut[b], c.st, d.st);
      var o, n := ExecSeq(m, instrs, c.st), ExecSeq(m, g.blocks[b].instrs, d.st);
      assert o.hist == n.hist by { MirrorsHistory(homes, cls, base, liveOut[b], slotsOut[b], o, n); }
      if f.blocks[b].succs != [] {
        var t := Chosen(m.branch(o.hist), f.blocks[b].succs);
        MirrorsLess(homes, cls, base, liveOut[b], slotsOut[b], LiveBefore(Accesses(f.blocks[t].instrs), liveOut[t]),
                    LiveBefore(SlotTraffics(f.blocks[t].instrs), slotsOut[t]), o, n);
      }
    }
  }

  lemma MirrorsHistory(homes: Homes, cls: map<nat, RegClass>, base: nat, live: set<nat>, slotsLive: set<nat>,
                       o: State, n: State)
    requires Mirrors(homes, cls, base, live, slotsLive, o, n)
    ensures o.hist == n.hist
  {
  }

  lemma MirrorsLess(homes: Homes, cls: map<nat, RegClass>, base: nat, live: set<nat>, slotsLive: set<nat>,
                    live': set<nat>, slotsLive': set<nat>, o: State, n: State)
    requires Mirrors(homes, cls, base, live, slotsLive, o, n) && live' <= live && slotsLive' <= slotsLive
    ensures Mirrors(homes, cls, base, live', slotsLive', o, n)
  {
  }

  /** Spilling preserves behaviour: every original use still sees the value last defined. */
  lemma SpillingPreservesRuns(f: Function, homes: Homes, cls: map<nat, RegClass>, base: nat, slotsOut: seq<set<nat>>,
                              g: Function, liveOut: seq<set<nat>>, m: Machine, c: Config, d: Config, k: nat)
    requires Spillable(f, homes, cls, base, slotsOut) && Spilled(f, homes, cls, base, g) && LiveClosed(f, liveOut, base)
    requires !m.physical && Linked(f, homes, cls, base, slotsOut, liveOut, c, d)
    ensures Executable(f) && Executable(g)
    ensures SameBehaviour(Run(f, m, c, k), Run(g, m, d, k))
  {
    SpilledExecutable(f, homes, cls, base, slotsOut, g);
    var rc, rd := RunsLinked(f, homes, cls, base, slotsOut, g, liveOut, m, c, d, k);
  }

  lemma {:induction false} RunsLinked(f: Function, homes: Homes, cls: map<nat, RegClass>, base: nat,
                                      slotsOut: seq<set<nat>>, g: Function, liveOut: seq<set<nat>>, m: Machine,
                                      c: Config, d: Config, k: nat)
    returns (rc: Config, rd: Config)
    requires Spillable(f, homes, cls, base, slotsOut) && Spilled(f, homes, cls, base, g) && LiveClosed(f, liveOut, base)
    requires !m.physical && Executable(f) && Executable(g) && InFunction(f, c) && InFunction(g, d)
    requires Linked(f, homes, cls, base, slotsOut, liveOut, c, d)
    ensures rc == Run(f, m, c, k) && rd == Run(g, m, d, k) && Linked(f, homes, cls, base, slotsOut, liveOut, rc, rd)
    decreases k
  {
    hide Next, Linked, Spillable, Spilled, LiveClosed, FunctionClassified;
    if k == 0 {
      rc, rd := c, d;
    } else {
      StepLinked(f, homes, cls, base, slotsOut, g, liveOut, m, c, d);
      rc, rd := RunsLinked(f, homes, cls, base, slotsOut, g, liveOut, m, Next(f, m, c), Next(g, m, d), k - 1);
    }
  }

  // ----- The pass -----

  method CountInOperands(ops: seq<Operand>, r: nat) returns (count: nat)
    ensures count == DefinitionCount(ops, r)
  {
    count := 0;
    for i := |ops| downto 0
      invariant count == DefinitionCount(ops[i..], r)
    {
      assert ops[i..][1..] == ops[i + 1..];
      if ops[i].isDef && ops[i].reg == r { count := count + 1; }
    }
  }

  method CountInInstrs(instrs: seq<Instr>, r: nat) returns (count: nat, found: bool, n: int)
    ensures count == InstrsDefinitionCount(instrs, r)
    ensures found ==> exists i :: 0 <= i < |instrs| && DefinesConstant(instrs[i], r, n)
    ensures !found ==> forall i, c :: 0 <= i < |instrs| ==> !DefinesConstant(instrs[i], r, c)
  {
    count, found, n := 0, false, 0;
    for i := |instrs| downto 0
      invariant count == InstrsDefinitionCount(instrs[i..], r)
      invariant found ==> exists j :: i <= j < |instrs| && DefinesConstant(instrs[j], r, n)
      invariant !found ==> forall j, c :: i <= j < |instrs| ==> !DefinesConstant(instrs[j], r, c)
    {
      assert instrs[i..][1..] == instrs[i + 1..];
      var here := CountInOperands(instrs[i].operands, r);
      count := count + here;
      var ops := instrs[i].operands;
      if instrs[i].op.MOVI? && |ops| == 1 && ops[0].isDef && ops[0].reg == r {
        found, n := true, instrs[i].op.value;
      }
    }
  }

  /** Is r defined exactly once, by a constant? */
  method UniqueConstant(f: Function, r: nat) returns (found: bool, n: int)
    ensures found <==> exists c :: OnlyDefinition(f, r, c)
    ensures found ==> OnlyDefinition(f, r, n)
  {
    var count: nat := 0;
    found, n := false, 0;
    for b := |f.blocks| downto 0
      invariant count == FunctionDefinitionCount(f.blocks[b..], r)
      invariant found ==> exists a, i :: b <= a < |f.blocks| && 0 <= i < |f.blocks[a].instrs|
                                         && DefinesConstant(f.blocks[a].instrs[i], r, n)
      invariant !found ==> forall a, i, c :: b <= a < |f.blocks| && 0 <= i < |f.blocks[a].instrs| ==>
                                               !DefinesConstant(f.blocks[a].instrs[i], r, c)
    {
      assert f.blocks[b..][1..] == f.blocks[b + 1..];
      var here, constant, c := CountInInstrs(f.blocks[b].instrs, r);
      count := count + here;
      if constant { found, n := true, c; }
    }
    assert f.blocks[0..] == f.blocks;
    found := found && count == 1;
    assert found ==> OnlyDefinition(f, r, n);
  }

  /** Recipes for the candidates whose recomputation is legal and cheaper than a reload. */
  method Analyze(f: Function, candidates: seq<nat>, cost: int -> nat, reloadCost: nat) returns (recipes: map<nat, int>)
    ensures forall r :: r in recipes ==>
              r in candidates && OnlyDefinition(f, r, recipes[r]) && 0 < cost(recipes[r]) < reloadCost
    ensures forall r, n :: r in candidates && r !in recipes && OnlyDefinition(f, r, n) ==>
              exists c :: OnlyDefinition(f, r, c) && !(0 < cost(c) < reloadCost)
  {
    recipes := map[];
    for i := 0 to |candidates|
      invariant forall r :: r in recipes ==>
                  r in candidates && OnlyDefinition(f, r, recipes[r]) && 0 < cost(recipes[r]) < reloadCost
      invariant forall r, n :: r in candidates[..i] && r !in recipes && OnlyDefinition(f, r, n) ==>
                  exists c :: OnlyDefinition(f, r, c) && !(0 < cost(c) < reloadCost)
    {
      var r := candidates[i];
      assert candidates[..i + 1] == candidates[..i] + [r];
      var found, n := UniqueConstant(f, r);
      if found && 0 < cost(n) < reloadCost {
        recipes := recipes[r := n];
      }
    }
    assert candidates[..|candidates|] == candidates;
  }

  /** Slots handed out so far: different registers, different slots, all below the next free one. */
  ghost predicate SlotsDistinct(slots: map<nat, nat>, nextSlot: nat) {
    (forall r :: r in slots ==> slots[r] < nextSlot)
    && (forall r, q :: r in slots && q in slots && r != q ==> slots[r] != slots[q])
  }

  /** A home for every spilled register: its recipe, its old slot, or a slot handed out now. */
  ghost predicate HomesAssigned(homes: Homes, recipes: map<nat, int>, slots0: map<nat, nat>, nextSlot0: nat,
                                slots: map<nat, nat>, nextSlot: nat) {
    && SlotsDistinct(slots, nextSlot) && nextSlot0 <= nextSlot
    && (forall r :: r in homes ==>
          if r in recipes then homes[r] == Recipe(recipes[r]) else r in slots && homes[r] == Slot(slots[r]))
    && (forall r :: r in slots ==> if r in slots0 then slots[r] == slots0[r] else slots[r] >= nextSlot0)
    && slots0.Keys <= slots.Keys <= slots0.Keys + homes.Keys
  }

  lemma OneRecipe(homes: Homes, recipes: map<nat, int>, slots0: map<nat, nat>, nextSlot0: nat, slots: map<nat, nat>,
                  nextSlot: nat, r: nat)
    requires HomesAssigned(homes, recipes, slots0, nextSlot0, slots, nextSlot) && r in recipes
    ensures HomesAssigned(homes[r := Recipe(recipes[r])], recipes, slots0, nextSlot0, slots, nextSlot)
  {
  }

  lemma OneOldSlot(homes: Homes, recipes: map<nat, int>, slots0: map<nat, nat>, nextSlot0: nat, slots: map<nat, nat>,
                   nextSlot: nat, r: nat)
    requires HomesAssigned(homes, recipes, slots0, nextSlot0, slots, nextSlot) && r !in recipes && r in slots
    ensures HomesAssigned(homes[r := Slot(slots[r])], recipes, slots0, nextSlot0, slots, nextSlot)
  {
  }

  lemma OneNewSlot(homes: Homes, recipes: map<nat, int>, slots0: map<nat, nat>, nextSlot0: nat, slots: map<nat, nat>,
                   nextSlot: nat, r: nat)
    requires HomesAssigned(homes, recipes, slots0, nextSlot0, slots, nextSlot) && r !in recipes && r !in slots
    ensures HomesAssigned(homes[r := Slot(nextSlot)], recipes, slots0, nextSlot0, slots[r := nextSlot], nextSlot + 1)
  {
  }

  lemma AssignedSeparate(homes: Homes, recipes: map<nat, int>, slots0: map<nat, nat>, nextSlot0: nat,
                         slots: map<nat, nat>, nextSlot: nat)
    requires HomesAssigned(homes, recipes, slots0, nextSlot0, slots, nextSlot)
    ensures Separate(homes)
  {
  }

  /** The loop over the spilled registers. */
  method AssignHomes(spills: seq<nat>, recipes: map<nat, int>, slots0: map<nat, nat>, nextSlot0: nat)
    returns (homes: Homes, slots: map<nat, nat>, nextSlot: nat)
    requires SlotsDistinct(slots0, nextSlot0)
    ensures HomesAssigned(homes, recipes, slots0, nextSlot0, slots, nextSlot) && Separate(homes)
    ensures homes.Keys == set r | r in spills
  {
    homes, slots, nextSlot := map[], slots0, nextSlot0;
    assert HomesAssigned(homes, recipes, slots0, nextSlot0, slots, nextSlot);
    hide HomesAssigned, Separate;
    for i := 0 to |spills|
      invariant HomesAssigned(homes, recipes, slots0, nextSlot0, slots, nextSlot)
      invariant homes.Keys == set r | r in spills[..i]
    {
      var r := spills[i];
      assert spills[..i + 1] == spills[..i] + [r];
      if r in recipes {
        OneRecipe(homes, recipes, slots0, nextSlot0, slots, nextSlot, r);
        homes := homes[r := Recipe(recipes[r])];
      } else {
        if r !in slots {
          OneNewSlot(homes, recipes, slots0, nextSlot0, slots, nextSlot, r);
          slots := slots[r := nextSlot];
          nextSlot := nextSlot + 1;
        } else {
          OneOldSlot(homes, recipes, slots0, nextSlot0, slots, nextSlot, r);
        }
        homes := homes[r := Slot(slots[r])];
      }
    }
    assert spills[..|spills|] == spills;
    AssignedSeparate(homes, recipes, slots0, nextSlot0, slots, nextSlot);
  }

  /** The operand loop of one instruction: which registers need a reload, which a store, and the
      fresh temporary of each. */
  method MakeTemporaries(ins: Instr, homes: Homes, base: nat, next0: nat)
    returns (temps: map<nat, nat>, loads: seq<nat>, stores: seq<nat>, next: nat)
    requires base <= next0
    ensures next0 <= next && Temporaries(ins, homes, next0, temps)
    ensures forall r :: r in temps ==> temps[r] < next
    ensures Lists(loads, UseRegs(ins) * homes.Keys) && Lists(stores, DefRegs(ins) * homes.Keys)
  {
    hide UseRegs, DefRegs;
    var ops := ins.operands;
    temps, loads, stores, next := map[], [], [], next0;
    for i := 0 to |ops|
      invariant next0 <= next
      invariant forall r :: r in temps <==> r in homes && (Read(ops, i, r) || Written(ops, i, r))
      invariant forall r :: r in temps ==> next0 <= temps[r] < next
      invariant forall r, q :: r in temps && q in temps && r != q ==> temps[r] != temps[q]
      invariant forall r :: r in loads <==> r in homes && Read(ops, i, r)
      invariant forall r :: r in stores <==> r in homes && Written(ops, i, r)
    {
      var old_ := ops[i].reg;
      forall r ensures Read(ops, i + 1, r) <==> Read(ops, i, r) || (old_ == r && !ops[i].isDef) {
      }
      forall r ensures Written(ops, i + 1, r) <==> Written(ops, i, r) || (old_ == r && ops[i].isDef) {
      }
      if old_ in homes {
        if ops[i].isDef {
          if old_ !in stores { stores := stores + [old_]; }
        } else {
          if old_ !in loads { loads := loads + [old_]; }
        }
        if old_ !in temps {
          temps := temps[old_ := next];
          next := next + 1;
        }
      }
    }
    forall r { RegsByIndex(ins, r); }
  }

  lemma RegsByIndex(ins: Instr, r: nat)
    ensures r in UseRegs(ins) <==> Read(ins.operands, |ins.operands|, r)
    ensures r in DefRegs(ins) <==> Written(ins.operands, |ins.operands|, r)
  {
    if Read(ins.operands, |ins.operands|, r) {
      var k :| 0 <= k < |ins.operands| && ins.operands[k].reg == r && !ins.operands[k].isDef;
      assert ins.operands[k] in ins.operands;
    }
    if Written(ins.operands, |ins.operands|, r) {
      var k :| 0 <= k < |ins.operands| && ins.operands[k].reg == r && ins.operands[k].isDef;
      assert ins.operands[k] in ins.operands;
    }
  }

  /** One of the first n operands reads (writes) r. */
  ghost predicate Read(ops: seq<Operand>, n: nat, r: nat) {
    exists k :: 0 <= k < n <= |ops| && ops[k].reg == r && !ops[k].isDef
  }

  ghost predicate Written(ops: seq<Operand>, n: nat, r: nat) {
    exists k :: 0 <= k < n <= |ops| && ops[k].reg == r && ops[k].isDef
  }

  // ----- Classes of the temporaries -----

  /** The register table after the temporaries have been entered with their registers' classes. */
  function Entered(temps: map<nat, nat>, cls: map<nat, RegClass>, classes: map<nat, RegClass>): map<nat, RegClass>
    requires temps.Keys <= cls.Keys
    requires forall r, q :: r in temps && q in temps && r != q ==> temps[r] != temps[q]
  {
    classes + map r | r in temps :: temps[r] := cls[r]
  }

  /** Old entries below limit stay, new ones are not below it. */
  ghost predicate Grows(classes0: map<nat, RegClass>, classes: map<nat, RegClass>, limit: nat) {
    && (forall x :: x in classes0 && x < limit ==> x in classes && classes[x] == classes0[x])
    && (forall x :: x in classes ==> x in classes0 || x >= limit)
  }

  /** Every new register of the code is in the table with the class of its operands. */
  ghost predicate Recorded(code: seq<Instr>, base: nat, next: nat, classes: map<nat, RegClass>) {
    forall i, o :: 0 <= i < |code| && o in code[i].operands && o.reg >= base ==>
      o.reg < next && o.reg in classes && classes[o.reg] == o.cls
  }

  ghost predicate OperandsBelow(instrs: seq<Instr>, base: nat) {
    forall i, o :: 0 <= i < |instrs| && o in instrs[i].operands ==> o.reg < base
  }

  lemma RecordedLater(code: seq<Instr>, base: nat, next0: nat, classes0: map<nat, RegClass>, next: nat,
                      classes: map<nat, RegClass>)
    requires Recorded(code, base, next0, classes0) && Grows(classes0, classes, next0) && next0 <= next
    ensures Recorded(code, base, next, classes)
  {
  }

  lemma RecordedAppend(a: seq<Instr>, b: seq<Instr>, base: nat, next: nat, classes: map<nat, RegClass>)
    requires Recorded(a, base, next, classes) && Recorded(b, base, next, classes)
    ensures Recorded(a + b, base, next, classes)
  {
  }

  lemma EnteredMeaning(temps: map<nat, nat>, cls: map<nat, RegClass>, classes0: map<nat, RegClass>, next0: nat)
    requires temps.Keys <= cls.Keys && forall r :: r in temps ==> temps[r] >= next0
    requires forall r, q :: r in temps && q in temps && r != q ==> temps[r] != temps[q]
    ensures Grows(classes0, Entered(temps, cls, classes0), next0)
    ensures forall r :: r in temps ==>
      temps[r] in Entered(temps, cls, classes0) && Entered(temps, cls, classes0)[temps[r]] == cls[r]
  {
  }

  lemma EnteredRecords(ins: Instr, homes: Homes, cls: map<nat, RegClass>, base: nat, next: nat,
                       classes: map<nat, RegClass>, temps: map<nat, nat>, loads: seq<nat>, stores: seq<nat>)
    requires Classified(ins, homes, cls) && OperandsBelow([ins], base)
    requires Lists(loads, temps.Keys * UseRegs(ins)) && Lists(stores, temps.Keys * DefRegs(ins))
    requires temps.Keys <= homes.Keys
    requires forall r :: r in temps ==> temps[r] < next && temps[r] in classes && classes[temps[r]] == cls[r]
    ensures Recorded(LoadsOf(loads, homes, cls, temps) + [RewriteInstr(ins, temps)]
                     + StoresOf(stores, homes, cls, temps), base, next, classes)
  {
    var first, middle, last := LoadsOf(loads, homes, cls, temps), RewriteInstr(ins, temps),
      StoresOf(stores, homes, cls, temps);
    MiddleRecorded(ins, homes, cls, base, next, temps, classes);
    StoresRecorded(stores, homes, cls, temps, base, next, classes);
    assert Recorded(first, base, next, classes);
    hide RewriteInstr, StoresOf, Recorded, LoadsOf, Classified, OperandsBelow, UseRegs, DefRegs;
    RecordedAppend(first, [middle], base, next, classes);
    RecordedAppend(first + [middle], last, base, next, classes);
  }

  lemma MiddleRecorded(ins: Instr, homes: Homes, cls: map<nat, RegClass>, base: nat, next: nat, temps: map<nat, nat>,
                       classes: map<nat, RegClass>)
    requires Classified(ins, homes, cls) && OperandsBelow([ins], base) && temps.Keys <= homes.Keys
    requires forall r :: r in temps ==> temps[r] < next && temps[r] in classes && classes[temps[r]] == cls[r]
    ensures Recorded([RewriteInstr(ins, temps)], base, next, classes)
  {
    assert [ins][0] == ins;
    var news := RewriteInstr(ins, temps).operands;
    forall o | o in news && o.reg >= base ensures o.reg < next && o.reg in classes && classes[o.reg] == o.cls {
      var i :| 0 <= i < |news| && news[i] == o;
      assert ins.operands[i] in ins.operands;
    }
  }

  lemma {:induction false} StoresRecorded(rs: seq<nat>, homes: Homes, cls: map<nat, RegClass>, temps: map<nat, nat>,
                                          base: nat, next: nat, classes: map<nat, RegClass>)
    requires forall r :: r in rs ==> r in homes && r in cls && r in temps
    requires forall r :: r in temps && r in cls ==>
      temps[r] < next && temps[r] in classes && classes[temps[r]] == cls[r]
    ensures Recorded(StoresOf(rs, homes, cls, temps), base, next, classes)
    decreases |rs|
  {
    if rs != [] {
      var rest := StoresOf(rs[1..], homes, cls, temps);
      StoresRecorded(rs[1..], homes, cls, temps, base, next, classes);
      if homes[rs[0]].Slot? {
        var store := Instr(SPILL_STORE(homes[rs[0]].slot), [Operand(temps[rs[0]], cls[rs[0]], false)]);
        assert StoresOf(rs, homes, cls, temps) == [store] + rest;
        RecordedAppend([store], rest, base, next, classes);
      } else {
        assert StoresOf(rs, homes, cls, temps) == rest;
      }
    }
  }

  method ExpandInstr(ins: Instr, homes: Homes, cls: map<nat, RegClass>, base: nat, next0: nat,
                     classes0: map<nat, RegClass>)
    returns (code: seq<Instr>, next: nat, classes: map<nat, RegClass>)
    requires Classified(ins, homes, cls) && base <= next0
    ensures next0 <= next && Expands(ins, homes, cls, base, code)
    ensures forall r :: r in homes && homes[r].Recipe? && DefinesConstant(ins, r, homes[r].value) ==> code == []
    ensures Grows(classes0, classes, next0) && (OperandsBelow([ins], base) ==> Recorded(code, base, next, classes))
  {
    hide Entered, Recorded, OperandsBelow, Grows, LoadOf, RewriteInstr, StoresOf, UseRegs, DefRegs;
    var temps, loads, stores;
    temps, loads, stores, next := MakeTemporaries(ins, homes, base, next0);
    EnteredMeaning(temps, cls, classes0, next0);
    classes := Entered(temps, cls, classes0);
    if Dead(ins, homes) {
      code := [];
      NothingRecorded(base, next, classes);
    } else {
      code := LoadsOf(loads, homes, cls, temps) + [RewriteInstr(ins, temps)] + StoresOf(stores, homes, cls, temps);
      assert ExpandsWith(ins, homes, cls, base, code, temps, loads, stores);
      if OperandsBelow([ins], base) {
        EnteredRecords(ins, homes, cls, base, next, classes, temps, loads, stores);
      }
    }
  }

  lemma NothingRecorded(base: nat, next: nat, classes: map<nat, RegClass>)
    ensures Recorded([], base, next, classes)
  {
  }

  /** The loop over the instructions of one block. */
  method ExpandBlock(instrs: seq<Instr>, homes: Homes, cls: map<nat, RegClass>, base: nat, next0: nat,
                     classes0: map<nat, RegClass>)
    returns (code: seq<Instr>, next: nat, classes: map<nat, RegClass>)
    requires AllClassified(instrs, homes, cls) && base <= next0
    ensures next0 <= next && BlockExpands(instrs, homes, cls, base, code)
    ensures Grows(classes0, classes, next0) && (OperandsBelow(instrs, base) ==> Recorded(code, base, next, classes))
  {
    hide Classified, Expands, Recorded;
    code, next, classes := [], next0, classes0;
    ghost var pieces: seq<seq<Instr>> := [];
    NothingRecorded(base, next, classes);
    for i := 0 to |instrs|
      invariant next0 <= next && |pieces| == i && code == Flatten(pieces)
      invariant forall j {:trigger pieces[j]} :: 0 <= j < i ==> Expands(instrs[j], homes, cls, base, pieces[j])
      invariant Grows(classes0, classes, next0) && (OperandsBelow(instrs, base) ==> Recorded(code, base, next, classes))
    {
      ghost var before, limit := classes, next;
      var piece;
      piece, next, classes := ExpandInstr(instrs[i], homes, cls, base, next, classes);
      FlattenAppend(pieces, piece);
      pieces := pieces + [piece];
      if OperandsBelow(instrs, base) {
        RecordedLater(code, base, limit, before, next, classes);
        RecordedAppend(code, piece, base, next, classes);
      }
      code := code + piece;
    }
    assert PiecesExpand(instrs, homes, cls, base, pieces);
  }

  /** The register table and the function agree on every new register. */
  ghost predicate FunctionRecorded(f: Function, base: nat, next: nat, classes: map<nat, RegClass>) {
    forall b :: 0 <= b < |f.blocks| ==> Recorded(f.blocks[b].instrs, base, next, classes)
  }

  ghost predicate FunctionBelow(f: Function, base: nat) {
    forall b :: 0 <= b < |f.blocks| ==> OperandsBelow(f.blocks[b].instrs, base)
  }

  /** The whole pass, with the register table it extends. */
  method InsertSpills(f: Function, homes: Homes, cls: map<nat, RegClass>, base: nat)
    returns (g: Function, next: nat, classes: map<nat, RegClass>)
    requires FunctionClassified(f, homes, cls)
    ensures Spilled(f, homes, cls, base, g) && next >= base
    ensures Grows(cls, classes, base) && (FunctionBelow(f, base) ==> FunctionRecorded(g, base, next, classes))
  {
    hide BlockExpands, Classified, Recorded, OperandsBelow;
    var blocks: seq<Block> := [];
    next, classes := base, cls;
    for b := 0 to |f.blocks|
      invariant base <= next && |blocks| == b
      invariant forall a :: 0 <= a < b ==>
                  blocks[a].succs == f.blocks[a].succs
                  && BlockExpands(f.blocks[a].instrs, homes, cls, base, blocks[a].instrs)
      invariant Grows(cls, classes, base)
      invariant FunctionBelow(f, base) ==> forall a :: 0 <= a < b ==> Recorded(blocks[a].instrs, base, next, classes)
    {
      ghost var before, limit := classes, next;
      var code;
      code, next, classes := ExpandBlock(f.blocks[b].instrs, homes, cls, base, next, classes);
      if FunctionBelow(f, base) {
        forall a | 0 <= a < b ensures Recorded(blocks[a].instrs, base, next, classes) {
          RecordedLater(blocks[a].instrs, base, limit, before, next, classes);
        }
      }
      blocks := blocks + [Block(code, f.blocks[b].succs)];
    }
    g := Function(blocks);
  }
}
