/** What a coloring round asks of the function, kept by every repair round: operands carry the class of
    their register, slots are as wide as what is stored there, and no instruction lists a write of a
    register before a read of it. */
module RepairTyping {
  import opened Target
  import opened MachineIR
  import opened Renaming
  import opened Spilling
  import opened SpillPass
  import opened GapSplit
  import opened RepairTraffic
  import opened SplitTraffic
  import opened RepairInvariant
  import opened Allocation
  import opened Liveness
  import opened InterferenceGraphs
  import RegAlloc

  ghost predicate AllTyped(instrs: seq<Instr>, t: Typing) {
    forall i :: 0 <= i < |instrs| ==> RegAlloc.InstrTyped(instrs[i], t)
  }

  ghost predicate SlotFits(t: Typing, r: nat, s: nat) {
    r in t.cls && (s in t.wideSlots <==> t.cls[r] == NEON128)
  }

  ghost predicate Colorable(a: Snapshot) {
    && RegAlloc.FunctionTyped(a.f, a.typing) && 0 !in a.typing.cls && NoShadowedReads(a.f)
    && (forall r :: r in a.slots && Occurs(a.f, r) ==> SlotFits(a.typing, r, a.slots[r]))
    && (forall s :: s in a.typing.wideSlots ==> s < a.nextSlot)
  }

  // ----- Classes after a spill round -----

  /** What the expansion of one instruction needs of the new table. */
  ghost predicate Extends(ins: Instr, homes: Homes, base: nat, t: Typing, t': Typing) {
    && Grows(t.cls, t'.cls, base)
    && (forall r :: r in homes && homes[r].Slot? ==>
        r in t.cls && (homes[r].slot in t'.wideSlots <==> t.cls[r] == NEON128))
    && (forall s: nat :: TouchesSlot(ins, s) ==> (s in t'.wideSlots <==> s in t.wideSlots))
  }

  lemma MiddleTyped(ins: Instr, homes: Homes, base: nat, temps: map<nat, nat>, next: nat, t: Typing, t': Typing)
    requires RegAlloc.InstrTyped(ins, t) && Extends(ins, homes, base, t, t') && OperandsBelow([ins], base)
    requires forall r :: r in temps ==> temps[r] >= base
    requires Recorded([RewriteInstr(ins, temps)], base, next, t'.cls)
    ensures RegAlloc.InstrTyped(RewriteInstr(ins, temps), t')
  {
    RenamedWellFormed(ins, temps);
    var ops, news := ins.operands, RewriteInstr(ins, temps).operands;
    assert [ins][0] == ins && [RewriteInstr(ins, temps)][0] == RewriteInstr(ins, temps);
    forall o | o in news ensures o.reg in t'.cls && o.cls == t'.cls[o.reg] {
      var i :| 0 <= i < |news| && news[i] == o;
      assert ops[i] in ops && ops[i].reg < base;
    }
    MoveStaysTyped(ins, temps, t, t');
  }

  lemma MoveStaysTyped(ins: Instr, temps: map<nat, nat>, t: Typing, t': Typing)
    requires WellFormed(ins) && MoveTyped(ins, t)
    requires forall s: nat :: TouchesSlot(ins, s) ==> (s in t'.wideSlots <==> s in t.wideSlots)
    ensures WellFormed(RewriteInstr(ins, temps)) && MoveTyped(RewriteInstr(ins, temps), t')
  {
    RenamedWellFormed(ins, temps);
    match ins.op {
      case SPILL_LOAD(s) => assert TouchesSlot(ins, s);
      case SPILL_STORE(s) => assert TouchesSlot(ins, s);
      case _ =>
    }
  }

  lemma LoadsTyped(ins: Instr, rs: seq<nat>, homes: Homes, base: nat, temps: map<nat, nat>, next: nat, t: Typing,
                   t': Typing)
    requires Extends(ins, homes, base, t, t') && (forall r :: r in rs ==> r in homes && r in t.cls && r in temps)
    requires forall r :: r in rs ==> temps[r] >= base
    requires Recorded(LoadsOf(rs, homes, t.cls, temps), base, next, t'.cls)
    ensures AllTyped(LoadsOf(rs, homes, t.cls, temps), t')
  {
    var code := LoadsOf(rs, homes, t.cls, temps);
    forall i | 0 <= i < |code| ensures RegAlloc.InstrTyped(code[i], t') {
      var o := Operand(temps[rs[i]], t.cls[rs[i]], true);
      assert rs[i] in rs && code[i].operands == [o] && o in code[i].operands;
    }
  }

  lemma {:induction false} StoresTyped(ins: Instr, rs: seq<nat>, homes: Homes, base: nat, temps: map<nat, nat>,
                                       next: nat,
                                       t: Typing, t': Typing)
    requires Extends(ins, homes, base, t, t') && (forall r :: r in rs ==> r in homes && r in t.cls && r in temps)
    requires forall r :: r in rs ==> temps[r] >= base
    requires Recorded(StoresOf(rs, homes, t.cls, temps), base, next, t'.cls)
    ensures AllTyped(StoresOf(rs, homes, t.cls, temps), t')
    decreases |rs|
  {
    if rs != [] {
      var code, rest := StoresOf(rs, homes, t.cls, temps), StoresOf(rs[1..], homes, t.cls, temps);
      if homes[rs[0]].Slot? {
        var o := Operand(temps[rs[0]], t.cls[rs[0]], false);
        var store := Instr(SPILL_STORE(homes[rs[0]].slot), [o]);
        assert code == [store] + rest && rs[0] in rs;
        RecordedParts([store], rest, base, next, t'.cls);
        assert [store][0] == store && o in store.operands;
        StoresTyped(ins, rs[1..], homes, base, temps, next, t, t');
        TypedAppend([store], rest, t');
      } else {
        assert code == rest;
        StoresTyped(ins, rs[1..], homes, base, temps, next, t, t');
      }
    }
  }

  lemma RecordedParts(a: seq<Instr>, b: seq<Instr>, base: nat, next: nat, classes: map<nat, RegClass>)
    requires Recorded(a + b, base, next, classes)
    ensures Recorded(a, base, next, classes) && Recorded(b, base, next, classes)
  {
    assert forall i :: 0 <= i < |a| ==> (a + b)[i] == a[i];
    assert forall i :: 0 <= i < |b| ==> (a + b)[|a| + i] == b[i];
  }

  lemma TypedAppend(a: seq<Instr>, b: seq<Instr>, t: Typing)
    requires AllTyped(a, t) && AllTyped(b, t)
    ensures AllTyped(a + b, t)
  {
    hide RegAlloc.InstrTyped;
  }

  lemma PieceTyped(ins: Instr, homes: Homes, base: nat, piece: seq<Instr>, next: nat, t: Typing, t': Typing)
    requires Classified(ins, homes, t.cls) && Expands(ins, homes, t.cls, base, piece) && OperandsBelow([ins], base)
    requires RegAlloc.InstrTyped(ins, t) && Extends(ins, homes, base, t, t') && Recorded(piece, base, next, t'.cls)
    ensures AllTyped(piece, t')
  {
    hide RegAlloc.InstrTyped, Recorded, Extends, OperandsBelow, UseRegs, DefRegs, RewriteInstr;
    if !Dead(ins, homes) {
      var temps, loads, stores :| ExpandsWith(ins, homes, t.cls, base, piece, temps, loads, stores);
      var first, middle, last := LoadsOf(loads, homes, t.cls, temps), RewriteInstr(ins, temps),
        StoresOf(stores, homes, t.cls, temps);
      hide StoresOf, LoadsOf;
      RecordedParts(first + [middle], last, base, next, t'.cls);
      RecordedParts(first, [middle], base, next, t'.cls);
      LoadsTyped(ins, loads, homes, base, temps, next, t, t');
      MiddleTyped(ins, homes, base, temps, next, t, t');
      StoresTyped(ins, stores, homes, base, temps, next, t, t');
      TypedAppend(first, [middle], t');
      TypedAppend(first + [middle], last, t');
    }
  }

  lemma {:induction false} FlatTyped(instrs: seq<Instr>, homes: Homes, base: nat, pieces: seq<seq<Instr>>, next: nat,
                                     t: Typing, t': Typing)
    requires AllClassified(instrs, homes, t.cls) && PiecesExpand(instrs, homes, t.cls, base, pieces)
    requires OperandsBelow(instrs, base) && AllTyped(instrs, t) && Recorded(Flatten(pieces), base, next, t'.cls)
    requires forall i :: 0 <= i < |instrs| ==> Extends(instrs[i], homes, base, t, t')
    ensures AllTyped(Flatten(pieces), t')
    decreases |instrs|
  {
    if instrs != [] {
      assert OperandsBelow([instrs[0]], base);
      hide RegAlloc.InstrTyped, Recorded, Extends, Classified, Expands;
      assert Expands(instrs[0], homes, t.cls, base, pieces[0]);
      RecordedParts(pieces[0], Flatten(pieces[1..]), base, next, t'.cls);
      PieceTyped(instrs[0], homes, base, pieces[0], next, t, t');
      FlatTyped(instrs[1..], homes, base, pieces[1..], next, t, t');
      TypedAppend(pieces[0], Flatten(pieces[1..]), t');
    }
  }

  // ----- No shadowed reads after a spill round -----

  lemma {:induction false} ShadowedAppend(a: seq<Instr>, b: seq<Instr>, r: nat)
    ensures Shadowed(a + b, r) <==> if NamesNot(a, r) then Shadowed(b, r) else Shadowed(a, r)
  {
    if a == [] {
      assert a + b == b;
    } else {
      assert (a + b)[1..] == a[1..] + b && (a + b)[0] == a[0];
      ShadowedAppend(a[1..], b, r);
      if !Names(a[0], r) {
        assert NamesNot(a, r) <==> NamesNot(a[1..], r) by { RestNamesNot(a, r); }
      }
    }
  }

  lemma RestNamesNot(a: seq<Instr>, r: nat)
    requires a != [] && !Names(a[0], r)
    ensures NamesNot(a, r) <==> NamesNot(a[1..], r)
  {
    hide Names;
    if NamesNot(a[1..], r) {
      forall i | 0 <= i < |a| ensures !Names(a[i], r) {
        if i > 0 { assert a[i] == a[1..][i - 1]; }
      }
    }
  }

  lemma {:induction false} NotNamedNotShadowed(a: seq<Instr>, r: nat)
    requires NamesNot(a, r)
    ensures !Shadowed(a, r)
  {
    if a != [] { NotNamedNotShadowed(a[1..], r); }
  }

  lemma OneShadowed(ins: Instr, r: nat)
    ensures Shadowed([ins], r) <==> r in UseRegs(ins) && DefinesFirst(ins.operands, r)
    ensures NamesNot([ins], r) <==> !Names(ins, r)
  {
    assert [ins][0] == ins && [ins][1..] == [];
  }

  /** Code that reads nothing shadows nothing. */
  lemma {:induction false} ReadlessNotShadowed(a: seq<Instr>, r: nat)
    requires forall i :: 0 <= i < |a| ==> r !in UseRegs(a[i])
    ensures !Shadowed(a, r)
  {
    if a != [] { ReadlessNotShadowed(a[1..], r); }
  }

  lemma {:induction false} SameDefinesFirst(ops: seq<Operand>, news: seq<Operand>, r: nat)
    requires |ops| == |news|
    requires forall i :: 0 <= i < |ops| ==> (ops[i].reg == r <==> news[i].reg == r) && ops[i].isDef == news[i].isDef
    ensures DefinesFirst(ops, r) == DefinesFirst(news, r)
  {
    if ops != [] { SameDefinesFirst(ops[1..], news[1..], r); }
  }

  /** The expansion of an instruction that shadows nothing shadows nothing. */
  lemma PieceUnshadowed(ins: Instr, homes: Homes, base: nat, piece: seq<Instr>, r: nat)
    requires PieceOf(ins, homes, base, piece)
    requires r < base && r !in homes ==> !(r in UseRegs(ins) && DefinesFirst(ins.operands, r))
    ensures !Shadowed(piece, r)
    ensures r < base && r !in homes && Names(ins, r) ==> !NamesNot(piece, r)
  {
    if Dead(ins, homes) {
      var a := ins.operands[0];
      assert ins.operands == [a] && DefRegs(ins) == {a.reg} && UseRegs(ins) == {};
    } else {
      var first, middle, last :| piece == first + [middle] + last && Sandwich(ins, homes, base, first, middle, last);
      ReadlessNotShadowed(first, r);
      OneShadowed(middle, r);
      ShadowedAppend(first, [middle], r);
      ShadowedAppend(first + [middle], last, r);
      MiddleUnshadowed(ins, homes, base, first, middle, last, r);
      LastUnshadowed(ins, homes, base, first, middle, last, r);
      if r < base && r !in homes && Names(ins, r) { assert piece[|first|] == middle; }
    }
  }

  lemma MiddleUnshadowed(ins: Instr, homes: Homes, base: nat, first: seq<Instr>, middle: Instr, last: seq<Instr>,
                         r: nat)
    requires Sandwich(ins, homes, base, first, middle, last)
    requires r < base && r !in homes ==> !(r in UseRegs(ins) && DefinesFirst(ins.operands, r))
    ensures NamesNot(first, r) ==> !(r in UseRegs(middle) && DefinesFirst(middle.operands, r))
  {
    if r in UseRegs(middle) && r >= base {
      var i :| 0 <= i < |first| && DefRegs(first[i]) == {r};
      assert Names(first[i], r);
    } else if r in UseRegs(middle) {
      SameDefinesFirstOf(ins, homes, base, first, middle, last, r);
    }
  }

  lemma SameDefinesFirstOf(ins: Instr, homes: Homes, base: nat, first: seq<Instr>, middle: Instr, last: seq<Instr>,
                           r: nat)
    requires Sandwich(ins, homes, base, first, middle, last) && r < base
    ensures r !in homes ==> DefinesFirst(ins.operands, r) == DefinesFirst(middle.operands, r)
  {
    hide Reload, Store;
    if r !in homes { SameDefinesFirst(ins.operands, middle.operands, r); }
  }

  lemma LastUnshadowed(ins: Instr, homes: Homes, base: nat, first: seq<Instr>, middle: Instr, last: seq<Instr>, r: nat)
    requires Sandwich(ins, homes, base, first, middle, last)
    ensures NamesNot(first + [middle], r) ==> !Shadowed(last, r)
  {
    if NamesNot(first + [middle], r) {
      assert (first + [middle])[|first|] == middle;
      assert !Names(middle, r);
      forall i | 0 <= i < |last| ensures r !in UseRegs(last[i]) {
      }
      ReadlessNotShadowed(last, r);
    }
  }

  lemma {:induction false} FlatUnshadowed(instrs: seq<Instr>, homes: Homes, base: nat, pieces: seq<seq<Instr>>, r: nat)
    requires Pieces(instrs, homes, base, pieces)
    requires r < base && r !in homes ==> !Shadowed(instrs, r)
    ensures !Shadowed(Flatten(pieces), r)
    decreases |instrs|
  {
    if instrs != [] {
      hide PieceOf;
      var piece := pieces[0];
      assert PieceOf(instrs[0], homes, base, piece);
      PieceUnshadowed(instrs[0], homes, base, piece, r);
      ShadowedAppend(piece, Flatten(pieces[1..]), r);
      if NamesNot(piece, r) { FlatUnshadowed(instrs[1..], homes, base, pieces[1..], r); }
    }
  }

  // ----- A spill round keeps it -----

  /** Homes are as wide as their registers, and no other slot in use changes. */
  lemma WidthsKept(a: Snapshot, slotsOut: seq<set<nat>>, liveOut: seq<set<nat>>, homes: Homes, recipes: map<nat, int>,
                   cls: map<nat, RegClass>, base: nat, b: Snapshot)
    requires Sound(a, slotsOut, liveOut) && Spills(a, homes, recipes, cls, base, b) && Colorable(a)
    ensures forall r :: r in homes && homes[r].Slot? ==>
              r in cls && (homes[r].slot in b.typing.wideSlots <==> cls[r] == NEON128)
    ensures forall s :: s < a.nextSlot ==> (s in b.typing.wideSlots <==> s in a.typing.wideSlots)
    ensures forall s :: s in b.typing.wideSlots ==> s < b.nextSlot
  {
    hide Spilled, FunctionClassified, SlotsFlow, RegsFlow, SlotsBelow, Executable, Owns, Occurs, Grows,
      FunctionRecorded, NoShadowedReads, RegAlloc.FunctionTyped, OnlyDefinition;
    assert forall r :: r in homes ==> Occurs(a.f, r);
    forall r | r in homes && homes[r].Slot?
      ensures r in cls && (homes[r].slot in a.typing.wideSlots ==> cls[r] == NEON128)
      ensures cls[r] == NEON128 && homes[r].slot < a.nextSlot ==> homes[r].slot in a.typing.wideSlots
    {
      if r in a.slots { assert SlotFits(a.typing, r, a.slots[r]); }
    }
  }

  lemma InstrExtends(a: Snapshot, slotsOut: seq<set<nat>>, liveOut: seq<set<nat>>, homes: Homes, recipes: map<nat, int>,
                     cls: map<nat, RegClass>, base: nat, b: Snapshot, k: nat, i: nat)
    requires Sound(a, slotsOut, liveOut) && Spills(a, homes, recipes, cls, base, b) && Colorable(a)
    requires k < |a.f.blocks| && i < |a.f.blocks[k].instrs|
    ensures Extends(a.f.blocks[k].instrs[i], homes, base, a.typing, b.typing)
  {
    WidthsKept(a, slotsOut, liveOut, homes, recipes, cls, base, b);
    hide Spilled, FunctionClassified, SlotsFlow, RegsFlow, Executable, Owns, Occurs, Grows, FunctionRecorded,
      NoShadowedReads, RegAlloc.FunctionTyped, OnlyDefinition, HomesAssigned;
    forall s: nat | TouchesSlot(a.f.blocks[k].instrs[i], s) ensures s < a.nextSlot {
    }
  }

  lemma SpilledBlockTyped(a: Snapshot, slotsOut: seq<set<nat>>, liveOut: seq<set<nat>>, homes: Homes,
                          recipes: map<nat, int>, cls: map<nat, RegClass>, base: nat, b: Snapshot, k: nat)
    requires Sound(a, slotsOut, liveOut) && Spills(a, homes, recipes, cls, base, b) && Colorable(a) && k < |a.f.blocks|
    ensures |b.f.blocks| == |a.f.blocks| && AllTyped(b.f.blocks[k].instrs, b.typing)
  {
    hide Extends, Recorded, PiecesExpand, Classified, RegAlloc.InstrTyped, OperandsBelow, Sound, NoShadowedReads,
      HomesAssigned, OnlyDefinition, Grows;
    var instrs := a.f.blocks[k].instrs;
    FreshIsBelow(a, base);
    var next: nat :| FunctionRecorded(b.f, base, next, b.typing.cls);
    forall i | 0 <= i < |instrs| ensures Extends(instrs[i], homes, base, a.typing, b.typing) {
      InstrExtends(a, slotsOut, liveOut, homes, recipes, cls, base, b, k, i);
    }
    assert BlockExpands(instrs, homes, cls, base, b.f.blocks[k].instrs);
    var pieces :| PiecesExpand(instrs, homes, cls, base, pieces) && Flatten(pieces) == b.f.blocks[k].instrs;
    assert AllTyped(instrs, a.typing);
    hide AllTyped;
    FlatTyped(instrs, homes, base, pieces, next, a.typing, b.typing);
  }

  lemma SpilledUnshadowed(a: Snapshot, homes: Homes, recipes: map<nat, int>, cls: map<nat, RegClass>, base: nat,
                          b: Snapshot)
    requires Spills(a, homes, recipes, cls, base, b) && NoShadowedReads(a.f)
    ensures NoShadowedReads(b.f)
  {
    hide FunctionClassified, BlockExpands;
    forall k, r: nat | 0 <= k < |b.f.blocks| ensures !Shadowed(b.f.blocks[k].instrs, r) {
      var pieces := SpilledPieces(a, homes, recipes, cls, base, b, k);
      FlatUnshadowed(a.f.blocks[k].instrs, homes, base, pieces, r);
    }
  }

  lemma SpillKeepsTyped(a: Snapshot, slotsOut: seq<set<nat>>, liveOut: seq<set<nat>>, homes: Homes,
                        recipes: map<nat, int>, cls: map<nat, RegClass>, base: nat, b: Snapshot)
    requires Sound(a, slotsOut, liveOut) && Spills(a, homes, recipes, cls, base, b) && Colorable(a)
    ensures Colorable(b)
  {
    WidthsKept(a, slotsOut, liveOut, homes, recipes, cls, base, b);
    SpillableNow(a, slotsOut, liveOut, homes, recipes, cls, base, b);
    SpilledExecutable(a.f, homes, cls, base, slotsOut, b.f);
    SpilledUnshadowed(a, homes, recipes, cls, base, b);
    forall k, i | 0 <= k < |b.f.blocks| && 0 <= i < |b.f.blocks[k].instrs|
      ensures RegAlloc.InstrTyped(b.f.blocks[k].instrs[i], b.typing)
    {
      SpilledBlockTyped(a, slotsOut, liveOut, homes, recipes, cls, base, b, k);
    }
    hide RegAlloc.InstrTyped, BlockExpands, FunctionClassified, NoShadowedReads, Spillable;
    forall r | r in b.slots && Occurs(b.f, r) ensures SlotFits(b.typing, r, b.slots[r]) {
      OwnerStays(a, slotsOut, liveOut, homes, recipes, cls, base, b, r);
      SpilledNames(a, homes, recipes, cls, base, b, r);
      assert SlotFits(a.typing, r, a.slots[r]);
    }
  }

  // ----- A split round keeps it -----

  /** The table with the sibling, and the plan's slot as wide as its register. */
  ghost predicate WithSibling(plan: Plan, sibling: nat, t: Typing, t': Typing) {
    && plan.parent in t.cls && t.cls[plan.parent] == plan.cls && sibling !in t.cls
    && t'.cls == t.cls[sibling := plan.cls]
    && (plan.home.Slot? ==> (plan.home.slot in t'.wideSlots <==> plan.cls == NEON128))
  }

  ghost predicate SameWidths(instrs: seq<Instr>, t: Typing, t': Typing) {
    forall i, s: nat :: 0 <= i < |instrs| && TouchesSlot(instrs[i], s) ==> (s in t'.wideSlots <==> s in t.wideSlots)
  }

  lemma RewrittenTyped(instrs: seq<Instr>, plan: Plan, sibling: nat, t: Typing, t': Typing)
    requires AllTyped(instrs, t) && WithSibling(plan, sibling, t, t') && SameWidths(instrs, t, t')
    ensures AllTyped(instrs, t') && AllTyped(RewriteInstrs(instrs, map[plan.parent := sibling]), t')
  {
    var ren := map[plan.parent := sibling];
    forall i | 0 <= i < |instrs|
      ensures RegAlloc.InstrTyped(instrs[i], t') && RegAlloc.InstrTyped(RewriteInstr(instrs[i], ren), t')
    {
      var ops, news := instrs[i].operands, RewriteInstr(instrs[i], ren).operands;
      assert RegAlloc.InstrTyped(instrs[i], t);
      MoveStaysTyped(instrs[i], ren, t, t');
      MoveStaysTyped(instrs[i], map[], t, t');
      NotRenamed(instrs[i]);
      forall o | o in news ensures o.reg in t'.cls && o.cls == t'.cls[o.reg] {
        var j :| 0 <= j < |news| && news[j] == o;
        assert ops[j] in ops;
      }
    }
  }

  lemma InsertedTyped(plan: Plan, sibling: nat, t: Typing, t': Typing)
    requires WithSibling(plan, sibling, t, t')
    ensures AllTyped(Saves(plan), t') && AllTyped(Resumes(plan, sibling), t')
  {
    var o := Operand(sibling, plan.cls, true);
    assert Resumes(plan, sibling)[0].operands == [o];
    if plan.home.Slot? {
      var p := Operand(plan.parent, plan.cls, false);
      assert Saves(plan)[0].operands == [p];
    }
  }

  lemma SplitBlockTyped(instrs: seq<Instr>, plan: Plan, sibling: nat, t: Typing, t': Typing)
    requires plan.left < plan.right < |instrs| && AllTyped(instrs, t) && WithSibling(plan, sibling, t, t')
    requires SameWidths(instrs, t, t')
    ensures AllTyped(SplitInstrs(instrs, plan, sibling), t')
  {
    var ren := map[plan.parent := sibling];
    var a, c, rest := instrs[..plan.left + 1], instrs[plan.left + 1..plan.right], instrs[plan.right..];
    assert SameWidths(rest, t, t') && AllTyped(rest, t) by { TypedTail(instrs, plan.right, t, t'); }
    hide *;
    SplitStretches(instrs, plan, sibling);
    RewrittenTyped(instrs, plan, sibling, t, t');
    RewrittenTyped(rest, plan, sibling, t, t');
    InsertedTyped(plan, sibling, t, t');
    TypedParts(instrs, plan.left + 1, plan.right, t');
    TypedAppend(a, Saves(plan), t');
    TypedAppend(a + Saves(plan), c, t');
    TypedAppend(a + Saves(plan) + c, Resumes(plan, sibling), t');
    TypedAppend(a + Saves(plan) + c + Resumes(plan, sibling), RewriteInstrs(rest, ren), t');
  }

  lemma TypedTail(instrs: seq<Instr>, k: nat, t: Typing, t': Typing)
    requires k <= |instrs| && AllTyped(instrs, t) && SameWidths(instrs, t, t')
    ensures AllTyped(instrs[k..], t) && SameWidths(instrs[k..], t, t')
  {
    hide RegAlloc.InstrTyped, TouchesSlot;
  }

  lemma TypedParts(instrs: seq<Instr>, j: nat, k: nat, t: Typing)
    requires j <= k <= |instrs| && AllTyped(instrs, t)
    ensures AllTyped(instrs[..j], t) && AllTyped(instrs[j..k], t)
  {
    hide RegAlloc.InstrTyped;
  }

  lemma FitsInside(f: Function, plan: Plan, sibling: nat, definition: nat)
    requires PlanFits(f, plan, sibling, definition)
    ensures plan.block < |f.blocks| && plan.left < plan.right < |f.blocks[plan.block].instrs|
    ensures !NamesNot(f.blocks[plan.block].instrs[..plan.left + 1], plan.parent)
  {
    var instrs := f.blocks[plan.block].instrs;
    assert instrs[..plan.left + 1][definition] == instrs[definition] && Names(instrs[definition], plan.parent);
  }

  lemma StretchesUnshadowed(a: seq<Instr>, b: seq<Instr>, c: seq<Instr>, d: seq<Instr>, e: seq<Instr>,
                            rest: seq<Instr>, r: nat)
    requires !Shadowed(a + c + rest, r)
    ensures NamesNot(a, r) ==> !Shadowed(c + rest, r)
    ensures Shadowed(a + b + c + d + e, r) ==> NamesNot(a, r) && Shadowed(b + c + d + e, r)
  {
    hide Shadowed, NamesNot;
    assert a + b + c + d + e == a + (b + c + d + e) && a + c + rest == a + (c + rest);
    ShadowedAppend(a, b + c + d + e, r);
    ShadowedAppend(a, c + rest, r);
  }

  /** In the split block the parent is written first, then the sibling; other registers keep their order. */
  lemma SplitUnshadowed(f: Function, plan: Plan, sibling: nat, definition: nat, r: nat)
    requires PlanFits(f, plan, sibling, definition) && !Shadowed(f.blocks[plan.block].instrs, r)
    ensures !Shadowed(SplitInstrs(f.blocks[plan.block].instrs, plan, sibling), r)
  {
    FitsInside(f, plan, sibling, definition);
    hide *;
    var instrs, ren := f.blocks[plan.block].instrs, map[plan.parent := sibling];
    var a, c, rest := instrs[..plan.left + 1], instrs[plan.left + 1..plan.right], instrs[plan.right..];
    SplitStretches(instrs, plan, sibling);
    StretchesUnshadowed(a, Saves(plan), c, Resumes(plan, sibling), RewriteInstrs(rest, ren), rest, r);
    if NamesNot(a, r) { TailUnshadowed(f, plan, sibling, definition, r); }
  }

  lemma TailUnshadowed(f: Function, plan: Plan, sibling: nat, definition: nat, r: nat)
    requires PlanFits(f, plan, sibling, definition) && r != plan.parent
    requires var instrs := f.blocks[plan.block].instrs;
      !Shadowed(instrs[plan.left + 1..plan.right] + instrs[plan.right..], r)
    ensures var instrs := f.blocks[plan.block].instrs;
      !Shadowed(Saves(plan) + instrs[plan.left + 1..plan.right] + Resumes(plan, sibling)
                + RewriteInstrs(instrs[plan.right..], map[plan.parent := sibling]), r)
  {
    var instrs, ren := f.blocks[plan.block].instrs, map[plan.parent := sibling];
    var c, rest := instrs[plan.left + 1..plan.right], instrs[plan.right..];
    var saves, resumes, renamed := Saves(plan), Resumes(plan, sibling), RewriteInstrs(rest, ren);
    SaveRegs(plan);
    ResumeRegs(plan, sibling);
    assert NamesNot(saves, r);
    assert saves + c + resumes + renamed == saves + (c + (resumes + renamed));
    ShadowedAppend(saves, c + (resumes + renamed), r);
    ShadowedAppend(c, resumes + renamed, r);
    ShadowedAppend(c, rest, r);
    ShadowedAppend(resumes, renamed, r);
    ReadlessNotShadowed(resumes, r);
    if r == sibling {
      assert Names(resumes[0], r);
      forall i | 0 <= i < |c| ensures !Names(c[i], r) {
        Mentioned(instrs[plan.left + 1 + i], sibling);
      }
      NotNamedNotShadowed(c, r);
    } else {
      assert NamesNot(resumes, r);
      RenamedUnshadowed(rest, ren, r);
    }
  }

  lemma {:induction false} RenamedUnshadowed(instrs: seq<Instr>, ren: map<nat, nat>, r: nat)
    requires r !in ren && r !in ren.Values
    ensures Shadowed(RewriteInstrs(instrs, ren), r) == Shadowed(instrs, r)
    decreases |instrs|
  {
    if instrs != [] {
      var code := RewriteInstrs(instrs, ren);
      assert code[1..] == RewriteInstrs(instrs[1..], ren);
      RenamedUnshadowed(instrs[1..], ren, r);
      RenamedUses(instrs[0], ren, r);
      RenamedDefs(instrs[0], ren, r);
      assert View(ren, r) == r && forall q :: View(ren, q) == r ==> q == r;
      SameDefinesFirst(instrs[0].operands, code[0].operands, r);
    }
  }

  lemma SplitTypes(a: Snapshot, slotsOut: seq<set<nat>>, liveOut: seq<set<nat>>, plan: Plan, sibling: nat,
                   definition: nat, b: Snapshot)
    requires Sound(a, slotsOut, liveOut) && Splits(a, plan, sibling, definition, b) && Colorable(a)
    ensures WithSibling(plan, sibling, a.typing, b.typing) && 0 !in b.typing.cls
    ensures forall s :: s < a.nextSlot ==> (s in b.typing.wideSlots <==> s in a.typing.wideSlots)
    ensures forall s :: s in b.typing.wideSlots ==> s < b.nextSlot
  {
    hide PlanFits, RegsFlow, SlotsFlow, Owns, Executable, Split, RegAlloc.FunctionTyped, NoShadowedReads, SlotsBelow,
      Occurs;
    ParentNew(a, slotsOut, liveOut, plan, sibling, definition, b);
  }

  lemma SplitBlocksTyped(a: Snapshot, slotsOut: seq<set<nat>>, liveOut: seq<set<nat>>, plan: Plan, sibling: nat,
                         definition: nat, b: Snapshot, k: nat)
    requires Sound(a, slotsOut, liveOut) && Splits(a, plan, sibling, definition, b) && Colorable(a) && k < |a.f.blocks|
    ensures |b.f.blocks| == |a.f.blocks| && AllTyped(b.f.blocks[k].instrs, b.typing)
  {
    hide RegAlloc.InstrTyped, SplitInstrs, PlanFits, RegsFlow, SlotsFlow, Owns, Executable, SlotChosen, NoShadowedReads;
    SplitTypes(a, slotsOut, liveOut, plan, sibling, definition, b);
    FitsInside(a.f, plan, sibling, definition);
    var instrs := a.f.blocks[k].instrs;
    assert AllTyped(instrs, a.typing);
    forall i, s: nat | 0 <= i < |instrs| && TouchesSlot(instrs[i], s) ensures s < a.nextSlot {
    }
    hide TouchesSlot, WithSibling, NamesNot;
    if k == plan.block {
      SplitBlockTyped(instrs, plan, sibling, a.typing, b.typing);
    } else {
      RewrittenTyped(instrs, plan, sibling, a.typing, b.typing);
    }
  }

  lemma SplitBlocksUnshadowed(a: Snapshot, plan: Plan, sibling: nat, definition: nat, b: Snapshot)
    requires Splits(a, plan, sibling, definition, b) && NoShadowedReads(a.f)
    ensures NoShadowedReads(b.f)
  {
    hide SplitInstrs, PlanFits, SlotChosen, Shadowed;
    forall k, r: nat | 0 <= k < |b.f.blocks| ensures !Shadowed(b.f.blocks[k].instrs, r) {
      if k == plan.block {
        SplitUnshadowed(a.f, plan, sibling, definition, r);
      } else {
        assert b.f.blocks[k] == a.f.blocks[k];
      }
    }
  }

  lemma SplitKeepsTyped(a: Snapshot, slotsOut: seq<set<nat>>, liveOut: seq<set<nat>>, plan: Plan, sibling: nat,
                        definition: nat, b: Snapshot)
    requires Sound(a, slotsOut, liveOut) && Splits(a, plan, sibling, definition, b) && Colorable(a)
    ensures Colorable(b)
  {
    hide RegAlloc.InstrTyped, SplitInstrs, PlanFits, RegsFlow, SlotsFlow, Owns, Executable, NoShadowedReads, Occurs,
      SlotsBelow;
    ParentNew(a, slotsOut, liveOut, plan, sibling, definition, b);
    SplitTypes(a, slotsOut, liveOut, plan, sibling, definition, b);
    SplitBlocksUnshadowed(a, plan, sibling, definition, b);
    SplitKeepsSound(a, slotsOut, liveOut, plan, sibling, definition, b);
    SoundIsValid(b, slotsOut, WithoutHalves(liveOut, plan, sibling));
    forall k, i | 0 <= k < |b.f.blocks| && 0 <= i < |b.f.blocks[k].instrs|
      ensures RegAlloc.InstrTyped(b.f.blocks[k].instrs[i], b.typing)
    {
      SplitBlocksTyped(a, slotsOut, liveOut, plan, sibling, definition, b, k);
    }
    forall r | r in b.slots && Occurs(b.f, r) ensures SlotFits(b.typing, r, b.slots[r]) {
      if r != plan.parent && r != sibling {
        SplitNamesAll(a, plan, sibling, definition, b, r);
        assert SlotFits(a.typing, r, a.slots[r]);
      }
    }
  }

  lemma SoundIsValid(a: Snapshot, slotsOut: seq<set<nat>>, liveOut: seq<set<nat>>)
    requires Sound(a, slotsOut, liveOut)
    ensures ValidFunction(a.f)
  {
  }

  // ----- What the coloring round needs -----

  /** The table restricted to the registers that still occur: those are the ones with live ranges. */
  ghost function InUse(a: Snapshot): (t: Typing)
    ensures forall r :: r in t.cls <==> r in a.typing.cls && Occurs(a.f, r)
    ensures forall r :: r in t.cls ==> t.cls[r] == a.typing.cls[r]
    ensures t.wideSlots == a.typing.wideSlots
  {
    Typing(map r | r in a.typing.cls && Occurs(a.f, r) :: a.typing.cls[r], a.typing.wideSlots)
  }

  /** One interval for every register that occurs, with its recorded class. */
  ghost predicate Listed(a: Snapshot, intervals: seq<Interval>) {
    && (forall i, j :: 0 <= i < j < |intervals| ==> intervals[i].reg != intervals[j].reg)
    && (forall i :: 0 <= i < |intervals| ==>
          Occurs(a.f, intervals[i].reg) && intervals[i].reg in a.typing.cls
          && a.typing.cls[intervals[i].reg] == intervals[i].cls)
    && (forall r: nat :: Occurs(a.f, r) ==> exists i :: 0 <= i < |intervals| && intervals[i].reg == r)
  }

  /** After any number of rounds a coloring round may start. */
  lemma ReadyToColor(a: Snapshot, intervals: seq<Interval>)
    requires Colorable(a) && Listed(a, intervals)
    ensures RegAlloc.Known(a.f, intervals, InUse(a)) && NoShadowedReads(a.f)
  {
    var t := InUse(a);
    forall b, i | 0 <= b < |a.f.blocks| && 0 <= i < |a.f.blocks[b].instrs|
      ensures RegAlloc.InstrTyped(a.f.blocks[b].instrs[i], t)
    {
      var ins := a.f.blocks[b].instrs[i];
      assert RegAlloc.InstrTyped(ins, a.typing);
      forall o | o in ins.operands ensures o.reg in t.cls && o.cls == t.cls[o.reg] {
        assert o.reg in UseRegs(ins) || o.reg in DefRegs(ins);
        assert Names(ins, o.reg) && Occurs(a.f, o.reg);
      }
    }
  }
}
