/** Register and slot liveness across the expansion of spilled registers, and who owns a slot. */
module RepairTraffic {
  import opened Target
  import opened Dataflow
  import opened MachineIR
  import opened Renaming
  import opened Spilling
  import opened SpillPass

  /** Is register r (slot s) read from here on before it is written? */
  predicate RegLive(instrs: seq<Instr>, r: nat, after: bool) {
    LiveThrough(Accesses(instrs), r, after)
  }

  predicate SlotLive(instrs: seq<Instr>, s: nat, after: bool) {
    LiveThrough(SlotTraffics(instrs), s, after)
  }

  lemma RegLiveAppend(a: seq<Instr>, b: seq<Instr>, r: nat, after: bool)
    ensures RegLive(a + b, r, after) == RegLive(a, r, RegLive(b, r, after))
  {
    assert Accesses(a + b) == Accesses(a) + Accesses(b);
    LiveThroughAppend(Accesses(a), Accesses(b), r, after);
  }

  lemma SlotLiveAppend(a: seq<Instr>, b: seq<Instr>, s: nat, after: bool)
    ensures SlotLive(a + b, s, after) == SlotLive(a, s, SlotLive(b, s, after))
  {
    assert SlotTraffics(a + b) == SlotTraffics(a) + SlotTraffics(b);
    LiveThroughAppend(SlotTraffics(a), SlotTraffics(b), s, after);
  }

  lemma RegLiveStep(instrs: seq<Instr>, r: nat, after: bool)
    requires instrs != []
    ensures RegLive(instrs, r, after) <==>
            r in UseRegs(instrs[0]) || (r !in DefRegs(instrs[0]) && RegLive(instrs[1..], r, after))
  {
    assert Accesses(instrs)[1..] == Accesses(instrs[1..]);
  }

  lemma SlotLiveStep(instrs: seq<Instr>, s: nat, after: bool)
    requires instrs != []
    ensures SlotLive(instrs, s, after) <==>
            instrs[0].op == SPILL_LOAD(s) || (instrs[0].op != SPILL_STORE(s) && SlotLive(instrs[1..], s, after))
  {
    assert SlotTraffics(instrs)[1..] == SlotTraffics(instrs[1..]);
  }

  lemma RegUntouched(instrs: seq<Instr>, r: nat, after: bool)
    requires forall i :: 0 <= i < |instrs| ==> r !in UseRegs(instrs[i]) && r !in DefRegs(instrs[i])
    ensures RegLive(instrs, r, after) == after
  {
    LiveThroughUntouched(Accesses(instrs), r, after);
  }

  lemma SlotUntouched(instrs: seq<Instr>, s: nat, after: bool)
    requires forall i :: 0 <= i < |instrs| ==> instrs[i].op != SPILL_LOAD(s) && instrs[i].op != SPILL_STORE(s)
    ensures SlotLive(instrs, s, after) == after
  {
    LiveThroughUntouched(SlotTraffics(instrs), s, after);
  }

  // ----- Who may store to a slot, and when its owner may be defined -----

  ghost predicate HeadOwned(ins: Instr, r: nat, s: nat, liveAfter: bool) {
    && (ins.op == SPILL_STORE(s) ==> |ins.operands| == 1 && ins.operands[0].reg == r)
    && (r in DefRegs(ins) ==> !liveAfter)
  }

  /** Only r is stored to s, and nobody waits for s where r is defined. */
  ghost predicate OwnedIn(instrs: seq<Instr>, r: nat, s: nat, after: bool) {
    instrs != [] ==> HeadOwned(instrs[0], r, s, SlotLive(instrs[1..], s, after)) && OwnedIn(instrs[1..], r, s, after)
  }

  lemma {:induction false} OwnedAppend(a: seq<Instr>, b: seq<Instr>, r: nat, s: nat, after: bool)
    ensures OwnedIn(a + b, r, s, after) <==> OwnedIn(a, r, s, SlotLive(b, s, after)) && OwnedIn(b, r, s, after)
  {
    if a == [] {
      assert a + b == b;
    } else {
      assert (a + b)[1..] == a[1..] + b;
      SlotLiveAppend(a[1..], b, s, after);
      OwnedAppend(a[1..], b, r, s, after);
    }
  }

  lemma {:induction false} OwnedAt(instrs: seq<Instr>, r: nat, s: nat, after: bool, i: nat)
    requires OwnedIn(instrs, r, s, after) && i < |instrs|
    ensures HeadOwned(instrs[i], r, s, SlotLive(instrs[i + 1..], s, after))
  {
    if i > 0 {
      assert instrs[1..][i - 1] == instrs[i] && instrs[1..][i..] == instrs[i + 1..];
      OwnedAt(instrs[1..], r, s, after, i - 1);
    }
  }

  /** Code that neither stores to s nor defines r. */
  lemma {:induction false} OwnedUntouched(instrs: seq<Instr>, r: nat, s: nat, after: bool)
    requires forall i :: 0 <= i < |instrs| ==> instrs[i].op != SPILL_STORE(s) && r !in DefRegs(instrs[i])
    ensures OwnedIn(instrs, r, s, after)
  {
    if instrs != [] { OwnedUntouched(instrs[1..], r, s, after); }
  }

  /** Where s is never touched and dead at the end, defining its owner is harmless. */
  lemma {:induction false} OwnedWhereDead(instrs: seq<Instr>, r: nat, s: nat)
    requires forall i :: 0 <= i < |instrs| ==> instrs[i].op != SPILL_LOAD(s) && instrs[i].op != SPILL_STORE(s)
    ensures OwnedIn(instrs, r, s, false)
  {
    if instrs != [] {
      SlotUntouched(instrs[1..], s, false);
      OwnedWhereDead(instrs[1..], r, s);
    }
  }

  // ----- One expanded instruction -----

  lemma LoadsTraffic(rs: seq<nat>, homes: Homes, cls: map<nat, RegClass>, temps: map<nat, nat>, i: nat)
    requires (forall r :: r in rs ==> r in homes && r in cls && r in temps) && i < |rs|
    ensures var ins := LoadsOf(rs, homes, cls, temps)[i];
            && UseRegs(ins) == {} && DefRegs(ins) == {temps[rs[i]]} && !ins.op.SPILL_STORE?
            && (ins.op.SPILL_LOAD? ==> IsHomeSlot(homes, ins.op.slot))
  {
    var o := Operand(temps[rs[i]], cls[rs[i]], true);
    assert LoadsOf(rs, homes, cls, temps)[i].operands == [o];
  }

  /** The store of one of the listed registers. */
  ghost predicate StoresListed(ins: Instr, rs: seq<nat>, homes: Homes, temps: map<nat, nat>) {
    && DefRegs(ins) == {} && ins.op.SPILL_STORE? && IsHomeSlot(homes, ins.op.slot)
    && exists r :: r in rs && r in temps && UseRegs(ins) == {temps[r]}
  }

  lemma {:induction false} StoresTraffic(rs: seq<nat>, homes: Homes, cls: map<nat, RegClass>, temps: map<nat, nat>,
                                         i: nat)
    requires (forall r :: r in rs ==> r in homes && r in cls && r in temps) && i < |StoresOf(rs, homes, cls, temps)|
    ensures StoresListed(StoresOf(rs, homes, cls, temps)[i], rs, homes, temps)
    decreases |rs|
  {
    var rest := StoresOf(rs[1..], homes, cls, temps);
    if homes[rs[0]].Slot? {
      var o := Operand(temps[rs[0]], cls[rs[0]], false);
      var store := Instr(SPILL_STORE(homes[rs[0]].slot), [o]);
      assert StoresOf(rs, homes, cls, temps) == [store] + rest;
      if i == 0 {
        assert rs[0] in rs && UseRegs(store) == {temps[rs[0]]};
      } else {
        StoresTraffic(rs[1..], homes, cls, temps, i - 1);
      }
    } else {
      StoresTraffic(rs[1..], homes, cls, temps, i);
    }
  }

  lemma RenamedUses(ins: Instr, temps: map<nat, nat>, r: nat)
    ensures r in UseRegs(RewriteInstr(ins, temps)) <==> exists q :: q in UseRegs(ins) && View(temps, q) == r
  {
    var ops, news := ins.operands, RewriteInstr(ins, temps).operands;
    if r in UseRegs(RewriteInstr(ins, temps)) {
      var i :| 0 <= i < |news| && !news[i].isDef && news[i].reg == r;
      assert ops[i] in ops && ops[i].reg in UseRegs(ins) && View(temps, ops[i].reg) == r;
    }
    if q: nat :| q in UseRegs(ins) && View(temps, q) == r {
      var i :| 0 <= i < |ops| && !ops[i].isDef && ops[i].reg == q;
      assert news[i] in news && news[i].reg == r;
    }
  }

  lemma RenamedDefs(ins: Instr, temps: map<nat, nat>, r: nat)
    ensures r in DefRegs(RewriteInstr(ins, temps)) <==> exists q :: q in DefRegs(ins) && View(temps, q) == r
  {
    var ops, news := ins.operands, RewriteInstr(ins, temps).operands;
    if r in DefRegs(RewriteInstr(ins, temps)) {
      var i :| 0 <= i < |news| && news[i].isDef && news[i].reg == r;
      assert ops[i] in ops && ops[i].reg in DefRegs(ins) && View(temps, ops[i].reg) == r;
    }
    if q: nat :| q in DefRegs(ins) && View(temps, q) == r {
      var i :| 0 <= i < |ops| && ops[i].isDef && ops[i].reg == q;
      assert news[i] in news && news[i].reg == r;
    }
  }

  ghost predicate NamesBelow(ins: Instr, base: nat) {
    forall r :: r in UseRegs(ins) || r in DefRegs(ins) ==> r < base
  }

  /** The registers and slots of the three parts of a live expansion. */
  ghost predicate Sandwich(ins: Instr, homes: Homes, base: nat, first: seq<Instr>, middle: Instr, last: seq<Instr>) {
    && middle.op == ins.op && |middle.operands| == |ins.operands|
    && (forall i :: 0 <= i < |ins.operands| ==>
          if ins.operands[i].reg in homes
          then middle.operands[i].reg >= base && middle.operands[i].isDef == ins.operands[i].isDef
          else middle.operands[i] == ins.operands[i])
    && (forall r: nat :: r < base ==> (r in UseRegs(middle) <==> r in UseRegs(ins) && r !in homes))
    && (forall r: nat :: r < base ==> (r in DefRegs(middle) <==> r in DefRegs(ins) && r !in homes))
    && (forall i :: 0 <= i < |first| ==> Reload(first[i], homes, base))
    && (forall i :: 0 <= i < |last| ==> Store(last[i], homes, base) && UseRegs(last[i]) <= DefRegs(middle))
    && (forall u :: u in UseRegs(middle) && u >= base ==> exists i :: 0 <= i < |first| && DefRegs(first[i]) == {u})
  }

  ghost predicate Reload(ins: Instr, homes: Homes, base: nat) {
    && UseRegs(ins) == {} && (forall d :: d in DefRegs(ins) ==> d >= base)
    && !ins.op.SPILL_STORE? && (ins.op.SPILL_LOAD? ==> IsHomeSlot(homes, ins.op.slot))
  }

  ghost predicate Store(ins: Instr, homes: Homes, base: nat) {
    && DefRegs(ins) == {} && (forall u :: u in UseRegs(ins) ==> u >= base)
    && ins.op.SPILL_STORE? && IsHomeSlot(homes, ins.op.slot)
  }

  lemma MiddleRegs(ins: Instr, homes: Homes, base: nat, temps: map<nat, nat>, r: nat)
    requires Temporaries(ins, homes, base, temps) && NamesBelow(ins, base)
    ensures r < base ==> (r in UseRegs(RewriteInstr(ins, temps)) <==> r in UseRegs(ins) && r !in homes)
    ensures r < base ==> (r in DefRegs(RewriteInstr(ins, temps)) <==> r in DefRegs(ins) && r !in homes)
    ensures r >= base && r in UseRegs(RewriteInstr(ins, temps)) ==>
              exists q :: q in UseRegs(ins) && q in homes && q in temps && temps[q] == r
  {
    RenamedUses(ins, temps, r);
    RenamedDefs(ins, temps, r);
    hide RewriteInstr;
    if r < base {
      assert forall q :: (q in UseRegs(ins) || q in DefRegs(ins)) && View(temps, q) == r ==> q == r && q !in homes;
      if r in UseRegs(ins) && r !in homes { assert View(temps, r) == r; }
      if r in DefRegs(ins) && r !in homes { assert View(temps, r) == r; }
    } else if r in UseRegs(RewriteInstr(ins, temps)) {
      var q :| q in UseRegs(ins) && View(temps, q) == r;
      assert q in temps;
    }
  }

  lemma MiddleOperands(ins: Instr, homes: Homes, base: nat, temps: map<nat, nat>)
    requires Temporaries(ins, homes, base, temps)
    ensures var middle := RewriteInstr(ins, temps);
            && middle.op == ins.op && |middle.operands| == |ins.operands|
            && forall i :: 0 <= i < |ins.operands| ==>
                 if ins.operands[i].reg in homes
                 then middle.operands[i].reg >= base && middle.operands[i].isDef == ins.operands[i].isDef
                 else middle.operands[i] == ins.operands[i]
  {
    forall i | 0 <= i < |ins.operands| && ins.operands[i].reg in homes ensures ins.operands[i].reg in temps {
      assert ins.operands[i] in ins.operands;
    }
  }

  lemma LastStores(ins: Instr, homes: Homes, cls: map<nat, RegClass>, base: nat, temps: map<nat, nat>,
                   stores: seq<nat>, i: nat)
    requires homes.Keys <= cls.Keys && Temporaries(ins, homes, base, temps) && Lists(stores, DefRegs(ins) * homes.Keys)
    requires i < |StoresOf(stores, homes, cls, temps)|
    ensures var last := StoresOf(stores, homes, cls, temps)[i];
            Store(last, homes, base) && UseRegs(last) <= DefRegs(RewriteInstr(ins, temps))
  {
    var last := StoresOf(stores, homes, cls, temps)[i];
    StoresTraffic(stores, homes, cls, temps, i);
    var r :| r in stores && r in temps && UseRegs(last) == {temps[r]};
    assert r in DefRegs(ins) && View(temps, r) == temps[r];
    RenamedDefs(ins, temps, temps[r]);
  }

  lemma FirstReloads(ins: Instr, homes: Homes, cls: map<nat, RegClass>, base: nat, temps: map<nat, nat>,
                     loads: seq<nat>, u: nat)
    requires homes.Keys <= cls.Keys && Temporaries(ins, homes, base, temps) && Lists(loads, UseRegs(ins) * homes.Keys)
    requires NamesBelow(ins, base) && u in UseRegs(RewriteInstr(ins, temps)) && u >= base
    ensures var first := LoadsOf(loads, homes, cls, temps);
            exists i :: 0 <= i < |first| && DefRegs(first[i]) == {u}
  {
    MiddleRegs(ins, homes, base, temps, u);
    var q :| q in UseRegs(ins) && q in homes && q in temps && temps[q] == u;
    assert q in loads;
    var i :| 0 <= i < |loads| && loads[i] == q;
    LoadsTraffic(loads, homes, cls, temps, i);
  }

  lemma ExpansionIsSandwich(ins: Instr, homes: Homes, cls: map<nat, RegClass>, base: nat, code: seq<Instr>,
                            temps: map<nat, nat>, loads: seq<nat>, stores: seq<nat>)
    requires Classified(ins, homes, cls) && ExpandsWith(ins, homes, cls, base, code, temps, loads, stores)
    requires NamesBelow(ins, base)
    ensures Sandwich(ins, homes, base, LoadsOf(loads, homes, cls, temps), RewriteInstr(ins, temps),
                     StoresOf(stores, homes, cls, temps))
  {
    var first, middle, last :=
      LoadsOf(loads, homes, cls, temps), RewriteInstr(ins, temps), StoresOf(stores, homes, cls, temps);
    hide RewriteInstr, LoadsOf, StoresOf, UseRegs, DefRegs, IsHomeSlot;
    MiddleOperands(ins, homes, base, temps);
    forall r: nat
      ensures r < base ==> (r in UseRegs(middle) <==> r in UseRegs(ins) && r !in homes)
      ensures r < base ==> (r in DefRegs(middle) <==> r in DefRegs(ins) && r !in homes)
    {
      MiddleRegs(ins, homes, base, temps, r);
    }
    forall i | 0 <= i < |first| ensures Reload(first[i], homes, base) {
      LoadsTraffic(loads, homes, cls, temps, i);
    }
    forall i | 0 <= i < |last| ensures Store(last[i], homes, base) && UseRegs(last[i]) <= DefRegs(middle) {
      LastStores(ins, homes, cls, base, temps, stores, i);
    }
    forall u | u in UseRegs(middle) && u >= base ensures exists i :: 0 <= i < |first| && DefRegs(first[i]) == {u} {
      FirstReloads(ins, homes, cls, base, temps, loads, u);
    }
  }

  /** What one instruction becomes. */
  ghost predicate PieceOf(ins: Instr, homes: Homes, base: nat, piece: seq<Instr>) {
    if Dead(ins, homes) then piece == []
    else exists first, middle, last ::
        piece == first + [middle] + last && Sandwich(ins, homes, base, first, middle, last)
  }

  lemma ExpansionIsPiece(ins: Instr, homes: Homes, cls: map<nat, RegClass>, base: nat, piece: seq<Instr>)
    requires Classified(ins, homes, cls) && Expands(ins, homes, cls, base, piece) && NamesBelow(ins, base)
    ensures PieceOf(ins, homes, base, piece)
  {
    hide Classified;
    if !Dead(ins, homes) {
      var temps, loads, stores :| ExpandsWith(ins, homes, cls, base, piece, temps, loads, stores);
      ExpansionIsSandwich(ins, homes, cls, base, piece, temps, loads, stores);
    }
  }

  // ----- Slots that are not homes -----

  lemma SlotLiveOne(ins: Instr, s: nat, after: bool)
    ensures SlotLive([ins], s, after) <==> ins.op == SPILL_LOAD(s) || (ins.op != SPILL_STORE(s) && after)
  {
    SlotLiveStep([ins], s, after);
    assert [ins][1..] == [];
  }

  lemma RegLiveOne(ins: Instr, r: nat, after: bool)
    ensures RegLive([ins], r, after) <==> r in UseRegs(ins) || (r !in DefRegs(ins) && after)
  {
    RegLiveStep([ins], r, after);
    assert [ins][1..] == [];
  }

  lemma PieceSlots(ins: Instr, homes: Homes, base: nat, piece: seq<Instr>, s: nat, after: bool)
    requires PieceOf(ins, homes, base, piece) && !IsHomeSlot(homes, s)
    ensures SlotLive(piece, s, after) == SlotLive([ins], s, after)
  {
    SlotLiveOne(ins, s, after);
    if !Dead(ins, homes) {
      var first, middle, last :| piece == first + [middle] + last && Sandwich(ins, homes, base, first, middle, last);
      SlotUntouched(last, s, after);
      SlotLiveOne(middle, s, after);
      SlotUntouched(first, s, SlotLive([ins], s, after));
      SlotLiveAppend(first, [middle], s, after);
      SlotLiveAppend(first + [middle], last, s, after);
    }
  }

  // ----- Registers -----

  lemma PieceRegs(ins: Instr, homes: Homes, base: nat, piece: seq<Instr>, r: nat, after: bool)
    requires PieceOf(ins, homes, base, piece) && r < base && r !in homes
    ensures RegLive(piece, r, after) == RegLive([ins], r, after)
  {
    RegLiveOne(ins, r, after);
    if Dead(ins, homes) {
      var a := ins.operands[0];
      assert ins.operands == [a] && DefRegs(ins) == {a.reg} && UseRegs(ins) == {};
    } else {
      var first, middle, last :| piece == first + [middle] + last && Sandwich(ins, homes, base, first, middle, last);
      RegUntouched(last, r, after);
      RegLiveOne(middle, r, after);
      RegUntouched(first, r, RegLive([ins], r, after));
      RegLiveAppend(first, [middle], r, after);
      RegLiveAppend(first + [middle], last, r, after);
    }
  }

  lemma {:induction false} LiveHasUse(instrs: seq<Instr>, r: nat)
    requires RegLive(instrs, r, false)
    ensures exists i :: 0 <= i < |instrs| && r in UseRegs(instrs[i])
  {
    RegLiveStep(instrs, r, false);
    if r !in UseRegs(instrs[0]) {
      LiveHasUse(instrs[1..], r);
      var i :| 0 <= i < |instrs[1..]| && r in UseRegs(instrs[1..][i]);
      assert instrs[i + 1] == instrs[1..][i];
    }
  }

  lemma {:induction false} DefinedFirst(instrs: seq<Instr>, r: nat, k: nat, after: bool)
    requires k < |instrs| && r in DefRegs(instrs[k]) && forall i :: 0 <= i <= k ==> r !in UseRegs(instrs[i])
    ensures !RegLive(instrs, r, after)
  {
    RegLiveStep(instrs, r, after);
    if k > 0 { DefinedFirst(instrs[1..], r, k - 1, after); }
  }

  /** Temporaries and spilled registers are never waited for from one piece to the next. */
  lemma PieceTemporaries(ins: Instr, homes: Homes, base: nat, piece: seq<Instr>, r: nat)
    requires PieceOf(ins, homes, base, piece) && (r >= base || r in homes)
    ensures !RegLive(piece, r, false)
  {
    if !Dead(ins, homes) && RegLive(piece, r, false) {
      var first, middle, last :| piece == first + [middle] + last && Sandwich(ins, homes, base, first, middle, last);
      var rest := RegLive(last, r, false);
      if rest { LiveHasUse(last, r); }
      RegLiveOne(middle, r, rest);
      RegLiveAppend(first, [middle], r, rest);
      RegLiveAppend(first + [middle], last, r, false);
      if r in UseRegs(middle) {
        var i :| 0 <= i < |first| && DefRegs(first[i]) == {r};
        DefinedFirst(first, r, i, RegLive([middle], r, rest));
      } else {
        LiveHasUse(first, r);
      }
    }
  }

  ghost predicate Names(ins: Instr, r: nat) {
    r in UseRegs(ins) || r in DefRegs(ins)
  }

  predicate TouchesSlot(ins: Instr, s: nat) {
    ins.op == SPILL_LOAD(s) || ins.op == SPILL_STORE(s)
  }

  lemma PieceNames(ins: Instr, homes: Homes, base: nat, piece: seq<Instr>, i: nat)
    requires PieceOf(ins, homes, base, piece) && i < |piece|
    ensures forall r: nat :: Names(piece[i], r) && r < base ==> Names(ins, r) && r !in homes
    ensures forall s: nat :: TouchesSlot(piece[i], s) ==> TouchesSlot(ins, s) || IsHomeSlot(homes, s)
  {
    var first, middle, last :| piece == first + [middle] + last && Sandwich(ins, homes, base, first, middle, last);
    if i < |first| {
      assert piece[i] == first[i];
    } else if i > |first| {
      assert piece[i] == last[i - |first| - 1];
    }
  }

  // ----- Owners of other slots -----

  lemma OwnedOne(ins: Instr, r: nat, s: nat, after: bool)
    ensures OwnedIn([ins], r, s, after) <==> HeadOwned(ins, r, s, after)
  {
    assert [ins][1..] == [];
  }

  lemma PieceOwned(ins: Instr, homes: Homes, base: nat, piece: seq<Instr>, r: nat, s: nat, after: bool)
    requires PieceOf(ins, homes, base, piece) && !IsHomeSlot(homes, s) && r < base && r !in homes
    requires HeadOwned(ins, r, s, after)
    ensures OwnedIn(piece, r, s, after)
  {
    if !Dead(ins, homes) {
      var first, middle, last :| piece == first + [middle] + last && Sandwich(ins, homes, base, first, middle, last);
      SlotUntouched(last, s, after);
      OwnedUntouched(last, r, s, after);
      OwnedOne(middle, r, s, after);
      OwnedUntouched(first, r, s, SlotLive([middle], s, after));
      OwnedAppend(first, [middle], r, s, after);
      OwnedAppend(first + [middle], last, r, s, after);
    }
  }

  // ----- A spilled block -----

  ghost predicate Pieces(instrs: seq<Instr>, homes: Homes, base: nat, pieces: seq<seq<Instr>>) {
    |pieces| == |instrs|
    && forall i {:trigger pieces[i]} :: 0 <= i < |instrs| ==> PieceOf(instrs[i], homes, base, pieces[i])
  }

  ghost predicate BlockPieces(instrs: seq<Instr>, homes: Homes, base: nat, code: seq<Instr>) {
    exists pieces :: Pieces(instrs, homes, base, pieces) && Flatten(pieces) == code
  }

  ghost predicate BlockBelow(instrs: seq<Instr>, base: nat) {
    forall i :: 0 <= i < |instrs| ==> NamesBelow(instrs[i], base)
  }

  lemma BlockIsPieces(instrs: seq<Instr>, homes: Homes, cls: map<nat, RegClass>, base: nat, code: seq<Instr>)
    requires AllClassified(instrs, homes, cls) && BlockExpands(instrs, homes, cls, base, code)
      && BlockBelow(instrs, base)
    ensures BlockPieces(instrs, homes, base, code)
  {
    hide Classified, Expands, PieceOf, NamesBelow;
    var pieces :| PiecesExpand(instrs, homes, cls, base, pieces) && Flatten(pieces) == code;
    forall i | 0 <= i < |instrs| ensures PieceOf(instrs[i], homes, base, pieces[i]) {
      assert Classified(instrs[i], homes, cls);
      assert Expands(instrs[i], homes, cls, base, pieces[i]);
      ExpansionIsPiece(instrs[i], homes, cls, base, pieces[i]);
    }
    assert Pieces(instrs, homes, base, pieces);
  }

  lemma {:induction false} FlatSlots(instrs: seq<Instr>, homes: Homes, base: nat, pieces: seq<seq<Instr>>, s: nat,
                                     after: bool)
    requires Pieces(instrs, homes, base, pieces) && !IsHomeSlot(homes, s)
    ensures SlotLive(Flatten(pieces), s, after) == SlotLive(instrs, s, after)
    decreases |instrs|
  {
    if instrs != [] {
      hide PieceOf, SlotLive, IsHomeSlot;
      var rest := SlotLive(instrs[1..], s, after);
      FlatSlots(instrs[1..], homes, base, pieces[1..], s, after);
      PieceSlots(instrs[0], homes, base, pieces[0], s, rest);
      SlotLiveAppend(pieces[0], Flatten(pieces[1..]), s, after);
      assert [instrs[0]] + instrs[1..] == instrs;
      SlotLiveAppend([instrs[0]], instrs[1..], s, after);
    }
  }

  lemma {:induction false} FlatRegs(instrs: seq<Instr>, homes: Homes, base: nat, pieces: seq<seq<Instr>>, r: nat,
                                    after: bool)
    requires Pieces(instrs, homes, base, pieces) && r < base && r !in homes
    ensures RegLive(Flatten(pieces), r, after) == RegLive(instrs, r, after)
    decreases |instrs|
  {
    if instrs != [] {
      hide PieceOf, RegLive;
      var rest := RegLive(instrs[1..], r, after);
      FlatRegs(instrs[1..], homes, base, pieces[1..], r, after);
      PieceRegs(instrs[0], homes, base, pieces[0], r, rest);
      RegLiveAppend(pieces[0], Flatten(pieces[1..]), r, after);
      assert [instrs[0]] + instrs[1..] == instrs;
      RegLiveAppend([instrs[0]], instrs[1..], r, after);
    }
  }

  lemma {:induction false} FlatTemporaries(instrs: seq<Instr>, homes: Homes, base: nat, pieces: seq<seq<Instr>>, r: nat)
    requires Pieces(instrs, homes, base, pieces) && (r >= base || r in homes)
    ensures !RegLive(Flatten(pieces), r, false)
    decreases |instrs|
  {
    if instrs != [] {
      hide PieceOf;
      FlatTemporaries(instrs[1..], homes, base, pieces[1..], r);
      PieceTemporaries(instrs[0], homes, base, pieces[0], r);
      RegLiveAppend(pieces[0], Flatten(pieces[1..]), r, false);
    }
  }

  lemma {:induction false} FlatOwned(instrs: seq<Instr>, homes: Homes, base: nat, pieces: seq<seq<Instr>>,
                                     r: nat, s: nat, after: bool)
    requires Pieces(instrs, homes, base, pieces) && !IsHomeSlot(homes, s) && r < base && r !in homes
    requires OwnedIn(instrs, r, s, after)
    ensures OwnedIn(Flatten(pieces), r, s, after)
    decreases |instrs|
  {
    if instrs != [] {
      hide PieceOf, SlotLive, IsHomeSlot;
      FlatOwned(instrs[1..], homes, base, pieces[1..], r, s, after);
      FlatSlots(instrs[1..], homes, base, pieces[1..], s, after);
      PieceOwned(instrs[0], homes, base, pieces[0], r, s, SlotLive(instrs[1..], s, after));
      OwnedAppend(pieces[0], Flatten(pieces[1..]), r, s, after);
    }
  }

  lemma {:induction false} FlatNames(instrs: seq<Instr>, homes: Homes, base: nat, pieces: seq<seq<Instr>>, i: nat)
    returns (k: nat)
    requires Pieces(instrs, homes, base, pieces) && i < |Flatten(pieces)|
    ensures k < |instrs|
    ensures forall r: nat :: Names(Flatten(pieces)[i], r) && r < base ==> Names(instrs[k], r) && r !in homes
    ensures forall s: nat :: TouchesSlot(Flatten(pieces)[i], s) ==> TouchesSlot(instrs[k], s) || IsHomeSlot(homes, s)
    decreases |instrs|
  {
    hide PieceOf, Names, TouchesSlot, IsHomeSlot;
    if i < |pieces[0]| {
      assert PieceOf(instrs[0], homes, base, pieces[0]);
      PieceNames(instrs[0], homes, base, pieces[0], i);
      k := 0;
    } else {
      k := FlatNames(instrs[1..], homes, base, pieces[1..], i - |pieces[0]|);
      k := k + 1;
    }
  }
}
