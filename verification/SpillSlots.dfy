/** Post-allocation cleanup of spill slots: store-to-load forwarding and dead-store removal. */
module SpillSlots {
  import opened Target
  import opened Dataflow
  import opened MachineIR
  import opened Renaming

  /** The slot, if the instruction accesses an allocator slot. */
  predicate Accesses_(ins: Instr, spills: set<nat>) {
    (ins.op.SPILL_LOAD? || ins.op.SPILL_STORE?) && ins.op.slot in spills
  }

  predicate Aliases(a: nat, b: nat) {
    a != 0 && a == b
  }

  // ----- Forwarding -----

  /** Forgets slots whose recorded register is overwritten. */
  function Invalidate(known: map<nat, nat>, reg: nat): map<nat, nat> {
    map s | s in known && !Aliases(known[s], reg) :: known[s]
  }

  function InvalidateAll(known: map<nat, nat>, ops: seq<Operand>): map<nat, nat> {
    if ops == [] then known
    else InvalidateAll(if ops[0].isDef then Invalidate(known, ops[0].reg) else known, ops[1..])
  }

  /** One step: the instruction's replacement (nothing, a copy, or itself) and the new records. */
  function Forward(known: map<nat, nat>, ins: Instr, spills: set<nat>): (seq<Instr>, map<nat, nat>)
    requires WellFormed(ins)
  {
    if Accesses_(ins, spills) && ins.op.SPILL_LOAD? then
      var slot, d := ins.op.slot, ins.operands[0];
      if slot in known && Aliases(known[slot], d.reg) then ([], known)
      else
        (if slot in known then [Instr(COPY, [d, Operand(known[slot], d.cls, false)])] else [ins],
         Invalidate(known, d.reg)[slot := d.reg])
    else if Accesses_(ins, spills) then ([ins], known[ins.op.slot := ins.operands[0].reg])
    else if ins.op.CALL? then ([ins], map[])
    else ([ins], InvalidateAll(known, ins.operands))
  }

  /** Every recorded register holds its slot's content. */
  ghost predicate Recorded(known: map<nat, nat>, spills: set<nat>, st: State) {
    forall s :: s in known ==> s in spills && known[s] != 0 && st.regs(known[s]) == st.slots(s)
  }

  lemma {:induction false} InvalidatedSurvives(known: map<nat, nat>, ops: seq<Operand>, s: nat)
    requires s in InvalidateAll(known, ops)
    ensures s in known && InvalidateAll(known, ops)[s] == known[s]
    ensures known[s] != 0 ==> forall o :: o in ops && o.isDef ==> o.reg != known[s]
  {
    if ops != [] {
      var next := if ops[0].isDef then Invalidate(known, ops[0].reg) else known;
      InvalidatedSurvives(next, ops[1..], s);
    }
  }

  /** Registers are real: nothing names the absent register 0. */
  ghost predicate RealRegisters(ins: Instr) {
    forall o :: o in ins.operands ==> o.reg != 0
  }

  lemma ForwardSound(m: Machine, known: map<nat, nat>, ins: Instr, spills: set<nat>, s: State, t: State)
    requires WellFormed(ins) && RealRegisters(ins) && Recorded(known, spills, s) && Alike(s, t)
    ensures var (code, known') := Forward(known, ins, spills);
            && AllWellFormed(code)
            && Alike(Exec(m, ins, s), ExecSeq(m, code, t))
            && Recorded(known', spills, Exec(m, ins, s))
  {
    var (code, known') := Forward(known, ins, spills);
    var s' := Exec(m, ins, s);
    if ins.op.SPILL_LOAD? || ins.op.SPILL_STORE? {
      assert ins.operands[0] in ins.operands;
    }
    if code != [] {
      assert code[1..] == [];
      assert ExecSeq(m, code, t) == Exec(m, code[0], t);
    }
    ExecCongruent(m, ins, s, t);
    if Accesses_(ins, spills) {
      forall k | k in known' ensures s'.regs(known'[k]) == s'.slots(k) {
      }
    } else if !ins.op.CALL? {
      forall k | k in known' ensures k in spills && known'[k] != 0 && s'.regs(known'[k]) == s'.slots(k) {
        InvalidatedSurvives(known, ins.operands, k);
        assert known'[k] !in DefRegs(ins);
        UntouchedRegister(m, ins, s, known'[k]);
      }
    }
  }

  function ForwardBlock(known: map<nat, nat>, instrs: seq<Instr>, spills: set<nat>): seq<Instr>
    requires AllWellFormed(instrs)
    decreases |instrs|
  {
    if instrs == [] then []
    else
      var (code, known') := Forward(known, instrs[0], spills);
      code + ForwardBlock(known', instrs[1..], spills)
  }

  ghost predicate AllReal(instrs: seq<Instr>) {
    forall i :: 0 <= i < |instrs| ==> RealRegisters(instrs[i])
  }

  /** Forwarding changes nothing about a block's effect, slots included. */
  lemma {:induction false} ForwardBlockSound(m: Machine, known: map<nat, nat>, instrs: seq<Instr>, spills: set<nat>,
                                             s: State, t: State)
    requires AllWellFormed(instrs) && AllReal(instrs) && Recorded(known, spills, s) && Alike(s, t)
    ensures AllWellFormed(ForwardBlock(known, instrs, spills))
    ensures Alike(ExecSeq(m, instrs, s), ExecSeq(m, ForwardBlock(known, instrs, spills), t))
    decreases |instrs|
  {
    if instrs != [] {
      var (code, known') := Forward(known, instrs[0], spills);
      assert RealRegisters(instrs[0]);
      ForwardSound(m, known, instrs[0], spills, s, t);
      var s1, t1 := Exec(m, instrs[0], s), ExecSeq(m, code, t);
      assert AllReal(instrs[1..]);
      ForwardBlockSound(m, known', instrs[1..], spills, s1, t1);
      ExecSeqAppend(m, code, ForwardBlock(known', instrs[1..], spills), t);
    }
  }

  method InvalidateOperands(known0: map<nat, nat>, ops: seq<Operand>) returns (known: map<nat, nat>)
    ensures known == InvalidateAll(known0, ops)
  {
    known := known0;
    for i := 0 to |ops|
      invariant InvalidateAll(known0, ops) == InvalidateAll(known, ops[i..])
    {
      assert ops[i..][1..] == ops[i + 1..];
      if ops[i].isDef { known := Invalidate(known, ops[i].reg); }
    }
  }

  /** The loop body for one instruction. */
  method ForwardOne(known0: map<nat, nat>, ins: Instr, spills: set<nat>)
    returns (code: seq<Instr>, known: map<nat, nat>, changed: bool)
    requires WellFormed(ins)
    ensures (code, known) == Forward(known0, ins, spills)
    ensures !changed ==> code == [ins]
  {
    known := known0;
    if Accesses_(ins, spills) && ins.op.SPILL_LOAD? {
      var slot, d := ins.op.slot, ins.operands[0];
      if slot in known && Aliases(known[slot], d.reg) { return [], known, true; }
      code, changed := [ins], false;
      if slot in known {
        code, changed := [Instr(COPY, [d, Operand(known[slot], d.cls, false)])], true;
      }
      known := Invalidate(known, d.reg)[slot := d.reg];
      return;
    }
    code, changed := [ins], false;
    if Accesses_(ins, spills) {
      known := known[ins.op.slot := ins.operands[0].reg];
    } else if ins.op.CALL? {
      known := map[];
    } else {
      known := InvalidateOperands(known, ins.operands);
    }
  }

  /** The forwarding loop of one block. */
  method ForwardKnownValues(instrs: seq<Instr>, spills: set<nat>) returns (code: seq<Instr>, changed: bool)
    requires AllWellFormed(instrs)
    ensures code == ForwardBlock(map[], instrs, spills)
    ensures !changed ==> code == instrs
  {
    hide Forward, WellFormed;
    var known: map<nat, nat> := map[];
    code, changed := [], false;
    for i := 0 to |instrs|
      invariant ForwardBlock(map[], instrs, spills) == code + ForwardBlock(known, instrs[i..], spills)
      invariant !changed ==> code == instrs[..i]
    {
      assert instrs[i..][1..] == instrs[i + 1..];
      assert instrs[..i + 1] == instrs[..i] + [instrs[i]];
      var piece, rewritten;
      piece, known, rewritten := ForwardOne(known, instrs[i], spills);
      code := code + piece;
      changed := changed || rewritten;
    }
    assert instrs[..|instrs|] == instrs;
  }

  // ----- No reload is left that need not be -----

  function KnownAfter(known: map<nat, nat>, instrs: seq<Instr>, spills: set<nat>): map<nat, nat>
    requires AllWellFormed(instrs)
    decreases |instrs|
  {
    if instrs == [] then known else KnownAfter(Forward(known, instrs[0], spills).1, instrs[1..], spills)
  }

  lemma {:induction false} ForwardSplits(known: map<nat, nat>, a: seq<Instr>, b: seq<Instr>, spills: set<nat>)
    requires AllWellFormed(a) && AllWellFormed(b)
    ensures AllWellFormed(a + b)
    ensures ForwardBlock(known, a + b, spills)
         == ForwardBlock(known, a, spills) + ForwardBlock(KnownAfter(known, a, spills), b, spills)
    ensures KnownAfter(known, a + b, spills) == KnownAfter(KnownAfter(known, a, spills), b, spills)
    decreases |a|
  {
    hide Forward, WellFormed;
    if a == [] {
      assert a + b == b;
    } else {
      assert (a + b)[1..] == a[1..] + b;
      ForwardSplits(Forward(known, a[0], spills).1, a[1..], b, spills);
    }
  }

  /** The instruction reads or writes slot s, with register r. */
  predicate Uses(ins: Instr, s: nat, r: nat) {
    (ins.op == SPILL_LOAD(s) || ins.op == SPILL_STORE(s)) && |ins.operands| == 1 && ins.operands[0].reg == r
  }

  /** It neither touches slot s, nor writes r, nor calls. */
  predicate Spares(ins: Instr, s: nat, r: nat) {
    ins.op != SPILL_LOAD(s) && ins.op != SPILL_STORE(s) && r !in DefRegs(ins) && !ins.op.CALL?
  }

  lemma {:induction false} InvalidateKeeps(known: map<nat, nat>, ops: seq<Operand>, s: nat)
    requires s in known && forall o :: o in ops && o.isDef ==> o.reg != known[s]
    ensures s in InvalidateAll(known, ops) && InvalidateAll(known, ops)[s] == known[s]
  {
    if ops != [] {
      assert ops[0] in ops;
      InvalidateKeeps(if ops[0].isDef then Invalidate(known, ops[0].reg) else known, ops[1..], s);
    }
  }

  lemma {:induction false} StaysKnown(known: map<nat, nat>, instrs: seq<Instr>, spills: set<nat>, s: nat, r: nat)
    requires AllWellFormed(instrs) && s in known && known[s] == r
    requires forall k :: 0 <= k < |instrs| ==> Spares(instrs[k], s, r)
    ensures s in KnownAfter(known, instrs, spills) && KnownAfter(known, instrs, spills)[s] == r
    decreases |instrs|
  {
    if instrs != [] {
      assert Spares(instrs[0], s, r);
      forall o | o in instrs[0].operands && o.isDef ensures o.reg != r {
        assert o.reg in DefRegs(instrs[0]);
      }
      InvalidateKeeps(known, instrs[0].operands, s);
      if Accesses_(instrs[0], spills) { assert instrs[0].operands[0] in instrs[0].operands; }
      StaysKnown(Forward(known, instrs[0], spills).1, instrs[1..], spills, s, r);
    }
  }

  /** After an access the slot's register is known. */
  lemma UseIsKnown(known: map<nat, nat>, ins: Instr, spills: set<nat>, s: nat, r: nat)
    requires WellFormed(ins) && s in spills && Uses(ins, s, r)
    ensures var known' := Forward(known, ins, spills).1; s in known' && known'[s] == r
  {
  }

  lemma KnownThere(instrs: seq<Instr>, spills: set<nat>, j: nat, i: nat, s: nat, r: nat)
    requires AllWellFormed(instrs) && j < i <= |instrs| && s in spills
    requires Uses(instrs[j], s, r) && (forall k :: j < k < i ==> Spares(instrs[k], s, r))
    ensures AllWellFormed(instrs[..i])
    ensures var known := KnownAfter(map[], instrs[..i], spills); s in known && known[s] == r
  {
    var a, x, mid := instrs[..j], instrs[j], instrs[j + 1..i];
    forall k | 0 <= k < |mid| ensures Spares(mid[k], s, r) {
      assert mid[k] == instrs[j + 1 + k];
    }
    hide Forward, WellFormed, Uses, Spares;
    assert instrs[..i] == a + ([x] + mid) && ([x] + mid)[1..] == mid;
    var start := KnownAfter(map[], a, spills);
    ForwardSplits(map[], a, [x] + mid, spills);
    UseIsKnown(start, x, spills, s, r);
    StaysKnown(Forward(start, x, spills).1, mid, spills, s, r);
  }

  /** A reload of a slot whose stored or loaded register is still intact becomes a copy, or nothing where the
      value is wanted in that very register. */
  lemma NoReloadLeft(instrs: seq<Instr>, spills: set<nat>, j: nat, i: nat, s: nat, r: nat)
    requires AllWellFormed(instrs) && AllReal(instrs) && j < i < |instrs| && s in spills
    requires Uses(instrs[j], s, r) && (forall k :: j < k < i ==> Spares(instrs[k], s, r))
    requires instrs[i].op == SPILL_LOAD(s)
    ensures var d := instrs[i].operands[0];
            var before := ForwardBlock(map[], instrs[..i], spills);
            var piece := if d.reg == r then [] else [Instr(COPY, [d, Operand(r, d.cls, false)])];
            before + piece <= ForwardBlock(map[], instrs, spills)
  {
    KnownThere(instrs, spills, j, i, s, r);
    RealUse(instrs[j], s, r);
    var known, rest := KnownAfter(map[], instrs[..i], spills), instrs[i + 1..];
    ReloadReplaced(known, instrs[i], spills, s);
    hide Forward, WellFormed, Uses, Spares, RealRegisters, KnownAfter;
    assert instrs == instrs[..i] + ([instrs[i]] + rest) && ([instrs[i]] + rest)[1..] == rest;
    ForwardSplits(map[], instrs[..i], [instrs[i]] + rest, spills);
  }

  lemma RealUse(ins: Instr, s: nat, r: nat)
    requires RealRegisters(ins) && Uses(ins, s, r)
    ensures r != 0
  {
    assert ins.operands[0] in ins.operands;
  }

  lemma ReloadReplaced(known: map<nat, nat>, ins: Instr, spills: set<nat>, s: nat)
    requires WellFormed(ins) && ins.op == SPILL_LOAD(s) && s in spills && s in known
    ensures var d := ins.operands[0];
            Forward(known, ins, spills).0 ==
              if known[s] != 0 && d.reg == known[s] then [] else [Instr(COPY, [d, Operand(known[s], d.cls, false)])]
  {
  }

  // ----- Dead stores -----

  function SlotAccess(ins: Instr, spills: set<nat>): Access {
    if !Accesses_(ins, spills) then Access({}, {})
    else if ins.op.SPILL_LOAD? then Access({ins.op.slot}, {})
    else Access({}, {ins.op.slot})
  }

  function SlotAccesses(instrs: seq<Instr>, spills: set<nat>): (a: seq<Access>)
    ensures |a| == |instrs|
    ensures forall i :: 0 <= i < |instrs| ==> a[i] == SlotAccess(instrs[i], spills)
  {
    seq(|instrs|, i requires 0 <= i < |instrs| => SlotAccess(instrs[i], spills))
  }

  /** Is instruction j a store whose slot nobody reads before it is overwritten? */
  ghost predicate DeadStore(instrs: seq<Instr>, spills: set<nat>, out: set<nat>, j: nat)
    requires j < |instrs|
  {
    Accesses_(instrs[j], spills) && instrs[j].op.SPILL_STORE?
    && instrs[j].op.slot !in LiveBefore(SlotAccesses(instrs[j + 1..], spills), out)
  }

  datatype FirstAccess = Untouched | ReadFirst | WrittenFirst

  /** What a stretch of code does to a slot first. */
  ghost function First(instrs: seq<Instr>, spills: set<nat>, s: nat): FirstAccess {
    if instrs == [] then Untouched
    else if s in SlotAccess(instrs[0], spills).uses then ReadFirst
    else if s in SlotAccess(instrs[0], spills).defs then WrittenFirst
    else First(instrs[1..], spills, s)
  }

  lemma {:induction false} FirstDecides(instrs: seq<Instr>, spills: set<nat>, out: set<nat>, s: nat)
    ensures s in LiveBefore(SlotAccesses(instrs, spills), out) <==>
            First(instrs, spills, s).ReadFirst? || (First(instrs, spills, s).Untouched? && s in out)
  {
    if instrs != [] {
      assert SlotAccesses(instrs, spills)[1..] == SlotAccesses(instrs[1..], spills);
      FirstDecides(instrs[1..], spills, out, s);
    }
  }

  lemma {:induction false} FirstAppend(instrs: seq<Instr>, ins: Instr, spills: set<nat>, s: nat)
    ensures First(instrs + [ins], spills, s)
            == if !First(instrs, spills, s).Untouched? then First(instrs, spills, s) else First([ins], spills, s)
  {
    if instrs == [] {
      assert instrs + [ins] == [ins];
    } else {
      assert (instrs + [ins])[1..] == instrs[1..] + [ins];
      FirstAppend(instrs[1..], ins, spills, s);
    }
  }

  /** The instructions from k on without the removed positions. */
  function Without(instrs: seq<Instr>, removed: set<nat>, k: nat): seq<Instr>
    requires k <= |instrs|
    decreases |instrs| - k
  {
    if k == |instrs| then [] else (if k in removed then [] else [instrs[k]]) + Without(instrs, removed, k + 1)
  }

  predicate IsStore(ins: Instr, spills: set<nat>) {
    Accesses_(ins, spills) && ins.op.SPILL_STORE?
  }

  /** What happens to store j's slot between j and i. */
  ghost function Status(instrs: seq<Instr>, spills: set<nat>, j: nat, i: nat): FirstAccess
    requires j < i <= |instrs| && IsStore(instrs[j], spills)
  {
    First(instrs[j + 1..i], spills, instrs[j].op.slot)
  }

  lemma StatusStep(instrs: seq<Instr>, spills: set<nat>, j: nat, i: nat)
    requires j < i < |instrs| && IsStore(instrs[j], spills)
    ensures Status(instrs, spills, j, i + 1)
            == if !Status(instrs, spills, j, i).Untouched? || !Accesses_(instrs[i], spills)
                  || instrs[i].op.slot != instrs[j].op.slot then Status(instrs, spills, j, i)
               else if instrs[i].op.SPILL_LOAD? then ReadFirst else WrittenFirst
  {
    assert instrs[j + 1..i + 1] == instrs[j + 1..i] + [instrs[i]];
    FirstAppend(instrs[j + 1..i], instrs[i], spills, instrs[j].op.slot);
    assert [instrs[i]][1..] == [];
    assert First([], spills, instrs[j].op.slot) == Untouched;
  }

  /** Scan state after i instructions: a store is removed once overwritten unread, and unread
      lists exactly the stores not touched since. */
  ghost predicate Scanned(instrs: seq<Instr>, spills: set<nat>, i: nat, unread: map<nat, nat>, removed: set<nat>)
    requires i <= |instrs|
  {
    && (forall j :: j in removed ==> j < i && IsStore(instrs[j], spills))
    && (forall s :: s in unread ==>
        unread[s] < i && IsStore(instrs[unread[s]], spills) && instrs[unread[s]].op.slot == s)
    && (forall j: nat :: j < i && IsStore(instrs[j], spills) ==>
          (j in removed <==> Status(instrs, spills, j, i).WrittenFirst?))
    && (forall j: nat :: j < i && IsStore(instrs[j], spills) ==>
          ((instrs[j].op.slot in unread && unread[instrs[j].op.slot] == j) <==>
           Status(instrs, spills, j, i).Untouched?))
  }

  lemma ScanOther(instrs: seq<Instr>, spills: set<nat>, i: nat, unread: map<nat, nat>, removed: set<nat>)
    requires i < |instrs| && Scanned(instrs, spills, i, unread, removed) && !Accesses_(instrs[i], spills)
    ensures Scanned(instrs, spills, i + 1, unread, removed)
  {
    forall j: nat | j < i && IsStore(instrs[j], spills)
      ensures Status(instrs, spills, j, i + 1) == Status(instrs, spills, j, i)
    {
      StatusStep(instrs, spills, j, i);
    }
  }

  lemma ScanLoad(instrs: seq<Instr>, spills: set<nat>, i: nat, unread: map<nat, nat>, removed: set<nat>)
    requires i < |instrs| && Scanned(instrs, spills, i, unread, removed)
    requires Accesses_(instrs[i], spills) && instrs[i].op.SPILL_LOAD?
    ensures Scanned(instrs, spills, i + 1, unread - {instrs[i].op.slot}, removed)
  {
    var unread' := unread - {instrs[i].op.slot};
    forall j: nat | j < i && IsStore(instrs[j], spills)
      ensures j in removed <==> Status(instrs, spills, j, i + 1).WrittenFirst?
      ensures (instrs[j].op.slot in unread' && unread'[instrs[j].op.slot] == j)
              <==> Status(instrs, spills, j, i + 1).Untouched?
    {
      StatusStep(instrs, spills, j, i);
    }
  }

  lemma ScanStore(instrs: seq<Instr>, spills: set<nat>, i: nat, unread: map<nat, nat>, removed: set<nat>)
    requires i < |instrs| && Scanned(instrs, spills, i, unread, removed) && IsStore(instrs[i], spills)
    ensures var slot := instrs[i].op.slot;
            Scanned(instrs, spills, i + 1, unread[slot := i], removed + (if slot in unread then {unread[slot]} else {}))
  {
    var slot := instrs[i].op.slot;
    var unread', removed' := unread[slot := i], removed + (if slot in unread then {unread[slot]} else {});
    forall j: nat | j < i && IsStore(instrs[j], spills)
      ensures j in removed' <==> Status(instrs, spills, j, i + 1).WrittenFirst?
      ensures (instrs[j].op.slot in unread' && unread'[instrs[j].op.slot] == j)
              <==> Status(instrs, spills, j, i + 1).Untouched?
    {
      StatusStep(instrs, spills, j, i);
    }
    assert instrs[i + 1..i + 1] == [];
    assert Status(instrs, spills, i, i + 1) == Untouched;
  }

  lemma ScanEnds(instrs: seq<Instr>, spills: set<nat>, out: set<nat>, unread: map<nat, nat>, removed: set<nat>, j: nat)
    requires Scanned(instrs, spills, |instrs|, unread, removed) && j < |instrs|
    ensures DeadStore(instrs, spills, out, j) <==>
            j in removed || j in (set s | s in unread && s !in out :: unread[s])
  {
    if IsStore(instrs[j], spills) {
      var slot := instrs[j].op.slot;
      assert instrs[j + 1..|instrs|] == instrs[j + 1..];
      FirstDecides(instrs[j + 1..], spills, out, slot);
      assert Status(instrs, spills, j, |instrs|) == First(instrs[j + 1..], spills, slot);
    }
  }

  lemma NothingScanned(instrs: seq<Instr>, spills: set<nat>)
    ensures Scanned(instrs, spills, 0, map[], {})
  {
  }

  lemma ScannedBounds(instrs: seq<Instr>, spills: set<nat>, unread: map<nat, nat>, removed: set<nat>)
    requires Scanned(instrs, spills, |instrs|, unread, removed)
    ensures forall j :: j in removed ==> j < |instrs|
    ensures forall s :: s in unread ==> unread[s] < |instrs|
  {
  }

  /** The removal loop of one block: it removes exactly the dead stores. */
  method RemoveDeadStores(instrs: seq<Instr>, spills: set<nat>, out: set<nat>)
    returns (code: seq<Instr>, ghost removed: set<nat>)
    ensures code == Without(instrs, removed, 0)
    ensures forall j: nat :: j in removed <==> j < |instrs| && DeadStore(instrs, spills, out, j)
  {
    hide Scanned, DeadStore;
    var unread: map<nat, nat>, gone: set<nat> := map[], {};
    NothingScanned(instrs, spills);
    for i := 0 to |instrs|
      invariant Scanned(instrs, spills, i, unread, gone)
    {
      if Accesses_(instrs[i], spills) {
        var slot := instrs[i].op.slot;
        if instrs[i].op.SPILL_LOAD? {
          ScanLoad(instrs, spills, i, unread, gone);
          unread := unread - {slot};
        } else {
          ScanStore(instrs, spills, i, unread, gone);
          ghost var reserved := gone + (if slot in unread then {unread[slot]} else {});
          if slot in unread { gone := gone + {unread[slot]}; }
          assert gone == reserved;
          unread := unread[slot := i];
        }
      } else {
        ScanOther(instrs, spills, i, unread, gone);
      }
    }
    ScannedBounds(instrs, spills, unread, gone);
    var ends := set s | s in unread && s !in out :: unread[s];
    forall j: nat | j < |instrs| { ScanEnds(instrs, spills, out, unread, gone, j); }
    gone := gone + ends;
    removed := gone;
    code := [];
    for i := |instrs| downto 0
      invariant code == Without(instrs, gone, i)
    {
      if i !in gone { code := [instrs[i]] + code; }
    }
  }

  /** States that agree on everything but dead slots. */
  ghost predicate SlotAgree(live: set<nat>, spills: set<nat>, s: State, t: State) {
    && s.hist == t.hist
    && (forall r: nat :: s.regs(r) == t.regs(r))
    && (forall k: nat :: k !in spills || k in live ==> s.slots(k) == t.slots(k))
  }

  /** Removing dead stores from a block is invisible. */
  lemma {:induction false} WithoutSound(m: Machine, instrs: seq<Instr>, spills: set<nat>, out: set<nat>,
                                        removed: set<nat>, k: nat, s: State, t: State)
    requires AllWellFormed(instrs) && k <= |instrs|
    requires forall j :: j in removed && j < |instrs| ==> DeadStore(instrs, spills, out, j)
    requires SlotAgree(LiveBefore(SlotAccesses(instrs[k..], spills), out), spills, s, t)
    ensures AllWellFormed(Without(instrs, removed, k))
    ensures SlotAgree(out, spills, ExecSeq(m, instrs[k..], s), ExecSeq(m, Without(instrs, removed, k), t))
    decreases |instrs| - k
  {
    if k < |instrs| {
      var ins, rest := instrs[k], instrs[k + 1..];
      assert instrs[k..][1..] == rest;
      assert SlotAccesses(instrs[k..], spills)[1..] == SlotAccesses(rest, spills);
      var s1 := Exec(m, ins, s);
      if k in removed {
        WithoutSound(m, instrs, spills, out, removed, k + 1, s1, t);
        assert Without(instrs, removed, k) == Without(instrs, removed, k + 1);
      } else {
        ExecCongruent(m, ins, s, t);
        WithoutSound(m, instrs, spills, out, removed, k + 1, s1, Exec(m, ins, t));
        var tail := Without(instrs, removed, k + 1);
        assert Without(instrs, removed, k) == [ins] + tail && ([ins] + tail)[1..] == tail;
        assert ExecSeq(m, [ins] + tail, t) == ExecSeq(m, tail, Exec(m, ins, t));
      }
      assert ExecSeq(m, instrs[k..], s) == ExecSeq(m, rest, s1);
    } else {
      assert instrs[k..] == [] && Without(instrs, removed, k) == [] && SlotAccesses(instrs[k..], spills) == [];
    }
  }

  // ----- The pass over a function -----

  function SlotFlow(f: Function, spills: set<nat>): (g: Flow)
    ensures |g.blocks| == |g.succs| == |f.blocks|
    ensures forall b :: 0 <= b < |f.blocks| ==>
              g.blocks[b] == SlotAccesses(f.blocks[b].instrs, spills) && g.succs[b] == f.blocks[b].succs
  {
    Flow(seq(|f.blocks|, b requires 0 <= b < |f.blocks| => SlotAccesses(f.blocks[b].instrs, spills)),
         seq(|f.blocks|, b requires 0 <= b < |f.blocks| => f.blocks[b].succs))
  }

  /** mid is f after forwarding; g is mid without dead stores, for live slots closed under control flow. */
  ghost predicate Optimized(f: Function, spills: set<nat>, mid: Function, g: Function,
                            liveOut: seq<set<nat>>, removed: seq<set<nat>>)
    requires Executable(f)
  {
    && |mid.blocks| == |g.blocks| == |liveOut| == |removed| == |f.blocks|
    && (forall b :: 0 <= b < |f.blocks| ==>
          && mid.blocks[b] == Block(ForwardBlock(map[], f.blocks[b].instrs, spills), f.blocks[b].succs)
          && g.blocks[b] == Block(Without(mid.blocks[b].instrs, removed[b], 0), f.blocks[b].succs)
          && (forall j :: j in removed[b] && j < |mid.blocks[b].instrs| ==>
                            DeadStore(mid.blocks[b].instrs, spills, liveOut[b], j)))
    && (forall b, s :: 0 <= b < |f.blocks| && s in f.blocks[b].succs ==>
                         LiveBefore(SlotAccesses(mid.blocks[s].instrs, spills), liveOut[s]) <= liveOut[b])
  }

  ghost predicate RealFunction(f: Function) {
    forall b :: 0 <= b < |f.blocks| ==> AllReal(f.blocks[b].instrs)
  }

  lemma {:induction false} ForwardBlockWellFormed(known: map<nat, nat>, instrs: seq<Instr>, spills: set<nat>)
    requires AllWellFormed(instrs)
    ensures AllWellFormed(ForwardBlock(known, instrs, spills))
    decreases |instrs|
  {
    if instrs != [] {
      var (code, known') := Forward(known, instrs[0], spills);
      ForwardBlockWellFormed(known', instrs[1..], spills);
    }
  }

  lemma {:induction false} WithoutWellFormed(instrs: seq<Instr>, removed: set<nat>, k: nat)
    requires AllWellFormed(instrs) && k <= |instrs|
    ensures AllWellFormed(Without(instrs, removed, k))
    decreases |instrs| - k
  {
    if k < |instrs| { WithoutWellFormed(instrs, removed, k + 1); }
  }

  lemma OptimizedExecutable(f: Function, spills: set<nat>, mid: Function, g: Function,
                            liveOut: seq<set<nat>>, removed: seq<set<nat>>)
    requires Executable(f) && Optimized(f, spills, mid, g, liveOut, removed)
    ensures Executable(mid) && Executable(g)
  {
    forall b | 0 <= b < |f.blocks|
      ensures AllWellFormed(mid.blocks[b].instrs) && AllWellFormed(g.blocks[b].instrs)
    {
      ForwardBlockWellFormed(map[], f.blocks[b].instrs, spills);
      WithoutWellFormed(mid.blocks[b].instrs, removed[b], 0);
    }
    forall b, s | 0 <= b < |f.blocks| && s in f.blocks[b].succs ensures s < |f.blocks| {
    }
  }

  ghost predicate Linked(mid: Function, spills: set<nat>, liveOut: seq<set<nat>>, c: Config, d: Config)
    requires |liveOut| == |mid.blocks|
  {
    match (c, d)
    case (Halted(s), Halted(t)) => s.hist == t.hist
    case (Running(b, s), Running(e, t)) =>
      b == e && b < |mid.blocks|
      && SlotAgree(LiveBefore(SlotAccesses(mid.blocks[b].instrs, spills), liveOut[b]), spills, s, t)
    case _ => false
  }

  lemma StepLinked(f: Function, spills: set<nat>, mid: Function, g: Function, liveOut: seq<set<nat>>,
                   removed: seq<set<nat>>, m: Machine, c: Config, d: Config)
    requires Executable(f) && Executable(g) && RealFunction(f) && Optimized(f, spills, mid, g, liveOut, removed)
    requires Linked(mid, spills, liveOut, c, d)
    ensures Linked(mid, spills, liveOut, Next(f, m, c), Next(g, m, d))
  {
    if c.Running? {
      var b, s, t := c.block, c.st, d.st;
      var instrs, code := f.blocks[b].instrs, mid.blocks[b].instrs;
      ForwardBlockWellFormed(map[], instrs, spills);
      ForwardBlockSound(m, map[], instrs, spills, s, s);
      assert code[0..] == code;
      WithoutSound(m, code, spills, liveOut[b], removed[b], 0, s, t);
    }
  }

  /** The optimized program has the same history at every block of every run. */
  lemma OptimizerPreservesRuns(f: Function, spills: set<nat>, mid: Function, g: Function, liveOut: seq<set<nat>>,
                               removed: seq<set<nat>>, m: Machine, c: Config, d: Config, k: nat)
    requires Executable(f) && RealFunction(f) && Optimized(f, spills, mid, g, liveOut, removed)
    requires Linked(mid, spills, liveOut, c, d)
    ensures Executable(g) && SameBehaviour(Run(f, m, c, k), Run(g, m, d, k))
  {
    var rc, rd := RunsLinked(f, spills, mid, g, liveOut, removed, m, c, d, k);
  }

  lemma {:induction false} RunsLinked(f: Function, spills: set<nat>, mid: Function, g: Function, liveOut: seq<set<nat>>,
                                      removed: seq<set<nat>>, m: Machine, c: Config, d: Config, k: nat)
    returns (rc: Config, rd: Config)
    requires Executable(f) && RealFunction(f) && Optimized(f, spills, mid, g, liveOut, removed)
    requires Linked(mid, spills, liveOut, c, d)
    ensures Executable(g) && rc == Run(f, m, c, k) && rd == Run(g, m, d, k) && Linked(mid, spills, liveOut, rc, rd)
    decreases k
  {
    OptimizedExecutable(f, spills, mid, g, liveOut, removed);
    if k == 0 {
      rc, rd := c, d;
    } else {
      StepLinked(f, spills, mid, g, liveOut, removed, m, c, d);
      rc, rd := RunsLinked(f, spills, mid, g, liveOut, removed, m, Next(f, m, c), Next(g, m, d), k - 1);
    }
  }

  /** Exact live slots at block ends are closed under control flow. */
  lemma SlotsClosed(mid: Function, spills: set<nat>, liveOut: seq<set<nat>>, b: nat, s: nat)
    requires ValidFunction(mid) && |liveOut| == |mid.blocks| && b < |mid.blocks| && s in mid.blocks[b].succs
    requires forall a, r :: 0 <= a < |mid.blocks| ==>
               (r in liveOut[a] <==> PathLive(SlotFlow(mid, spills), a, |mid.blocks[a].instrs|, r))
    ensures LiveBefore(SlotAccesses(mid.blocks[s].instrs, spills), liveOut[s]) <= liveOut[b]
  {
    var g := SlotFlow(mid, spills);
    forall r | r in LiveBefore(SlotAccesses(mid.blocks[s].instrs, spills), liveOut[s]) ensures r in liveOut[b] {
      PathLiveUnfolds(g, s, |mid.blocks[s].instrs|, r);
      assert g.blocks[s][0..] == g.blocks[s];
      WalkIsExact(g, s, 0, liveOut[s], r);
      PathLiveUnfolds(g, b, |mid.blocks[b].instrs|, r);
    }
  }

  method ForwardAll(f: Function, spills: set<nat>) returns (mid: Function)
    requires Executable(f)
    ensures Executable(mid) && |mid.blocks| == |f.blocks|
    ensures forall b :: 0 <= b < |f.blocks| ==>
              mid.blocks[b] == Block(ForwardBlock(map[], f.blocks[b].instrs, spills), f.blocks[b].succs)
  {
    var blocks: seq<Block> := [];
    for b := 0 to |f.blocks|
      invariant |blocks| == b
      invariant forall a :: 0 <= a < b ==>
                  blocks[a] == Block(ForwardBlock(map[], f.blocks[a].instrs, spills), f.blocks[a].succs)
    {
      var code, changed := ForwardKnownValues(f.blocks[b].instrs, spills);
      blocks := blocks + [Block(code, f.blocks[b].succs)];
    }
    mid := Function(blocks);
    forall b | 0 <= b < |f.blocks| ensures AllWellFormed(mid.blocks[b].instrs) {
      ForwardBlockWellFormed(map[], f.blocks[b].instrs, spills);
    }
    forall b, s | 0 <= b < |mid.blocks| && s in mid.blocks[b].succs ensures s < |mid.blocks| {
      assert s in f.blocks[b].succs;
    }
  }

  method RemoveAll(mid: Function, spills: set<nat>, liveOut: seq<set<nat>>)
    returns (g: Function, ghost removed: seq<set<nat>>)
    requires |liveOut| == |mid.blocks|
    ensures |g.blocks| == |removed| == |mid.blocks|
    ensures forall b :: 0 <= b < |mid.blocks| ==>
              && g.blocks[b] == Block(Without(mid.blocks[b].instrs, removed[b], 0), mid.blocks[b].succs)
              && (forall j: nat :: j in removed[b] <==>
                    j < |mid.blocks[b].instrs| && DeadStore(mid.blocks[b].instrs, spills, liveOut[b], j))
  {
    var blocks: seq<Block> := [];
    removed := [];
    for b := 0 to |mid.blocks|
      invariant |blocks| == |removed| == b
      invariant forall a :: 0 <= a < b ==>
                  && blocks[a] == Block(Without(mid.blocks[a].instrs, removed[a], 0), mid.blocks[a].succs)
                  && (forall j: nat :: j in removed[a] <==>
                        j < |mid.blocks[a].instrs| && DeadStore(mid.blocks[a].instrs, spills, liveOut[a], j))
    {
      var code; ghost var gone;
      code, gone := RemoveDeadStores(mid.blocks[b].instrs, spills, liveOut[b]);
      blocks := blocks + [Block(code, mid.blocks[b].succs)];
      removed := removed + [gone];
    }
    g := Function(blocks);
  }

  /** Both loops over the whole function.  Exactly the stores that no path reads are removed. */
  method Optimize(f: Function, spills: set<nat>)
    returns (g: Function, ghost mid: Function, ghost liveOut: seq<set<nat>>, ghost removed: seq<set<nat>>)
    requires Executable(f)
    ensures Optimized(f, spills, mid, g, liveOut, removed)
    ensures forall b, j: nat :: 0 <= b < |f.blocks| ==>
              (j in removed[b] <==>
               j < |mid.blocks[b].instrs| && DeadStore(mid.blocks[b].instrs, spills, liveOut[b], j))
    ensures ValidFlow(SlotFlow(mid, spills))
    ensures forall b, s :: 0 <= b < |f.blocks| ==>
              (s in liveOut[b] <==> PathLive(SlotFlow(mid, spills), b, |mid.blocks[b].instrs|, s))
  {
    var forwarded := ForwardAll(f, spills);
    mid := forwarded;
    var ins, outs, before := AnalyzeLiveness(SlotFlow(forwarded, spills));
    liveOut := outs;
    forall b, s | 0 <= b < |mid.blocks| && s in mid.blocks[b].succs
      ensures LiveBefore(SlotAccesses(mid.blocks[s].instrs, spills), liveOut[s]) <= liveOut[b]
    {
      SlotsClosed(mid, spills, liveOut, b, s);
    }
    g, removed := RemoveAll(forwarded, spills, outs);
  }
}
