/**
 One round of graph-coloring register allocation: liveness, interference, coloring,
 recoloring, and the proof that a round without spills yields a correct allocation.
 */
module RegAlloc {
  import opened Target
  import opened Dataflow
  import opened MachineIR
  import opened Liveness
  import opened InterferenceGraphs
  import opened Coloring
  import opened Allocation

  // ----- Which registers interfere -----

  /** A definition meets everything live after it, except the source of a copy. */
  ghost function LivePairs(ins: Instr, after: set<nat>): set<(nat, nat)> {
    set d, l | d in DefRegs(ins) && l in after && !(ins.op.COPY? && l in UseRegs(ins)) :: (d, l)
  }

  ghost function BlockPairs(instrs: seq<Instr>, out: set<nat>): set<(nat, nat)> {
    if instrs == [] then {}
    else LivePairs(instrs[0], LiveBefore(Accesses(instrs[1..]), out)) + BlockPairs(instrs[1..], out)
  }

  /** Pairs of the first n blocks. */
  ghost function FunctionPairs(f: Function, liveOut: seq<set<nat>>, n: nat): set<(nat, nat)>
    requires n <= |f.blocks| == |liveOut|
  {
    if n == 0 then {} else FunctionPairs(f, liveOut, n - 1) + BlockPairs(f.blocks[n - 1].instrs, liveOut[n - 1])
  }

  /** Definitions of one instruction meet each other. */
  ghost function DefinedPairs(instrs: seq<Instr>): set<(nat, nat)> {
    if instrs == [] then {} else SomeDefPairs(DefRegs(instrs[0]), DefRegs(instrs[0]), {}) + DefinedPairs(instrs[1..])
  }

  ghost function AllDefinedPairs(f: Function, n: nat): set<(nat, nat)>
    requires n <= |f.blocks|
  {
    if n == 0 then {} else AllDefinedPairs(f, n - 1) + DefinedPairs(f.blocks[n - 1].instrs)
  }

  /** May an edge join these registers? */
  predicate Joins(cls: map<nat, RegClass>, u: nat, v: nat) {
    u != v && u in cls && v in cls && SameBank(cls[u], cls[v])
  }

  /** after is before plus the joinable ones among pairs, in both directions. */
  ghost predicate Added(cls: map<nat, RegClass>, before: set<(nat, nat)>, pairs: set<(nat, nat)>,
                        after: set<(nat, nat)>) {
    forall u: nat, v: nat :: (u, v) in after <==>
                             (u, v) in before || (Joins(cls, u, v) && ((u, v) in pairs || (v, u) in pairs))
  }

  lemma AddedTwice(cls: map<nat, RegClass>, a: set<(nat, nat)>, p: set<(nat, nat)>, b: set<(nat, nat)>,
                   q: set<(nat, nat)>, c: set<(nat, nat)>, r: set<(nat, nat)>)
    requires Added(cls, a, p, b) && Added(cls, b, q, c) && r == p + q
    ensures Added(cls, a, r, c)
  {
  }

  /** The graph's nodes are exactly the classified registers. */
  ghost predicate GraphOver(g: InterferenceGraph, cls: map<nat, RegClass>) {
    && |g.nodes| == |g.classes|
    && (forall r :: r in cls <==> r in g.nodes)
    && (forall i :: 0 <= i < |g.nodes| ==> g.nodes[i] in cls && g.classes[i] == cls[g.nodes[i]])
  }

  method Connect(u: nat, v: nat, graph: InterferenceGraph, ghost cls: map<nat, RegClass>)
    requires graph.Valid() && GraphOver(graph, cls)
    modifies graph`grid, graph.edges, graph.degrees
    ensures graph.Valid() && Added(cls, old(graph.Edges()), {(u, v)}, graph.Edges())
  {
    var added := graph.AddEdge(u, v);
    assert graph.Joinable(u, v) <==> Joins(cls, u, v);
  }

  /** Pairs of one definition with live registers. */
  ghost function DefPairs(d: nat, live: set<nat>, skip: set<nat>): set<(nat, nat)> {
    set l | l in live && l !in skip :: (d, l)
  }

  /** Edges between one definition and a set of live registers. */
  method ConnectDef(d: nat, live: set<nat>, skip: set<nat>, graph: InterferenceGraph, ghost cls: map<nat, RegClass>)
    requires graph.Valid() && GraphOver(graph, cls)
    modifies graph`grid, graph.edges, graph.degrees
    ensures graph.Valid() && Added(cls, old(graph.Edges()), DefPairs(d, live, skip), graph.Edges())
  {
    var left := live;
    ghost var before := graph.Edges();
    while left != {}
      invariant graph.Valid() && left <= live
      invariant Added(cls, before, DefPairs(d, live - left, skip), graph.Edges())
      decreases left
    {
      var l :| l in left;
      ghost var mid, done := graph.Edges(), DefPairs(d, live - left, skip);
      left := left - {l};
      if l !in skip {
        Connect(d, l, graph, cls);
        AddedTwice(cls, before, done, mid, {(d, l)}, graph.Edges(), DefPairs(d, live - left, skip));
      } else {
        assert DefPairs(d, live - left, skip) == done;
      }
    }
    assert live - left == live;
  }

  ghost function SomeDefPairs(ds: set<nat>, live: set<nat>, skip: set<nat>): set<(nat, nat)> {
    set d, l | d in ds && l in live && l !in skip :: (d, l)
  }

  method ConnectInstr(ins: Instr, live: set<nat>, graph: InterferenceGraph, ghost cls: map<nat, RegClass>)
    requires graph.Valid() && GraphOver(graph, cls)
    modifies graph`grid, graph.edges, graph.degrees
    ensures graph.Valid() && Added(cls, old(graph.Edges()), LivePairs(ins, live), graph.Edges())
  {
    var skip := if ins.op.COPY? then UseRegs(ins) else {};
    var left := DefRegs(ins);
    ghost var before, all := graph.Edges(), DefRegs(ins);
    while left != {}
      invariant graph.Valid() && left <= all
      invariant Added(cls, before, SomeDefPairs(all - left, live, skip), graph.Edges())
      decreases left
    {
      var d :| d in left;
      ghost var mid, done := graph.Edges(), SomeDefPairs(all - left, live, skip);
      ConnectDef(d, live, skip, graph, cls);
      left := left - {d};
      AddedTwice(cls, before, done, mid, DefPairs(d, live, skip), graph.Edges(), SomeDefPairs(all - left, live, skip));
    }
    assert all - left == all;
    assert LivePairs(ins, live) == SomeDefPairs(all, live, skip);
  }

  /** The reverse walk over one block. */
  method ConnectBlock(instrs: seq<Instr>, out: set<nat>, graph: InterferenceGraph, ghost cls: map<nat, RegClass>)
    requires graph.Valid() && GraphOver(graph, cls)
    modifies graph`grid, graph.edges, graph.degrees
    ensures graph.Valid() && Added(cls, old(graph.Edges()), BlockPairs(instrs, out), graph.Edges())
  {
    var live := out;
    ghost var before := graph.Edges();
    for i := |instrs| downto 0
      invariant graph.Valid()
      invariant live == LiveBefore(Accesses(instrs[i..]), out)
      invariant Added(cls, before, BlockPairs(instrs[i..], out), graph.Edges())
    {
      assert instrs[i..][1..] == instrs[i + 1..];
      assert Accesses(instrs[i..])[1..] == Accesses(instrs[i + 1..]);
      ghost var mid := graph.Edges();
      ConnectInstr(instrs[i], live, graph, cls);
      AddedTwice(cls, before, BlockPairs(instrs[i + 1..], out), mid, LivePairs(instrs[i], live), graph.Edges(),
                 BlockPairs(instrs[i..], out));
      live := (live - DefRegs(instrs[i])) + UseRegs(instrs[i]);
    }
    assert instrs[0..] == instrs;
  }

  ghost function AsSet(pairs: seq<(nat, nat)>): set<(nat, nat)> {
    set e: (nat, nat) | e in pairs
  }

  method ConnectExtra(extra: seq<(nat, nat)>, graph: InterferenceGraph, ghost cls: map<nat, RegClass>)
    requires graph.Valid() && GraphOver(graph, cls)
    modifies graph`grid, graph.edges, graph.degrees
    ensures graph.Valid() && Added(cls, old(graph.Edges()), AsSet(extra), graph.Edges())
  {
    ghost var before := graph.Edges();
    for i := 0 to |extra|
      invariant graph.Valid()
      invariant Added(cls, before, AsSet(extra[..i]), graph.Edges())
    {
      ghost var mid := graph.Edges();
      Connect(extra[i].0, extra[i].1, graph, cls);
      assert extra[..i + 1] == extra[..i] + [extra[i]];
      AddedTwice(cls, before, AsSet(extra[..i]), mid, {extra[i]}, graph.Edges(), AsSet(extra[..i + 1]));
    }
    assert extra[..|extra|] == extra;
  }

  /** Edges between the definitions of each instruction of a block. */
  method ConnectDefined(instrs: seq<Instr>, graph: InterferenceGraph, ghost cls: map<nat, RegClass>)
    requires graph.Valid() && GraphOver(graph, cls)
    modifies graph`grid, graph.edges, graph.degrees
    ensures graph.Valid() && Added(cls, old(graph.Edges()), DefinedPairs(instrs), graph.Edges())
  {
    ghost var before := graph.Edges();
    for i := |instrs| downto 0
      invariant graph.Valid() && Added(cls, before, DefinedPairs(instrs[i..]), graph.Edges())
    {
      assert instrs[i..][1..] == instrs[i + 1..];
      ghost var mid, all := graph.Edges(), DefRegs(instrs[i]);
      var left := DefRegs(instrs[i]);
      while left != {}
        invariant graph.Valid() && left <= all
        invariant Added(cls, mid, SomeDefPairs(all - left, all, {}), graph.Edges())
        decreases left
      {
        var d :| d in left;
        ghost var now, done := graph.Edges(), SomeDefPairs(all - left, all, {});
        ConnectDef(d, DefRegs(instrs[i]), {}, graph, cls);
        left := left - {d};
        AddedTwice(cls, mid, done, now, DefPairs(d, all, {}), graph.Edges(), SomeDefPairs(all - left, all, {}));
      }
      assert all - left == all;
      AddedTwice(cls, before, DefinedPairs(instrs[i + 1..]), mid, SomeDefPairs(all, all, {}), graph.Edges(),
                 DefinedPairs(instrs[i..]));
    }
    assert instrs[0..] == instrs;
  }

  /** The whole interference graph: tied and early-clobber constraints come as extra pairs. */
  method BuildInterference(f: Function, liveOut: seq<set<nat>>, extra: seq<(nat, nat)>, graph: InterferenceGraph,
                           ghost cls: map<nat, RegClass>)
    requires graph.Valid() && GraphOver(graph, cls) && |liveOut| == |f.blocks|
    modifies graph`grid, graph.edges, graph.degrees
    ensures graph.Valid()
    ensures Added(cls, old(graph.Edges()),
                  AsSet(extra) + AllDefinedPairs(f, |f.blocks|) + FunctionPairs(f, liveOut, |f.blocks|), graph.Edges())
  {
    ghost var before := graph.Edges();
    ConnectExtra(extra, graph, cls);
    ghost var fixed := AsSet(extra);
    for b := 0 to |f.blocks|
      invariant graph.Valid()
      invariant Added(cls, before, fixed + AllDefinedPairs(f, b), graph.Edges())
    {
      ghost var mid := graph.Edges();
      ConnectDefined(f.blocks[b].instrs, graph, cls);
      AddedTwice(cls, before, fixed + AllDefinedPairs(f, b), mid, DefinedPairs(f.blocks[b].instrs), graph.Edges(),
                 fixed + AllDefinedPairs(f, b + 1));
    }
    fixed := fixed + AllDefinedPairs(f, |f.blocks|);
    for b := 0 to |f.blocks|
      invariant graph.Valid()
      invariant Added(cls, before, fixed + FunctionPairs(f, liveOut, b), graph.Edges())
    {
      ghost var mid := graph.Edges();
      ConnectBlock(f.blocks[b].instrs, liveOut[b], graph, cls);
      AddedTwice(cls, before, fixed + FunctionPairs(f, liveOut, b), mid,
                 BlockPairs(f.blocks[b].instrs, liveOut[b]), graph.Edges(), fixed + FunctionPairs(f, liveOut, b + 1));
    }
  }

  // ----- What the edges mean -----

  /** Some instruction writes u while v is needed later on some path, unless it copies v to u, or it
      writes both. */
  ghost predicate Interferes(f: Function, u: nat, v: nat)
    requires ValidFunction(f)
  {
    exists b, i :: 0 <= b < |f.blocks| && 0 <= i < |f.blocks[b].instrs| && InterferesAt(f, b, i, u, v)
  }

  ghost predicate InterferesAt(f: Function, b: nat, i: nat, u: nat, v: nat)
    requires ValidFunction(f) && b < |f.blocks| && i < |f.blocks[b].instrs|
  {
    var ins := f.blocks[b].instrs[i];
    && (exists o :: o in ins.operands && o.isDef && o.reg == u)
    && ((exists o :: o in ins.operands && o.isDef && o.reg == v)
        || (PathLive(FlowOf(f), b, i + 1, v)
            && !(ins.op.COPY? && exists o :: o in ins.operands && !o.isDef && o.reg == v)))
  }

  lemma {:induction false} DefinedPairIn(instrs: seq<Instr>, u: nat, v: nat)
    ensures (u, v) in DefinedPairs(instrs) <==>
            exists i :: 0 <= i < |instrs| && u in DefRegs(instrs[i]) && v in DefRegs(instrs[i])
  {
    if instrs != [] {
      DefinedPairIn(instrs[1..], u, v);
      assert (u, v) in SomeDefPairs(DefRegs(instrs[0]), DefRegs(instrs[0]), {}) <==>
        u in DefRegs(instrs[0]) && v in DefRegs(instrs[0]);
      forall i | 0 <= i < |instrs| && u in DefRegs(instrs[i]) && v in DefRegs(instrs[i])
        ensures (u, v) in DefinedPairs(instrs)
      {
        if i > 0 { assert instrs[1..][i - 1] == instrs[i]; }
      }
    }
  }

  lemma {:induction false} LivePairIn(instrs: seq<Instr>, out: set<nat>, u: nat, v: nat)
    ensures (u, v) in BlockPairs(instrs, out) <==>
            exists i :: 0 <= i < |instrs| && (u, v) in LivePairs(instrs[i], LiveBefore(Accesses(instrs[i + 1..]), out))
  {
    hide LiveBefore, LivePairs;
    if instrs != [] {
      var rest := instrs[1..];
      LivePairIn(rest, out, u, v);
      if j :| 0 <= j < |rest| && (u, v) in LivePairs(rest[j], LiveBefore(Accesses(rest[j + 1..]), out)) {
        assert instrs[j + 1] == rest[j] && instrs[j + 2..] == rest[j + 1..];
        assert (u, v) in LivePairs(instrs[j + 1], LiveBefore(Accesses(instrs[j + 1 + 1..]), out));
      }
      forall i | 0 <= i < |instrs| && (u, v) in LivePairs(instrs[i], LiveBefore(Accesses(instrs[i + 1..]), out))
        ensures (u, v) in BlockPairs(instrs, out)
      {
        if i > 0 { assert rest[i - 1] == instrs[i] && rest[i..] == instrs[i + 1..]; }
      }
    }
  }

  lemma {:induction false} PairsOfBlocks(f: Function, liveOut: seq<set<nat>>, n: nat, u: nat, v: nat)
    requires n <= |f.blocks| == |liveOut|
    ensures (u, v) in AllDefinedPairs(f, n) <==> exists b :: 0 <= b < n && (u, v) in DefinedPairs(f.blocks[b].instrs)
    ensures (u, v) in FunctionPairs(f, liveOut, n) <==>
            exists b :: 0 <= b < n && (u, v) in BlockPairs(f.blocks[b].instrs, liveOut[b])
  {
    hide DefinedPairs, BlockPairs;
    if n > 0 { PairsOfBlocks(f, liveOut, n - 1, u, v); }
  }

  lemma LiveAfterIs(f: Function, liveIn: seq<set<nat>>, liveOut: seq<set<nat>>, b: nat, i: nat, v: nat)
    requires ValidFunction(f) && ExactAtBlockEnds(f, liveIn, liveOut) && b < |f.blocks| && i <= |f.blocks[b].instrs|
    ensures v in LiveBefore(Accesses(f.blocks[b].instrs[i..]), liveOut[b]) <==> PathLive(FlowOf(f), b, i, v)
  {
    var g := FlowOf(f);
    PathLiveUnfolds(g, b, |f.blocks[b].instrs|, v);
    assert g.blocks[b][i..] == Accesses(f.blocks[b].instrs[i..]);
    WalkIsExact(g, b, i, liveOut[b], v);
  }

  /** With exact liveness the pairs are exactly the interferences. */
  lemma PairsAreInterferences(f: Function, liveIn: seq<set<nat>>, liveOut: seq<set<nat>>, u: nat, v: nat)
    requires ValidFunction(f) && ExactAtBlockEnds(f, liveIn, liveOut)
    ensures (u, v) in AllDefinedPairs(f, |f.blocks|) + FunctionPairs(f, liveOut, |f.blocks|) <==> Interferes(f, u, v)
  {
    hide LiveBefore, PathLive, DefinedPairs, BlockPairs;
    PairsOfBlocks(f, liveOut, |f.blocks|, u, v);
    forall b | 0 <= b < |f.blocks|
      ensures (u, v) in DefinedPairs(f.blocks[b].instrs) || (u, v) in BlockPairs(f.blocks[b].instrs, liveOut[b]) <==>
              exists i :: 0 <= i < |f.blocks[b].instrs| && InterferesAt(f, b, i, u, v)
    {
      BlockInterferences(f, liveIn, liveOut, b, u, v);
    }
  }

  lemma BlockInterferences(f: Function, liveIn: seq<set<nat>>, liveOut: seq<set<nat>>, b: nat, u: nat, v: nat)
    requires ValidFunction(f) && ExactAtBlockEnds(f, liveIn, liveOut) && b < |f.blocks|
    ensures (u, v) in DefinedPairs(f.blocks[b].instrs) || (u, v) in BlockPairs(f.blocks[b].instrs, liveOut[b]) <==>
            exists i :: 0 <= i < |f.blocks[b].instrs| && InterferesAt(f, b, i, u, v)
  {
    hide LiveBefore, PathLive;
    var instrs := f.blocks[b].instrs;
    DefinedPairIn(instrs, u, v);
    LivePairIn(instrs, liveOut[b], u, v);
    hide DefinedPairs, BlockPairs;
    forall i | 0 <= i < |instrs|
      ensures InterferesAt(f, b, i, u, v) <==>
              (u in DefRegs(instrs[i]) && v in DefRegs(instrs[i]))
              || (u, v) in LivePairs(instrs[i], LiveBefore(Accesses(instrs[i + 1..]), liveOut[b]))
    {
      LiveAfterIs(f, liveIn, liveOut, b, i + 1, v);
      InstrInterferes(instrs[i], LiveBefore(Accesses(instrs[i + 1..]), liveOut[b]), u, v);
    }
  }

  lemma InstrInterferes(ins: Instr, after: set<nat>, u: nat, v: nat)
    ensures (u, v) in LivePairs(ins, after) <==>
            (exists o :: o in ins.operands && o.isDef && o.reg == u) && v in after
            && !(ins.op.COPY? && exists o :: o in ins.operands && !o.isDef && o.reg == v)
    ensures forall r: nat :: r in DefRegs(ins) <==> exists o :: o in ins.operands && o.isDef && o.reg == r
  {
  }

  lemma {:induction false} AcrossIn(instrs: seq<Instr>, out: set<nat>, r: nat)
    ensures r in LiveAcross(instrs, out) <==>
            exists i :: 0 <= i < |instrs| && instrs[i].op.CALL? && r in LiveBefore(Accesses(instrs[i + 1..]), out)
  {
    hide LiveBefore;
    if instrs != [] {
      var rest := instrs[1..];
      AcrossIn(rest, out, r);
      if j :| 0 <= j < |rest| && rest[j].op.CALL? && r in LiveBefore(Accesses(rest[j + 1..]), out) {
        assert instrs[j + 1] == rest[j] && instrs[j + 1 + 1..] == rest[j + 1..];
      }
      forall i | 0 <= i < |instrs| && instrs[i].op.CALL? && r in LiveBefore(Accesses(instrs[i + 1..]), out)
        ensures r in LiveAcross(instrs, out)
      {
        if i > 0 { assert rest[i - 1] == instrs[i] && rest[i..] == instrs[i + 1..]; }
      }
    }
  }

  /** Some path needs r after some call. */
  ghost predicate CrossesCall(f: Function, r: nat)
    requires ValidFunction(f)
  {
    exists b, i :: 0 <= b < |f.blocks| && 0 <= i < |f.blocks[b].instrs|
                   && f.blocks[b].instrs[i].op.CALL? && PathLive(FlowOf(f), b, i + 1, r)
  }

  lemma AcrossIsCrossing(f: Function, liveIn: seq<set<nat>>, liveOut: seq<set<nat>>, crosses: set<nat>, r: nat)
    requires ValidFunction(f) && ExactAtBlockEnds(f, liveIn, liveOut)
    requires r in crosses <==> exists b :: 0 <= b < |f.blocks| && r in LiveAcross(f.blocks[b].instrs, liveOut[b])
    ensures r in crosses <==> CrossesCall(f, r)
  {
    hide LiveBefore, PathLive;
    forall b | 0 <= b < |f.blocks|
      ensures r in LiveAcross(f.blocks[b].instrs, liveOut[b]) <==>
              exists i :: 0 <= i < |f.blocks[b].instrs| && f.blocks[b].instrs[i].op.CALL?
                          && PathLive(FlowOf(f), b, i + 1, r)
    {
      var instrs := f.blocks[b].instrs;
      AcrossIn(instrs, liveOut[b], r);
      forall i | 0 <= i < |instrs| && instrs[i].op.CALL?
        ensures r in LiveBefore(Accesses(instrs[i + 1..]), liveOut[b]) <==> PathLive(FlowOf(f), b, i + 1, r)
      {
        LiveAfterIs(f, liveIn, liveOut, b, i + 1, r);
      }
    }
  }

  // ----- From a proper coloring to a proper allocation -----

  lemma {:induction false} PairInBlock(instrs: seq<Instr>, out: set<nat>, i: nat, d: nat, l: nat)
    requires i < |instrs|
    requires (d, l) in LivePairs(instrs[i], LiveBefore(Accesses(instrs[i + 1..]), out))
    ensures (d, l) in BlockPairs(instrs, out)
    decreases i
  {
    if i > 0 {
      assert instrs[1..][i - 1] == instrs[i] && instrs[1..][i..] == instrs[i + 1..];
      PairInBlock(instrs[1..], out, i - 1, d, l);
    }
  }

  lemma {:induction false} PairInFunction(f: Function, liveOut: seq<set<nat>>, n: nat, b: nat, i: nat, d: nat, l: nat)
    requires b < n <= |f.blocks| == |liveOut| && i < |f.blocks[b].instrs|
    requires (d, l) in LivePairs(f.blocks[b].instrs[i], LiveBefore(Accesses(f.blocks[b].instrs[i + 1..]), liveOut[b]))
    ensures (d, l) in FunctionPairs(f, liveOut, n)
  {
    if b == n - 1 {
      PairInBlock(f.blocks[b].instrs, liveOut[b], i, d, l);
    } else {
      PairInFunction(f, liveOut, n - 1, b, i, d, l);
    }
  }

  lemma {:induction false} AcrossBlock(instrs: seq<Instr>, out: set<nat>, i: nat)
    requires i < |instrs| && instrs[i].op.CALL?
    ensures LiveBefore(Accesses(instrs[i + 1..]), out) <= LiveAcross(instrs, out)
    decreases i
  {
    if i > 0 {
      assert instrs[1..][i - 1] == instrs[i] && instrs[1..][i..] == instrs[i + 1..];
      AcrossBlock(instrs[1..], out, i - 1);
    }
  }

  /** Registers of different banks never share a color. */
  lemma BanksApart(a: RegClass, b: RegClass, x: nat, y: nat)
    requires InBank(x, a) && InBank(y, b) && !SameBank(a, b)
    ensures x != y
  {
  }

  /** Everything an instruction mentions is a known virtual register of the recorded class. */
  ghost predicate InstrTyped(ins: Instr, t: Typing) {
    WellFormed(ins) && MoveTyped(ins, t)
    && forall o :: o in ins.operands ==> o.reg in t.cls && o.cls == t.cls[o.reg]
  }

  ghost predicate FunctionTyped(f: Function, t: Typing) {
    ValidFunction(f)
    && forall b, i :: 0 <= b < |f.blocks| && 0 <= i < |f.blocks[b].instrs| ==> InstrTyped(f.blocks[b].instrs[i], t)
  }

  lemma {:induction false} LiveIsKnown(instrs: seq<Instr>, out: set<nat>, t: Typing)
    requires forall i :: 0 <= i < |instrs| ==> InstrTyped(instrs[i], t)
    requires out <= t.cls.Keys
    ensures LiveBefore(Accesses(instrs), out) <= t.cls.Keys
  {
    if instrs != [] {
      assert Accesses(instrs)[1..] == Accesses(instrs[1..]);
      LiveIsKnown(instrs[1..], out, t);
      assert InstrTyped(instrs[0], t);
    }
  }

  /** What a finished coloring guarantees at one instruction. */
  lemma ProperHere(f: Function, t: Typing, ctx: Context, edges: set<(nat, nat)>, colors: map<nat, nat>,
                   liveOut: seq<set<nat>>, b: nat, i: nat)
    requires FunctionTyped(f, t) && |liveOut| == |f.blocks| && b < |f.blocks| && i < |f.blocks[b].instrs|
    requires ctx.cls == t.cls && Proper(ctx, edges, colors) && colors.Keys == t.cls.Keys
    requires liveOut[b] <= t.cls.Keys
    requires LiveAcross(f.blocks[b].instrs, liveOut[b]) <= ctx.crosses
    requires forall u, v :: (u, v) in FunctionPairs(f, liveOut, |f.blocks|) && Joins(t.cls, u, v) ==> (u, v) in edges
    ensures ProperAt(f.blocks[b].instrs[i], LiveBefore(Accesses(f.blocks[b].instrs[i + 1..]), liveOut[b]), t, colors)
  {
    var instrs := f.blocks[b].instrs;
    var ins, after := instrs[i], LiveBefore(Accesses(instrs[i + 1..]), liveOut[b]);
    assert InstrTyped(ins, t);
    var rest := instrs[i + 1..];
    forall j | 0 <= j < |rest| ensures InstrTyped(rest[j], t) {
      assert InstrTyped(instrs[i + 1 + j], t);
    }
    LiveIsKnown(instrs[i + 1..], liveOut[b], t);
    forall d, l | d in DefRegs(ins) && l in after && d != l && !(ins.op.COPY? && l in UseRegs(ins))
      ensures colors[d] != colors[l]
    {
      assert (d, l) in LivePairs(ins, after);
      PairInFunction(f, liveOut, |f.blocks|, b, i, d, l);
      if SameBank(t.cls[d], t.cls[l]) {
        assert (d, l) in edges;
      } else {
        BanksApart(t.cls[d], t.cls[l], colors[d], colors[l]);
      }
    }
    if ins.op.CALL? {
      AcrossBlock(instrs, liveOut[b], i);
      forall l | l in after ensures IsCalleeSaved(colors[l]) && t.cls[l] != NEON128 {
        assert ctx.Legal(l, colors[l]);
        UnreservedIsPreserved(colors[l], t.cls[l]);
      }
    }
  }

  /** The registers mentioned in a function. */
  ghost predicate Known(f: Function, intervals: seq<Interval>, t: Typing) {
    && FunctionTyped(f, t) && 0 !in t.cls
    && (forall i, j :: 0 <= i < j < |intervals| ==> intervals[i].reg != intervals[j].reg)
    && (forall i :: 0 <= i < |intervals| ==> intervals[i].reg in t.cls && t.cls[intervals[i].reg] == intervals[i].cls)
    && (forall r :: r in t.cls ==> exists i :: 0 <= i < |intervals| && intervals[i].reg == r)
  }

  /** Live sets mention only registers of the function. */
  lemma LiveOutKnown(f: Function, t: Typing, liveOut: seq<set<nat>>, b: nat)
    requires FunctionTyped(f, t) && |liveOut| == |f.blocks| && b < |f.blocks|
    requires forall r :: r in liveOut[b] <==> PathLive(FlowOf(f), b, |f.blocks[b].instrs|, r)
    ensures liveOut[b] <= t.cls.Keys
  {
    forall r | r in liveOut[b] ensures r in t.cls {
      var k: nat :| LiveWithin(FlowOf(f), b, |f.blocks[b].instrs|, r, k);
      LiveIsUsed(f, t, b, |f.blocks[b].instrs|, r, k);
    }
  }

  lemma {:induction false} LiveIsUsed(f: Function, t: Typing, b: nat, i: nat, r: nat, k: nat)
    requires FunctionTyped(f, t) && b < |f.blocks| && i <= |f.blocks[b].instrs|
    requires LiveWithin(FlowOf(f), b, i, r, k)
    ensures r in t.cls
    decreases k
  {
    if i < |f.blocks[b].instrs| {
      assert InstrTyped(f.blocks[b].instrs[i], t);
      if r !in UseRegs(f.blocks[b].instrs[i]) { LiveIsUsed(f, t, b, i + 1, r, k - 1); }
    } else {
      var s :| s in FlowOf(f).succs[b] && LiveWithin(FlowOf(f), s, 0, r, k - 1);
      LiveIsUsed(f, t, s, 0, r, k - 1);
    }
  }

  /** Exact block-end sets are closed under control flow. */
  lemma ExactIsClosed(f: Function, liveIn: seq<set<nat>>, liveOut: seq<set<nat>>, b: nat, s: nat)
    requires ValidFunction(f) && ExactAtBlockEnds(f, liveIn, liveOut)
    requires b < |f.blocks| && s in f.blocks[b].succs
    ensures LiveBefore(Accesses(f.blocks[s].instrs), liveOut[s]) <= liveOut[b]
  {
    var g := FlowOf(f);
    forall r | r in LiveBefore(Accesses(f.blocks[s].instrs), liveOut[s]) ensures r in liveOut[b] {
      PathLiveUnfolds(g, s, |f.blocks[s].instrs|, r);
      assert g.blocks[s][0..] == g.blocks[s];
      WalkIsExact(g, s, 0, liveOut[s], r);
      PathLiveUnfolds(g, b, |f.blocks[b].instrs|, r);
    }
  }

  /** Affinities, hints and ties given to the coloring stay inside one bank. */
  ghost predicate BankSafe(t: Typing, ties: Ties, hints: map<nat, seq<nat>>, affinities: map<nat, seq<Affinity>>,
                           copies: seq<AffinityEdge>) {
    && (forall r, a :: r in affinities && a in affinities[r] && r in t.cls && a.partner in t.cls ==>
                         SameBank(t.cls[r], t.cls[a.partner]))
    && (forall r :: r in t.cls && ties.Partner(r) != 0 ==>
                      ties.Partner(r) in t.cls && SameBank(t.cls[r], t.cls[ties.Partner(r)]))
    && (forall r, h :: r in hints && h in hints[r] && r in t.cls ==> InBank(h, t.cls[r]))
    && (forall e :: e in copies ==> e.lhs in t.cls && e.rhs in t.cls && SameBank(t.cls[e.lhs], t.cls[e.rhs]))
  }

  /** Registers live across some call. */
  method AcrossCalls(f: Function, liveOut: seq<set<nat>>) returns (crosses: set<nat>)
    requires |liveOut| == |f.blocks|
    ensures forall b :: 0 <= b < |f.blocks| ==> LiveAcross(f.blocks[b].instrs, liveOut[b]) <= crosses
    ensures forall r :: r in crosses ==>
      exists b :: 0 <= b < |f.blocks| && r in LiveAcross(f.blocks[b].instrs, liveOut[b])
  {
    crosses := {};
    for b := 0 to |f.blocks|
      invariant forall a :: 0 <= a < b ==> LiveAcross(f.blocks[a].instrs, liveOut[a]) <= crosses
      invariant forall r :: r in crosses ==> exists a :: 0 <= a < b && r in LiveAcross(f.blocks[a].instrs, liveOut[a])
    {
      crosses := CollectAcrossCalls(f.blocks[b].instrs, liveOut[b], crosses);
    }
  }

  lemma ProperEverywhere(f: Function, t: Typing, ctx: Context, edges: set<(nat, nat)>, colors: map<nat, nat>,
                         liveIn: seq<set<nat>>, liveOut: seq<set<nat>>, fixed: set<(nat, nat)>)
    requires FunctionTyped(f, t) && ExactAtBlockEnds(f, liveIn, liveOut)
    requires ctx.cls == t.cls && Proper(ctx, edges, colors) && colors.Keys == t.cls.Keys
    requires forall b :: 0 <= b < |f.blocks| ==> LiveAcross(f.blocks[b].instrs, liveOut[b]) <= ctx.crosses
    requires Added(t.cls, {}, fixed + FunctionPairs(f, liveOut, |f.blocks|), edges)
    ensures ProperAllocation(f, t, colors, liveOut)
  {
    forall b | 0 <= b < |f.blocks| ensures ProperBlock(f.blocks[b].instrs, liveOut[b], t, colors) {
      LiveOutKnown(f, t, liveOut, b);
      forall i | 0 <= i < |f.blocks[b].instrs|
        ensures ProperAt(f.blocks[b].instrs[i], LiveBefore(Accesses(f.blocks[b].instrs[i + 1..]), liveOut[b]), t,
                         colors)
      {
        ProperHere(f, t, ctx, edges, colors, liveOut, b, i);
      }
    }
    forall b, s | 0 <= b < |f.blocks| && s in f.blocks[b].succs
      ensures LiveBefore(Accesses(f.blocks[s].instrs), liveOut[s]) <= liveOut[b]
    {
      ExactIsClosed(f, liveIn, liveOut, b, s);
    }
  }

  lemma EdgesAreJoins(cls: map<nat, RegClass>, pairs: set<(nat, nat)>, edges: set<(nat, nat)>)
    requires Added(cls, {}, pairs, edges)
    ensures Symmetric(edges)
    ensures forall u, v :: (u, v) in edges ==> u in cls && v in cls && SameBank(cls[u], cls[v])
  {
  }

  /** Colors every register of the graph, joining pairs at the end, or reports spills. */
  method ColorGraph(ctx: Context, graph: InterferenceGraph, ties: Ties, hints: map<nat, seq<nat>>,
                    affinities: map<nat, seq<Affinity>>, copies: seq<AffinityEdge>, ghost t: Typing,
                    ghost pairs: set<(nat, nat)>)
    returns (colors: map<nat, nat>, spills: seq<nat>, ghost colored: map<nat, nat>)
    requires graph.Valid() && ctx.cls == t.cls && 0 !in t.cls && BankSafe(t, ties, hints, affinities, copies)
    requires Added(t.cls, {}, pairs, graph.Edges())
    ensures Proper(ctx, graph.Edges(), colors) && colors.Keys <= ctx.cls.Keys
    ensures spills == [] ==> colors.Keys == ctx.cls.Keys
    ensures (forall r :: r in ctx.cls ==> !ties.Mandatory(r)) && Reducible(ctx, graph.Edges()) ==> spills == []
    ensures Proper(ctx, graph.Edges(), colored) && colored.Keys == colors.Keys
    ensures colors == if spills == [] then Rounds(ctx, graph.Edges(), affinities, colored, copies, 4) else colored
  {
    EdgesAreJoins(t.cls, pairs, graph.Edges());
    var bank := new ColorBank(ctx, graph, ties, hints, affinities);
    bank.ColorBanks();
    spills, colored := bank.spills, bank.assignments;
    if spills == [] {
      bank.Recolor(copies);
    }
    colors := bank.assignments;
  }

  /** What the graph and the context of a round say, by the function alone. */
  ghost predicate Describes(f: Function, ctx: Context, extra: seq<(nat, nat)>, edges: set<(nat, nat)>)
    requires ValidFunction(f)
  {
    && (forall r: nat :: r in ctx.crosses <==> CrossesCall(f, r))
    && (forall u: nat, v: nat :: (u, v) in edges <==>
          Joins(ctx.cls, u, v)
          && ((u, v) in extra || (v, u) in extra || Interferes(f, u, v) || Interferes(f, v, u)))
  }

  lemma RoundDescribed(f: Function, ctx: Context, extra: seq<(nat, nat)>, liveIn: seq<set<nat>>,
                       liveOut: seq<set<nat>>, edges: set<(nat, nat)>)
    requires ValidFunction(f) && ExactAtBlockEnds(f, liveIn, liveOut)
    requires forall b :: 0 <= b < |f.blocks| ==> LiveAcross(f.blocks[b].instrs, liveOut[b]) <= ctx.crosses
    requires forall r :: r in ctx.crosses ==>
      exists b :: 0 <= b < |f.blocks| && r in LiveAcross(f.blocks[b].instrs, liveOut[b])
    requires Added(ctx.cls, {},
                   AsSet(extra) + AllDefinedPairs(f, |f.blocks|) + FunctionPairs(f, liveOut, |f.blocks|), edges)
    ensures Describes(f, ctx, extra, edges)
  {
    hide ExactAtBlockEnds, LiveAcross, Interferes, CrossesCall, AllDefinedPairs, FunctionPairs, Joins;
    forall r: nat ensures r in ctx.crosses <==> CrossesCall(f, r) {
      AcrossIsCrossing(f, liveIn, liveOut, ctx.crosses, r);
    }
    forall u: nat, v: nat
      ensures (u, v) in edges <==>
        Joins(ctx.cls, u, v) && ((u, v) in extra || (v, u) in extra || Interferes(f, u, v) || Interferes(f, v, u))
    {
      PairsAreInterferences(f, liveIn, liveOut, u, v);
      PairsAreInterferences(f, liveIn, liveOut, v, u);
    }
  }

  /** One coloring round.  Success means a proper allocation of the exact live ranges, and a graph that
      simplification clears is success. */
  method ColorOnce(f: Function, intervals: seq<Interval>, ghost t: Typing, cls: map<nat, RegClass>,
                   preferCallerSaved: bool, forbidden: map<nat, set<nat>>, extra: seq<(nat, nat)>,
                   ties: Ties, hints: map<nat, seq<nat>>, affinities: map<nat, seq<Affinity>>,
                   copies: seq<AffinityEdge>)
    returns (ok: bool, colors: map<nat, nat>, spills: seq<nat>, ghost liveIn: seq<set<nat>>,
             ghost liveOut: seq<set<nat>>, ghost crosses: set<nat>, ghost edges: set<(nat, nat)>)
    requires Known(f, intervals, t) && t.cls == cls && NoShadowedReads(f)
    requires BankSafe(t, ties, hints, affinities, copies)
    ensures ExactAtBlockEnds(f, liveIn, liveOut)
    ensures ok <==> spills == []
    ensures ok ==> ProperAllocation(f, t, colors, liveOut) && colors.Keys == cls.Keys
    ensures ok ==> forall r :: r in colors && r in forbidden ==> colors[r] !in forbidden[r]
    ensures Describes(f, Context(cls, crosses, forbidden, preferCallerSaved), extra, edges)
    ensures (forall r :: r in cls ==> !ties.Mandatory(r)) ==>
              Reducible(Context(cls, crosses, forbidden, preferCallerSaved), edges) ==> ok
  {
    var ins, outs := AnalyzeVirtual(f);
    liveIn, liveOut := ins, outs;
    var crossing := AcrossCalls(f, outs);
    var graph := new InterferenceGraph(intervals);
    GraphKnows(f, intervals, t, graph);
    BuildInterference(f, outs, extra, graph, cls);
    var ctx := Context(cls, crossing, forbidden, preferCallerSaved);
    ghost var fixed := AsSet(extra) + AllDefinedPairs(f, |f.blocks|);
    ghost var pairs := fixed + FunctionPairs(f, liveOut, |f.blocks|);
    crosses, edges := crossing, graph.Edges();
    RoundDescribed(f, ctx, extra, liveIn, liveOut, edges);
    ghost var colored;
    colors, spills, colored := ColorGraph(ctx, graph, ties, hints, affinities, copies, t, pairs);
    ok := spills == [];
    if ok {
      ProperEverywhere(f, t, ctx, edges, colors, liveIn, liveOut, fixed);
    }
  }

  /** The graph's nodes are the function's registers, with their classes. */
  lemma GraphKnows(f: Function, intervals: seq<Interval>, t: Typing, g: InterferenceGraph)
    requires Known(f, intervals, t) && |g.nodes| == |g.classes| == |intervals|
    requires forall i :: 0 <= i < |intervals| ==> g.nodes[i] == intervals[i].reg && g.classes[i] == intervals[i].cls
    ensures GraphOver(g, t.cls)
  {
    forall r ensures r in t.cls <==> r in g.nodes {
      if r in t.cls {
        var i :| 0 <= i < |intervals| && intervals[i].reg == r;
        assert g.nodes[i] == r;
      }
    }
  }
}
