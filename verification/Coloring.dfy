/**
 Optimistic graph coloring of one register bank: simplify, select, and the recoloring
 rounds that follow.  Cost, weight and affinity heuristics only order choices; every
 choice they could make is allowed here.
 */
module Coloring {
  import opened Target
  import opened InterferenceGraphs

  const NO_REG: nat := 0

  /** What is known about every virtual register before coloring. */
  datatype Context = Context(cls: map<nat, RegClass>, crosses: set<nat>, forbidden: map<nat, set<nat>>,
                             preferCallerSaved: bool)
  {
    /** May this register take this color, looking at the register alone? */
    predicate Legal(reg: nat, color: nat)
      requires reg in cls
    {
      && !IsReserved(color)
      && !(reg in forbidden && color in forbidden[reg])
      && !(reg in crosses && cls[reg] == NEON128)
      && !(reg in crosses && IsCallerSaved(color))
    }

    function Order(reg: nat): seq<nat> {
      if reg in cls then AllocationOrder(cls[reg], preferCallerSaved) else []
    }

    function LegalColors(reg: nat): set<nat> {
      if reg in cls then set c | c in Order(reg) && Legal(reg, c) else {}
    }
  }

  /** tied use -> def and tied def -> use, with the killed ties separately. */
  datatype Ties = Ties(pairs: map<nat, nat>, defs: map<nat, nat>,
                       mandatoryPairs: map<nat, nat>, mandatoryDefs: map<nat, nat>)
  {
    function Partner(reg: nat): nat {
      if reg in mandatoryDefs then mandatoryDefs[reg]
      else if reg in mandatoryPairs then mandatoryPairs[reg]
      else if reg in pairs && pairs[reg] != 0 then pairs[reg]
      else if reg in defs then defs[reg]
      else 0
    }

    predicate Mandatory(reg: nat) {
      reg in mandatoryPairs || reg in mandatoryDefs
    }
  }

  /** How much it is worth that a register and a partner of it share a color. */
  datatype Affinity = Affinity(partner: nat, weight: real)

  datatype AffinityEdge = AffinityEdge(lhs: nat, rhs: nat, weight: real)

  /** Legal, in its own bank, and different from every colored neighbour. */
  ghost predicate Proper(ctx: Context, edges: set<(nat, nat)>, colors: map<nat, nat>) {
    && (forall r :: r in colors ==> r in ctx.cls && ctx.Legal(r, colors[r]) && InBank(colors[r], ctx.cls[r]))
    && (forall u, v :: (u, v) in edges && u in colors && v in colors ==> colors[u] != colors[v])
  }

  ghost predicate Symmetric(edges: set<(nat, nat)>) {
    forall u, v :: (u, v) in edges ==> (v, u) in edges && u != v
  }

  /** The legal colors by the procedure call standard: registers of the bank that are not forbidden; a value
      that lives across a call needs one that calls preserve, and no call preserves 128 bits. */
  lemma LegalExactly(ctx: Context, reg: nat, color: nat)
    ensures color in ctx.LegalColors(reg) <==>
              && reg in ctx.cls && InBank(color, ctx.cls[reg])
              && (reg in ctx.forbidden ==> color !in ctx.forbidden[reg])
              && (reg in ctx.crosses ==> IsCalleeSaved(color) && ctx.cls[reg] != NEON128)
  {
    if reg in ctx.cls {
      AllocationOrderIsBank(ctx.cls[reg], ctx.preferCallerSaved, color);
      if InBank(color, ctx.cls[reg]) { UnreservedIsPreserved(color, ctx.cls[reg]); }
    }
  }

  /** Registers named by a context live in the bank of their partners. */
  ghost predicate SameBanks(ctx: Context, affinities: map<nat, seq<Affinity>>) {
    forall r, a :: r in affinities && a in affinities[r] && r in ctx.cls && a.partner in ctx.cls ==>
                     SameBank(ctx.cls[r], ctx.cls[a.partner])
  }

  lemma SameBankSameRegisters(a: RegClass, b: RegClass, color: nat)
    requires SameBank(a, b) && InBank(color, a)
    ensures InBank(color, b)
  {
  }

  ghost function Members(s: seq<nat>): set<nat> {
    set x | x in s
  }

  /** Extending a proper coloring by an allowed color keeps it proper. */
  lemma ExtendProper(ctx: Context, edges: set<(nat, nat)>, colors: map<nat, nat>, reg: nat, color: nat)
    requires Proper(ctx, edges, colors) && Symmetric(edges)
    requires reg in ctx.cls && ctx.Legal(reg, color) && InBank(color, ctx.cls[reg])
    requires forall v :: (reg, v) in edges && v in colors ==> colors[v] != color
    ensures Proper(ctx, edges, colors[reg := color])
  {
  }

  /** Fewer colored neighbours than legal colors leave a color over. */
  lemma ColorRemains(legal: set<nat>, blockers: set<nat>, colors: map<nat, nat>, taken: set<nat>)
    requires |blockers| < |legal|
    requires forall c :: c in taken ==> exists v :: v in blockers && v in colors && colors[v] == c
    ensures exists c :: c in legal && c !in taken
  {
    if legal <= taken {
      var used := set v | v in blockers && v in colors :: colors[v];
      assert legal <= used;
      ImageNoLarger(blockers, colors, used);
      SubsetSize(legal, used);
    }
  }

  lemma {:induction false} ImageNoLarger(vs: set<nat>, colors: map<nat, nat>, image: set<nat>)
    requires image == set v | v in vs && v in colors :: colors[v]
    ensures |image| <= |vs|
    decreases vs
  {
    if vs == {} {
      assert image == {};
    } else {
      var v :| v in vs;
      var rest := set u | u in vs - {v} && u in colors :: colors[u];
      ImageNoLarger(vs - {v}, colors, rest);
      if v in colors {
        assert image == rest + {colors[v]};
      } else {
        assert image == rest;
      }
    }
  }

  lemma {:induction false} SubsetSize(a: set<nat>, b: set<nat>)
    requires a <= b
    ensures |a| <= |b|
    decreases a
  {
    if a != {} {
      var x :| x in a;
      SubsetSize(a - {x}, b - {x});
    }
  }

  // ----- Simplification -----

  /** Neighbours of stack[i] that were still there when it was pushed. */
  ghost function Above(edges: set<(nat, nat)>, stack: seq<nat>, remaining: set<nat>, i: nat): set<nat>
    requires i < |stack|
  {
    NeighborSet(edges, stack[i]) * (remaining + Members(stack[i + 1..]))
  }

  ghost predicate NoRepeats(s: seq<nat>) {
    forall i, j :: 0 <= i < j < |s| ==> s[i] != s[j]
  }

  /** sure marks exactly the registers pushed with fewer remaining neighbours than legal colors. */
  ghost predicate Marks(ctx: Context, edges: set<(nat, nat)>, stack: seq<nat>, remaining: set<nat>, sure: set<nat>) {
    forall i :: 0 <= i < |stack| ==>
                  (stack[i] in sure <==> |Above(edges, stack, remaining, i)| < |ctx.LegalColors(stack[i])|)
  }

  /** Simplification is stuck on s: every register of s has as many neighbours in s as legal colors. */
  ghost predicate Stuck(ctx: Context, edges: set<(nat, nat)>, s: set<nat>) {
    forall r :: r in s ==> |NeighborSet(edges, r) * s| >= |ctx.LegalColors(r)|
  }

  /** A register without the guarantee was pushed only where none was left to be had. */
  ghost predicate OnlyWhenStuck(ctx: Context, edges: set<(nat, nat)>, stack: seq<nat>, remaining: set<nat>,
                                sure: set<nat>) {
    forall i :: 0 <= i < |stack| && stack[i] !in sure ==> Stuck(ctx, edges, remaining + Members(stack[i..]))
  }

  /** The stack lists the nodes once each, marked truthfully, in the order of simplification. */
  ghost predicate Stacked(ctx: Context, edges: set<(nat, nat)>, nodes: set<nat>, stack: seq<nat>, sure: set<nat>) {
    && Members(stack) == nodes && nodes <= ctx.cls.Keys && NoRepeats(stack) && Marks(ctx, edges, stack, {}, sure)
    && OnlyWhenStuck(ctx, edges, stack, {}, sure)
  }

  /** No set of registers among these gets simplification stuck with r in it. */
  ghost predicate Free(ctx: Context, edges: set<(nat, nat)>, nodes: set<nat>, r: nat) {
    forall s: set<nat> :: r in s && s <= nodes ==> !Stuck(ctx, edges, s)
  }

  /** Such a register is pushed with the guarantee, whatever is taken first among equals. */
  lemma FreeIsSure(ctx: Context, edges: set<(nat, nat)>, nodes: set<nat>, stack: seq<nat>, sure: set<nat>, r: nat)
    requires Stacked(ctx, edges, nodes, stack, sure) && r in nodes && Free(ctx, edges, nodes, r)
    ensures r in sure
  {
    assert r in Members(stack);
    var i :| 0 <= i < |stack| && stack[i] == r;
    var left := Members(stack[i..]);
    assert stack[i..][0] == r;
    assert r in left && left <= nodes;
    assert {} + left == left;
  }

  /** The registers of r's bank. */
  ghost function Bank(ctx: Context, r: nat): set<nat>
    requires r in ctx.cls
  {
    set q | q in ctx.cls && IsVectorClass(ctx.cls[q]) == IsVectorClass(ctx.cls[r])
  }

  /** Every set of registers of one bank holds one with fewer neighbours in the set than legal colors. */
  ghost predicate Reducible(ctx: Context, edges: set<(nat, nat)>) {
    forall r, s: set<nat> :: r in ctx.cls && r in s && s <= Bank(ctx, r) ==>
      exists q :: q in s && |NeighborSet(edges, q) * s| < |ctx.LegalColors(q)|
  }

  lemma ReducibleIsFree(ctx: Context, edges: set<(nat, nat)>)
    ensures Reducible(ctx, edges) ==> forall r :: r in ctx.cls ==> Free(ctx, edges, Bank(ctx, r), r)
  {
    if Reducible(ctx, edges) {
      forall r, s: set<nat> | r in ctx.cls && r in s && s <= Bank(ctx, r) ensures !Stuck(ctx, edges, s) {
        var q :| q in s && |NeighborSet(edges, q) * s| < |ctx.LegalColors(q)|;
      }
    }
  }

  /** In particular a register with fewer neighbours than legal colors. */
  lemma LowDegreeIsFree(ctx: Context, edges: set<(nat, nat)>, nodes: set<nat>, r: nat)
    requires |NeighborSet(edges, r)| < |ctx.LegalColors(r)|
    ensures Free(ctx, edges, nodes, r)
  {
    forall s: set<nat> | r in s && s <= nodes ensures !Stuck(ctx, edges, s) {
      SubsetSize(NeighborSet(edges, r) * s, NeighborSet(edges, r));
    }
  }

  /** State of the counters of the simplification loop. */
  ghost predicate Counted(ctx: Context, edges: set<(nat, nat)>, nodes: set<nat>, remaining: set<nat>,
                          degree: map<nat, nat>, available: map<nat, nat>, low: set<nat>) {
    && nodes <= ctx.cls.Keys && remaining <= nodes && low <= remaining
    && nodes <= degree.Keys && nodes <= available.Keys
    && (forall r :: r in nodes ==> available[r] == |ctx.LegalColors(r)|)
    && (forall r :: r in remaining ==> degree[r] == |NeighborSet(edges, r) * remaining|)
    && (forall r :: r in remaining ==> (r in low <==> degree[r] < available[r]))
  }

  /** The counts of the registers seen so far. */
  ghost predicate Tallied(ctx: Context, edges: set<(nat, nat)>, done: set<nat>,
                          degree: map<nat, nat>, available: map<nat, nat>, low: set<nat>) {
    && degree.Keys == done && available.Keys == done && low <= done
    && (forall r :: r in done ==> degree[r] == |NeighborSet(edges, r)| && available[r] == |ctx.LegalColors(r)|)
    && (forall r :: r in done ==> (r in low <==> degree[r] < available[r]))
  }

  lemma TallyOne(ctx: Context, edges: set<(nat, nat)>, nodes: seq<nat>, i: nat, d: nat, a: nat,
                 degree: map<nat, nat>, available: map<nat, nat>, low: set<nat>)
    requires i < |nodes| && NoRepeats(nodes) && Tallied(ctx, edges, Members(nodes[..i]), degree, available, low)
    requires d == |NeighborSet(edges, nodes[i])| && a == |ctx.LegalColors(nodes[i])|
    ensures Tallied(ctx, edges, Members(nodes[..i + 1]), degree[nodes[i] := d], available[nodes[i] := a],
                    if d < a then low + {nodes[i]} else low)
  {
    hide AllocationOrder, Context.Legal, Context.LegalColors, NeighborSet;
    var reg := nodes[i];
    assert nodes[..i + 1] == nodes[..i] + [reg];
    assert Members(nodes[..i + 1]) == Members(nodes[..i]) + {reg};
    assert reg !in nodes[..i];
  }

  lemma TalliedCounts(ctx: Context, edges: set<(nat, nat)>, nodes: set<nat>,
                      degree: map<nat, nat>, available: map<nat, nat>, low: set<nat>)
    requires nodes <= ctx.cls.Keys && Closed(edges, nodes) && Tallied(ctx, edges, nodes, degree, available, low)
    ensures Counted(ctx, edges, nodes, nodes, degree, available, low)
  {
    hide AllocationOrder, Context.Legal, Context.LegalColors, NeighborSet;
    forall r | r in nodes ensures NeighborSet(edges, r) * nodes == NeighborSet(edges, r) {
    }
  }

  /** Pushing a register changes no earlier register's upper neighbours. */
  lemma AbovePush(edges: set<(nat, nat)>, stack: seq<nat>, remaining: set<nat>, reg: nat, i: nat)
    requires Symmetric(edges) && reg in remaining && i <= |stack|
    ensures Above(edges, stack + [reg], remaining - {reg}, i)
            == if i < |stack| then Above(edges, stack, remaining, i) else NeighborSet(edges, reg) * remaining
  {
    var stack' := stack + [reg];
    if i < |stack| {
      assert stack'[i + 1..] == stack[i + 1..] + [reg];
      assert remaining - {reg} + Members(stack'[i + 1..]) == remaining + Members(stack[i + 1..]);
    } else {
      assert (reg, reg) !in edges;
      assert reg !in NeighborSet(edges, reg);
      assert stack'[i + 1..] == [];
    }
  }

  lemma PushedMembers(stack: seq<nat>, reg: nat)
    requires reg !in Members(stack) && NoRepeats(stack)
    ensures Members(stack + [reg]) == Members(stack) + {reg} && NoRepeats(stack + [reg])
  {
    forall i | 0 <= i < |stack| ensures stack[i] != reg {
      assert stack[i] in Members(stack);
    }
  }

  /** The marks stay truthful after one push. */
  lemma PushedMarks(ctx: Context, edges: set<(nat, nat)>, stack: seq<nat>, remaining: set<nat>, reg: nat,
                    sure: set<nat>, certain: bool)
    requires Symmetric(edges) && reg in remaining && reg !in sure && reg !in Members(stack)
    requires Marks(ctx, edges, stack, remaining, sure)
    requires certain <==> |NeighborSet(edges, reg) * remaining| < |ctx.LegalColors(reg)|
    ensures Marks(ctx, edges, stack + [reg], remaining - {reg}, if certain then sure + {reg} else sure)
  {
    var stack', sure' := stack + [reg], if certain then sure + {reg} else sure;
    forall i | 0 <= i < |stack'|
      ensures stack'[i] in sure' <==> |Above(edges, stack', remaining - {reg}, i)| < |ctx.LegalColors(stack'[i])|
    {
      AbovePush(edges, stack, remaining, reg, i);
      if i < |stack| {
        assert stack[i] in Members(stack);
        assert stack[i] in sure <==> |Above(edges, stack, remaining, i)| < |ctx.LegalColors(stack[i])|;
      }
    }
  }

  /** The stack part of the simplification loop's invariant. */
  ghost predicate StackGrows(ctx: Context, edges: set<(nat, nat)>, nodes: set<nat>, stack: seq<nat>,
                             remaining: set<nat>, sure: set<nat>) {
    && Members(stack) == nodes - remaining && remaining <= nodes
    && sure <= nodes - remaining && NoRepeats(stack) && Marks(ctx, edges, stack, remaining, sure)
    && OnlyWhenStuck(ctx, edges, stack, remaining, sure)
  }

  /** Pushing without the guarantee is right where nothing else is left. */
  lemma PushedStuck(ctx: Context, edges: set<(nat, nat)>, stack: seq<nat>, remaining: set<nat>, reg: nat,
                    sure: set<nat>, certain: bool)
    requires reg in remaining && reg !in sure && reg !in Members(stack)
    requires OnlyWhenStuck(ctx, edges, stack, remaining, sure) && (!certain ==> Stuck(ctx, edges, remaining))
    ensures OnlyWhenStuck(ctx, edges, stack + [reg], remaining - {reg}, if certain then sure + {reg} else sure)
  {
    hide Stuck;
    var stack', sure' := stack + [reg], if certain then sure + {reg} else sure;
    forall i | 0 <= i < |stack'| && stack'[i] !in sure'
      ensures Stuck(ctx, edges, remaining - {reg} + Members(stack'[i..]))
    {
      if i < |stack| {
        assert stack'[i..] == stack[i..] + [reg];
        assert remaining - {reg} + Members(stack'[i..]) == remaining + Members(stack[i..]);
        assert stack[i] in Members(stack);
      } else {
        assert stack'[i..] == [reg];
        assert remaining - {reg} + Members(stack'[i..]) == remaining;
      }
    }
  }

  lemma PushStep(ctx: Context, edges: set<(nat, nat)>, nodes: set<nat>, stack: seq<nat>, remaining: set<nat>,
                 sure: set<nat>, reg: nat, certain: bool)
    requires Symmetric(edges) && StackGrows(ctx, edges, nodes, stack, remaining, sure) && reg in remaining
    requires certain <==> |NeighborSet(edges, reg) * remaining| < |ctx.LegalColors(reg)|
    requires !certain ==> Stuck(ctx, edges, remaining)
    ensures StackGrows(ctx, edges, nodes, stack + [reg], remaining - {reg}, if certain then sure + {reg} else sure)
  {
    hide Marks, OnlyWhenStuck, Stuck, Context.LegalColors, NeighborSet;
    PushedMembers(stack, reg);
    PushedMarks(ctx, edges, stack, remaining, reg, sure, certain);
    PushedStuck(ctx, edges, stack, remaining, reg, sure, certain);
    assert nodes - (remaining - {reg}) == nodes - remaining + {reg};
  }

  /** What lowering the neighbours' degrees has to achieve. */
  ghost predicate Lowered(edges: set<(nat, nat)>, reg: nat, remaining: set<nat>, degree0: map<nat, nat>,
                          degree: map<nat, nat>, available: map<nat, nat>, low: set<nat>) {
    && degree.Keys == degree0.Keys && low <= remaining && remaining <= degree.Keys && remaining <= available.Keys
    && (forall r :: r in remaining ==> degree[r] + (if r in NeighborSet(edges, reg) then 1 else 0) == degree0[r])
    && (forall r :: r in remaining ==> (r in low <==> degree[r] < available[r]))
  }

  lemma CountedPush(ctx: Context, edges: set<(nat, nat)>, nodes: set<nat>, remaining: set<nat>, reg: nat,
                    degree0: map<nat, nat>, degree: map<nat, nat>, available: map<nat, nat>,
                    low0: set<nat>, low: set<nat>)
    requires Symmetric(edges) && reg in remaining
    requires Counted(ctx, edges, nodes, remaining, degree0, available, low0)
    requires Lowered(edges, reg, remaining - {reg}, degree0, degree, available, low)
    ensures Counted(ctx, edges, nodes, remaining - {reg}, degree, available, low)
  {
    forall r | r in remaining - {reg} ensures degree[r] == |NeighborSet(edges, r) * (remaining - {reg})| {
      RemovalLowers(edges, remaining, reg, r);
    }
  }

  lemma NeighborIff(edges: set<(nat, nat)>, u: nat, v: nat)
    ensures v in NeighborSet(edges, u) <==> (u, v) in edges
  {
    assert (u, v).0 == u;
  }

  /** Removing a register lowers the remaining degree of exactly its neighbours. */
  lemma RemovalLowers(edges: set<(nat, nat)>, remaining: set<nat>, reg: nat, r: nat)
    requires Symmetric(edges) && reg in remaining
    ensures |NeighborSet(edges, r) * (remaining - {reg})|
            == |NeighborSet(edges, r) * remaining| - (if r in NeighborSet(edges, reg) then 1 else 0)
  {
    var ns := NeighborSet(edges, r);
    if r in NeighborSet(edges, reg) {
      assert (reg, r) in edges;
      assert (r, reg) in edges;
      assert reg in ns;
      assert ns * remaining == ns * (remaining - {reg}) + {reg};
    } else {
      assert (r, reg) in edges ==> (reg, r) in edges;
      assert (reg, r) in edges ==> (reg, r).1 in NeighborSet(edges, reg);
      assert reg !in ns;
      assert ns * remaining == ns * (remaining - {reg});
    }
  }

  lemma OrderNoRepeats(ctx: Context, reg: nat)
    ensures NoRepeats(ctx.Order(reg))
  {
    if reg in ctx.cls {
      forall i, j | 0 <= i < j < |ctx.Order(reg)| ensures ctx.Order(reg)[i] != ctx.Order(reg)[j] {
        AllocationOrderDistinct(ctx.cls[reg], ctx.preferCallerSaved, i, j);
      }
    }
  }

  /** Counts the legal colors of a register. */
  method CountLegal(ctx: Context, reg: nat, order: seq<nat>) returns (count: nat)
    requires reg in ctx.cls && NoRepeats(order)
    ensures count == |set c | c in order && ctx.Legal(reg, c)|
  {
    count := 0;
    ghost var seen: set<nat> := {};
    for i := 0 to |order|
      invariant forall c :: c in seen <==> (exists k :: 0 <= k < i && order[k] == c) && ctx.Legal(reg, c)
      invariant count == |seen|
    {
      if ctx.Legal(reg, order[i]) {
        count := count + 1;
        seen := seen + {order[i]};
      }
    }
    assert seen == set c | c in order && ctx.Legal(reg, c);
  }

  /** The nodes of one bank have all their neighbours among themselves. */
  ghost predicate Closed(edges: set<(nat, nat)>, nodes: set<nat>) {
    forall r :: r in nodes ==> NeighborSet(edges, r) <= nodes
  }

  /** What the selection loop has achieved once entries i.. of the stack are popped. */
  ghost predicate Selecting(ctx: Context, edges: set<(nat, nat)>, ties: Ties, start: map<nat, nat>,
                            stack: seq<nat>, sure: set<nat>, i: nat,
                            colors: map<nat, nat>, spilled: seq<nat>)
  {
    && i <= |stack|
    && Proper(ctx, edges, colors)
    && (forall r :: r in start ==> r in colors && colors[r] == start[r])
    && (forall r :: r in colors ==> r in start || r in stack[i..])
    && (forall r :: r in spilled ==> r in stack[i..] && r !in colors)
    && (forall k :: i <= k < |stack| ==> stack[k] in colors || stack[k] in spilled)
    && (forall k :: i <= k < |stack| && stack[k] in sure && !ties.Mandatory(stack[k]) ==> stack[k] in colors)
  }

  /** A guaranteed register always finds an allowed color. */
  lemma SureHasColor(ctx: Context, edges: set<(nat, nat)>, nodes: set<nat>, stack: seq<nat>, sure: set<nat>, i: nat,
                     start: map<nat, nat>, colors: map<nat, nat>, unavailable: set<nat>)
    requires Stacked(ctx, edges, nodes, stack, sure) && i < |stack| && stack[i] in sure
    requires forall r :: r in colors ==> r in start || r in stack[i + 1..]
    requires forall r, v :: r in nodes && v in start ==> (r, v) !in edges
    requires forall c :: c in unavailable ==>
               exists v :: v in NeighborSet(edges, stack[i]) && v in colors && colors[v] == c
    ensures exists c :: c in ctx.LegalColors(stack[i]) && c !in unavailable
  {
    var reg := stack[i];
    assert reg in Members(stack);
    var above := Above(edges, stack, {}, i);
    forall v | v in NeighborSet(edges, reg) && v in colors ensures v in above {
      assert (reg, v) in edges;
    }
    ColorRemains(ctx.LegalColors(reg), above, colors, unavailable);
  }

  lemma SelectedColor(ctx: Context, edges: set<(nat, nat)>, ties: Ties, start: map<nat, nat>, stack: seq<nat>,
                      sure: set<nat>, i: nat, colors: map<nat, nat>, spilled: seq<nat>, color: nat)
    requires i < |stack| && NoRepeats(stack) && Symmetric(edges) && stack[i] !in start
    requires Selecting(ctx, edges, ties, start, stack, sure, i + 1, colors, spilled)
    requires stack[i] in ctx.cls && ctx.Legal(stack[i], color) && InBank(color, ctx.cls[stack[i]])
    requires forall v :: (stack[i], v) in edges && v in colors ==> colors[v] != color
    ensures Selecting(ctx, edges, ties, start, stack, sure, i, colors[stack[i] := color], spilled)
  {
    var reg := stack[i];
    assert stack[i..] == [reg] + stack[i + 1..];
    assert reg !in stack[i + 1..];
    ExtendProper(ctx, edges, colors, reg, color);
  }

  lemma SelectedSpill(ctx: Context, edges: set<(nat, nat)>, ties: Ties, start: map<nat, nat>, stack: seq<nat>,
                      sure: set<nat>, i: nat, colors: map<nat, nat>, spilled: seq<nat>)
    requires i < |stack| && NoRepeats(stack) && stack[i] !in start
    requires Selecting(ctx, edges, ties, start, stack, sure, i + 1, colors, spilled)
    requires !(stack[i] in sure && !ties.Mandatory(stack[i]))
    ensures Selecting(ctx, edges, ties, start, stack, sure, i, colors, spilled + [stack[i]])
  {
    var reg := stack[i];
    assert stack[i..] == [reg] + stack[i + 1..];
    assert reg !in stack[i + 1..];
    assert reg in spilled + [reg];
  }

  class ColorBank {
    const ctx: Context
    const graph: InterferenceGraph
    const ties: Ties
    const hints: map<nat, seq<nat>>
    const affinities: map<nat, seq<Affinity>>
    var assignments: map<nat, nat>
    var spills: seq<nat>

    /** What the context must satisfy; the code itself never checks banks of partners and hints. */
    ghost predicate Ready()
      reads graph, graph.edges, graph.degrees
    {
      && graph.Valid()
      && Symmetric(graph.Edges())
      && (forall u, v :: (u, v) in graph.Edges() ==>
                           u in ctx.cls && v in ctx.cls && SameBank(ctx.cls[u], ctx.cls[v]))
      && 0 !in ctx.cls
      && SameBanks(ctx, affinities)
      && (forall r :: r in ctx.cls && ties.Partner(r) != 0 ==>
                        ties.Partner(r) in ctx.cls && SameBank(ctx.cls[r], ctx.cls[ties.Partner(r)]))
      && (forall r, h :: r in hints && h in hints[r] && r in ctx.cls ==> InBank(h, ctx.cls[r]))
    }

    constructor (ctx: Context, graph: InterferenceGraph, ties: Ties, hints: map<nat, seq<nat>>,
                 affinities: map<nat, seq<Affinity>>)
      ensures this.ctx == ctx && this.graph == graph && this.ties == ties
      ensures this.hints == hints && this.affinities == affinities
      ensures assignments == map[] && spills == []
    {
      this.ctx, this.graph, this.ties, this.hints, this.affinities := ctx, graph, ties, hints, affinities;
      assignments, spills := map[], [];
    }

    predicate Allowed(reg: nat, unavailable: set<nat>, color: nat)
      requires reg in ctx.cls
    {
      color !in unavailable && ctx.Legal(reg, color)
    }

    /** With a mandatory tie to an uncolored partner, the color must suit the partner too. */
    ghost predicate PartnerSuits(partner: nat, mandatory: bool, color: nat)
      requires graph.Valid() && (partner != 0 ==> partner in ctx.cls)
      reads this, graph, graph.edges, graph.degrees
    {
      !mandatory || partner == 0 || partner in assignments
      || (ctx.Legal(partner, color)
          && forall v :: v in NeighborSet(graph.Edges(), partner) && v in assignments ==> assignments[v] != color)
    }

    method PartnerAllowed(partner: nat, mandatory: bool, color: nat) returns (ok: bool)
      requires Ready() && (partner != 0 ==> partner in ctx.cls)
      ensures ok <==> PartnerSuits(partner, mandatory, color)
    {
      if !mandatory || partner == 0 || partner in assignments { return true; }
      if !ctx.Legal(partner, color) { return false; }
      var ns := graph.Neighbors(partner);
      for i := 0 to |ns|
        invariant forall k :: 0 <= k < i && ns[k] in assignments ==> assignments[ns[k]] != color
      {
        if ns[i] in assignments && assignments[ns[i]] == color { return false; }
      }
      return true;
    }

    method JointlyAllowed(reg: nat, unavailable: set<nat>, partner: nat, mandatory: bool, color: nat)
      returns (ok: bool)
      requires Ready() && reg in ctx.cls && (partner != 0 ==> partner in ctx.cls)
      ensures ok <==> Allowed(reg, unavailable, color) && PartnerSuits(partner, mandatory, color)
    {
      ok := Allowed(reg, unavailable, color);
      if ok {
        ok := PartnerAllowed(partner, mandatory, color);
      }
    }

    /** Initial degrees, color counts and the set of low-degree registers. */
    method Prepare(nodes: seq<nat>) returns (degree: map<nat, nat>, available: map<nat, nat>, low: set<nat>)
      requires graph.Valid() && Members(nodes) <= ctx.cls.Keys && NoRepeats(nodes)
      requires Closed(graph.Edges(), Members(nodes))
      ensures Counted(ctx, graph.Edges(), Members(nodes), Members(nodes), degree, available, low)
    {
      hide AllocationOrder, Context.Legal, NeighborSet;
      degree, available, low := map[], map[], {};
      ghost var edges := graph.Edges();
      for i := 0 to |nodes|
        invariant Tallied(ctx, edges, Members(nodes[..i]), degree, available, low)
      {
        var reg := nodes[i];
        var d := graph.Degree(reg);
        OrderNoRepeats(ctx, reg);
        var a := CountLegal(ctx, reg, ctx.Order(reg));
        TallyOne(ctx, edges, nodes, i, d, a, degree, available, low);
        degree, available := degree[reg := d], available[reg := a];
        if d < a { low := low + {reg}; }
      }
      assert nodes[..|nodes|] == nodes;
      TalliedCounts(ctx, edges, Members(nodes), degree, available, low);
    }

    /** Lowers the degree of the remaining neighbours of a pushed register. */
    method LowerNeighbors(reg: nat, remaining: set<nat>, degree0: map<nat, nat>, available: map<nat, nat>,
                          low0: set<nat>)
      returns (degree: map<nat, nat>, low: set<nat>)
      requires graph.Valid() && remaining <= degree0.Keys && remaining <= available.Keys && low0 <= remaining
      requires forall r :: r in remaining * NeighborSet(graph.Edges(), reg) ==> degree0[r] > 0
      requires forall r :: r in remaining ==> (r in low0 <==> degree0[r] < available[r])
      ensures Lowered(graph.Edges(), reg, remaining, degree0, degree, available, low)
    {
      degree, low := degree0, low0;
      var ns := graph.Neighbors(reg);
      for i := 0 to |ns|
        invariant degree.Keys == degree0.Keys && low <= remaining
        invariant forall r :: r in remaining ==> degree[r] + (if r in ns[..i] then 1 else 0) == degree0[r]
        invariant forall r :: r in remaining ==> (r in low <==> degree[r] < available[r])
      {
        var v := ns[i];
        assert ns[..i + 1] == ns[..i] + [v];
        assert v !in ns[..i];
        assert v in NeighborSet(graph.Edges(), reg);
        if v in remaining && degree[v] > 0 {
          degree := degree[v := degree[v] - 1];
          if degree[v] < available[v] { low := low + {v}; }
        }
      }
      assert ns[..|ns|] == ns;
    }

    /** Pushes every register; sure collects those pushed below their color count.  Others are pushed
        only while no remaining register is below its count. */
    method Simplify(nodes: seq<nat>) returns (stack: seq<nat>, ghost sure: set<nat>)
      requires graph.Valid() && Symmetric(graph.Edges())
      requires Members(nodes) <= ctx.cls.Keys && NoRepeats(nodes) && Closed(graph.Edges(), Members(nodes))
      ensures Stacked(ctx, graph.Edges(), Members(nodes), stack, sure)
      ensures NoRepeats(stack) && Members(stack) == Members(nodes)
    {
      var remaining := set r | r in nodes;
      var degree: map<nat, nat>, available: map<nat, nat>, low: set<nat> := Prepare(nodes);
      stack, sure := [], {};
      ghost var edges, all := graph.Edges(), Members(nodes);
      while remaining != {}
        invariant Counted(ctx, edges, all, remaining, degree, available, low)
        invariant StackGrows(ctx, edges, all, stack, remaining, sure)
        decreases remaining
      {
        var selected: nat;
        if low != {} {
          selected :| selected in low;
        } else {
          selected :| selected in remaining;
        }
        ghost var certain := degree[selected] < available[selected];
        forall r | r in (remaining - {selected}) * NeighborSet(edges, selected) ensures degree[r] > 0 {
          RemovalLowers(edges, remaining, selected, r);
        }
        PushStep(ctx, edges, all, stack, remaining, sure, selected, certain);
        ghost var degree0, low0 := degree, low;
        stack := stack + [selected];
        degree, low := LowerNeighbors(selected, remaining - {selected}, degree, available, low - {selected});
        CountedPush(ctx, edges, all, remaining, selected, degree0, degree, available, low0, low);
        remaining := remaining - {selected};
        if certain { sure := sure + {selected}; }
      }
    }

    method Unavailable(reg: nat) returns (unavailable: set<nat>)
      requires graph.Valid()
      ensures forall c :: c in unavailable <==>
                exists v :: v in NeighborSet(graph.Edges(), reg) && v in assignments && assignments[v] == c
    {
      unavailable := {};
      var ns := graph.Neighbors(reg);
      for i := 0 to |ns|
        invariant forall c :: c in unavailable <==>
                    exists k :: 0 <= k < i && ns[k] in assignments && assignments[ns[k]] == c
      {
        if ns[i] in assignments { unavailable := unavailable + {assignments[ns[i]]}; }
      }
      forall c ensures c in unavailable <==>
          exists v :: v in NeighborSet(graph.Edges(), reg) && v in assignments && assignments[v] == c
      {
        if c in unavailable {
          var k :| 0 <= k < |ns| && ns[k] in assignments && assignments[ns[k]] == c;
          assert ns[k] in ns;
        }
        if exists v :: v in NeighborSet(graph.Edges(), reg) && v in assignments && assignments[v] == c {
          var v :| v in NeighborSet(graph.Edges(), reg) && v in assignments && assignments[v] == c;
          assert v in ns;
        }
      }
    }

    ghost predicate Suits(reg: nat, unavailable: set<nat>, partner: nat, mandatory: bool, color: nat)
      requires graph.Valid() && reg in ctx.cls && (partner != 0 ==> partner in ctx.cls)
      reads this, graph, graph.edges, graph.degrees
    {
      Allowed(reg, unavailable, color) && PartnerSuits(partner, mandatory, color)
    }

    ghost predicate NoneSuits(reg: nat, unavailable: set<nat>, partner: nat, mandatory: bool, candidates: seq<nat>)
      requires graph.Valid() && reg in ctx.cls && (partner != 0 ==> partner in ctx.cls)
      reads this, graph, graph.edges, graph.degrees
    {
      forall c :: c in candidates ==> !Suits(reg, unavailable, partner, mandatory, c)
    }

    /** The color is the earliest candidate that suits. */
    ghost predicate Earliest(reg: nat, unavailable: set<nat>, partner: nat, mandatory: bool, candidates: seq<nat>,
                             color: nat)
      requires graph.Valid() && reg in ctx.cls && (partner != 0 ==> partner in ctx.cls)
      reads this, graph, graph.edges, graph.degrees
    {
      exists k :: 0 <= k < |candidates| && candidates[k] == color && Suits(reg, unavailable, partner, mandatory, color)
                  && NoneSuits(reg, unavailable, partner, mandatory, candidates[..k])
    }

    /** The first jointly allowed color of a list, or NO_REG. */
    method FirstAllowed(reg: nat, unavailable: set<nat>, partner: nat, mandatory: bool, candidates: seq<nat>)
      returns (selected: nat)
      requires Ready() && reg in ctx.cls && (partner != 0 ==> partner in ctx.cls)
      ensures selected != NO_REG ==> Earliest(reg, unavailable, partner, mandatory, candidates, selected)
      ensures selected == NO_REG ==> NoneSuits(reg, unavailable, partner, mandatory, candidates)
    {
      hide PartnerSuits;
      for i := 0 to |candidates|
        invariant NoneSuits(reg, unavailable, partner, mandatory, candidates[..i])
      {
        var ok := JointlyAllowed(reg, unavailable, partner, mandatory, candidates[i]);
        if ok { return candidates[i]; }
        assert candidates[..i + 1] == candidates[..i] + [candidates[i]];
      }
      assert candidates[..|candidates|] == candidates;
      return NO_REG;
    }

    /** Colors of the affinity partners that already have one, in preference order. */
    ghost function ColorsOf(partners: seq<Affinity>): (colors: seq<nat>)
      reads this
    {
      if partners == [] then []
      else
        var p := partners[|partners| - 1].partner;
        ColorsOf(partners[..|partners| - 1]) + if p in assignments then [assignments[p]] else []
    }

    ghost function Affine(reg: nat): seq<nat>
      reads this
    {
      if reg in affinities then ColorsOf(affinities[reg]) else []
    }

    method PartnerColors(reg: nat) returns (colors: seq<nat>)
      requires Ready() && Proper(ctx, graph.Edges(), assignments) && reg in ctx.cls
      ensures colors == Affine(reg) && forall c :: c in colors ==> InBank(c, ctx.cls[reg])
    {
      colors := [];
      if reg !in affinities { return; }
      for i := 0 to |affinities[reg]|
        invariant colors == ColorsOf(affinities[reg][..i])
        invariant forall c :: c in colors ==> InBank(c, ctx.cls[reg])
      {
        var p := affinities[reg][i].partner;
        assert affinities[reg][..i + 1][..i] == affinities[reg][..i];
        if p in assignments {
          assert affinities[reg][i] in affinities[reg];
          SameBankSameRegisters(ctx.cls[p], ctx.cls[reg], assignments[p]);
          colors := colors + [assignments[p]];
        }
      }
      assert affinities[reg][..|affinities[reg]|] == affinities[reg];
    }

    /** The tied partner has a color that is allowed here too. */
    predicate TiedFirst(reg: nat, unavailable: set<nat>)
      requires reg in ctx.cls
      reads this
    {
      var partner := ties.Partner(reg);
      partner != 0 && partner in assignments && Allowed(reg, unavailable, assignments[partner])
    }

    /** A partner's color, or the first in order. */
    method PickOrdinary(reg: nat, unavailable: set<nat>, partner: nat, mandatory: bool) returns (selected: nat)
      requires Ready() && Proper(ctx, graph.Edges(), assignments) && reg in ctx.cls
      requires partner != 0 ==> partner in ctx.cls
      ensures selected != NO_REG ==> Allowed(reg, unavailable, selected) && InBank(selected, ctx.cls[reg])
      ensures selected == NO_REG ==> NoneSuits(reg, unavailable, partner, mandatory, ctx.Order(reg))
      ensures var plain := NoneSuits(reg, unavailable, partner, mandatory, Affine(reg));
              var list := if plain then ctx.Order(reg) else Affine(reg);
              selected != NO_REG ==> Earliest(reg, unavailable, partner, mandatory, list, selected)
      ensures selected == NO_REG ==> NoneSuits(reg, unavailable, partner, mandatory, Affine(reg))
    {
      hide PartnerSuits, Allowed, ColorsOf, AllocationOrder;
      var preferred := PartnerColors(reg);
      selected := FirstAllowed(reg, unavailable, partner, mandatory, preferred);
      if selected == NO_REG {
        selected := FirstAllowed(reg, unavailable, partner, mandatory, ctx.Order(reg));
        AllocationOrderIsBank(ctx.cls[reg], ctx.preferCallerSaved, selected);
      }
    }

    ghost function Wishes(reg: nat): seq<nat>
      reads this
    {
      if reg in hints then hints[reg] else []
    }

    /** The color for one register: its tied partner's, a hint, a partner's, or the first in order. */
    method Pick(reg: nat, unavailable: set<nat>) returns (selected: nat)
      requires Ready() && Proper(ctx, graph.Edges(), assignments) && reg in ctx.cls
      ensures selected != NO_REG ==> Allowed(reg, unavailable, selected) && InBank(selected, ctx.cls[reg])
      ensures selected == NO_REG && !ties.Mandatory(reg) ==>
                forall c :: c in ctx.LegalColors(reg) ==> c in unavailable
      ensures Picked(reg, unavailable, selected)
    {
      selected := NO_REG;
      var partner, mandatory := ties.Partner(reg), ties.Mandatory(reg);
      hide PartnerSuits, NeighborSet, AllocationOrder, Affine;
      if TiedFirst(reg, unavailable) {
        selected := assignments[partner];
        SameBankSameRegisters(ctx.cls[partner], ctx.cls[reg], selected);
      }
      if reg in hints && (selected == NO_REG || !mandatory) {
        var hinted := FirstAllowed(reg, unavailable, partner, mandatory, hints[reg]);
        if hinted != NO_REG { selected := hinted; }
      }
      if selected == NO_REG {
        selected := PickOrdinary(reg, unavailable, partner, mandatory);
        if selected == NO_REG && !mandatory { NoneLeft(reg, unavailable, partner); }
      }
    }

    /** In a function without calls a register that has to be saved is taken only when no other one suits. */
    lemma SavedLast(reg: nat, unavailable: set<nat>, partner: nat, mandatory: bool, selected: nat, color: nat)
      requires graph.Valid() && reg in ctx.cls && (partner != 0 ==> partner in ctx.cls)
      requires Earliest(reg, unavailable, partner, mandatory, ctx.Order(reg), selected)
      requires ctx.preferCallerSaved && IsCalleeSaved(selected) && IsCallerSaved(color) && InBank(color, ctx.cls[reg])
      ensures !Suits(reg, unavailable, partner, mandatory, color)
    {
      var order := ctx.Order(reg);
      hide Suits, InBank;
      AllocationOrderIsBank(ctx.cls[reg], true, color);
      var k :| 0 <= k < |order| && order[k] == selected && NoneSuits(reg, unavailable, partner, mandatory, order[..k]);
      var j :| 0 <= j < |order| && order[j] == color;
      hide AllocationOrder;
      if k < j { AllocationOrderPrefers(ctx.cls[reg], true, k, j); }
      assert j < k;
      assert order[..k][j] == color;
    }

    /** Without a mandatory tie nothing but the neighbours keeps a legal color from a register. */
    lemma NoneLeft(reg: nat, unavailable: set<nat>, partner: nat)
      requires graph.Valid() && reg in ctx.cls && (partner != 0 ==> partner in ctx.cls)
      requires NoneSuits(reg, unavailable, partner, false, ctx.Order(reg))
      ensures forall c :: c in ctx.LegalColors(reg) ==> c in unavailable
    {
      hide AllocationOrder;
      forall c | c in ctx.LegalColors(reg) ensures c in unavailable {
        assert !Suits(reg, unavailable, partner, false, c);
      }
    }

    /** Where a color comes from.  A tied partner's color stays when the tie is mandatory or no hint suits; then
        hints come before the colors of affinity partners, and those before the allocation order. */
    ghost predicate Picked(reg: nat, unavailable: set<nat>, selected: nat)
      requires Ready() && reg in ctx.cls
      reads this, graph, graph.edges, graph.degrees
    {
      var partner, mandatory := ties.Partner(reg), ties.Mandatory(reg);
      var tied := TiedFirst(reg, unavailable);
      var unwished := NoneSuits(reg, unavailable, partner, mandatory, Wishes(reg));
      var unpartnered := NoneSuits(reg, unavailable, partner, mandatory, Affine(reg));
      if tied && (mandatory || unwished) then selected == assignments[partner]
      else if !unwished then Earliest(reg, unavailable, partner, mandatory, Wishes(reg), selected)
      else if !unpartnered then Earliest(reg, unavailable, partner, mandatory, Affine(reg), selected)
      else if selected == NO_REG then NoneSuits(reg, unavailable, partner, mandatory, ctx.Order(reg))
      else Earliest(reg, unavailable, partner, mandatory, ctx.Order(reg), selected)
    }

    /** The color for a popped register, or NO_REG when it has to be spilled. */
    method ChooseColor(stack: seq<nat>, i: nat, ghost nodes: set<nat>, ghost sure: set<nat>,
                       ghost start: map<nat, nat>, ghost spilled: seq<nat>)
      returns (selected: nat)
      requires Ready() && Stacked(ctx, graph.Edges(), nodes, stack, sure) && i < |stack|
      requires start.Keys !! nodes && forall r, v :: r in nodes && v in start ==> (r, v) !in graph.Edges()
      requires Selecting(ctx, graph.Edges(), ties, start, stack, sure, i + 1, assignments, spilled)
      ensures selected == NO_REG ==>
                Selecting(ctx, graph.Edges(), ties, start, stack, sure, i, assignments, spilled + [stack[i]])
      ensures selected != NO_REG ==>
                Selecting(ctx, graph.Edges(), ties, start, stack, sure, i, assignments[stack[i] := selected], spilled)
    {
      hide Picked, AllocationOrder, OnlyWhenStuck, Marks, NeighborSet, Context.Legal, Context.LegalColors, InBank;
      hide Context.Order, Ties.Partner, Ties.Mandatory, Symmetric;
      var reg := stack[i];
      assert reg in Members(stack);
      ghost var edges := graph.Edges();
      var unavailable := Unavailable(reg);
      selected := Pick(reg, unavailable);
      if selected == NO_REG {
        if reg in sure {
          SureHasColor(ctx, edges, nodes, stack, sure, i, start, assignments, unavailable);
        }
        SelectedSpill(ctx, edges, ties, start, stack, sure, i, assignments, spilled);
      } else {
        forall v | (reg, v) in edges && v in assignments ensures assignments[v] != selected {
          NeighborIff(edges, reg, v);
        }
        SelectedColor(ctx, edges, ties, start, stack, sure, i, assignments, spilled, selected);
      }
    }

    /** Pops the whole stack. */
    method Select(stack: seq<nat>, ghost nodes: set<nat>, ghost sure: set<nat>) returns (ghost spilled: seq<nat>)
      requires Ready() && Proper(ctx, graph.Edges(), assignments)
      requires Stacked(ctx, graph.Edges(), nodes, stack, sure)
      requires assignments.Keys !! nodes && forall r, v :: r in nodes && v in assignments ==> (r, v) !in graph.Edges()
      modifies this
      ensures spills == old(spills) + spilled
      ensures Selecting(ctx, graph.Edges(), ties, old(assignments), stack, sure, 0, assignments, spilled)
    {
      hide Context.Legal, Proper, Stacked, NeighborSet;
      spilled := [];
      for i := |stack| downto 0
        invariant spills == old(spills) + spilled
        invariant Selecting(ctx, graph.Edges(), ties, old(assignments), stack, sure, i, assignments, spilled)
      {
        var selected := ChooseColor(stack, i, nodes, sure, old(assignments), spilled);
        if selected == NO_REG {
          spills := spills + [stack[i]];
          spilled := spilled + [stack[i]];
        } else {
          assignments := assignments[stack[i] := selected];
        }
      }
    }

    /** Colors one bank: what can be colored is colored properly, the rest is spilled, and a register
        pushed below its color count is never spilled unless a mandatory tie constrains it. */
    method ColorNodes(nodes: seq<nat>)
      returns (ghost stack: seq<nat>, ghost sure: set<nat>, ghost spilled: seq<nat>)
      requires Ready() && Proper(ctx, graph.Edges(), assignments)
      requires Members(nodes) <= ctx.cls.Keys && NoRepeats(nodes) && Closed(graph.Edges(), Members(nodes))
      requires assignments.Keys !! Members(nodes)
      modifies this
      ensures Proper(ctx, graph.Edges(), assignments)
      ensures Stacked(ctx, graph.Edges(), Members(nodes), stack, sure)
      ensures forall r :: r in old(assignments) ==> r in assignments && assignments[r] == old(assignments)[r]
      ensures assignments.Keys <= old(assignments.Keys) + Members(nodes)
      ensures spills == old(spills) + spilled
      ensures forall r :: r in nodes ==> (r in assignments <==> r !in spilled)
      ensures forall r :: r in spilled ==> r in nodes
      ensures forall r :: r in sure && r in nodes && !ties.Mandatory(r) ==> r in assignments
    {
      var pushed: seq<nat>;
      pushed, sure := Simplify(nodes);
      stack := pushed;
      forall r, v | r in Members(nodes) && v in assignments ensures (r, v) !in graph.Edges() {
        NeighborIff(graph.Edges(), r, v);
      }
      spilled := Select(pushed, Members(nodes), sure);
      assert stack[0..] == stack;
      forall r | r in nodes ensures r in stack {
        assert r in Members(stack);
      }
      forall r | r in stack ensures r in nodes {
        assert r in Members(stack);
      }
    }

    /** The registers of one bank. */
    method BankNodes(vectorBank: bool) returns (nodes: seq<nat>)
      requires Ready()
      ensures NoRepeats(nodes) && Closed(graph.Edges(), Members(nodes))
      ensures Members(nodes) == set r | r in ctx.cls && IsVectorClass(ctx.cls[r]) == vectorBank
    {
      nodes := [];
      var left := ctx.cls.Keys;
      while left != {}
        invariant left <= ctx.cls.Keys && NoRepeats(nodes)
        invariant forall r :: r in nodes <==> r in ctx.cls.Keys - left && IsVectorClass(ctx.cls[r]) == vectorBank
        decreases left
      {
        var r :| r in left;
        left := left - {r};
        if IsVectorClass(ctx.cls[r]) == vectorBank {
          assert r !in nodes;
          nodes := nodes + [r];
        }
      }
      forall r, v | r in Members(nodes) && v in NeighborSet(graph.Edges(), r) ensures v in Members(nodes) {
        NeighborIff(graph.Edges(), r, v);
      }
    }

    /** Colors both banks.  Every register is colored or spilled, and nothing else is.  A register that no
        set of its bank blocks is colored, so a graph that simplification clears is colored whole. */
    method ColorBanks()
      requires Ready() && assignments == map[] && spills == []
      modifies this
      ensures Proper(ctx, graph.Edges(), assignments)
      ensures forall r :: r in ctx.cls ==> (r in assignments <==> r !in spills)
      ensures forall r :: r in spills ==> r in ctx.cls
      ensures forall r :: r in ctx.cls && !ties.Mandatory(r) && Free(ctx, graph.Edges(), Bank(ctx, r), r) ==>
                r in assignments
      ensures (forall r :: r in ctx.cls ==> !ties.Mandatory(r)) && Reducible(ctx, graph.Edges()) ==> spills == []
    {
      hide AllocationOrder, IsReserved, IsCallerSaved, InBank, Context.Legal, Context.LegalColors, Context.Order,
        Proper, Stacked, Stuck, Free, Closed, Reducible;
      var gprs := BankNodes(false);
      ghost var stack, sure1, spilled1 := ColorNodes(gprs);
      FreeAreSure(gprs, stack, sure1);
      assert forall r :: r in Members(gprs) <==> r in gprs;
      var vectors := BankNodes(true);
      assert forall r :: r in Members(vectors) <==> r in vectors;
      ghost var colored1 := assignments;
      ghost var stack2, sure2, spilled2 := ColorNodes(vectors);
      FreeAreSure(vectors, stack2, sure2);
      assert spills == spilled1 + spilled2;
      forall r | r in ctx.cls
        ensures r in assignments <==> r !in spills
        ensures !ties.Mandatory(r) && Free(ctx, graph.Edges(), Bank(ctx, r), r) ==> r in assignments
      {
        assert r in gprs <==> r !in vectors;
        assert Bank(ctx, r) == if r in gprs then Members(gprs) else Members(vectors);
      }
      ReducibleIsFree(ctx, graph.Edges());
      assert spills != [] ==> spills[0] in spills;
    }

    lemma FreeAreSure(nodes: seq<nat>, stack: seq<nat>, sure: set<nat>)
      requires graph.Valid() && Stacked(ctx, graph.Edges(), Members(nodes), stack, sure)
      ensures forall r :: r in nodes && Free(ctx, graph.Edges(), Members(nodes), r) ==> r in sure
    {
      forall r | r in nodes && Free(ctx, graph.Edges(), Members(nodes), r) ensures r in sure {
        FreeIsSure(ctx, graph.Edges(), Members(nodes), stack, sure, r);
      }
    }

    // ----- Recoloring -----

    method CanRecolor(value: nat, color: nat) returns (ok: bool)
      requires graph.Valid() && value in ctx.cls
      ensures ok <==> Takes(ctx, graph.Edges(), assignments, value, color)
    {
      if !ctx.Legal(value, color) { return false; }
      var ns := graph.Neighbors(value);
      for i := 0 to |ns|
        invariant forall k :: 0 <= k < i && ns[k] in assignments ==> assignments[ns[k]] != color
      {
        NeighborIff(graph.Edges(), value, ns[i]);
        if ns[i] in assignments && assignments[ns[i]] == color {
          assert ns[i] in ns;
          return false;
        }
      }
      forall v | (value, v) in graph.Edges() && v in assignments ensures assignments[v] != color {
        NeighborIff(graph.Edges(), value, v);
        assert v in ns;
      }
      return true;
    }

    /** One endpoint of a copy adopts the other's color when that is allowed. */
    method Adopt(value: nat, other: nat) returns (changed: bool)
      requires Ready() && Proper(ctx, graph.Edges(), assignments)
      requires value in assignments && other in assignments && SameBank(ctx.cls[value], ctx.cls[other])
      modifies this`assignments
      ensures Proper(ctx, graph.Edges(), assignments) && assignments.Keys == old(assignments.Keys)
      ensures changed <==> Takes(ctx, graph.Edges(), old(assignments), value, old(assignments)[other])
      ensures changed ==> assignments == old(assignments)[value := old(assignments)[other]]
      ensures !changed ==> assignments == old(assignments)
    {
      changed := CanRecolor(value, assignments[other]);
      if changed {
        SameBankSameRegisters(ctx.cls[other], ctx.cls[value], assignments[other]);
        ExtendProper(ctx, graph.Edges(), assignments, value, assignments[other]);
        assignments := assignments[value := assignments[other]];
      }
    }

    /** The heaviest affinity of a register whose partner shares its color, or zero. */
    method StrongestSatisfiedAffinity(reg: nat) returns (weight: real)
      ensures Strongest(affinities, assignments, reg, weight)
    {
      weight := 0.0;
      if reg !in assignments || reg !in affinities { return; }
      var mine := affinities[reg];
      for i := 0 to |mine|
        invariant weight >= 0.0 && forall k :: 0 <= k < i && Satisfied(assignments, reg, mine[k]) ==>
          mine[k].weight <= weight
        invariant weight == 0.0 || exists k :: 0 <= k < i && Attains(assignments, reg, mine[k], weight)
      {
        if mine[i].partner in assignments && assignments[mine[i].partner] == assignments[reg]
          && weight < mine[i].weight {
          weight := mine[i].weight;
        }
      }
    }

    /** One endpoint of a pair adopts the other's color if the pair weighs no less than what the endpoint shares. */
    method RecolorPair(e: AffinityEdge) returns (adopted: bool)
      requires Ready() && Proper(ctx, graph.Edges(), assignments)
      requires e.lhs in ctx.cls && e.rhs in ctx.cls && SameBank(ctx.cls[e.lhs], ctx.cls[e.rhs])
      modifies this`assignments
      ensures assignments == Joined(ctx, graph.Edges(), affinities, old(assignments), e)
      ensures !adopted ==> assignments == old(assignments)
      ensures Proper(ctx, graph.Edges(), assignments) && assignments.Keys == old(assignments.Keys)
    {
      hide Context.Legal, Symmetric, SameBanks, NoneStronger, Strongest, Takes, Proper, InBank;
      hide InterferenceGraph.Valid, InterferenceGraph.Edges, Ties.Partner;
      adopted := false;
      var joined := graph.HasEdge(e.lhs, e.rhs);
      if joined || e.lhs !in assignments || e.rhs !in assignments || assignments[e.lhs] == assignments[e.rhs] {
        return;
      }
      ghost var before := assignments;
      var strongest := StrongestSatisfiedAffinity(e.lhs);
      StrongestDecides(affinities, before, e.lhs, strongest, e.weight);
      if e.weight >= strongest {
        adopted := Adopt(e.lhs, e.rhs);
      }
      if !adopted {
        strongest := StrongestSatisfiedAffinity(e.rhs);
        StrongestDecides(affinities, before, e.rhs, strongest, e.weight);
        if e.weight >= strongest {
          adopted := Adopt(e.rhs, e.lhs);
        }
      }
    }

    /** Up to four rounds over the copy pairs. */
    method Recolor(pairs: seq<AffinityEdge>)
      requires Ready() && Proper(ctx, graph.Edges(), assignments)
      requires forall e :: e in pairs ==>
                 e.lhs in ctx.cls && e.rhs in ctx.cls && SameBank(ctx.cls[e.lhs], ctx.cls[e.rhs])
      modifies this`assignments
      ensures assignments == Rounds(ctx, graph.Edges(), affinities, old(assignments), pairs, 4)
      ensures Proper(ctx, graph.Edges(), assignments) && assignments.Keys == old(assignments.Keys)
    {
      hide Joined, Context.Legal, Symmetric, SameBanks, Proper, InBank, Ties.Partner;
      hide InterferenceGraph.Valid, InterferenceGraph.Edges;
      ghost var edges := graph.Edges();
      for iteration := 0 to 4
        invariant Proper(ctx, edges, assignments) && assignments.Keys == old(assignments.Keys)
        invariant Rounds(ctx, edges, affinities, assignments, pairs, 4 - iteration)
               == Rounds(ctx, edges, affinities, old(assignments), pairs, 4)
      {
        var changed := false;
        ghost var before := assignments;
        for i := 0 to |pairs|
          invariant Proper(ctx, edges, assignments) && assignments.Keys == old(assignments.Keys)
          invariant assignments == Round(ctx, edges, affinities, before, pairs[..i])
          invariant !changed ==> assignments == before
        {
          assert pairs[i] in pairs && pairs[..i + 1][..i] == pairs[..i];
          var adopted := RecolorPair(pairs[i]);
          changed := changed || adopted;
        }
        assert pairs[..|pairs|] == pairs;
        if !changed {
          RoundsStay(ctx, edges, affinities, assignments, pairs, 4 - iteration);
          break;
        }
      }
    }
  }

  // What recoloring does

  ghost predicate Satisfied(colors: map<nat, nat>, reg: nat, a: Affinity) {
    reg in colors && a.partner in colors && colors[a.partner] == colors[reg]
  }

  ghost predicate Attains(colors: map<nat, nat>, reg: nat, a: Affinity, weight: real) {
    Satisfied(colors, reg, a) && a.weight == weight
  }

  ghost predicate NoneStronger(affinities: map<nat, seq<Affinity>>, colors: map<nat, nat>, reg: nat, weight: real) {
    forall a :: reg in affinities && a in affinities[reg] && Satisfied(colors, reg, a) ==> a.weight <= weight
  }

  /** The largest weight a register shares, or zero. */
  ghost predicate Strongest(affinities: map<nat, seq<Affinity>>, colors: map<nat, nat>, reg: nat, weight: real) {
    && weight >= 0.0 && NoneStronger(affinities, colors, reg, weight)
    && (weight == 0.0 || (reg in affinities && exists a :: a in affinities[reg] && Attains(colors, reg, a, weight)))
  }

  lemma StrongestDecides(affinities: map<nat, seq<Affinity>>, colors: map<nat, nat>, reg: nat, strongest: real,
                         weight: real)
    requires Strongest(affinities, colors, reg, strongest)
    ensures weight >= strongest <==> weight >= 0.0 && NoneStronger(affinities, colors, reg, weight)
  {
  }

  /** The color is legal for the register and no neighbour has it. */
  ghost predicate Takes(ctx: Context, edges: set<(nat, nat)>, colors: map<nat, nat>, reg: nat, color: nat)
    requires reg in ctx.cls
  {
    ctx.Legal(reg, color) && forall v :: (reg, v) in edges && v in colors ==> colors[v] != color
  }

  /** The register may take its partner's color: nothing speaks against the color, and it gives up no affinity
      that weighs more. */
  ghost predicate MayAdopt(ctx: Context, edges: set<(nat, nat)>, affinities: map<nat, seq<Affinity>>,
                           colors: map<nat, nat>, reg: nat, partner: nat, weight: real)
    requires reg in ctx.cls && reg in colors && partner in colors
  {
    && weight >= 0.0 && NoneStronger(affinities, colors, reg, weight)
    && Takes(ctx, edges, colors, reg, colors[partner])
  }

  /** The coloring after one pair. */
  ghost function Joined(ctx: Context, edges: set<(nat, nat)>, affinities: map<nat, seq<Affinity>>,
                        colors: map<nat, nat>, e: AffinityEdge): map<nat, nat>
    requires e.lhs in ctx.cls && e.rhs in ctx.cls
  {
    if (e.lhs, e.rhs) in edges || e.lhs !in colors || e.rhs !in colors || colors[e.lhs] == colors[e.rhs] then colors
    else if MayAdopt(ctx, edges, affinities, colors, e.lhs, e.rhs, e.weight) then colors[e.lhs := colors[e.rhs]]
    else if MayAdopt(ctx, edges, affinities, colors, e.rhs, e.lhs, e.weight) then colors[e.rhs := colors[e.lhs]]
    else colors
  }

  ghost function Round(ctx: Context, edges: set<(nat, nat)>, affinities: map<nat, seq<Affinity>>,
                       colors: map<nat, nat>, pairs: seq<AffinityEdge>): map<nat, nat>
    requires forall e :: e in pairs ==> e.lhs in ctx.cls && e.rhs in ctx.cls
  {
    if pairs == [] then colors
    else
      var rest := pairs[..|pairs| - 1];
      Joined(ctx, edges, affinities, Round(ctx, edges, affinities, colors, rest), pairs[|pairs| - 1])
  }

  ghost function Rounds(ctx: Context, edges: set<(nat, nat)>, affinities: map<nat, seq<Affinity>>,
                        colors: map<nat, nat>, pairs: seq<AffinityEdge>, rounds: nat): map<nat, nat>
    requires forall e :: e in pairs ==> e.lhs in ctx.cls && e.rhs in ctx.cls
    decreases rounds
  {
    if rounds == 0 then colors
    else Rounds(ctx, edges, affinities, Round(ctx, edges, affinities, colors, pairs), pairs, rounds - 1)
  }

  /** A round that changes nothing is the last that could. */
  lemma {:induction false} RoundsStay(ctx: Context, edges: set<(nat, nat)>, affinities: map<nat, seq<Affinity>>,
                                      colors: map<nat, nat>, pairs: seq<AffinityEdge>, rounds: nat)
    requires forall e :: e in pairs ==> e.lhs in ctx.cls && e.rhs in ctx.cls
    requires Round(ctx, edges, affinities, colors, pairs) == colors
    ensures Rounds(ctx, edges, affinities, colors, pairs, rounds) == colors
  {
    if rounds > 0 { RoundsStay(ctx, edges, affinities, colors, pairs, rounds - 1); }
  }

  /** Both ends of a pair know its weight. */
  ghost predicate Mutual(affinities: map<nat, seq<Affinity>>) {
    forall r, a :: r in affinities && a in affinities[r] ==>
                     a.partner in affinities && Affinity(r, a.weight) in affinities[a.partner]
  }

  /** A join shares the color of its pair and gives up no affinity that weighs more than the pair. */
  lemma JoinGains(ctx: Context, edges: set<(nat, nat)>, affinities: map<nat, seq<Affinity>>, colors: map<nat, nat>,
                  e: AffinityEdge, r: nat, a: Affinity)
    requires e.lhs in ctx.cls && e.rhs in ctx.cls && Mutual(affinities)
    requires var after := Joined(ctx, edges, affinities, colors, e);
      after != colors && r in affinities && a in affinities[r] && Satisfied(colors, r, a) && !Satisfied(after, r, a)
    ensures var after := Joined(ctx, edges, affinities, colors, e); after[e.lhs] == after[e.rhs]
    ensures a.weight <= e.weight
  {
    var moved := if MayAdopt(ctx, edges, affinities, colors, e.lhs, e.rhs, e.weight) then e.lhs else e.rhs;
    if r != moved {
      assert a.partner == moved;
      assert Satisfied(colors, moved, Affinity(r, a.weight));
    }
  }
}
