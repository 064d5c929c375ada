/** The pass that removes PHIs: it splits the edges that need a block of their own, gathers the
    copies of every edge, and puts them in order at the end of the block the edge leaves. */
module PhiElimination {
  import opened Target
  import opened MachineIR
  import opened ParallelCopies
  import opened PhiLowering

  // ----- Edges to split -----

  type Edge = (nat, nat)

  ghost predicate SplitEdge(f: PhiFunction, e: Edge) {
    e.0 < |f| && e.1 < |f| && e.1 in f[e.0].body.succs && NeedsSplit(f, e.0, e.1)
  }

  ghost predicate Distinct(edges: seq<Edge>) {
    forall i, j :: 0 <= i < j < |edges| ==> edges[i] != edges[j]
  }

  /** Every edge into a block with PHIs from a block with another way out, once. */
  method CollectEdges(f: PhiFunction) returns (edges: seq<Edge>)
    ensures Distinct(edges) && forall e: Edge :: e in edges <==> SplitEdge(f, e)
  {
    edges := [];
    for s := 0 to |f|
      invariant Distinct(edges)
      invariant forall e: Edge :: e in edges <==> SplitEdge(f, e) && e.1 < s
    {
      if f[s].phis != [] {
        ghost var before := edges;
        for p := 0 to |f|
          invariant Distinct(edges)
          invariant forall e: Edge :: e in edges <==> SplitEdge(f, e) && (e.1 < s || (e.1 == s && e.0 < p))
        {
          if s in f[p].body.succs && |f[p].body.succs| > 1 {
            edges := edges + [(p, s)];
          }
        }
      }
    }
  }

  /** Split blocks are numbered from base in the order of their edges. */
  function SplitMap(edges: seq<Edge>, base: nat): Splits {
    if edges == [] then map[]
    else SplitMap(edges[..|edges| - 1], base)[edges[|edges| - 1] := base + |edges| - 1]
  }

  lemma {:induction false} SplitMapAt(edges: seq<Edge>, base: nat, e: Edge)
    requires Distinct(edges)
    ensures e in SplitMap(edges, base) <==> e in edges
    ensures e in edges ==> base <= SplitMap(edges, base)[e] < base + |edges|
                           && edges[SplitMap(edges, base)[e] - base] == e
    decreases |edges|
  {
    if edges != [] {
      var front := edges[..|edges| - 1];
      assert edges == front + [edges[|edges| - 1]];
      SplitMapAt(front, base, e);
    }
  }

  // ----- Redirecting one edge -----

  /** The ways out of a block are its branch operands, in order; one operand is replaced in place. */
  method RedirectBranches(succs: seq<nat>, s: nat, e: nat) returns (r: seq<nat>)
    ensures |r| == |succs| && forall i :: 0 <= i < |succs| ==> r[i] == if succs[i] == s then e else succs[i]
  {
    r := [];
    for i := 0 to |succs|
      invariant |r| == i && forall j :: 0 <= j < i ==> r[j] == if succs[j] == s then e else succs[j]
    {
      r := r + [if succs[i] == s then e else succs[i]];
    }
  }

  function Retarget(x: Incoming, p: nat, e: nat): Incoming {
    if x.block == p then x.(block := e) else x
  }

  method RetargetPhi(phi: Phi, p: nat, e: nat) returns (r: Phi)
    ensures r.dst == phi.dst && |r.incoming| == |phi.incoming|
    ensures forall i :: 0 <= i < |phi.incoming| ==> r.incoming[i] == Retarget(phi.incoming[i], p, e)
  {
    var incoming: seq<Incoming> := [];
    for i := 0 to |phi.incoming|
      invariant |incoming| == i && forall j :: 0 <= j < i ==> incoming[j] == Retarget(phi.incoming[j], p, e)
    {
      incoming := incoming + [Retarget(phi.incoming[i], p, e)];
    }
    r := phi.(incoming := incoming);
  }

  method RetargetPhis(phis: seq<Phi>, p: nat, e: nat) returns (r: seq<Phi>)
    ensures |r| == |phis|
    ensures forall k :: 0 <= k < |phis| ==> r[k].dst == phis[k].dst && |r[k].incoming| == |phis[k].incoming|
    ensures forall k, i :: 0 <= k < |phis| && 0 <= i < |phis[k].incoming| ==>
              r[k].incoming[i] == Retarget(phis[k].incoming[i], p, e)
  {
    r := [];
    for k := 0 to |phis|
      invariant |r| == k
      invariant forall l :: 0 <= l < k ==> r[l].dst == phis[l].dst && |r[l].incoming| == |phis[l].incoming|
      invariant forall l, i :: 0 <= l < k && 0 <= i < |phis[l].incoming| ==>
                  r[l].incoming[i] == Retarget(phis[l].incoming[i], p, e)
    {
      var phi := RetargetPhi(phis[k], p, e);
      r := r + [phi];
    }
  }

  /** PHIs of block s with the split blocks in the place of their predecessors. */
  function ViaPhi(phi: Phi, splits: Splits, s: nat): (r: Phi)
    ensures r.dst == phi.dst && |r.incoming| == |phi.incoming|
    ensures forall i :: 0 <= i < |phi.incoming| ==>
              r.incoming[i] == Incoming(phi.incoming[i].src, Pred(splits, phi.incoming[i].block, s))
  {
    Phi(phi.dst, seq(|phi.incoming|, i requires 0 <= i < |phi.incoming| =>
          Incoming(phi.incoming[i].src, Pred(splits, phi.incoming[i].block, s))))
  }

  /** The block that reaches s when control comes from p. */
  function Pred(splits: Splits, p: nat, s: nat): nat {
    if (p, s) in splits then splits[(p, s)] else p
  }

  function ViaPhis(phis: seq<Phi>, splits: Splits, s: nat): (r: seq<Phi>)
    ensures |r| == |phis| && forall k :: 0 <= k < |phis| ==> r[k] == ViaPhi(phis[k], splits, s)
  {
    seq(|phis|, k requires 0 <= k < |phis| => ViaPhi(phis[k], splits, s))
  }

  function SplitBlock(f: PhiFunction, splits: Splits, p: nat): PhiBlock
    requires p < |f|
  {
    PhiBlock(ViaPhis(f[p].phis, splits, p), Block(f[p].body.instrs, Redirected(f[p].body.succs, splits, p)))
  }

  /** The function after the first edges have been split. */
  ghost predicate SplitSoFar(f: PhiFunction, blocks: seq<PhiBlock>, edges: seq<Edge>) {
    && |blocks| == |f| + |edges|
    && (forall p: nat :: p < |f| ==> blocks[p] == SplitBlock(f, SplitMap(edges, |f|), p))
    && (forall k: nat :: k < |edges| ==> blocks[|f| + k] == PhiBlock([], Block([], [edges[k].1])))
  }

  ghost predicate BlocksBelow(f: PhiFunction) {
    forall s: nat :: s < |f| ==>
      && (forall t :: t in f[s].body.succs ==> t < |f|)
      && (forall i, j :: 0 <= i < |f[s].phis| && 0 <= j < |f[s].phis[i].incoming| ==>
            f[s].phis[i].incoming[j].block < |f|)
  }

  lemma ValidBlocksBelow(f: PhiFunction, limit: nat)
    requires ValidPhis(f, limit)
    ensures BlocksBelow(f)
  {
    forall s: nat | s < |f|
      ensures (forall t :: t in f[s].body.succs ==> t < |f|)
      ensures forall i, j :: 0 <= i < |f[s].phis| && 0 <= j < |f[s].phis[i].incoming| ==>
                f[s].phis[i].incoming[j].block < |f|
    {
      assert ValidBlock(f, s, limit);
      forall i | 0 <= i < |f[s].phis| ensures ValidPhi(f, s, f[s].phis[i], limit) { }
    }
  }

  /** Replacing by the number of a new block is the same as adding the edge to the map. */
  lemma RedirectedOnce(succs: seq<nat>, splits: Splits, q: nat, edge: Edge, e: nat, r: seq<nat>)
    requires forall t :: t in succs ==> t < e
    requires edge !in splits && forall x :: x in splits ==> splits[x] != edge.1
    requires |r| == |succs|
    requires forall i :: 0 <= i < |succs| ==>
               r[i] == (var old_ := Redirected(succs, splits, q)[i]; if q == edge.0 && old_ == edge.1 then e else old_)
    ensures r == Redirected(succs, splits[edge := e], q)
  {
  }

  lemma RetargetedOnce(phis: seq<Phi>, splits: Splits, t: nat, edge: Edge, e: nat, r: seq<Phi>)
    requires edge !in splits && forall x :: x in splits ==> splits[x] != edge.0
    requires |r| == |phis|
    requires forall k :: 0 <= k < |phis| ==> r[k].dst == phis[k].dst && |r[k].incoming| == |phis[k].incoming|
    requires forall k, i :: 0 <= k < |phis| && 0 <= i < |phis[k].incoming| ==>
               r[k].incoming[i] == (var x := ViaPhi(phis[k], splits, t).incoming[i];
                                    if t == edge.1 then Retarget(x, edge.0, e) else x)
    ensures r == ViaPhis(phis, splits[edge := e], t)
  {
    forall k | 0 <= k < |phis| ensures r[k] == ViaPhi(phis[k], splits[edge := e], t) {
      assert r[k].incoming == ViaPhi(phis[k], splits[edge := e], t).incoming;
    }
  }

  // ----- Gathering the copies -----

  function GatherPhi(incoming: seq<Incoming>, dst: nat, b: nat): seq<Copy> {
    if incoming == [] then []
    else
      var last := incoming[|incoming| - 1];
      GatherPhi(incoming[..|incoming| - 1], dst, b) + if last.block == b then [Copy(dst, last.src)] else []
  }

  function GatherPhis(phis: seq<Phi>, b: nat): seq<Copy> {
    if phis == [] then []
    else
      var last := phis[|phis| - 1];
      GatherPhis(phis[..|phis| - 1], b) + GatherPhi(last.incoming, last.dst, b)
  }

  function GatherAll(blocks: seq<PhiBlock>, b: nat): seq<Copy> {
    if blocks == [] then []
    else GatherAll(blocks[..|blocks| - 1], b) + GatherPhis(blocks[|blocks| - 1].phis, b)
  }

  ghost predicate Gathered(blocks: seq<PhiBlock>, s: nat, k: nat, i: nat, copies: seq<seq<Copy>>)
    requires s < |blocks| && k < |blocks[s].phis| && i <= |blocks[s].phis[k].incoming|
  {
    forall b: nat :: b < |copies| ==>
      copies[b] == GatherAll(blocks[..s], b) + GatherPhis(blocks[s].phis[..k], b)
                   + GatherPhi(blocks[s].phis[k].incoming[..i], blocks[s].phis[k].dst, b)
  }

  ghost predicate GatheredBlock(blocks: seq<PhiBlock>, s: nat, k: nat, copies: seq<seq<Copy>>)
    requires s < |blocks| && k <= |blocks[s].phis|
  {
    forall b: nat :: b < |copies| ==> copies[b] == GatherAll(blocks[..s], b) + GatherPhis(blocks[s].phis[..k], b)
  }

  lemma GatherStep(blocks: seq<PhiBlock>, s: nat, k: nat, i: nat, b: nat)
    requires s < |blocks| && k < |blocks[s].phis| && i < |blocks[s].phis[k].incoming|
    ensures var phi := blocks[s].phis[k];
            GatherPhi(phi.incoming[..i + 1], phi.dst, b) == GatherPhi(phi.incoming[..i], phi.dst, b)
              + if phi.incoming[i].block == b then [Copy(phi.dst, phi.incoming[i].src)] else []
  {
    var phi := blocks[s].phis[k];
    assert phi.incoming[..i + 1][..i] == phi.incoming[..i];
  }

  method GatherPhiCopies(blocks: seq<PhiBlock>, s: nat, k: nat, copies0: seq<seq<Copy>>)
    returns (copies: seq<seq<Copy>>)
    requires s < |blocks| && k < |blocks[s].phis| && GatheredBlock(blocks, s, k, copies0)
    requires forall i :: 0 <= i < |blocks[s].phis[k].incoming| ==> blocks[s].phis[k].incoming[i].block < |copies0|
    ensures |copies| == |copies0| && GatheredBlock(blocks, s, k + 1, copies)
  {
    hide GatherPhis, GatherAll, GatherPhi;
    var phi := blocks[s].phis[k];
    copies := copies0;
    NothingGathered(phi);
    for i := 0 to |phi.incoming|
      invariant |copies| == |copies0| && Gathered(blocks, s, k, i, copies)
    {
      forall b: nat {
        GatherStep(blocks, s, k, i, b);
      }
      var b := phi.incoming[i].block;
      copies := copies[b := copies[b] + [Copy(phi.dst, phi.incoming[i].src)]];
    }
    WholePhi(blocks, s, k, copies);
  }

  lemma NothingGathered(phi: Phi)
    ensures forall b: nat :: GatherPhi(phi.incoming[..0], phi.dst, b) == []
  {
  }

  lemma WholePhi(blocks: seq<PhiBlock>, s: nat, k: nat, copies: seq<seq<Copy>>)
    requires s < |blocks| && k < |blocks[s].phis|
    requires Gathered(blocks, s, k, |blocks[s].phis[k].incoming|, copies)
    ensures GatheredBlock(blocks, s, k + 1, copies)
  {
    hide GatherAll, GatherPhi;
    var phis := blocks[s].phis;
    assert phis[..k + 1][..k] == phis[..k];
    assert phis[k].incoming[..|phis[k].incoming|] == phis[k].incoming;
  }

  /** The copies of every block, in the order of the PHIs they come from. */
  method GatherCopies(blocks: seq<PhiBlock>) returns (copies: seq<seq<Copy>>)
    requires BlocksBelow(blocks)
    ensures |copies| == |blocks| && forall b: nat :: b < |blocks| ==> copies[b] == GatherAll(blocks, b)
  {
    hide GatherPhis, GatherAll;
    copies := seq(|blocks|, b => []);
    NothingYet(blocks);
    for s := 0 to |blocks|
      invariant |copies| == |blocks|
      invariant forall b: nat :: b < |blocks| ==> copies[b] == GatherAll(blocks[..s], b)
    {
      NoPhiYet(blocks, s);
      for k := 0 to |blocks[s].phis|
        invariant |copies| == |blocks| && GatheredBlock(blocks, s, k, copies)
      {
        copies := GatherPhiCopies(blocks, s, k, copies);
      }
      WholeBlock(blocks, s, copies);
    }
    assert blocks[..|blocks|] == blocks;
  }

  lemma NothingYet(blocks: seq<PhiBlock>)
    ensures forall b: nat :: GatherAll(blocks[..0], b) == []
  {
  }

  lemma NoPhiYet(blocks: seq<PhiBlock>, s: nat)
    requires s < |blocks|
    ensures forall b: nat :: GatherPhis(blocks[s].phis[..0], b) == []
  {
  }

  lemma WholeBlock(blocks: seq<PhiBlock>, s: nat, copies: seq<seq<Copy>>)
    requires s < |blocks| && GatheredBlock(blocks, s, |blocks[s].phis|, copies)
    ensures forall b: nat :: b < |copies| ==> copies[b] == GatherAll(blocks[..s + 1], b)
  {
    hide GatherPhis;
    assert blocks[..s + 1][..s] == blocks[..s];
    assert blocks[s].phis[..|blocks[s].phis|] == blocks[s].phis;
  }

  // ----- What is gathered -----

  lemma {:induction false} GatherNone(incoming: seq<Incoming>, dst: nat, b: nat)
    requires forall i :: 0 <= i < |incoming| ==> incoming[i].block != b
    ensures GatherPhi(incoming, dst, b) == []
  {
    if incoming != [] { GatherNone(incoming[..|incoming| - 1], dst, b); }
  }

  lemma {:induction false} FirstIs(incoming: seq<Incoming>, b: nat, i: nat)
    requires i < |incoming| && incoming[i].block == b
    requires forall j, k :: 0 <= j < k < |incoming| ==> incoming[j].block != incoming[k].block
    ensures FirstFrom(incoming, b) == incoming[i].src
  {
    if i > 0 {
      assert incoming[1..][i - 1] == incoming[i];
      FirstIs(incoming[1..], b, i - 1);
    }
  }

  lemma {:induction false} GatherOne(incoming: seq<Incoming>, dst: nat, b: nat, i: nat)
    requires i < |incoming| && incoming[i].block == b
    requires forall j, k :: 0 <= j < k < |incoming| ==> incoming[j].block != incoming[k].block
    ensures GatherPhi(incoming, dst, b) == [Copy(dst, incoming[i].src)]
  {
    var front := incoming[..|incoming| - 1];
    if i == |incoming| - 1 {
      GatherNone(front, dst, b);
    } else {
      GatherOne(front, dst, b, i);
    }
  }

  /** Every PHI has one value for the edge: the copies are those of the edge. */
  lemma {:induction false} GatherEdge(phis: seq<Phi>, via: seq<Phi>, p: nat, b: nat)
    requires |via| == |phis|
    requires forall k :: 0 <= k < |phis| ==>
               GatherPhi(via[k].incoming, via[k].dst, b) == [Copy(phis[k].dst, SourceFrom(phis[k], p))]
    ensures GatherPhis(via, b) == EdgeCopies(phis, p)
  {
    if phis != [] {
      var n := |phis| - 1;
      GatherEdge(phis[..n], via[..n], p, b);
      assert EdgeCopies(phis, p) == EdgeCopies(phis[..n], p) + [Copy(phis[n].dst, SourceFrom(phis[n], p))];
    } else {
      assert EdgeCopies(phis, p) == [];
    }
  }

  lemma {:induction false} GatherSilent(phis: seq<Phi>, b: nat)
    requires forall k :: 0 <= k < |phis| ==> GatherPhi(phis[k].incoming, phis[k].dst, b) == []
    ensures GatherPhis(phis, b) == []
  {
    if phis != [] { GatherSilent(phis[..|phis| - 1], b); }
  }

  /** Only one block's PHIs name b. */
  lemma {:induction false} GatherFrom(blocks: seq<PhiBlock>, b: nat, s: nat)
    requires forall t: nat :: t < |blocks| && t != s ==> GatherPhis(blocks[t].phis, b) == []
    ensures GatherAll(blocks, b) == if s < |blocks| then GatherPhis(blocks[s].phis, b) else []
  {
    if blocks != [] { GatherFrom(blocks[..|blocks| - 1], b, s); }
  }

  /** Different predecessors of a block reach it through different blocks. */
  lemma PredInjective(f: PhiFunction, edges: seq<Edge>, p: nat, q: nat, s: nat, t: nat)
    requires Distinct(edges) && p < |f| && q < |f|
    ensures var splits := SplitMap(edges, |f|);
            Pred(splits, p, s) == Pred(splits, q, t) ==> p == q && ((p, s) in splits ==> s == t)
  {
    SplitMapAt(edges, |f|, (p, s));
    SplitMapAt(edges, |f|, (q, t));
  }

  /** The PHIs of block s name the block an edge into s leaves from once, with the edge's value. */
  lemma GatherAtEdge(f: PhiFunction, limit: nat, edges: seq<Edge>, p: nat, s: nat)
    requires ValidPhis(f, limit) && Distinct(edges) && p < |f| && s < |f| && s in f[p].body.succs
    ensures var splits := SplitMap(edges, |f|);
            GatherPhis(ViaPhis(f[s].phis, splits, s), Pred(splits, p, s)) == EdgeCopies(f[s].phis, p)
  {
    hide GatherPhi, SplitMap, ViaPhi;
    var splits := SplitMap(edges, |f|);
    var via, b := ViaPhis(f[s].phis, splits, s), Pred(splits, p, s);
    assert ValidBlock(f, s, limit);
    forall k | 0 <= k < |f[s].phis|
      ensures GatherPhi(via[k].incoming, via[k].dst, b) == [Copy(f[s].phis[k].dst, SourceFrom(f[s].phis[k], p))]
    {
      assert ValidPhi(f, s, f[s].phis[k], limit);
      GatherPhiAtEdge(f, limit, edges, p, s, f[s].phis[k]);
    }
    GatherEdge(f[s].phis, via, p, b);
  }

  lemma GatherPhiAtEdge(f: PhiFunction, limit: nat, edges: seq<Edge>, p: nat, s: nat, phi: Phi)
    requires ValidPhi(f, s, phi, limit) && Distinct(edges) && p < |f| && s in f[p].body.succs
    ensures var splits := SplitMap(edges, |f|);
            var via := ViaPhi(phi, splits, s);
            GatherPhi(via.incoming, via.dst, Pred(splits, p, s)) == [Copy(phi.dst, SourceFrom(phi, p))]
  {
    hide GatherPhi, SplitMap, Pred;
    var splits := SplitMap(edges, |f|);
    var via := ViaPhi(phi, splits, s).incoming;
    var i :| 0 <= i < |phi.incoming| && phi.incoming[i].block == p;
    forall j, k | 0 <= j < k < |via| ensures via[j].block != via[k].block {
      PredInjective(f, edges, phi.incoming[j].block, phi.incoming[k].block, s, s);
    }
    GatherOne(via, phi.dst, Pred(splits, p, s), i);
    FirstIs(phi.incoming, p, i);
  }

  /** PHIs of a block do not name a block that no edge into it leaves from. */
  lemma GatherElsewhere(f: PhiFunction, limit: nat, edges: seq<Edge>, t: nat, b: nat)
    requires ValidPhis(f, limit) && t < |f|
    requires forall q: nat :: q < |f| && t in f[q].body.succs && f[t].phis != [] ==>
               Pred(SplitMap(edges, |f|), q, t) != b
    ensures GatherPhis(ViaPhis(f[t].phis, SplitMap(edges, |f|), t), b) == []
  {
    hide GatherPhi, SplitMap, Pred;
    var via := ViaPhis(f[t].phis, SplitMap(edges, |f|), t);
    assert ValidBlock(f, t, limit);
    forall k | 0 <= k < |via| ensures GatherPhi(via[k].incoming, via[k].dst, b) == [] {
      assert ValidPhi(f, t, f[t].phis[k], limit);
      GatherNone(via[k].incoming, via[k].dst, b);
    }
    GatherSilent(via, b);
  }

  /** The edges the pass splits. */
  ghost predicate SplitsAll(f: PhiFunction, edges: seq<Edge>) {
    Distinct(edges) && forall e: Edge :: e in edges <==> SplitEdge(f, e)
  }

  lemma SplitPhisEmpty(f: PhiFunction, blocks: seq<PhiBlock>, edges: seq<Edge>, t: nat, b: nat)
    requires SplitSoFar(f, blocks, edges) && |f| <= t < |blocks|
    ensures GatherPhis(blocks[t].phis, b) == []
  {
    var k: nat := t - |f|;
    assert blocks[|f| + k] == PhiBlock([], Block([], [edges[k].1]));
  }

  /** A split block gets the copies of its edge. */
  lemma SplitGathers(f: PhiFunction, limit: nat, blocks: seq<PhiBlock>, edges: seq<Edge>, k: nat)
    requires ValidPhis(f, limit) && SplitSoFar(f, blocks, edges) && SplitsAll(f, edges)
    requires k < |edges| && SplitEdge(f, edges[k])
    ensures GatherAll(blocks, |f| + k) == EdgeCopies(f[edges[k].1].phis, edges[k].0)
  {
    hide GatherPhi, GatherPhis, GatherAll, SplitMap, ViaPhis, EdgeCopies;
    var (p, s) := edges[k];
    var splits, b := SplitMap(edges, |f|), |f| + k;
    assert SplitEdge(f, (p, s));
    SplitMapAt(edges, |f|, (p, s));
    assert Pred(splits, p, s) == b by { assert edges[splits[(p, s)] - |f|] == edges[k]; }
    forall t: nat | t < |blocks| && t != s ensures GatherPhis(blocks[t].phis, b) == [] {
      if t >= |f| {
        SplitPhisEmpty(f, blocks, edges, t, b);
      } else {
        forall q: nat | q < |f| ensures Pred(splits, q, t) != b {
          PredInjective(f, edges, p, q, s, t);
        }
        GatherElsewhere(f, limit, edges, t, b);
      }
    }
    GatherFrom(blocks, b, s);
    GatherAtEdge(f, limit, edges, p, s);
  }

  function SoleCopies(f: PhiFunction, p: nat): seq<Copy>
    requires p < |f|
  {
    var succs := f[p].body.succs;
    if |succs| == 1 && succs[0] < |f| then EdgeCopies(f[succs[0]].phis, p) else []
  }

  /** A block of the function gets the copies of its only edge, or none. */
  lemma BlockGathers(f: PhiFunction, limit: nat, blocks: seq<PhiBlock>, edges: seq<Edge>, p: nat)
    requires ValidPhis(f, limit) && SplitSoFar(f, blocks, edges) && SplitsAll(f, edges) && p < |f|
    ensures GatherAll(blocks, p) == SoleCopies(f, p)
  {
    hide GatherPhi, GatherPhis, GatherAll, SplitMap, ViaPhis, EdgeCopies;
    var succs, splits := f[p].body.succs, SplitMap(edges, |f|);
    assert ValidBlock(f, p, limit);
    var s := if |succs| == 1 then succs[0] else |blocks|;
    forall t: nat | t < |blocks| && t != s ensures GatherPhis(blocks[t].phis, p) == [] {
      if t >= |f| {
        SplitPhisEmpty(f, blocks, edges, t, p);
      } else {
        forall q: nat | q < |f| && t in f[q].body.succs && f[t].phis != [] ensures Pred(splits, q, t) != p {
          SplitMapAt(edges, |f|, (q, t));
          if q == p { assert SplitEdge(f, (q, t)); }
        }
        GatherElsewhere(f, limit, edges, t, p);
      }
    }
    GatherFrom(blocks, p, s);
    if |succs| == 1 {
      assert s in succs;
      SplitMapAt(edges, |f|, (p, s));
      assert !SplitEdge(f, (p, s));
      GatherAtEdge(f, limit, edges, p, s);
    }
  }

  // ----- The pass -----

  /** The function while its PHIs are being removed. */
  class Eliminator {
    var blocks: seq<PhiBlock>
    var nextRegister: nat

    constructor (f: PhiFunction, limit: nat)
      ensures blocks == f && nextRegister == limit
    {
      blocks, nextRegister := f, limit;
    }

    /** Puts a new block on one edge. */
    method SplitOne(p: nat, s: nat, ghost f: PhiFunction, ghost edges: seq<Edge>)
      requires BlocksBelow(f) && SplitSoFar(f, blocks, edges) && Distinct(edges + [(p, s)])
      requires p < |f| && s < |f|
      modifies `blocks
      ensures SplitSoFar(f, blocks, edges + [(p, s)])
    {
      hide SplitMap, ViaPhis, Redirected;
      ghost var before := blocks;
      var e := |blocks|;
      var succs := RedirectBranches(blocks[p].body.succs, s, e);
      blocks := blocks[p := blocks[p].(body := blocks[p].body.(succs := succs))];
      var phis := RetargetPhis(blocks[s].phis, p, e);
      blocks := blocks[s := blocks[s].(phis := phis)];
      blocks := blocks + [PhiBlock([], Block([], [s]))];
      SplitStep(f, before, edges, (p, s), succs, phis, blocks);
    }

    method SplitEdges(ghost f: PhiFunction)
      requires BlocksBelow(f) && blocks == f
      modifies `blocks
      ensures exists edges :: SplitsAll(f, edges) && SplitSoFar(f, blocks, edges)
    {
      var edges := CollectEdges(blocks);
      NothingSplit(f);
      for k := 0 to |edges|
        invariant SplitSoFar(f, blocks, edges[..k])
      {
        assert SplitEdge(f, edges[k]);
        assert edges[..k + 1] == edges[..k] + [edges[k]];
        SplitOne(edges[k].0, edges[k].1, f, edges[..k]);
      }
      assert edges[..|edges|] == edges;
      assert SplitsAll(f, edges);
    }

    /** Orders the copies of one block and appends them. */
    method AppendCopies(b: nat, copies: seq<Copy>, cls: nat -> RegClass, ghost limit: nat)
      requires b < |blocks| && CopiesBelow(copies, limit) && limit <= nextRegister
      modifies this
      ensures |blocks| == |old(blocks)| && old(nextRegister) <= nextRegister
      ensures forall a :: 0 <= a < |blocks| && a != b ==> blocks[a] == old(blocks[a])
      ensures blocks[b].body.succs == old(blocks[b].body.succs)
      ensures exists tail :: blocks[b].body.instrs == old(blocks[b].body.instrs) + tail && EdgeCode(tail, copies, limit)
      ensures copies == [] ==> blocks[b].body.instrs == old(blocks[b].body.instrs)
    {
      var code, next := SequenceCopies(copies, nextRegister);
      nextRegister := next;
      if copies == [] {
        assert EdgeCode([], [], limit) by { EmptyEdge(cls, limit); }
        assert blocks[b].body.instrs + [] == blocks[b].body.instrs;
        return;
      }
      var tail := CopyInstrs(code, cls);
      assert Sequenced(code, copies, limit);
      var block := blocks[b];
      blocks := blocks[b := block.(body := block.body.(instrs := block.body.instrs + tail))];
    }

    /** Removes every PHI. */
    method Run(ghost f: PhiFunction, limit: nat, cls: nat -> RegClass) returns (g: Function, ghost splits: Splits)
      requires ValidPhis(f, limit) && blocks == f && nextRegister == limit
      modifies this
      ensures Lowered(f, g, splits, limit)
      ensures limit <= nextRegister
    {
      hide ValidPhis, SplitSoFar, SplitsAll, GatherAll, EdgeCode;
      ValidBlocksBelow(f, limit);
      SplitEdges(f);
      ghost var edges :| SplitsAll(f, edges) && SplitSoFar(f, blocks, edges);
      ghost var split := blocks;
      SplitBlocksBelow(f, blocks, edges);
      var copies := GatherCopies(blocks);
      for b := 0 to |blocks|
        invariant |blocks| == |split| && limit <= nextRegister
        invariant forall a: nat :: b <= a < |blocks| ==> blocks[a] == split[a]
        invariant forall a: nat :: a < b ==> Appended(split[a].body, blocks[a].body, copies[a], limit)
      {
        GatheredBelow(f, limit, split, edges, b);
        ghost var before := blocks;
        AppendCopies(b, copies[b], cls, limit);
        assert Appended(split[b].body, blocks[b].body, copies[b], limit);
        assert forall a: nat :: a < b ==> blocks[a] == before[a];
      }
      g := Function(seq(|blocks|, b requires 0 <= b < |blocks| reads this => blocks[b].body));
      splits := SplitMap(edges, |f|);
      AllLowered(f, limit, split, edges, g);
    }
  }

  lemma EmptyEdge(cls: nat -> RegClass, limit: nat)
    ensures EdgeCode([], [], limit)
  {
    assert CopyInstrs([], cls) == [];
    assert Sequenced([], [], limit);
  }

  /** The block with the copies at its end. */
  ghost predicate Appended(before: Block, after: Block, copies: seq<Copy>, limit: nat) {
    && after.succs == before.succs
    && (exists tail :: after.instrs == before.instrs + tail && EdgeCode(tail, copies, limit))
    && (copies == [] ==> after.instrs == before.instrs)
  }

  lemma NothingSplit(f: PhiFunction)
    ensures SplitSoFar(f, f, [])
  {
    forall p: nat | p < |f| ensures f[p] == SplitBlock(f, map[], p) {
      assert Redirected(f[p].body.succs, map[], p) == f[p].body.succs;
      forall k | 0 <= k < |f[p].phis| ensures ViaPhi(f[p].phis[k], map[], p) == f[p].phis[k] {
        assert ViaPhi(f[p].phis[k], map[], p).incoming == f[p].phis[k].incoming;
      }
      assert ViaPhis(f[p].phis, map[], p) == f[p].phis;
    }
  }

  lemma SplitMapExtends(edges: seq<Edge>, edge: Edge, base: nat)
    requires Distinct(edges + [edge])
    ensures Distinct(edges) && edge !in SplitMap(edges, base)
    ensures SplitMap(edges + [edge], base) == SplitMap(edges, base)[edge := base + |edges|]
    ensures forall x :: x in SplitMap(edges, base) ==> SplitMap(edges, base)[x] >= base
  {
    var all := edges + [edge];
    assert all[..|edges|] == edges;
    forall i, j | 0 <= i < j < |edges| ensures edges[i] != edges[j] {
      assert all[i] != all[j];
    }
    assert edge !in edges by {
      forall i | 0 <= i < |edges| ensures edges[i] != edge { assert all[i] != all[|edges|]; }
    }
    SplitMapAt(edges, base, edge);
    forall x: Edge | x in SplitMap(edges, base) ensures SplitMap(edges, base)[x] >= base {
      SplitMapAt(edges, base, x);
    }
  }

  /** One more edge split. */
  lemma SplitStep(f: PhiFunction, before: seq<PhiBlock>, edges: seq<Edge>, edge: Edge,
                  succs: seq<nat>, phis: seq<Phi>, after: seq<PhiBlock>)
    requires BlocksBelow(f) && SplitSoFar(f, before, edges) && Distinct(edges + [edge])
    requires edge.0 < |f| && edge.1 < |f|
    requires var old_ := before[edge.0].body.succs;
             |succs| == |old_|
             && forall i :: 0 <= i < |old_| ==> succs[i] == if old_[i] == edge.1 then |before| else old_[i]
    requires var old_ := before[edge.1].phis;
             |phis| == |old_|
             && (forall k :: 0 <= k < |old_| ==> phis[k].dst == old_[k].dst && |phis[k].incoming| == |old_[k].incoming|)
             && forall k, i :: 0 <= k < |old_| && 0 <= i < |old_[k].incoming| ==>
                  phis[k].incoming[i] == Retarget(old_[k].incoming[i], edge.0, |before|)
    requires |after| == |before| + 1 && after[|before|] == PhiBlock([], Block([], [edge.1]))
    requires forall q: nat :: q < |before| ==>
               after[q] == PhiBlock(if q == edge.1 then phis else before[q].phis,
                                    Block(before[q].body.instrs, if q == edge.0 then succs else before[q].body.succs))
    ensures SplitSoFar(f, after, edges + [edge])
  {
    hide SplitMap, ViaPhi;
    var splits, e := SplitMap(edges, |f|), |before|;
    SplitMapExtends(edges, edge, |f|);
    forall q: nat | q < |f| ensures after[q] == SplitBlock(f, splits[edge := e], q) {
      assert before[q] == SplitBlock(f, splits, q);
      RedirectedOnce(f[q].body.succs, splits, q, edge, e, after[q].body.succs);
      RetargetedOnce(f[q].phis, splits, q, edge, e, after[q].phis);
    }
    forall k: nat | k < |edges| + 1
      ensures after[|f| + k] == PhiBlock([], Block([], [(edges + [edge])[k].1]))
    {
      if k < |edges| { assert before[|f| + k] == PhiBlock([], Block([], [edges[k].1])); }
    }
  }

  lemma SplitBlocksBelow(f: PhiFunction, blocks: seq<PhiBlock>, edges: seq<Edge>)
    requires BlocksBelow(f) && SplitSoFar(f, blocks, edges) && SplitsAll(f, edges)
    ensures BlocksBelow(blocks)
  {
    hide SplitMap;
    forall s: nat | s < |blocks|
      ensures (forall t :: t in blocks[s].body.succs ==> t < |blocks|)
      ensures forall i, j :: 0 <= i < |blocks[s].phis| && 0 <= j < |blocks[s].phis[i].incoming| ==>
                blocks[s].phis[i].incoming[j].block < |blocks|
    {
      var splits := SplitMap(edges, |f|);
      if s < |f| {
        assert blocks[s] == SplitBlock(f, splits, s);
        forall e: Edge ensures e in splits ==> splits[e] < |blocks| { SplitMapAt(edges, |f|, e); }
        RedirectedBelow(f[s].body.succs, splits, s, |blocks|);
      } else {
        var k: nat := s - |f|;
        assert blocks[|f| + k] == PhiBlock([], Block([], [edges[k].1]));
        assert SplitEdge(f, edges[k]);
      }
    }
  }

  lemma RedirectedBelow(succs: seq<nat>, splits: Splits, p: nat, n: nat)
    requires forall t :: t in succs ==> t < n
    requires forall e :: e in splits ==> splits[e] < n
    ensures forall t :: t in Redirected(succs, splits, p) ==> t < n
  {
    forall t | t in Redirected(succs, splits, p) ensures t < n {
      var i :| 0 <= i < |succs| && Redirected(succs, splits, p)[i] == t;
      assert succs[i] in succs;
    }
  }

  lemma GatheredBelow(f: PhiFunction, limit: nat, blocks: seq<PhiBlock>, edges: seq<Edge>, b: nat)
    requires ValidPhis(f, limit) && SplitSoFar(f, blocks, edges) && SplitsAll(f, edges) && b < |blocks|
    ensures CopiesBelow(GatherAll(blocks, b), limit)
  {
    hide GatherAll, SplitMap;
    if b < |f| {
      BlockGathers(f, limit, blocks, edges, b);
      assert ValidBlock(f, b, limit);
      var succs := f[b].body.succs;
      if |succs| == 1 {
        assert succs[0] in succs;
        PhiCopiesBelow(f, b, succs[0], limit);
      }
    } else {
      SplitGathers(f, limit, blocks, edges, b - |f|);
      assert SplitEdge(f, edges[b - |f|]);
      PhiCopiesBelow(f, edges[b - |f|].0, edges[b - |f|].1, limit);
    }
  }

  lemma AllLowered(f: PhiFunction, limit: nat, split: seq<PhiBlock>, edges: seq<Edge>, g: Function)
    requires ValidPhis(f, limit) && SplitSoFar(f, split, edges) && SplitsAll(f, edges)
    requires |g.blocks| == |split| && BlocksBelow(split)
    requires forall b: nat :: b < |split| ==> Appended(split[b].body, g.blocks[b], GatherAll(split, b), limit)
    ensures Lowered(f, g, SplitMap(edges, |f|), limit)
  {
    hide GatherAll, SplitMap, EdgeCode;
    var splits := SplitMap(edges, |f|);
    forall p: nat | p < |f|
      ensures ValidBlock(f, p, limit) && BlockLowered(f, g, splits, p, limit)
    {
      OneLowered(f, limit, split, edges, g, p);
    }
    forall p: nat, s: nat | p < |f| && s in f[p].body.succs
      ensures s < |f| && SplitLowered(f, g, splits, p, s, limit)
    {
      assert ValidBlock(f, p, limit);
      EdgeLowered(f, limit, split, edges, g, p, s);
    }
    LoweredExecutable(f, limit, split, edges, g);
  }

  lemma OneLowered(f: PhiFunction, limit: nat, split: seq<PhiBlock>, edges: seq<Edge>, g: Function, p: nat)
    requires ValidPhis(f, limit) && SplitSoFar(f, split, edges) && SplitsAll(f, edges) && p < |f|
    requires |g.blocks| == |split| && Appended(split[p].body, g.blocks[p], GatherAll(split, p), limit)
    ensures ValidBlock(f, p, limit) && BlockLowered(f, g, SplitMap(edges, |f|), p, limit)
  {
    hide GatherAll, SplitMap, EdgeCode;
    assert ValidBlock(f, p, limit);
    assert split[p] == SplitBlock(f, SplitMap(edges, |f|), p);
    BlockGathers(f, limit, split, edges, p);
    var body := f[p].body;
    if |body.succs| == 1 && body.succs[0] < |f| {
      var tail :| g.blocks[p].instrs == split[p].body.instrs + tail && EdgeCode(tail, GatherAll(split, p), limit);
      assert TailLowered(f, p, tail, limit);
    } else {
      assert g.blocks[p].instrs == body.instrs + [];
      assert TailLowered(f, p, [], limit);
    }
  }

  lemma {:induction false} EdgeLowered(f: PhiFunction, limit: nat, split: seq<PhiBlock>, edges: seq<Edge>,
                                       g: Function, p: nat, s: nat)
    requires ValidPhis(f, limit) && SplitSoFar(f, split, edges) && SplitsAll(f, edges)
    requires p < |f| && s < |f| && s in f[p].body.succs
    requires |g.blocks| == |split|
    requires forall b: nat :: b < |split| ==> Appended(split[b].body, g.blocks[b], GatherAll(split, b), limit)
    ensures SplitLowered(f, g, SplitMap(edges, |f|), p, s, limit)
  {
    hide GatherAll, SplitMap, EdgeCode;
    SplitMapAt(edges, |f|, (p, s));
    assert (p, s) in edges <==> SplitEdge(f, (p, s));
    if (p, s) in edges {
      var e := SplitMap(edges, |f|)[(p, s)];
      var k: nat := e - |f|;
      SplitGathers(f, limit, split, edges, k);
      assert split[|f| + k] == PhiBlock([], Block([], [s]));
      assert Appended(split[e].body, g.blocks[e], GatherAll(split, e), limit);
      var tail :| g.blocks[e].instrs == split[e].body.instrs + tail && EdgeCode(tail, GatherAll(split, e), limit);
      assert g.blocks[e].instrs == tail;
    }
  }

  lemma LoweredExecutable(f: PhiFunction, limit: nat, split: seq<PhiBlock>, edges: seq<Edge>, g: Function)
    requires ValidPhis(f, limit) && SplitSoFar(f, split, edges) && |g.blocks| == |split| && BlocksBelow(split)
    requires forall b: nat :: b < |split| ==> Appended(split[b].body, g.blocks[b], GatherAll(split, b), limit)
    ensures Executable(g)
  {
    hide GatherAll, SplitMap;
    forall b: nat | b < |g.blocks| ensures AllWellFormed(g.blocks[b].instrs) {
      assert Appended(split[b].body, g.blocks[b], GatherAll(split, b), limit);
      var tail :| g.blocks[b].instrs == split[b].body.instrs + tail && EdgeCode(tail, GatherAll(split, b), limit);
      SplitBodyWellFormed(f, limit, split, edges, b);
    }
    forall b, t | 0 <= b < |g.blocks| && t in g.blocks[b].succs ensures t < |g.blocks| {
      assert Appended(split[b].body, g.blocks[b], GatherAll(split, b), limit);
    }
  }

  lemma SplitBodyWellFormed(f: PhiFunction, limit: nat, split: seq<PhiBlock>, edges: seq<Edge>, b: nat)
    requires ValidPhis(f, limit) && SplitSoFar(f, split, edges) && b < |split|
    ensures AllWellFormed(split[b].body.instrs)
  {
    hide SplitMap;
    if b < |f| {
      assert ValidBlock(f, b, limit);
      assert split[b] == SplitBlock(f, SplitMap(edges, |f|), b);
      forall i | 0 <= i < |f[b].body.instrs| ensures WellFormed(f[b].body.instrs[i]) {
        assert InstrBelow(f[b].body.instrs[i], limit);
      }
    } else {
      var k: nat := b - |f|;
      assert split[|f| + k] == PhiBlock([], Block([], [edges[k].1]));
    }
  }
}
