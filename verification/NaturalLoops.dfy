/** Natural loops: the blocks that reach a latch without passing the header. */
module NaturalLoops {
  import opened Dominators

  datatype Loop = Loop(header: nat, blocks: set<nat>)

  ghost predicate ReachesLatch(g: Graph, x: nat, latches: set<nat>, h: nat) {
    exists t :: t in latches && Avoids(g, x, t, h)
  }

  /** The header, and the reachable blocks that reach a latch without passing it. */
  ghost predicate Body(g: Graph, reachable: set<nat>, h: nat, latches: set<nat>, blocks: set<nat>) {
    forall x :: x in blocks <==> x == h || (x in reachable && ReachesLatch(g, x, latches, h))
  }

  lemma AvoidsItself(g: Graph, t: nat, h: nat)
    requires t != h
    ensures Avoids(g, t, t, h)
  {
    assert Joins(g, t, t, [t]);
  }

  lemma NeverAvoidsEnd(g: Graph, x: nat, h: nat)
    ensures !Avoids(g, x, h, h) && !Avoids(g, h, x, h)
  {
  }

  lemma AvoidsStep(g: Graph, x: nat, y: nat, t: nat, h: nat)
    requires Edge(g, x, y) && Avoids(g, y, t, h) && x != h
    ensures Avoids(g, x, t, h)
  {
    var p :| Joins(g, y, t, p) && h !in p;
    Prepend(g, x, y, t, p);
    assert h !in [x] + p;
  }

  lemma AvoidsConcat(g: Graph, x: nat, y: nat, t: nat, h: nat)
    requires Avoids(g, x, y, h) && Avoids(g, y, t, h)
    ensures Avoids(g, x, t, h)
  {
    var p :| Joins(g, x, y, p) && h !in p;
    var q :| Joins(g, y, t, q) && h !in q;
    Concat(g, x, y, t, p, q);
    assert h !in p + q[1..];
  }

  /** Every block of a loop is dominated by its header. */
  lemma BodyDominated(g: Graph, reachable: set<nat>, h: nat, latches: set<nat>, blocks: set<nat>, x: nat)
    requires Body(g, reachable, h, latches, blocks) && x in blocks
    requires forall t :: t in latches ==> Dominates(g, h, t)
    ensures Dominates(g, h, x)
  {
    if x == h {
      forall p | Joins(g, g.entry, h, p) ensures h in p { assert p[|p| - 1] == h; }
    } else {
      var t :| t in latches && Avoids(g, x, t, h);
      var q :| Joins(g, x, t, q) && h !in q;
      forall p | Joins(g, g.entry, x, p) ensures h in p {
        Concat(g, g.entry, x, t, p, q);
        assert h in p + q[1..];
      }
    }
  }

  /** While the walk is under way: everything found belongs, and the predecessors of what has
      been walked are found. */
  ghost predicate Walking(g: Graph, reachable: set<nat>, h: nat, latches: set<nat>, blocks: set<nat>, open: set<nat>) {
    && h in blocks && (forall t :: t in latches ==> t in blocks)
    && (forall x :: x in blocks && x != h ==> x in reachable && ReachesLatch(g, x, latches, h))
    && (forall y, p :: y in blocks && y != h && y !in open && p in reachable && Edge(g, p, y) ==> p in blocks)
  }

  lemma {:induction false} WalkedAll(g: Graph, reachable: set<nat>, h: nat, latches: set<nat>, blocks: set<nat>,
                                     x: nat, t: nat, p: seq<nat>)
    requires Walking(g, reachable, h, latches, blocks, {}) && (forall b: nat :: b in reachable <==> Reachable(g, b))
    requires x in reachable && t in latches && Joins(g, x, t, p) && h !in p
    ensures x in blocks
    decreases |p|
  {
    if |p| == 1 {
      assert x == t;
    } else {
      First(g, x, t, p);
      ReachStep(g, x, p[1]);
      WalkedAll(g, reachable, h, latches, blocks, p[1], t, p[1..]);
      assert p[1] in p;
    }
  }

  lemma WalkedBody(g: Graph, reachable: set<nat>, h: nat, latches: set<nat>, blocks: set<nat>)
    requires Walking(g, reachable, h, latches, blocks, {}) && (forall b: nat :: b in reachable <==> Reachable(g, b))
    ensures Body(g, reachable, h, latches, blocks)
  {
    forall x | x in reachable && ReachesLatch(g, x, latches, h) ensures x in blocks {
      var t :| t in latches && Avoids(g, x, t, h);
      var p :| Joins(g, x, t, p) && h !in p;
      WalkedAll(g, reachable, h, latches, blocks, x, t, p);
    }
  }

  /** A finished body is a finished walk, to which a new latch can be added. */
  lemma StartWalk(g: Graph, reachable: set<nat>, h: nat, latches: set<nat>, blocks: set<nat>, tail: nat)
    requires Body(g, reachable, h, latches, blocks) && (forall b: nat :: b in reachable <==> Reachable(g, b))
    requires tail in reachable && tail !in blocks && forall t :: t in latches ==> t in blocks
    ensures Walking(g, reachable, h, latches + {tail}, blocks + {tail}, {tail})
  {
    AvoidsItself(g, tail, h);
    assert ReachesLatch(g, tail, latches + {tail}, h);
    forall x | x in blocks && x != h ensures ReachesLatch(g, x, latches + {tail}, h) {
      var t :| t in latches && Avoids(g, x, t, h);
      assert t in latches + {tail};
    }
    forall y, p | y in blocks && y != h && p in reachable && Edge(g, p, y) ensures p in blocks {
      var t :| t in latches && Avoids(g, y, t, h);
      if p != h {
        AvoidsStep(g, p, y, t, h);
        assert ReachesLatch(g, p, latches, h);
      }
    }
    hide Avoids, Reachable;
  }

  /** A latch already inside adds nothing. */
  lemma LatchInside(g: Graph, reachable: set<nat>, h: nat, latches: set<nat>, blocks: set<nat>, tail: nat)
    requires Body(g, reachable, h, latches, blocks) && tail in blocks
    ensures Body(g, reachable, h, latches + {tail}, blocks)
  {
    forall x | x in reachable
      ensures x == h || (ReachesLatch(g, x, latches + {tail}, h) <==> ReachesLatch(g, x, latches, h)) {
      if ReachesLatch(g, x, latches + {tail}, h) {
        var t :| t in latches + {tail} && Avoids(g, x, t, h);
        if t == tail {
          NeverAvoidsEnd(g, x, h);
          var s :| s in latches && Avoids(g, tail, s, h);
          AvoidsConcat(g, x, tail, s, h);
        }
      }
      if ReachesLatch(g, x, latches, h) {
        var t :| t in latches && Avoids(g, x, t, h);
        assert t in latches + {tail};
      }
    }
  }

  lemma FoundPredecessor(g: Graph, reachable: set<nat>, h: nat, latches: set<nat>, blocks: set<nat>, open: set<nat>,
                         y: nat, p: nat)
    requires Walking(g, reachable, h, latches, blocks, open) && y in blocks && y != h && p in reachable && Edge(g, p, y)
    requires p !in blocks
    ensures Walking(g, reachable, h, latches, blocks + {p}, open + {p})
  {
    var t :| t in latches && Avoids(g, y, t, h);
    AvoidsStep(g, p, y, t, h);
    assert ReachesLatch(g, p, latches, h);
    hide Avoids, Reachable;
  }

  method WalkPredecessors(g: Graph, reachable: set<nat>, h: nat, blocks0: set<nat>, worklist0: seq<nat>, current: nat,
                          ghost latches: set<nat>)
    returns (blocks: set<nat>, worklist: seq<nat>)
    requires Valid(g) && current < |g.predecessors| && current in blocks0 && current != h
    requires Walking(g, reachable, h, latches, blocks0, Members(worklist0) + {current})
    requires forall b :: b in reachable ==> b < |g.successors|
    ensures Walking(g, reachable, h, latches, blocks, Members(worklist)) && blocks0 <= blocks
    ensures forall y :: y in worklist ==> y in worklist0 || (y in blocks && y != h)
    ensures blocks == blocks0 ==> worklist == worklist0
  {
    hide Body, Avoids, Reachable, ReachesLatch, Walking;
    blocks, worklist := blocks0, worklist0;
    var ps := g.predecessors[current];
    WalkedLatches(g, reachable, h, latches, blocks, Members(worklist) + {current});
    for i := 0 to |ps|
      invariant blocks0 <= blocks && current in blocks && h in blocks
      invariant Walking(g, reachable, h, latches, blocks, Members(worklist) + {current})
      invariant forall y :: y in worklist ==> y in worklist0 || (y in blocks && y != h)
      invariant blocks == blocks0 ==> worklist == worklist0
      invariant forall j :: 0 <= j < i && ps[j] in reachable ==> ps[j] in blocks
    {
      var predecessor := ps[i];
      if predecessor in reachable && predecessor !in blocks {
        assert predecessor in g.predecessors[current];
        assert Edge(g, predecessor, current);
        FoundPredecessor(g, reachable, h, latches, blocks, Members(worklist) + {current}, current, predecessor);
        blocks := blocks + {predecessor};
        if predecessor != h {
          worklist := worklist + [predecessor];
          assert Members(worklist) + {current} == Members(worklist[..|worklist| - 1]) + {current} + {predecessor};
        }
      }
    }
    forall p: nat | p in reachable && Edge(g, p, current) ensures p in blocks {
      assert p in ps;
    }
    ClosedWalk(g, reachable, h, latches, blocks, Members(worklist), current);
  }

  /** A block whose predecessors are all found is no longer open. */
  lemma ClosedWalk(g: Graph, reachable: set<nat>, h: nat, latches: set<nat>, blocks: set<nat>, open: set<nat>,
                   current: nat)
    requires Walking(g, reachable, h, latches, blocks, open + {current})
    requires forall p: nat :: p in reachable && Edge(g, p, current) ==> p in blocks
    ensures Walking(g, reachable, h, latches, blocks, open)
  {
    hide ReachesLatch;
  }

  ghost function Members(s: seq<nat>): set<nat> {
    set x | x in s
  }

  /** The walk from one latch. */
  method Grow(g: Graph, reachable: set<nat>, h: nat, blocks0: set<nat>, tail: nat, ghost latches: set<nat>)
    returns (blocks: set<nat>)
    requires Valid(g) && (forall b: nat :: b in reachable <==> Reachable(g, b)) && tail in reachable
      && h < |g.successors|
    requires (forall b :: b in reachable ==> b < |g.successors|) && (forall t :: t in latches ==> t in blocks0)
    requires Body(g, reachable, h, latches, blocks0)
    ensures Body(g, reachable, h, latches + {tail}, blocks) && (forall t :: t in latches + {tail} ==> t in blocks)
  {
    if tail in blocks0 {
      hide Avoids, Reachable, ReachesLatch, Walking;
      LatchInside(g, reachable, h, latches, blocks0, tail);
      return blocks0;
    }
    hide Body, Avoids, Reachable, ReachesLatch, Walking;
    StartWalk(g, reachable, h, latches, blocks0, tail);
    blocks := blocks0 + {tail};
    var worklist := [tail];
    assert Members(worklist) == {tail};
    while worklist != []
      invariant Walking(g, reachable, h, latches + {tail}, blocks, Members(worklist))
      invariant forall y :: y in worklist ==> y in blocks && y != h
      decreases UpTo(|g.successors|) - blocks, |worklist|
    {
      var current := worklist[|worklist| - 1];
      var rest := worklist[..|worklist| - 1];
      assert worklist == rest + [current];
      assert Members(worklist) == Members(rest) + {current};
      assert current in worklist;
      blocks, worklist := WalkPredecessors(g, reachable, h, blocks, rest, current, latches + {tail});
    }
    assert Members([]) == {};
    WalkedBody(g, reachable, h, latches + {tail}, blocks);
    WalkedLatches(g, reachable, h, latches + {tail}, blocks, {});
  }

  lemma WalkedLatches(g: Graph, reachable: set<nat>, h: nat, latches: set<nat>, blocks: set<nat>, open: set<nat>)
    requires Walking(g, reachable, h, latches, blocks, open)
    ensures h in blocks && forall t :: t in latches ==> t in blocks
  {
  }

  // All loops of a function

  predicate BackEdge(g: Graph, reachable: set<nat>, dominators: map<nat, set<nat>>, t: nat, h: nat) {
    t in reachable && t < |g.successors| && h in g.successors[t] && t in dominators && h in dominators[t]
  }

  /** Edges out of earlier tails, and the first j edges out of this one. */
  ghost predicate Before(g: Graph, t: nat, h: nat, tail: nat, j: nat) {
    t < tail || (t == tail && tail < |g.successors| && j <= |g.successors[tail]| && h in g.successors[tail][..j])
  }

  ghost predicate Entry(g: Graph, reachable: set<nat>, dominators: map<nat, set<nat>>, l: Loop, latches: set<nat>,
                        tail: nat, j: nat) {
    && l.header < |g.successors| && Body(g, reachable, l.header, latches, l.blocks)
    && (forall t :: t in latches ==> t in l.blocks)
    && (forall t: nat :: t in latches <==>
        BackEdge(g, reachable, dominators, t, l.header) && Before(g, t, l.header, tail, j))
  }

  /** One loop for every header of a back edge seen so far, with exactly the latches seen so far. */
  ghost predicate Collected(g: Graph, reachable: set<nat>, dominators: map<nat, set<nat>>, loops: seq<Loop>,
                            latches: seq<set<nat>>, index: map<nat, nat>, tail: nat, j: nat) {
    && Indexed(loops, latches, index)
    && (forall i :: 0 <= i < |loops| ==> Entry(g, reachable, dominators, loops[i], latches[i], tail, j))
    && (forall t: nat, h: nat :: BackEdge(g, reachable, dominators, t, h) && Before(g, t, h, tail, j) ==> h in index)
  }

  ghost predicate Indexed(loops: seq<Loop>, latches: seq<set<nat>>, index: map<nat, nat>) {
    && |loops| == |latches|
    && (forall i :: 0 <= i < |loops| ==> loops[i].header in index && index[loops[i].header] == i && latches[i] != {})
    && (forall h :: h in index ==> index[h] < |loops| && loops[index[h]].header == h)
  }

  lemma BeforeNext(g: Graph, t: nat, h: nat, tail: nat, j: nat)
    requires tail < |g.successors| && j < |g.successors[tail]|
    ensures Before(g, t, h, tail, j + 1) <==> Before(g, t, h, tail, j) || (t == tail && h == g.successors[tail][j])
  {
    assert g.successors[tail][..j + 1] == g.successors[tail][..j] + [g.successors[tail][j]];
  }

  lemma BeforeTail(g: Graph, t: nat, h: nat, tail: nat)
    requires tail < |g.successors|
    ensures t < |g.successors| && h in g.successors[t] ==>
      (Before(g, t, h, tail, |g.successors[tail]|) <==> Before(g, t, h, tail + 1, 0))
  {
    assert g.successors[tail][..|g.successors[tail]|] == g.successors[tail];
  }

  /** An edge that is not a back edge changes nothing. */
  lemma SkipEdge(g: Graph, reachable: set<nat>, dominators: map<nat, set<nat>>, loops: seq<Loop>,
                 latches: seq<set<nat>>, index: map<nat, nat>, tail: nat, j: nat)
    requires Collected(g, reachable, dominators, loops, latches, index, tail, j)
    requires tail < |g.successors| && j < |g.successors[tail]|
    requires !BackEdge(g, reachable, dominators, tail, g.successors[tail][j])
    ensures Collected(g, reachable, dominators, loops, latches, index, tail, j + 1)
  {
    forall t: nat, h: nat | BackEdge(g, reachable, dominators, t, h)
      ensures Before(g, t, h, tail, j + 1) <==> Before(g, t, h, tail, j)
    {
      BeforeNext(g, t, h, tail, j);
    }
    hide Body, BackEdge, Before;
  }

  lemma NextTail(g: Graph, reachable: set<nat>, dominators: map<nat, set<nat>>, loops: seq<Loop>,
                 latches: seq<set<nat>>, index: map<nat, nat>, tail: nat)
    requires tail < |g.successors|
    requires Collected(g, reachable, dominators, loops, latches, index, tail, |g.successors[tail]|)
    ensures Collected(g, reachable, dominators, loops, latches, index, tail + 1, 0)
  {
    forall t: nat, h: nat | BackEdge(g, reachable, dominators, t, h)
      ensures Before(g, t, h, tail + 1, 0) <==> Before(g, t, h, tail, |g.successors[tail]|)
    {
      BeforeTail(g, t, h, tail);
    }
    hide Body, BackEdge, Before;
  }

  /** The loops of other headers have no new latch. */
  lemma OtherEntry(g: Graph, reachable: set<nat>, dominators: map<nat, set<nat>>, l: Loop, latches: set<nat>,
                   tail: nat, j: nat)
    requires Entry(g, reachable, dominators, l, latches, tail, j)
    requires tail < |g.successors| && j < |g.successors[tail]| && l.header != g.successors[tail][j]
    ensures Entry(g, reachable, dominators, l, latches, tail, j + 1)
  {
    forall t: nat ensures Before(g, t, l.header, tail, j + 1) <==> Before(g, t, l.header, tail, j) {
      BeforeNext(g, t, l.header, tail, j);
    }
    hide Body, BackEdge, Before;
  }

  lemma GrownEntry(g: Graph, reachable: set<nat>, dominators: map<nat, set<nat>>, latches: set<nat>, tail: nat, j: nat,
                   blocks: set<nat>)
    requires tail < |g.successors| && j < |g.successors[tail]|
    requires var h := g.successors[tail][j];
      && h < |g.successors| && BackEdge(g, reachable, dominators, tail, h)
      && Body(g, reachable, h, latches + {tail}, blocks) && (forall t :: t in latches + {tail} ==> t in blocks)
      && (forall t: nat :: t in latches <==> BackEdge(g, reachable, dominators, t, h) && Before(g, t, h, tail, j))
    ensures Entry(g, reachable, dominators, Loop(g.successors[tail][j], blocks), latches + {tail}, tail, j + 1)
  {
    var h := g.successors[tail][j];
    forall t: nat ensures Before(g, t, h, tail, j + 1) <==> Before(g, t, h, tail, j) || t == tail {
      BeforeNext(g, t, h, tail, j);
    }
    hide Body, BackEdge, Before;
  }

  lemma EdgeIndexed(g: Graph, reachable: set<nat>, dominators: map<nat, set<nat>>, index: map<nat, nat>,
                    index': map<nat, nat>,
                    tail: nat, j: nat)
    requires forall t: nat, h: nat :: BackEdge(g, reachable, dominators, t, h) && Before(g, t, h, tail, j) ==>
      h in index
    requires tail < |g.successors| && j < |g.successors[tail]| && index'.Keys == index.Keys + {g.successors[tail][j]}
    ensures forall t: nat, h: nat :: BackEdge(g, reachable, dominators, t, h) && Before(g, t, h, tail, j + 1) ==>
      h in index'
  {
    forall t: nat, h: nat | BackEdge(g, reachable, dominators, t, h) && Before(g, t, h, tail, j + 1)
      ensures h in index' {
      BeforeNext(g, t, h, tail, j);
    }
  }

  /** A back edge adds its tail to the loop of its header. */
  lemma AddLatch(g: Graph, reachable: set<nat>, dominators: map<nat, set<nat>>, loops: seq<Loop>,
                 latches: seq<set<nat>>, index: map<nat, nat>, tail: nat, j: nat, blocks: set<nat>)
    requires Collected(g, reachable, dominators, loops, latches, index, tail, j)
    requires tail < |g.successors| && j < |g.successors[tail]|
    requires var h := g.successors[tail][j];
      && BackEdge(g, reachable, dominators, tail, h) && h in index
      && Body(g, reachable, h, latches[index[h]] + {tail}, blocks)
      && (forall t :: t in latches[index[h]] + {tail} ==> t in blocks)
    ensures var h := g.successors[tail][j];
      Collected(g, reachable, dominators, loops[index[h] := Loop(h, blocks)],
                latches[index[h] := latches[index[h]] + {tail}], index, tail, j + 1)
  {
    var h := g.successors[tail][j];
    hide Before, Body, BackEdge;
    var at := index[h];
    var loops', latches' := loops[at := Loop(h, blocks)], latches[at := latches[at] + {tail}];
    assert Entry(g, reachable, dominators, loops[at], latches[at], tail, j);
    GrownEntry(g, reachable, dominators, latches[at], tail, j, blocks);
    EdgeIndexed(g, reachable, dominators, index, index, tail, j);
    forall i | 0 <= i < |loops'| ensures Entry(g, reachable, dominators, loops'[i], latches'[i], tail, j + 1) {
      if i != at {
        assert loops[i].header != h;
        OtherEntry(g, reachable, dominators, loops[i], latches[i], tail, j);
      }
    }
    IndexedStill(loops, latches, index, h, tail, blocks);
    hide Entry, BackEdge, Before, Body, Indexed;
  }

  lemma IndexedStill(loops: seq<Loop>, latches: seq<set<nat>>, index: map<nat, nat>, h: nat, tail: nat,
                     blocks: set<nat>)
    requires Indexed(loops, latches, index) && h in index
    ensures Indexed(loops[index[h] := Loop(h, blocks)], latches[index[h] := latches[index[h]] + {tail}], index)
  {
  }

  /** The first back edge to a header starts its loop. */
  lemma NewLoop(g: Graph, reachable: set<nat>, dominators: map<nat, set<nat>>, loops: seq<Loop>,
                latches: seq<set<nat>>, index: map<nat, nat>, tail: nat, j: nat, blocks: set<nat>)
    requires Collected(g, reachable, dominators, loops, latches, index, tail, j)
    requires tail < |g.successors| && j < |g.successors[tail]|
    requires var h := g.successors[tail][j];
      && h < |g.successors| && BackEdge(g, reachable, dominators, tail, h) && h !in index
      && Body(g, reachable, h, {} + {tail}, blocks) && tail in blocks
    ensures var h := g.successors[tail][j];
      Collected(g, reachable, dominators, loops + [Loop(h, blocks)], latches + [{} + {tail}],
                index[h := |loops|], tail, j + 1)
  {
    var h := g.successors[tail][j];
    var loops', latches', index' := loops + [Loop(h, blocks)], latches + [{} + {tail}], index[h := |loops|];
    GrownEntry(g, reachable, dominators, {}, tail, j, blocks);
    EdgeIndexed(g, reachable, dominators, index, index', tail, j);
    forall i | 0 <= i < |loops'| ensures Entry(g, reachable, dominators, loops'[i], latches'[i], tail, j + 1) {
      if i < |loops| { OtherEntry(g, reachable, dominators, loops[i], latches[i], tail, j); }
    }
    hide Entry, BackEdge, Before, Body;
  }

  class LoopInfo {
    var loops: seq<Loop>
    var depths: map<nat, nat>

    constructor ()
      ensures loops == [] && depths == map[]
    {
      loops, depths := [], map[];
    }

    /** Every header of a back edge gets its one natural loop, and every block the number of
        loops around it. */
    method Analyze(g: Graph, reachable: set<nat>, dominators: map<nat, set<nat>>)
      requires Valid(g) && (forall b: nat :: b in reachable <==> Reachable(g, b))
      requires reachable <= dominators.Keys
      requires forall d, b :: b in reachable ==> (d in dominators[b] <==> d in reachable && Dominates(g, d, b))
      modifies this
      ensures NaturalLoops(g, loops)
      ensures forall b: nat :: (if b in depths then depths[b] else 0) == Depth(loops, b)
    {
      ghost var latches: seq<set<nat>>;
      hide Reachable, Dominates, Collected, NaturalLoops;
      ReachableBounded(g, reachable);
      loops, latches := CollectLoops(g, reachable, dominators);
      CollectedIsNatural(g, reachable, dominators, loops, latches);
      depths := CountDepths(loops);
    }
  }

  method CountDepths(loops: seq<Loop>) returns (depths: map<nat, nat>)
    ensures forall b: nat :: (if b in depths then depths[b] else 0) == Depth(loops, b)
  {
    depths := map[];
    for i := 0 to |loops|
      invariant forall b: nat :: (if b in depths then depths[b] else 0) == Depth(loops[..i], b)
    {
      depths := CountLoop(depths, loops[i].blocks);
      assert loops[..i + 1][..i] == loops[..i];
    }
    assert loops[..|loops|] == loops;
  }

  /** How many loops contain a block. */
  function Depth(loops: seq<Loop>, b: nat): nat {
    if loops == [] then 0
    else Depth(loops[..|loops| - 1], b) + if b in loops[|loops| - 1].blocks then 1 else 0
  }

  method CountLoop(depths0: map<nat, nat>, blocks: set<nat>) returns (depths: map<nat, nat>)
    ensures depths.Keys == depths0.Keys + blocks
    ensures forall b :: b in depths ==>
              depths[b] == (if b in depths0 then depths0[b] else 0) + if b in blocks then 1 else 0
  {
    depths := depths0;
    var left := blocks;
    while left != {}
      invariant left <= blocks && depths.Keys == depths0.Keys + (blocks - left)
      invariant forall b :: b in depths ==>
                  depths[b] == (if b in depths0 then depths0[b] else 0) + if b in blocks - left then 1 else 0
      decreases left
    {
      var b :| b in left;
      depths := depths[b := (if b in depths then depths[b] else 0) + 1];
      left := left - {b};
    }
  }

  /** The loops of a function, by paths alone. */
  ghost predicate NaturalLoops(g: Graph, loops: seq<Loop>) {
    && (forall i, j :: 0 <= i < j < |loops| ==> loops[i].header != loops[j].header)
    && (forall t: nat, h: nat :: Latch(g, t, h) ==> exists i :: 0 <= i < |loops| && loops[i].header == h)
    && (forall i :: 0 <= i < |loops| ==> IsNatural(g, loops[i]))
  }

  /** The tail of a back edge to h. */
  ghost predicate Latch(g: Graph, t: nat, h: nat) {
    Reachable(g, t) && Edge(g, t, h) && Dominates(g, h, t)
  }

  lemma ReachableBounded(g: Graph, reachable: set<nat>)
    requires Valid(g) && forall b: nat :: b in reachable <==> Reachable(g, b)
    ensures forall b :: b in reachable ==> b < |g.successors|
  {
    forall b | b in reachable ensures b < |g.successors| {
      var p :| Joins(g, g.entry, b, p);
      if |p| > 1 { Last(g, g.entry, b, p); }
    }
  }

  method CollectLoops(g: Graph, reachable: set<nat>, dominators: map<nat, set<nat>>)
    returns (loops: seq<Loop>, ghost latches: seq<set<nat>>)
    requires Valid(g) && (forall b: nat :: b in reachable <==> Reachable(g, b))
    requires forall b :: b in reachable ==> b < |g.successors|
    ensures exists index :: Collected(g, reachable, dominators, loops, latches, index, |g.successors|, 0)
  {
    loops, latches := [], [];
    var index: map<nat, nat> := map[];
    for tail := 0 to |g.successors|
      invariant Collected(g, reachable, dominators, loops, latches, index, tail, 0)
    {
      for j := 0 to |g.successors[tail]|
        invariant Collected(g, reachable, dominators, loops, latches, index, tail, j)
      {
        loops, latches, index := ConsiderEdge(g, reachable, dominators, loops, latches, index, tail, j);
      }
      NextTail(g, reachable, dominators, loops, latches, index, tail);
    }
  }

  method ConsiderEdge(g: Graph, reachable: set<nat>, dominators: map<nat, set<nat>>, loops0: seq<Loop>,
                      ghost latches0: seq<set<nat>>, index0: map<nat, nat>, tail: nat, j: nat)
    returns (loops: seq<Loop>, ghost latches: seq<set<nat>>, index: map<nat, nat>)
    requires Valid(g) && (forall b: nat :: b in reachable <==> Reachable(g, b))
    requires forall b :: b in reachable ==> b < |g.successors|
    requires tail < |g.successors| && j < |g.successors[tail]|
    requires Collected(g, reachable, dominators, loops0, latches0, index0, tail, j)
    ensures Collected(g, reachable, dominators, loops, latches, index, tail, j + 1)
  {
    var header := g.successors[tail][j];
    loops, latches, index := loops0, latches0, index0;
    if !BackEdge(g, reachable, dominators, tail, header) {
      SkipEdge(g, reachable, dominators, loops, latches, index, tail, j);
      return;
    }
    assert header in g.successors[tail];
    if header !in index0 {
      HeaderAlone(g, reachable, header);
      var blocks := Grow(g, reachable, header, {header}, tail, {});
      NewLoop(g, reachable, dominators, loops0, latches0, index0, tail, j, blocks);
      index := index0[header := |loops0|];
      loops, latches := loops0 + [Loop(header, blocks)], latches0 + [{} + {tail}];
    } else {
      var at := index0[header];
      assert Entry(g, reachable, dominators, loops0[at], latches0[at], tail, j);
      var blocks := Grow(g, reachable, header, loops0[at].blocks, tail, latches0[at]);
      AddLatch(g, reachable, dominators, loops0, latches0, index0, tail, j, blocks);
      loops, latches := loops0[at := Loop(header, blocks)], latches0[at := latches0[at] + {tail}];
    }
    hide Collected, Entry, Body, BackEdge, Reachable, Valid;
  }

  lemma HeaderAlone(g: Graph, reachable: set<nat>, h: nat)
    ensures Body(g, reachable, h, {}, {h})
  {
  }

  lemma BackEdgeIsLatch(g: Graph, reachable: set<nat>, dominators: map<nat, set<nat>>, t: nat, h: nat)
    requires Valid(g) && (forall b: nat :: b in reachable <==> Reachable(g, b)) && reachable <= dominators.Keys
    requires forall d, b :: b in reachable ==> (d in dominators[b] <==> d in reachable && Dominates(g, d, b))
    ensures BackEdge(g, reachable, dominators, t, h) <==> Latch(g, t, h)
    ensures Latch(g, t, h) ==> Before(g, t, h, |g.successors|, 0)
  {
    if Latch(g, t, h) { ReachStep(g, t, h); }
  }

  /** Back edges are the edges to a dominator, and all have been seen. */
  ghost predicate AllSeen(g: Graph, reachable: set<nat>, dominators: map<nat, set<nat>>) {
    forall t: nat, h: nat {:trigger Latch(g, t, h)} ::
      && (BackEdge(g, reachable, dominators, t, h) <==> Latch(g, t, h))
      && (Latch(g, t, h) ==> Before(g, t, h, |g.successors|, 0))
  }

  lemma EntryNatural(g: Graph, reachable: set<nat>, dominators: map<nat, set<nat>>, l: Loop, latches: set<nat>)
    requires (forall b: nat :: b in reachable <==> Reachable(g, b)) && AllSeen(g, reachable, dominators)
    requires Entry(g, reachable, dominators, l, latches, |g.successors|, 0) && latches != {}
    ensures IsNatural(g, l)
  {
    hide IsNatural, Body, Reachable;
    forall t: nat ensures t in latches <==> Latch(g, t, l.header) { }
    EntryIsNatural(g, reachable, l, latches);
  }

  lemma CollectedIsNatural(g: Graph, reachable: set<nat>, dominators: map<nat, set<nat>>, loops: seq<Loop>,
                           latches: seq<set<nat>>)
    requires Valid(g) && (forall b: nat :: b in reachable <==> Reachable(g, b)) && reachable <= dominators.Keys
    requires forall d, b :: b in reachable ==> (d in dominators[b] <==> d in reachable && Dominates(g, d, b))
    requires exists index :: Collected(g, reachable, dominators, loops, latches, index, |g.successors|, 0)
    ensures NaturalLoops(g, loops)
  {
    hide IsNatural, Latch, BackEdge, Before, Body, Entry, Reachable, Valid;
    var index :| Collected(g, reachable, dominators, loops, latches, index, |g.successors|, 0);
    forall t: nat, h: nat
      ensures BackEdge(g, reachable, dominators, t, h) <==> Latch(g, t, h)
      ensures Latch(g, t, h) ==> Before(g, t, h, |g.successors|, 0)
    {
      BackEdgeIsLatch(g, reachable, dominators, t, h);
    }
    assert AllSeen(g, reachable, dominators);
    forall i | 0 <= i < |loops| ensures IsNatural(g, loops[i]) {
      EntryNatural(g, reachable, dominators, loops[i], latches[i]);
    }
  }

  /** One natural loop. */
  ghost predicate IsNatural(g: Graph, l: Loop) {
    && (exists t: nat :: Latch(g, t, l.header))
    && (forall x :: x in l.blocks <==>
          x == l.header || (Reachable(g, x) && exists t: nat :: Latch(g, t, l.header) && Avoids(g, x, t, l.header)))
    && (forall x :: x in l.blocks ==> Dominates(g, l.header, x))
  }

  lemma EntryIsNatural(g: Graph, reachable: set<nat>, l: Loop, latches: set<nat>)
    requires (forall b: nat :: b in reachable <==> Reachable(g, b)) && Body(g, reachable, l.header, latches, l.blocks)
    requires (forall t: nat :: t in latches <==> Latch(g, t, l.header)) && latches != {}
    ensures IsNatural(g, l)
  {
    var t :| t in latches;
    assert Latch(g, t, l.header);
    forall x | x in l.blocks ensures Dominates(g, l.header, x) {
      BodyDominated(g, reachable, l.header, latches, l.blocks, x);
    }
    forall x ensures ReachesLatch(g, x, latches, l.header) <==>
      exists t: nat :: Latch(g, t, l.header) && Avoids(g, x, t, l.header) {
    }
    hide Dominates, Avoids, Reachable;
  }
}
