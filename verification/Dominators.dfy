/** Reachable blocks, dominators and natural loops of a control-flow graph, against paths. */
module Dominators {

  /** Blocks are numbered; both edge lists describe the same edges. */
  datatype Graph = Graph(entry: nat, successors: seq<seq<nat>>, predecessors: seq<seq<nat>>)

  ghost predicate Valid(g: Graph) {
    && g.entry < |g.successors| && |g.predecessors| == |g.successors|
    && (forall b, s :: 0 <= b < |g.successors| && s in g.successors[b] ==> s < |g.successors|)
    && (forall b, p :: 0 <= b < |g.predecessors| && p in g.predecessors[b] ==> p < |g.successors|)
    && (forall b: nat, s: nat :: b < |g.successors| && s < |g.successors| ==>
          (s in g.successors[b] <==> b in g.predecessors[s]))
  }

  ghost predicate Edge(g: Graph, a: nat, b: nat) {
    a < |g.successors| && b in g.successors[a]
  }

  // Paths

  ghost predicate IsPath(g: Graph, p: seq<nat>) {
    p != [] && forall i :: 0 <= i < |p| - 1 ==> Edge(g, p[i], p[i + 1])
  }

  ghost predicate Joins(g: Graph, a: nat, b: nat, p: seq<nat>) {
    IsPath(g, p) && p[0] == a && p[|p| - 1] == b
  }

  ghost predicate Reachable(g: Graph, b: nat) {
    exists p :: Joins(g, g.entry, b, p)
  }

  /** Every path from the entry to b passes d. */
  ghost predicate Dominates(g: Graph, d: nat, b: nat) {
    forall p :: Joins(g, g.entry, b, p) ==> d in p
  }

  /** Some path from x to t avoids h. */
  ghost predicate Avoids(g: Graph, x: nat, t: nat, h: nat) {
    exists p :: Joins(g, x, t, p) && h !in p
  }

  lemma Extend(g: Graph, a: nat, b: nat, c: nat, p: seq<nat>)
    requires Joins(g, a, b, p) && Edge(g, b, c)
    ensures Joins(g, a, c, p + [c])
  {
  }

  lemma Prepend(g: Graph, a: nat, b: nat, c: nat, p: seq<nat>)
    requires Joins(g, b, c, p) && Edge(g, a, b)
    ensures Joins(g, a, c, [a] + p)
  {
  }

  lemma Concat(g: Graph, a: nat, b: nat, c: nat, p: seq<nat>, q: seq<nat>)
    requires Joins(g, a, b, p) && Joins(g, b, c, q)
    ensures Joins(g, a, c, p + q[1..])
  {
    var r := p + q[1..];
    forall i | 0 <= i < |r| - 1 ensures Edge(g, r[i], r[i + 1]) {
      if i >= |p| { assert r[i] == q[i - |p| + 1] && r[i + 1] == q[i - |p| + 2]; }
      else if i == |p| - 1 { assert r[i] == q[0] && r[i + 1] == q[1]; }
    }
    if |q| == 1 { assert r == p; }
  }

  lemma Last(g: Graph, a: nat, c: nat, p: seq<nat>)
    requires Joins(g, a, c, p) && |p| > 1
    ensures Joins(g, a, p[|p| - 2], p[..|p| - 1]) && Edge(g, p[|p| - 2], c)
  {
  }

  lemma First(g: Graph, a: nat, c: nat, p: seq<nat>)
    requires Joins(g, a, c, p) && |p| > 1
    ensures Joins(g, p[1], c, p[1..]) && Edge(g, a, p[1])
  {
  }

  lemma ReachStep(g: Graph, a: nat, b: nat)
    requires Reachable(g, a) && Edge(g, a, b)
    ensures Reachable(g, b)
  {
    var p :| Joins(g, g.entry, a, p);
    Extend(g, g.entry, a, b, p);
  }

  // Reachable blocks

  /** Whatever contains the entry and is closed under edges contains every reachable block. */
  lemma {:induction false} ClosedReaches(g: Graph, s: set<nat>, b: nat, p: seq<nat>)
    requires g.entry in s && (forall x, y :: x in s && Edge(g, x, y) ==> y in s) && Joins(g, g.entry, b, p)
    ensures b in s
    decreases |p|
  {
    if |p| > 1 {
      Last(g, g.entry, b, p);
      ClosedReaches(g, s, p[|p| - 2], p[..|p| - 1]);
    }
  }

  ghost function UpTo(n: nat): (s: set<nat>)
    ensures forall b: nat :: b in s <==> b < n
  {
    if n == 0 then {} else UpTo(n - 1) + {n - 1}
  }

  /** The blocks seen, and those waiting. */
  ghost predicate Exploring(g: Graph, reachable: set<nat>, worklist: seq<nat>) {
    && (forall b :: b in reachable || b in worklist ==> b < |g.successors| && Reachable(g, b))
    && (g.entry in reachable || g.entry in worklist)
    && (forall x, y :: x in reachable && Edge(g, x, y) ==> y in reachable || y in worklist)
  }

  lemma Explore(g: Graph, reachable: set<nat>, worklist: seq<nat>)
    requires Valid(g) && worklist != [] && worklist[|worklist| - 1] in worklist && Exploring(g, reachable, worklist)
    ensures worklist[|worklist| - 1] < |g.successors|
    ensures var block, rest := worklist[|worklist| - 1], worklist[..|worklist| - 1];
      Exploring(g, reachable + {block}, if block in reachable then rest else rest + g.successors[block])
  {
    var block, rest := worklist[|worklist| - 1], worklist[..|worklist| - 1];
    assert worklist == rest + [block];
    assert forall b :: b in worklist <==> b in rest || b == block;
    forall y | y in g.successors[block] ensures y < |g.successors| && Reachable(g, y) {
      assert Edge(g, block, y);
      ReachStep(g, block, y);
    }
    hide Reachable;
    var next := if block in reachable then rest else rest + g.successors[block];
    forall x, y | x in reachable + {block} && Edge(g, x, y) ensures y in reachable + {block} || y in next {
      if x in reachable { assert y in reachable || y in worklist; }
    }
  }

  method ComputeReachable(g: Graph) returns (reachable: set<nat>)
    requires Valid(g)
    ensures forall b: nat :: b in reachable <==> Reachable(g, b)
    ensures forall b :: b in reachable ==> b < |g.successors|
  {
    reachable := {};
    var worklist := [g.entry];
    assert Joins(g, g.entry, g.entry, [g.entry]);
    while worklist != []
      invariant Exploring(g, reachable, worklist)
      decreases UpTo(|g.successors|) - reachable, |worklist|
    {
      var block := worklist[|worklist| - 1];
      Explore(g, reachable, worklist);
      assert block in worklist && block in UpTo(|g.successors|);
      worklist := worklist[..|worklist| - 1];
      if block !in reachable {
        reachable := reachable + {block};
        worklist := worklist + g.successors[block];
      } else {
        assert reachable + {block} == reachable;
      }
    }
    forall b: nat | Reachable(g, b) ensures b in reachable {
      var p :| Joins(g, g.entry, b, p);
      ClosedReaches(g, reachable, b, p);
    }
  }

  // Dominators

  /** One evaluation of a block's equation: the intersection over its reachable predecessors, and itself. */
  ghost predicate Evaluates(g: Graph, reachable: set<nat>, dom: map<nat, set<nat>>, b: nat, next: set<nat>)
    requires b < |g.predecessors|
  {
    && b in next
    && (forall p :: p in g.predecessors[b] && p in reachable ==> p in dom && next <= dom[p] + {b})
    && (forall d :: Fed(g, reachable, b) && Agreed(g, reachable, dom, b, d) ==> d in next)
    && (forall d :: d in next ==> d == b || Agreed(g, reachable, dom, b, d))
  }

  /** Some predecessor is reachable. */
  ghost predicate Fed(g: Graph, reachable: set<nat>, b: nat)
    requires b < |g.predecessors|
  {
    exists p :: p in g.predecessors[b] && p in reachable
  }

  /** All reachable predecessors have this element. */
  ghost predicate Agreed(g: Graph, reachable: set<nat>, dom: map<nat, set<nat>>, b: nat, d: nat)
    requires b < |g.predecessors|
  {
    forall p :: p in g.predecessors[b] && p in reachable ==> p in dom && d in dom[p]
  }

  /** Sound on the way: no dominator has been lost. */
  ghost predicate Covers(g: Graph, reachable: set<nat>, dom: map<nat, set<nat>>) {
    && reachable <= dom.Keys
    && (forall b, d :: b in reachable && d in reachable && Dominates(g, d, b) ==> d in dom[b])
    && (forall b :: b in reachable ==> dom[b] <= reachable && b in dom[b])
  }

  lemma DominatorOfPredecessor(g: Graph, d: nat, p: nat, b: nat)
    requires Dominates(g, d, b) && Edge(g, p, b) && d != b
    ensures Dominates(g, d, p)
  {
    forall q | Joins(g, g.entry, p, q) ensures d in q {
      Extend(g, g.entry, p, b, q);
      assert d in q + [b];
    }
  }

  /** A block's own equation keeps its dominators. */
  lemma EvaluationCovers(g: Graph, reachable: set<nat>, dom: map<nat, set<nat>>, b: nat, next: set<nat>)
    requires Valid(g) && Covers(g, reachable, dom) && b in reachable && b < |g.predecessors|
    requires Evaluates(g, reachable, dom, b, next) && next <= dom[b]
    requires Fed(g, reachable, b)
    ensures Covers(g, reachable, dom[b := next])
  {
    forall d | d in reachable && Dominates(g, d, b) && d != b ensures d in next {
      forall p | p in g.predecessors[b] && p in reachable ensures p in dom && d in dom[p] {
        assert Edge(g, p, b);
        DominatorOfPredecessor(g, d, p, b);
      }
      assert Agreed(g, reachable, dom, b, d);
    }
    hide Dominates, Valid;
  }

  /** At a solution of all equations every element lies on every path. */
  ghost predicate Solved(g: Graph, reachable: set<nat>, dom: map<nat, set<nat>>) {
    && reachable <= dom.Keys && g.entry in reachable && dom[g.entry] == {g.entry}
    && (forall b, p :: b in reachable && b != g.entry && p in reachable && Edge(g, p, b) ==> dom[b] <= dom[p] + {b})
  }

  lemma {:induction false} SolutionOnPath(g: Graph, reachable: set<nat>, dom: map<nat, set<nat>>, b: nat, d: nat,
                                          p: seq<nat>)
    requires Solved(g, reachable, dom) && b in reachable && d in dom[b] && Joins(g, g.entry, b, p)
    requires forall i :: 0 <= i < |p| ==> p[i] in reachable
    ensures d in p
    decreases |p|
  {
    if b == g.entry {
      assert d == p[0];
    } else if |p| > 1 && d != b {
      var q := p[|p| - 2];
      Last(g, g.entry, b, p);
      SolutionOnPath(g, reachable, dom, q, d, p[..|p| - 1]);
    } else {
      assert p[|p| - 1] == b;
    }
  }

  lemma {:induction false} PathReachable(g: Graph, reachable: set<nat>, b: nat, p: seq<nat>, i: nat)
    requires (forall x: nat :: x in reachable <==> Reachable(g, x)) && Joins(g, g.entry, b, p) && i < |p|
    ensures p[i] in reachable
    decreases |p| - i
  {
    assert Joins(g, g.entry, p[i], p[..i + 1]);
  }

  /** The least fixed point is path dominance. */
  lemma FixpointIsDominance(g: Graph, reachable: set<nat>, dom: map<nat, set<nat>>, d: nat, b: nat)
    requires Solved(g, reachable, dom) && Covers(g, reachable, dom) && b in reachable
    requires forall x: nat :: x in reachable <==> Reachable(g, x)
    ensures d in dom[b] <==> d in reachable && Dominates(g, d, b)
  {
    if d in dom[b] {
      forall p | Joins(g, g.entry, b, p) ensures d in p {
        forall i | 0 <= i < |p| ensures p[i] in reachable { PathReachable(g, reachable, b, p, i); }
        SolutionOnPath(g, reachable, dom, b, d, p);
      }
    }
  }

  lemma HasPredecessor(g: Graph, reachable: set<nat>, b: nat)
    requires Valid(g) && (forall x: nat :: x in reachable <==> Reachable(g, x))
    requires b in reachable && b != g.entry && b < |g.predecessors|
    ensures Fed(g, reachable, b)
  {
    var q :| Joins(g, g.entry, b, q);
    Last(g, g.entry, b, q);
    assert Reachable(g, q[|q| - 2]);
  }

  /** The loop over the predecessors. */
  method MeetPredecessors(g: Graph, reachable: set<nat>, dom: map<nat, set<nat>>, b: nat) returns (next: set<nat>)
    requires b < |g.predecessors| && reachable <= dom.Keys
    ensures Evaluates(g, reachable, dom, b, next)
  {
    next := {};
    var first := true;
    var ps := g.predecessors[b];
    for i := 0 to |ps|
      invariant first <==> forall j :: 0 <= j < i ==> ps[j] !in reachable
      invariant forall j, d :: 0 <= j < i && ps[j] in reachable && d in next ==> d in dom[ps[j]]
      invariant first ==> next == {}
      invariant forall d :: !first && d !in next ==> exists j :: 0 <= j < i && ps[j] in reachable && d !in dom[ps[j]]
    {
      if ps[i] in reachable {
        if first {
          next := dom[ps[i]];
          first := false;
        } else {
          next := next * dom[ps[i]];
        }
      }
    }
    forall d | Fed(g, reachable, b) && Agreed(g, reachable, dom, b, d) ensures d in next {
      var p :| p in ps && p in reachable;
      var j :| 0 <= j < |ps| && ps[j] == p;
    }
    forall d | d in next ensures Agreed(g, reachable, dom, b, d) {
      forall p | p in ps && p in reachable ensures p in dom && d in dom[p] {
        var j :| 0 <= j < |ps| && ps[j] == p;
      }
    }
    next := next + {b};
  }

  /** The iteration only ever shrinks: what all predecessors agree on is already there. */
  ghost predicate Shrinking(g: Graph, reachable: set<nat>, dom: map<nat, set<nat>>) {
    && reachable <= dom.Keys
    && forall b, d :: b in reachable && b != g.entry && b < |g.predecessors| && Agreed(g, reachable, dom, b, d) ==>
      d in dom[b]
  }

  lemma NextShrinks(g: Graph, reachable: set<nat>, dom: map<nat, set<nat>>, b: nat, next: set<nat>)
    requires Shrinking(g, reachable, dom) && b in reachable && b != g.entry && b < |g.predecessors| && b in dom[b]
    requires Evaluates(g, reachable, dom, b, next) && Fed(g, reachable, b)
    ensures next <= dom[b] && Shrinking(g, reachable, dom[b := next])
  {
    assert next <= dom[b];
    var dom' := dom[b := next];
    forall c, d | c in reachable && c != g.entry && c < |g.predecessors| && Agreed(g, reachable, dom', c, d)
      ensures d in dom'[c]
    {
      forall p | p in g.predecessors[c] && p in reachable ensures p in dom && d in dom[p] {
        assert d in dom'[p];
      }
      assert Agreed(g, reachable, dom, c, d);
    }
  }

  ghost function Total(dom: map<nat, set<nat>>, n: nat): nat {
    if n == 0 then 0 else Total(dom, n - 1) + if n - 1 in dom then |dom[n - 1]| else 0
  }

  lemma {:induction false} TotalShrinks(dom: map<nat, set<nat>>, n: nat, b: nat, next: set<nat>)
    requires b in dom && next < dom[b]
    ensures Total(dom[b := next], n) <= Total(dom, n)
    ensures b < n ==> Total(dom[b := next], n) < Total(dom, n)
  {
    if n > 0 {
      TotalShrinks(dom, n - 1, b, next);
      Smaller(next, dom[b]);
    }
  }

  lemma {:induction false} Smaller(a: set<nat>, b: set<nat>)
    requires a <= b
    ensures |a| <= |b| && (a != b ==> |a| < |b|)
    decreases a
  {
    if a == {} {
      if b != {} { assert |b| > 0; }
    } else {
      var x :| x in a;
      Smaller(a - {x}, b - {x});
      if a != b { assert a - {x} != b - {x} by { var y :| y in b && y !in a; assert y in b - {x}; } }
    }
  }

  /** The state between two sweeps. */
  ghost predicate Iterating(g: Graph, reachable: set<nat>, dom: map<nat, set<nat>>) {
    && (forall x: nat :: x in reachable <==> Reachable(g, x))
    && (forall x :: x in reachable ==> x < |g.predecessors|)
    && g.entry in reachable && g.entry in dom && dom[g.entry] == {g.entry} && dom.Keys == UpTo(|g.successors|)
    && Covers(g, reachable, dom) && Shrinking(g, reachable, dom)
  }

  /** The equations of the blocks below n hold. */
  ghost predicate Balanced(g: Graph, reachable: set<nat>, dom: map<nat, set<nat>>, n: nat) {
    && reachable <= dom.Keys
    && forall b, p :: b in reachable && b < n && b != g.entry && p in reachable && Edge(g, p, b) ==>
      dom[b] <= dom[p] + {b}
  }

  lemma NextIterating(g: Graph, reachable: set<nat>, dom: map<nat, set<nat>>, b: nat, next: set<nat>)
    requires Valid(g) && Iterating(g, reachable, dom) && b in reachable && b != g.entry && b < |g.predecessors|
    requires Evaluates(g, reachable, dom, b, next)
    ensures Iterating(g, reachable, dom[b := next]) && next <= dom[b]
    ensures next != dom[b] ==> Total(dom[b := next], |g.successors|) < Total(dom, |g.successors|)
    ensures next == dom[b] && Balanced(g, reachable, dom, b) ==> Balanced(g, reachable, dom, b + 1)
  {
    assert b in dom[b];
    hide Dominates, Reachable, Covers, Shrinking, Evaluates, Total, Balanced, Fed, Valid;
    HasPredecessor(g, reachable, b);
    NextShrinks(g, reachable, dom, b, next);
    EvaluationCovers(g, reachable, dom, b, next);
    if next != dom[b] {
      TotalShrinks(dom, |g.successors|, b, next);
    } else if Balanced(g, reachable, dom, b) {
      BalancedStep(g, reachable, dom, b);
    }
  }

  lemma BalancedStep(g: Graph, reachable: set<nat>, dom: map<nat, set<nat>>, b: nat)
    requires Valid(g) && b < |g.predecessors| && b in dom && Balanced(g, reachable, dom, b)
    requires Evaluates(g, reachable, dom, b, dom[b])
    ensures Balanced(g, reachable, dom, b + 1)
  {
    forall p | p in reachable && Edge(g, p, b) ensures dom[b] <= dom[p] + {b} {
      assert p in g.predecessors[b];
    }
  }

  lemma BalancedSolved(g: Graph, reachable: set<nat>, dom: map<nat, set<nat>>)
    requires Valid(g) && Iterating(g, reachable, dom) && Balanced(g, reachable, dom, |g.successors|)
    ensures Solved(g, reachable, dom)
  {
    hide Covers, Shrinking, Dominates, Reachable;
  }

  method InitialDominators(g: Graph, reachable: set<nat>) returns (dom: map<nat, set<nat>>)
    requires Valid(g) && (forall x: nat :: x in reachable <==> Reachable(g, x))
    requires forall x :: x in reachable ==> x < |g.predecessors|
    ensures Iterating(g, reachable, dom)
  {
    dom := map[];
    for b := 0 to |g.successors|
      invariant dom.Keys == UpTo(b)
      invariant forall x :: 0 <= x < b ==> dom[x] == if x !in reachable || x == g.entry then {x} else reachable
    {
      dom := dom[b := if b !in reachable || b == g.entry then {b} else reachable];
    }
    StartCovers(g, reachable, dom);
  }

  class DominatorTree {
    var reachable: set<nat>
    var dominators: map<nat, set<nat>>

    constructor ()
      ensures reachable == {} && dominators == map[]
    {
      reachable, dominators := {}, map[];
    }

    /** Exactly path dominance, for reachable blocks. */
    method Analyze(g: Graph)
      requires Valid(g)
      modifies this
      ensures forall b: nat :: b in reachable <==> Reachable(g, b)
      ensures reachable <= dominators.Keys
      ensures forall d, b :: b in reachable ==> (d in dominators[b] <==> d in reachable && Dominates(g, d, b))
    {
      hide Iterating, Solved, Dominates, Reachable, Total;
      reachable := ComputeReachable(g);
      dominators := InitialDominators(g, reachable);
      var changed := true;
      while changed
        invariant Iterating(g, reachable, dominators) && (!changed ==> Solved(g, reachable, dominators))
        decreases Total(dominators, |g.successors|), changed
      {
        changed := Sweep(g);
      }
      Finished(g, reachable, dominators);
    }

    /** One sweep over the blocks. */
    method Sweep(g: Graph) returns (changed: bool)
      requires Valid(g) && Iterating(g, reachable, dominators)
      modifies this`dominators
      ensures Iterating(g, reachable, dominators)
      ensures changed ==> Total(dominators, |g.successors|) < Total(old(dominators), |g.successors|)
      ensures !changed ==> dominators == old(dominators) && Solved(g, reachable, dominators)
    {
      changed := false;
      NothingBalanced(g, reachable, dominators);
      for b := 0 to |g.successors|
        invariant Iterating(g, reachable, dominators)
        invariant changed ==> Total(dominators, |g.successors|) < Total(old(dominators), |g.successors|)
        invariant !changed ==> dominators == old(dominators) && Balanced(g, reachable, dominators, b)
      {
        IteratingKeys(g, reachable, dominators);
        hide Iterating, Total, Solved, Evaluates, Balanced;
        if b in reachable && b != g.entry {
          var next := MeetPredecessors(g, reachable, dominators, b);
          NextIterating(g, reachable, dominators, b, next);
          if next != dominators[b] {
            dominators := dominators[b := next];
            changed := true;
          }
        } else {
          SkipBalanced(g, reachable, dominators, b);
        }
      }
      if !changed { BalancedSolved(g, reachable, dominators); }
    }
  }

  lemma IteratingKeys(g: Graph, reachable: set<nat>, dom: map<nat, set<nat>>)
    requires Iterating(g, reachable, dom)
    ensures reachable <= dom.Keys && forall b :: b in reachable ==> b < |g.predecessors|
  {
  }

  lemma NothingBalanced(g: Graph, reachable: set<nat>, dom: map<nat, set<nat>>)
    requires Iterating(g, reachable, dom)
    ensures Balanced(g, reachable, dom, 0)
  {
  }

  lemma SkipBalanced(g: Graph, reachable: set<nat>, dom: map<nat, set<nat>>, b: nat)
    requires b !in reachable || b == g.entry
    ensures Balanced(g, reachable, dom, b) ==> Balanced(g, reachable, dom, b + 1)
  {
  }

  lemma Finished(g: Graph, reachable: set<nat>, dom: map<nat, set<nat>>)
    requires Iterating(g, reachable, dom) && Solved(g, reachable, dom)
    ensures reachable <= dom.Keys && forall b: nat :: b in reachable <==> Reachable(g, b)
    ensures forall d, b :: b in reachable ==> (d in dom[b] <==> d in reachable && Dominates(g, d, b))
  {
    forall d, b | b in reachable ensures d in dom[b] <==> d in reachable && Dominates(g, d, b) {
      FixpointIsDominance(g, reachable, dom, d, b);
    }
  }

  lemma StartCovers(g: Graph, reachable: set<nat>, dom: map<nat, set<nat>>)
    requires Valid(g) && (forall x: nat :: x in reachable <==> Reachable(g, x))
    requires (forall b :: b in reachable ==> b < |g.successors|) && dom.Keys == UpTo(|g.successors|)
    requires forall b :: 0 <= b < |g.successors| ==>
      dom[b] == if b !in reachable || b == g.entry then {b} else reachable
    ensures g.entry in reachable && Covers(g, reachable, dom) && Shrinking(g, reachable, dom)
  {
    assert Joins(g, g.entry, g.entry, [g.entry]);
    forall b, d | b in reachable && b != g.entry && b < |g.predecessors| && Agreed(g, reachable, dom, b, d)
      ensures d in dom[b]
    {
      HasPredecessor(g, reachable, b);
      var p :| p in g.predecessors[b] && p in reachable;
      assert d in dom[p];
    }
  }
}
