/**
 The list scheduler: the dependence graph of a stretch of code, an order in which every
 instruction comes after what it depends on, and the stretches between barriers. Latency,
 pressure and resource scores only choose among ready instructions; any choice is allowed.
 */
module Scheduler {
  import opened Regions

  const MINIMUM_REGION_SIZE: nat := 3
  const MAXIMUM_REGION_SIZE: nat := 512

  datatype Node = Node(successors: seq<nat>, predecessors: nat)

  /** The earlier instructions among the first k that instruction j depends on. */
  function Before(code: seq<Instr>, j: nat, k: nat): set<nat>
    requires j < |code|
  {
    set i: nat | i < k && i < j && Depends(code[i], code[j])
  }

  function Predecessors(code: seq<Instr>, j: nat): set<nat>
    requires j < |code|
  {
    Before(code, j, j)
  }

  lemma BeforeStep(code: seq<Instr>, j: nat, k: nat)
    requires j < |code| && k < |code|
    ensures k < j && Depends(code[k], code[j]) ==>
      k !in Before(code, j, k) && Before(code, j, k + 1) == Before(code, j, k) + {k}
    ensures !(k < j && Depends(code[k], code[j])) ==> Before(code, j, k + 1) == Before(code, j, k)
    ensures |Before(code, j, k + 1)| ==
      |Before(code, j, k)| + if k < j && Depends(code[k], code[j]) then 1 else 0
  {
    hide Depends;
    if k < j && Depends(code[k], code[j]) {
      assert Before(code, j, k + 1) == Before(code, j, k) + {k};
    } else {
      assert Before(code, j, k + 1) == Before(code, j, k);
    }
  }

  /** The edges out of node i, with no edge twice. */
  ghost predicate Edges(code: seq<Instr>, i: nat, k: nat, successors: seq<nat>)
    requires i < |code|
  {
    && (forall j: nat :: j in successors <==> i < j < k && j < |code| && Depends(code[i], code[j]))
    && (forall a, b :: 0 <= a < b < |successors| ==> successors[a] != successors[b])
  }

  ghost predicate Graph(code: seq<Instr>, nodes: seq<Node>) {
    && |nodes| == |code|
    && (forall i :: 0 <= i < |code| ==> Edges(code, i, |code|, nodes[i].successors))
    && (forall j :: 0 <= j < |code| ==> nodes[j].predecessors == |Predecessors(code, j)|)
  }

  /** Both loops over the pairs of instructions. */
  method BuildGraph(code: seq<Instr>) returns (nodes: seq<Node>)
    ensures Graph(code, nodes)
  {
    hide Depends, Before;
    var successors: seq<seq<nat>> := seq(|code|, _ => []);
    var predecessors: seq<nat> := seq(|code|, _ => 0);
    forall j: nat | j < |code| ensures |Before(code, j, 0)| == 0 {
      NothingBefore(code, j);
    }
    for i := 0 to |code|
      invariant |successors| == |predecessors| == |code|
      invariant forall a :: 0 <= a < i ==> Edges(code, a, |code|, successors[a])
      invariant forall a :: i <= a < |code| ==> successors[a] == []
      invariant forall j :: 0 <= j < |code| ==> predecessors[j] == |Before(code, j, i)|
    {
      successors, predecessors := ConnectFrom(code, i, successors, predecessors);
    }
    forall j: nat | j < |code| ensures Before(code, j, |code|) == Predecessors(code, j) {
      AllBefore(code, j);
    }
    nodes := seq(|code|, i requires 0 <= i < |code| && |successors| == |predecessors| == |code| =>
                           Node(successors[i], predecessors[i]));
  }

  lemma NothingBefore(code: seq<Instr>, j: nat)
    requires j < |code|
    ensures |Before(code, j, 0)| == 0
  {
    assert Before(code, j, 0) == {};
  }

  lemma AllBefore(code: seq<Instr>, j: nat)
    requires j < |code|
    ensures Before(code, j, |code|) == Predecessors(code, j)
  {
  }

  /** The inner loop: the edges from one instruction to the later ones. */
  method ConnectFrom(code: seq<Instr>, i: nat, successors0: seq<seq<nat>>, predecessors0: seq<nat>)
    returns (successors: seq<seq<nat>>, predecessors: seq<nat>)
    requires i < |code| && |successors0| == |predecessors0| == |code| && successors0[i] == []
    requires forall j :: 0 <= j < |code| ==> predecessors0[j] == |Before(code, j, i)|
    ensures |successors| == |predecessors| == |code|
    ensures forall a :: 0 <= a < |code| && a != i ==> successors[a] == successors0[a]
    ensures Edges(code, i, |code|, successors[i])
    ensures forall j :: 0 <= j < |code| ==> predecessors[j] == |Before(code, j, i + 1)|
  {
    hide Depends, Before;
    successors, predecessors := successors0, predecessors0;
    forall j: nat | j < |code| ensures |Before(code, j, i + 1)| ==
      |Before(code, j, i)| + if i < j && Depends(code[i], code[j]) then 1 else 0
    {
      BeforeStep(code, j, i);
    }
    for j := i + 1 to |code|
      invariant |successors| == |predecessors| == |code|
      invariant forall a :: 0 <= a < |code| && a != i ==> successors[a] == successors0[a]
      invariant Edges(code, i, j, successors[i])
      invariant forall k :: 0 <= k < j ==> predecessors[k] == |Before(code, k, i + 1)|
      invariant forall k :: j <= k < |code| ==> predecessors[k] == |Before(code, k, i)|
    {
      if Depends(code[i], code[j]) {
        successors := successors[i := successors[i] + [j]];
        predecessors := predecessors[j := predecessors[j] + 1];
      }
    }
  }

  // The ready list

  /** What is still to wait for, and which instructions wait for nothing. */
  ghost predicate Listing(code: seq<Instr>, done: set<nat>, remaining: seq<nat>, ready: set<nat>) {
    && |remaining| == |code|
    && (forall j :: 0 <= j < |code| ==> remaining[j] == |Predecessors(code, j) - done|)
    && (forall j: nat :: j in ready <==> j < |code| && j !in done && remaining[j] == 0)
  }

  /** Every instruction emitted comes after all it depends on. */
  ghost predicate Emitted(code: seq<Instr>, order: seq<nat>, done: set<nat>) {
    && Within(code, order)
    && (forall x: nat :: x in done <==> x in order)
    && (forall i, j :: 0 <= i < j < |order| ==> order[i] != order[j])
    && (forall k :: 0 <= k < |order| ==> forall p :: p in Predecessors(code, order[k]) ==> p in order[..k])
  }

  lemma EmitOne(code: seq<Instr>, order: seq<nat>, done: set<nat>, best: nat)
    requires Emitted(code, order, done) && best < |code| && best !in done
    requires Predecessors(code, best) - done == {}
    ensures Emitted(code, order + [best], done + {best})
  {
    hide Predecessors;
    var longer := order + [best];
    forall k | 0 <= k < |longer| ensures forall p :: p in Predecessors(code, longer[k]) ==> p in longer[..k] {
      assert longer[..k] == order[..k];
      forall p | p in Predecessors(code, longer[k]) ensures p in longer[..k] {
        if k == |order| {
          assert p !in Predecessors(code, best) - done;
          assert order[..k] == order;
        }
      }
    }
  }

  lemma EmptySet(s: set<nat>)
    requires |s| == 0
    ensures s == {}
  {
  }

  /** Emitting an instruction is one less to wait for exactly for its successors. */
  lemma Released(code: seq<Instr>, done: set<nat>, best: nat, j: nat)
    requires best < |code| && j < |code| && best !in done
    ensures |Predecessors(code, j) - (done + {best})| + (if best < j && Depends(code[best], code[j]) then 1 else 0)
         == |Predecessors(code, j) - done|
  {
    hide Depends;
    var waiting := Predecessors(code, j) - done;
    if best in waiting {
      assert Predecessors(code, j) - (done + {best}) == waiting - {best};
    } else {
      assert Predecessors(code, j) - (done + {best}) == waiting;
    }
  }

  ghost predicate DistinctBelow(successors: seq<nat>, n: nat) {
    && (forall k :: 0 <= k < |successors| ==> successors[k] < n)
    && (forall a, b :: 0 <= a < b < |successors| ==> successors[a] != successors[b])
  }

  /** The loop over the successors of the chosen instruction. */
  method Release(successors: seq<nat>, remaining0: seq<nat>, ready0: set<nat>, ghost done: set<nat>)
    returns (remaining: seq<nat>, ready: set<nat>)
    requires DistinctBelow(successors, |remaining0|)
    requires forall j :: j in successors ==> j !in done && remaining0[j] > 0
    requires forall j: nat :: j in ready0 <==> j < |remaining0| && j !in done && remaining0[j] == 0
    ensures |remaining| == |remaining0|
    ensures forall j :: 0 <= j < |remaining| ==> remaining[j] + (if j in successors then 1 else 0) == remaining0[j]
    ensures forall j: nat :: j in ready <==> j < |remaining| && j !in done && remaining[j] == 0
  {
    remaining, ready := remaining0, ready0;
    for k := 0 to |successors|
      invariant |remaining| == |remaining0|
      invariant forall j :: 0 <= j < |remaining| ==>
                  remaining[j] + (if j in successors[..k] then 1 else 0) == remaining0[j]
      invariant forall j: nat :: j in ready <==> j < |remaining| && j !in done && remaining[j] == 0
    {
      var j := successors[k];
      assert j in successors && j !in successors[..k];
      assert successors[..k + 1] == successors[..k] + [j];
      remaining := remaining[j := remaining[j] - 1];
      if remaining[j] == 0 { ready := ready + {j}; }
    }
    assert successors[..|successors|] == successors;
  }

  /** Whatever is emitted has all it depends on emitted, so a pending instruction's successors are pending. */
  lemma SuccessorsPending(code: seq<Instr>, order: seq<nat>, done: set<nat>, best: nat, j: nat)
    requires Emitted(code, order, done) && best < |code| && best !in done && j < |code|
    requires best in Predecessors(code, j)
    ensures j !in done && j != best
  {
    hide Predecessors;
    forall k | 0 <= k < |order| ensures order[k] != j {
      assert forall x :: x in order[..k] ==> x in order;
      assert best !in order[..k];
    }
    assert best !in Predecessors(code, best) by { NotItsOwn(code, best); }
  }

  lemma NotItsOwn(code: seq<Instr>, j: nat)
    requires j < |code|
    ensures j !in Predecessors(code, j)
  {
  }

  ghost predicate Counted(code: seq<Instr>, done: set<nat>, best: nat, successors: seq<nat>, remaining: seq<nat>)
    requires |remaining| == |code|
  {
    forall j :: 0 <= j < |code| ==>
      remaining[j] == |Predecessors(code, j) - (done + {best})| + if j in successors then 1 else 0
  }

  /** What the loop over the successors needs, and what its result means. */
  lemma ReleaseMeaning(code: seq<Instr>, nodes: seq<Node>, order: seq<nat>, done: set<nat>, best: nat,
                       remaining: seq<nat>, ready: set<nat>)
    requires Graph(code, nodes) && Emitted(code, order, done)
    requires Listing(code, done, remaining, ready) && best in ready
    ensures DistinctBelow(nodes[best].successors, |code|)
    ensures forall j :: j in nodes[best].successors ==> j !in done + {best}
    ensures Counted(code, done, best, nodes[best].successors, remaining)
  {
    var successors := nodes[best].successors;
    EdgesOut(code, nodes, best);
    hide Depends, Predecessors, Emitted, Graph, Counted;
    ReleaseCounts(code, done, best, successors, remaining, ready);
    forall j | j in successors ensures j !in done + {best} {
      EdgeIsPredecessor(code, best, j);
      SuccessorsPending(code, order, done, best, j);
    }
  }

  lemma ReleaseCounts(code: seq<Instr>, done: set<nat>, best: nat, successors: seq<nat>, remaining: seq<nat>,
                      ready: set<nat>)
    requires Listing(code, done, remaining, ready) && best in ready
    requires forall j: nat :: j in successors <==> best < j < |code| && Depends(code[best], code[j])
    ensures Counted(code, done, best, successors, remaining)
  {
    hide Depends, Predecessors;
    forall j: nat | j < |code|
      ensures remaining[j] == |Predecessors(code, j) - (done + {best})| + if j in successors then 1 else 0
    {
      Released(code, done, best, j);
    }
  }

  lemma EdgesOut(code: seq<Instr>, nodes: seq<Node>, i: nat)
    requires Graph(code, nodes) && i < |code|
    ensures DistinctBelow(nodes[i].successors, |code|)
    ensures forall j: nat :: j in nodes[i].successors <==> i < j < |code| && Depends(code[i], code[j])
  {
    var successors := nodes[i].successors;
    assert Edges(code, i, |code|, successors);
    assert forall k :: 0 <= k < |successors| ==> successors[k] in successors;
  }

  lemma EdgeIsPredecessor(code: seq<Instr>, i: nat, j: nat)
    requires i < j < |code| && Depends(code[i], code[j])
    ensures i in Predecessors(code, j)
  {
  }

  lemma NextListing(code: seq<Instr>, done: set<nat>, best: nat, successors: seq<nat>, remaining0: seq<nat>,
                    remaining: seq<nat>, ready: set<nat>)
    requires |remaining0| == |remaining| == |code| && Counted(code, done, best, successors, remaining0)
    requires forall j :: 0 <= j < |remaining| ==> remaining[j] + (if j in successors then 1 else 0) == remaining0[j]
    requires forall j: nat :: j in ready <==> j < |remaining| && j !in done + {best} && remaining[j] == 0
    ensures Listing(code, done + {best}, remaining, ready)
  {
    hide Predecessors;
  }

  /** When nothing is ready everything has been emitted: the least pending instruction would be ready. */
  lemma {:induction false} EveryoneEmitted(code: seq<Instr>, done: set<nat>, remaining: seq<nat>, j: nat)
    requires Listing(code, done, remaining, {}) && j < |code|
    ensures j in done
    decreases j
  {
    if j !in done {
      assert remaining[j] != 0;
      var i :| i in Predecessors(code, j) - done;
      EveryoneEmitted(code, done, remaining, i);
    }
  }

  lemma NothingEmitted(code: seq<Instr>, nodes: seq<Node>)
    requires Graph(code, nodes)
    ensures Emitted(code, [], {})
    ensures forall j :: 0 <= j < |code| ==> nodes[j].predecessors == |Predecessors(code, j) - {}|
  {
    forall j | 0 <= j < |code| ensures Predecessors(code, j) - {} == Predecessors(code, j) {
    }
  }

  lemma EmittedKeepsOrder(code: seq<Instr>, order: seq<nat>, done: set<nat>)
    requires Emitted(code, order, done)
    ensures KeepsOrder(code, order)
  {
    hide Depends;
    forall i, j | 0 <= i < j < |order| && order[j] < order[i] ensures !Depends(code[order[j]], code[order[i]]) {
      assert order[j] !in order[..i];
      assert order[j] !in Predecessors(code, order[i]);
    }
  }

  lemma EmittedCount(code: seq<Instr>, order: seq<nat>, done: set<nat>)
    requires Emitted(code, order, done)
    ensures |order| <= |code|
    ensures (forall j: nat :: j < |code| ==> j in done) ==> |order| == |code|
  {
    hide Predecessors;
    var all := UpTo(|code|);
    Repeatless(order, done);
    assert done <= all;
    Smaller(done, all);
    if forall j: nat :: j < |code| ==> j in done { assert done == all; }
  }

  function UpTo(n: nat): (s: set<nat>)
    ensures |s| == n && forall x: nat :: x in s <==> x < n
  {
    if n == 0 then {} else UpTo(n - 1) + {n - 1}
  }

  lemma {:induction false} Repeatless(order: seq<nat>, members: set<nat>)
    requires forall x: nat :: x in members <==> x in order
    requires forall i, j :: 0 <= i < j < |order| ==> order[i] != order[j]
    ensures |members| == |order|
  {
    if order == [] {
      assert members == {};
    } else {
      Repeatless(order[1..], members - {order[0]});
    }
  }

  lemma {:induction false} Smaller(a: set<nat>, b: set<nat>)
    requires a <= b
    ensures |a| <= |b|
    decreases a
  {
    if a != {} {
      var x :| x in a;
      Smaller(a - {x}, b - {x});
    }
  }

  /** Emits every instruction exactly once, none before an instruction it depends on. */
  method BuildOrder(code: seq<Instr>, nodes: seq<Node>) returns (order: seq<nat>)
    requires Graph(code, nodes)
    ensures KeepsOrder(code, order) && |order| == |code|
    ensures forall x: nat :: x < |code| ==> x in order
  {
    hide Graph, Emitted, Predecessors, Depends, KeepsOrder;
    NothingEmitted(code, nodes);
    assert |nodes| == |code| by { GraphSize(code, nodes); }
    var remaining: seq<nat> := seq(|nodes|, j requires 0 <= j < |nodes| => nodes[j].predecessors);
    var ready := set j: nat | j < |nodes| && nodes[j].predecessors == 0;
    order := [];
    ghost var done: set<nat> := {};
    while ready != {}
      invariant Emitted(code, order, done) && Listing(code, done, remaining, ready)
      decreases |code| - |order|
    {
      var best :| best in ready;
      ready, remaining, done := EmitBest(code, nodes, order, done, best, remaining, ready);
      order := order + [best];
      EmittedCount(code, order, done);
    }
    Complete(code, order, done, remaining);
  }

  lemma Complete(code: seq<Instr>, order: seq<nat>, done: set<nat>, remaining: seq<nat>)
    requires Emitted(code, order, done) && Listing(code, done, remaining, {})
    ensures KeepsOrder(code, order) && |order| == |code|
    ensures forall x: nat :: x < |code| ==> x in order
  {
    hide Emitted, Predecessors, Depends, KeepsOrder;
    forall j: nat | j < |code| ensures j in done { EveryoneEmitted(code, done, remaining, j); }
    EmittedCount(code, order, done);
    EmittedKeepsOrder(code, order, done);
    EmittedMembers(code, order, done);
  }

  lemma GraphSize(code: seq<Instr>, nodes: seq<Node>)
    requires Graph(code, nodes)
    ensures |nodes| == |code|
  {
  }

  lemma EmittedMembers(code: seq<Instr>, order: seq<nat>, done: set<nat>)
    requires Emitted(code, order, done)
    ensures forall x: nat :: x in done <==> x in order
  {
  }

  /** The bookkeeping for one choice. */
  method EmitBest(code: seq<Instr>, nodes: seq<Node>, ghost order: seq<nat>, ghost done: set<nat>, best: nat,
                  remaining0: seq<nat>, ready0: set<nat>)
    returns (ready: set<nat>, remaining: seq<nat>, ghost done': set<nat>)
    requires Graph(code, nodes) && Emitted(code, order, done)
    requires Listing(code, done, remaining0, ready0) && best in ready0
    ensures Emitted(code, order + [best], done') && Listing(code, done', remaining, ready)
  {
    hide Graph, Emitted, Predecessors, Depends, Counted;
    assert |nodes| == |code| by { GraphSize(code, nodes); }
    done' := done + {best};
    ReleaseMeaning(code, nodes, order, done, best, remaining0, ready0);
    SuccessorsWait(code, done, best, nodes[best].successors, remaining0);
    EmptySet(Predecessors(code, best) - done);
    EmitOne(code, order, done, best);
    remaining, ready := Release(nodes[best].successors, remaining0, ready0 - {best}, done');
    NextListing(code, done, best, nodes[best].successors, remaining0, remaining, ready);
  }

  lemma SuccessorsWait(code: seq<Instr>, done: set<nat>, best: nat, successors: seq<nat>, remaining: seq<nat>)
    requires |remaining| == |code| && Counted(code, done, best, successors, remaining)
    ensures forall j :: 0 <= j < |code| && j in successors ==> remaining[j] > 0
  {
  }

  // Regions and blocks

  /** The rewritten code does what the original does in every run whose accesses are honest. */
  ghost predicate SameEffect(code: seq<Instr>, out: seq<Instr>) {
    forall m: Machine, s: State {:trigger Run(m, out, s)} :: Laid(m) && HonestRun(m, code, s) ==>
      Run(m, out, s) == Run(m, code, s) && HonestRun(m, out, s)
  }

  /** A stretch without barriers; preferPressure stands for the comparison of the two orders. */
  method ScheduleRegion(code: seq<Instr>, preferPressure: bool) returns (out: seq<Instr>, changed: bool)
    requires Schedulable(code)
    ensures SameEffect(code, out) && multiset(out) == multiset(code) && |out| == |code|
    ensures !changed ==> out == code
    ensures |code| < MINIMUM_REGION_SIZE || |code| > MAXIMUM_REGION_SIZE ==> !changed
  {
    if |code| < MINIMUM_REGION_SIZE || |code| > MAXIMUM_REGION_SIZE { return code, false; }
    hide KeepsOrder, Schedulable, Graph, Run, HonestRun;
    var nodes := BuildGraph(code);
    var order := BuildOrder(code, nodes);
    if preferPressure {
      order := BuildOrder(code, nodes);
    }
    ScheduledSame(code, order);
    if |order| != |code| { return code, false; }
    changed := false;
    for i := 0 to |order|
      invariant !changed ==> forall k :: 0 <= k < i ==> order[k] == k
    {
      changed := changed || order[i] != i;
    }
    out := Pick(code, order);
  }

  lemma ScheduledSame(code: seq<Instr>, order: seq<nat>)
    requires Schedulable(code) && KeepsOrder(code, order) && |order| == |code|
    requires forall x: nat :: x < |code| ==> x in order
    ensures Within(code, order) && SameEffect(code, Pick(code, order))
    ensures multiset(Pick(code, order)) == multiset(code)
  {
    hide Run, HonestRun;
    forall m: Machine, s: State | Laid(m) && HonestRun(m, code, s)
      ensures Run(m, Pick(code, order), s) == Run(m, code, s) && HonestRun(m, Pick(code, order), s)
    {
      ScheduleIrrelevant(m, code, order, s);
    }
    OriginalOrder(code, order);
    SameInstructions(code, Original(|code|), order);
  }

  /** Orders of the same positions pick the same instructions. */
  lemma {:induction false} SameInstructions(code: seq<Instr>, a: seq<nat>, b: seq<nat>)
    requires Within(code, a) && Within(code, b) && SameMembers(a, b)
    requires forall i, j :: 0 <= i < j < |a| ==> a[i] != a[j]
    requires forall i, j :: 0 <= i < j < |b| ==> b[i] != b[j]
    ensures multiset(Pick(code, a)) == multiset(Pick(code, b))
    decreases |a|
  {
    if a != [] {
      var p := FindFirst(a, b);
      PickSplits(code, b, p);
      PickSplits(code, a, 0);
      DropFirst(a, b, p);
      SameInstructions(code, a[1..], Without(b, p));
      assert Without(a, 0) == a[1..];
    }
  }

  lemma DropFirst(a: seq<nat>, b: seq<nat>, p: nat)
    requires SameMembers(a, b) && a != [] && p < |b| && b[p] == a[0]
    requires forall i, j :: 0 <= i < j < |a| ==> a[i] != a[j]
    requires forall i, j :: 0 <= i < j < |b| ==> b[i] != b[j]
    ensures SameMembers(a[1..], Without(b, p))
    ensures forall i, j :: 0 <= i < j < |b| - 1 ==> Without(b, p)[i] != Without(b, p)[j]
  {
    var rest := Without(b, p);
    forall x: nat ensures x in a[1..] <==> x in rest {
      if x in a[1..] { assert x in a && x in b && x != a[0]; }
      if x in rest { assert x in b && x in a && x != a[0]; }
    }
  }

  lemma SameEffectRefl(code: seq<Instr>)
    ensures SameEffect(code, code)
  {
  }

  lemma SameEffectAppend(a: seq<Instr>, a': seq<Instr>, b: seq<Instr>, b': seq<Instr>)
    requires SameEffect(a, a') && SameEffect(b, b')
    ensures SameEffect(a + b, a' + b')
  {
    hide Run, HonestRun;
    forall m: Machine, s: State | Laid(m) && HonestRun(m, a + b, s)
      ensures Run(m, a' + b', s) == Run(m, a + b, s) && HonestRun(m, a' + b', s)
    {
      RunAppend(m, a, b, s);
      RunAppend(m, a', b', s);
      assert Run(m, a', s) == Run(m, a, s);
      assert Run(m, b', Run(m, a, s)) == Run(m, b, Run(m, a, s));
    }
  }

  /** The first n instructions of a block, scheduled. */
  ghost predicate Scheduled(code: seq<Instr>, n: nat, out: seq<Instr>, changed: bool)
    requires n <= |code|
  {
    && |out| == n && SameEffect(code[..n], out) && multiset(out) == multiset(code[..n])
    && (forall k :: 0 <= k < n && Barrier(code[k]) ==> out[k] == code[k])
    && (!changed ==> out == code[..n])
  }

  lemma ScheduledRegion(code: seq<Instr>, begin: nat, end: nat, out: seq<Instr>, changed: bool,
                        region: seq<Instr>, moved: bool)
    requires begin <= end <= |code| && Scheduled(code, begin, out, changed) && |region| == end - begin
    requires forall k :: begin <= k < end ==> !Barrier(code[k])
    requires SameEffect(code[begin..end], region) && multiset(region) == multiset(code[begin..end])
    requires !moved ==> region == code[begin..end]
    ensures Scheduled(code, end, out + region, changed || moved)
  {
    hide SameEffect, Barrier;
    assert code[..end] == code[..begin] + code[begin..end];
    SameEffectAppend(code[..begin], out, code[begin..end], region);
  }

  lemma ScheduledBarrier(code: seq<Instr>, i: nat, out: seq<Instr>, changed: bool)
    requires i < |code| && Scheduled(code, i, out, changed)
    ensures Scheduled(code, i + 1, out + [code[i]], changed)
  {
    hide SameEffect, Barrier;
    assert code[..i + 1] == code[..i] + [code[i]];
    SameEffectRefl([code[i]]);
    SameEffectAppend(code[..i], out, [code[i]], [code[i]]);
  }

  lemma NothingScheduled(code: seq<Instr>)
    ensures Scheduled(code, 0, [], false)
  {
    assert code[..0] == [];
  }

  lemma AllScheduled(code: seq<Instr>, out: seq<Instr>, changed: bool)
    requires Scheduled(code, |code|, out, changed)
    ensures SameEffect(code, out) && multiset(out) == multiset(code) && |out| == |code|
    ensures forall k :: 0 <= k < |code| && Barrier(code[k]) ==> out[k] == code[k]
    ensures !changed ==> out == code
  {
    hide SameEffect, Barrier;
    assert code[..|code|] == code;
  }

  /** One block: barriers keep their places, the stretches between them are scheduled. */
  method ScheduleBlock(code: seq<Instr>, preferPressure: seq<bool>) returns (out: seq<Instr>, changed: bool)
    requires |preferPressure| == |code| + 1 && forall k :: 0 <= k < |code| ==> Encoded(code[k])
    ensures SameEffect(code, out) && multiset(out) == multiset(code) && |out| == |code|
    ensures forall k :: 0 <= k < |code| && (code[k].isTerminator || code[k].isCall || code[k].isPseudo) ==>
              out[k] == code[k]
    ensures forall k :: 0 <= k < |code| && (code[k].hasSideEffects || code[k].inParallelCopy) ==> out[k] == code[k]
    ensures forall k, o :: 0 <= k < |code| && o in code[k].memory && o.isVolatile ==> out[k] == code[k]
    ensures !changed ==> out == code
  {
    assert forall i: Instr ::
        i.isTerminator || i.isCall || i.isPseudo || i.hasSideEffects || i.inParallelCopy ==> Barrier(i);
    assert forall i: Instr, o :: o in i.memory && o.isVolatile ==> Barrier(i);
    hide Barrier, SameEffect, Scheduled, Encoded;
    NothingScheduled(code);
    out, changed := [], false;
    var begin := 0;
    for i := 0 to |code|
      invariant 0 <= begin <= i
      invariant forall k :: begin <= k < i ==> !Barrier(code[k])
      invariant Scheduled(code, begin, out, changed)
    {
      if Barrier(code[i]) {
        var region, moved := ScheduleRegion(code[begin..i], preferPressure[i]);
        ScheduledRegion(code, begin, i, out, changed, region, moved);
        ScheduledBarrier(code, i, out + region, changed || moved);
        out, changed, begin := out + region + [code[i]], changed || moved, i + 1;
      }
    }
    var region, moved := ScheduleRegion(code[begin..|code|], preferPressure[|code|]);
    ScheduledRegion(code, begin, |code|, out, changed, region, moved);
    out, changed := out + region, changed || moved;
    AllScheduled(code, out, changed);
  }
}
