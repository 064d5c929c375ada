/**
 Backward liveness over a control-flow graph.  The allocator, the physical-register
 analysis and the dead-store elimination of spill slots all run the same loop; it is
 written once here.  A flow gives every instruction the items (registers or slots) it
 reads and writes.
 */
module Dataflow {

  datatype Access = Access(uses: set<nat>, defs: set<nat>)

  datatype Flow = Flow(blocks: seq<seq<Access>>, succs: seq<seq<nat>>)

  ghost predicate Wired(succs: seq<seq<nat>>) {
    forall b, s :: 0 <= b < |succs| && s in succs[b] ==> s < |succs|
  }

  ghost predicate ValidFlow(f: Flow) {
    |f.blocks| == |f.succs| && Wired(f.succs)
  }

  // ----- The reference notion: some path reaches a use before a definition -----

  /** Within k steps from instruction i of block b, item r is read before it is written. */
  ghost predicate LiveWithin(f: Flow, b: nat, i: nat, r: nat, k: nat)
    requires ValidFlow(f) && b < |f.blocks| && i <= |f.blocks[b]|
    decreases k
  {
    if i < |f.blocks[b]| then
      r in f.blocks[b][i].uses
      || (r !in f.blocks[b][i].defs && k > 0 && LiveWithin(f, b, i + 1, r, k - 1))
    else
      k > 0 && exists s :: s in f.succs[b] && LiveWithin(f, s, 0, r, k - 1)
  }

  ghost predicate PathLive(f: Flow, b: nat, i: nat, r: nat)
    requires ValidFlow(f) && b < |f.blocks| && i <= |f.blocks[b]|
  {
    exists k: nat :: LiveWithin(f, b, i, r, k)
  }

  /** Path liveness of one position in terms of the next positions. */
  lemma PathLiveUnfolds(f: Flow, b: nat, i: nat, r: nat)
    requires ValidFlow(f) && b < |f.blocks| && i <= |f.blocks[b]|
    ensures i < |f.blocks[b]| ==>
              (PathLive(f, b, i, r) <==>
               r in f.blocks[b][i].uses
               || (r !in f.blocks[b][i].defs && PathLive(f, b, i + 1, r)))
    ensures i == |f.blocks[b]| ==>
              (PathLive(f, b, i, r) <==> exists s :: s in f.succs[b] && PathLive(f, s, 0, r))
  {
    if PathLive(f, b, i, r) {
      var k: nat :| LiveWithin(f, b, i, r, k);
      if i < |f.blocks[b]| {
        if r !in f.blocks[b][i].uses { assert LiveWithin(f, b, i + 1, r, k - 1); }
      } else {
        var s :| s in f.succs[b] && LiveWithin(f, s, 0, r, k - 1);
        assert PathLive(f, s, 0, r);
      }
    }
    if i < |f.blocks[b]| {
      if r in f.blocks[b][i].uses { assert LiveWithin(f, b, i, r, 0); }
      if r !in f.blocks[b][i].defs && PathLive(f, b, i + 1, r) {
        var k: nat :| LiveWithin(f, b, i + 1, r, k);
        assert LiveWithin(f, b, i, r, k + 1);
      }
    } else {
      forall s | s in f.succs[b] && PathLive(f, s, 0, r)
        ensures PathLive(f, b, i, r)
      {
        var k: nat :| LiveWithin(f, s, 0, r, k);
        assert LiveWithin(f, b, i, r, k + 1);
      }
    }
  }

  // ----- Block summaries -----

  /** Items read before being written in a straight-line stretch. */
  function ExposedUses(accs: seq<Access>): set<nat> {
    if accs == [] then {} else accs[0].uses + (ExposedUses(accs[1..]) - accs[0].defs)
  }

  function AllDefs(accs: seq<Access>): set<nat> {
    if accs == [] then {} else accs[0].defs + AllDefs(accs[1..])
  }

  /** The forward scan that summarises one block. */
  method SummarizeBlock(accs: seq<Access>) returns (uses: set<nat>, defs: set<nat>)
    ensures uses == ExposedUses(accs)
    ensures defs == AllDefs(accs)
  {
    uses, defs := {}, {};
    for i := 0 to |accs|
      invariant ExposedUses(accs) == uses + (ExposedUses(accs[i..]) - defs)
      invariant AllDefs(accs) == defs + AllDefs(accs[i..])
    {
      assert accs[i..][1..] == accs[i + 1..];
      uses := uses + (accs[i].uses - defs);
      defs := defs + accs[i].defs;
    }
  }

  /** A block summary decides path liveness at the block's start. */
  lemma {:induction false} SummaryDecides(f: Flow, b: nat, i: nat, r: nat)
    requires ValidFlow(f) && b < |f.blocks| && i <= |f.blocks[b]|
    ensures PathLive(f, b, i, r) <==>
            r in ExposedUses(f.blocks[b][i..])
            || (r !in AllDefs(f.blocks[b][i..]) && exists s :: s in f.succs[b] && PathLive(f, s, 0, r))
    decreases |f.blocks[b]| - i
  {
    PathLiveUnfolds(f, b, i, r);
    if i < |f.blocks[b]| {
      assert f.blocks[b][i..][1..] == f.blocks[b][i + 1..];
      SummaryDecides(f, b, i + 1, r);
    }
  }

  // ----- The block-level fixpoint -----

  /** Within k block transitions from the start of b, item r is exposed before it is killed. */
  ghost predicate ExposedWithin(succs: seq<seq<nat>>, uses: seq<set<nat>>, defs: seq<set<nat>>,
                                b: nat, r: nat, k: nat)
    requires Wired(succs) && |uses| == |defs| == |succs| && b < |succs|
    decreases k
  {
    r in uses[b]
    || (r !in defs[b] && k > 0 && exists s :: s in succs[b] && ExposedWithin(succs, uses, defs, s, r, k - 1))
  }

  ghost predicate Exposed(succs: seq<seq<nat>>, uses: seq<set<nat>>, defs: seq<set<nat>>, b: nat, r: nat)
    requires Wired(succs) && |uses| == |defs| == |succs| && b < |succs|
  {
    exists k: nat :: ExposedWithin(succs, uses, defs, b, r, k)
  }

  function Join(ss: seq<nat>, liveIn: seq<set<nat>>): set<nat>
    requires forall s :: s in ss ==> s < |liveIn|
  {
    set s, r | s in ss && r in liveIn[s] :: r
  }

  /** One block's transfer equations. */
  ghost predicate Solved(succs: seq<seq<nat>>, uses: seq<set<nat>>, defs: seq<set<nat>>,
                         liveIn: seq<set<nat>>, liveOut: seq<set<nat>>, b: nat)
    requires Wired(succs) && |uses| == |defs| == |succs| == |liveIn| == |liveOut| && b < |succs|
  {
    liveOut[b] == Join(succs[b], liveIn) && liveIn[b] == uses[b] + (liveOut[b] - defs[b])
  }

  /** What every intermediate state of the loop satisfies: nothing is in a set too early,
      and no set ever has to shrink. */
  ghost predicate Growing(succs: seq<seq<nat>>, uses: seq<set<nat>>, defs: seq<set<nat>>,
                          liveIn: seq<set<nat>>, liveOut: seq<set<nat>>)
  {
    Wired(succs) && |uses| == |defs| == |succs| == |liveIn| == |liveOut|
    && (forall b :: 0 <= b < |succs| ==> liveOut[b] <= Join(succs[b], liveIn))
    && (forall b :: 0 <= b < |succs| ==> liveIn[b] <= uses[b] + (Join(succs[b], liveIn) - defs[b]))
    && (forall b, r :: 0 <= b < |succs| && r in liveIn[b] ==> Exposed(succs, uses, defs, b, r))
  }

  ghost function Facts(liveIn: seq<set<nat>>, liveOut: seq<set<nat>>): set<(bool, nat, nat)> {
    (set b: nat, r | b < |liveIn| && r in liveIn[b] :: (true, b, r))
    + (set b: nat, r | b < |liveOut| && r in liveOut[b] :: (false, b, r))
  }

  ghost function Universe(uses: seq<set<nat>>): set<(bool, nat, nat)> {
    set c: bool, b: nat, d: nat, r | b < |uses| && d < |uses| && r in uses[d] :: (c, b, r)
  }

  lemma {:induction false} ExposedIsUsed(succs: seq<seq<nat>>, uses: seq<set<nat>>, defs: seq<set<nat>>,
                                         b: nat, r: nat, k: nat)
    requires Wired(succs) && |uses| == |defs| == |succs| && b < |succs|
    requires ExposedWithin(succs, uses, defs, b, r, k)
    ensures exists d: nat :: d < |uses| && r in uses[d]
    decreases k
  {
    if r !in uses[b] {
      var s :| s in succs[b] && ExposedWithin(succs, uses, defs, s, r, k - 1);
      ExposedIsUsed(succs, uses, defs, s, r, k - 1);
    }
  }

  lemma FactsBounded(succs: seq<seq<nat>>, uses: seq<set<nat>>, defs: seq<set<nat>>,
                     liveIn: seq<set<nat>>, liveOut: seq<set<nat>>)
    requires Growing(succs, uses, defs, liveIn, liveOut)
    ensures Facts(liveIn, liveOut) <= Universe(uses)
  {
    forall b: nat, r | b < |succs| && r in liveIn[b]
      ensures forall a: nat, c: bool :: a < |uses| ==> (c, a, r) in Universe(uses)
    {
      var k: nat :| ExposedWithin(succs, uses, defs, b, r, k);
      ExposedIsUsed(succs, uses, defs, b, r, k);
    }
  }

  /** Recomputes one block from the current sets of its successors. */
  method Transfer(succs: seq<seq<nat>>, uses: seq<set<nat>>, defs: seq<set<nat>>,
                  liveIn: seq<set<nat>>, b: nat)
    returns (nextOut: set<nat>, nextIn: set<nat>)
    requires Wired(succs) && |uses| == |defs| == |succs| == |liveIn| && b < |succs|
    ensures nextOut == Join(succs[b], liveIn)
    ensures nextIn == uses[b] + (nextOut - defs[b])
  {
    nextOut := {};
    assert forall s :: s in succs[b] ==> s < |succs|;
    for j := 0 to |succs[b]|
      invariant forall s :: s in succs[b][..j] ==> s in succs[b]
      invariant nextOut == Join(succs[b][..j], liveIn)
    {
      assert succs[b][..j + 1] == succs[b][..j] + [succs[b][j]] && succs[b][j] in succs[b];
      nextOut := nextOut + liveIn[succs[b][j]];
    }
    assert succs[b][..|succs[b]|] == succs[b];
    nextIn := uses[b] + (nextOut - defs[b]);
  }

  /** Storing a recomputed block keeps the loop's invariant and only adds facts. */
  lemma UpdateGrows(succs: seq<seq<nat>>, uses: seq<set<nat>>, defs: seq<set<nat>>,
                    liveIn: seq<set<nat>>, liveOut: seq<set<nat>>, b: nat,
                    nextIn: set<nat>, nextOut: set<nat>)
    requires Growing(succs, uses, defs, liveIn, liveOut) && b < |succs|
    requires nextOut == Join(succs[b], liveIn) && nextIn == uses[b] + (nextOut - defs[b])
    ensures Growing(succs, uses, defs, liveIn[b := nextIn], liveOut[b := nextOut])
    ensures liveIn[b] <= nextIn && liveOut[b] <= nextOut
  {
    var in', out' := liveIn[b := nextIn], liveOut[b := nextOut];
    assert forall a :: 0 <= a < |succs| ==> liveIn[a] <= in'[a];
    forall a | 0 <= a < |succs| ensures Join(succs[a], liveIn) <= Join(succs[a], in') {
    }
    forall r | r in nextIn ensures Exposed(succs, uses, defs, b, r) {
      if r in uses[b] {
        assert ExposedWithin(succs, uses, defs, b, r, 0);
      } else {
        var s :| s in succs[b] && r in liveIn[s];
        var k: nat :| ExposedWithin(succs, uses, defs, s, r, k);
        assert ExposedWithin(succs, uses, defs, b, r, k + 1);
      }
    }
  }

  lemma FactsGrow(liveIn: seq<set<nat>>, liveOut: seq<set<nat>>, b: nat, nextIn: set<nat>, nextOut: set<nat>)
    requires |liveIn| == |liveOut| && b < |liveIn|
    requires liveIn[b] <= nextIn && liveOut[b] <= nextOut
    requires nextIn != liveIn[b] || nextOut != liveOut[b]
    ensures Facts(liveIn, liveOut) < Facts(liveIn[b := nextIn], liveOut[b := nextOut])
  {
    var before, after := Facts(liveIn, liveOut), Facts(liveIn[b := nextIn], liveOut[b := nextOut]);
    forall f | f in before ensures f in after {
    }
    if nextIn != liveIn[b] {
      var r :| r in nextIn && r !in liveIn[b];
      assert (true, b, r) in after && (true, b, r) !in before;
    } else {
      var r :| r in nextOut && r !in liveOut[b];
      assert (false, b, r) in after && (false, b, r) !in before;
    }
  }

  /** One backward sweep over all blocks. */
  method Sweep(succs: seq<seq<nat>>, uses: seq<set<nat>>, defs: seq<set<nat>>,
               liveIn0: seq<set<nat>>, liveOut0: seq<set<nat>>)
    returns (liveIn: seq<set<nat>>, liveOut: seq<set<nat>>, changed: bool)
    requires Growing(succs, uses, defs, liveIn0, liveOut0)
    ensures Growing(succs, uses, defs, liveIn, liveOut)
    ensures changed ==> Facts(liveIn0, liveOut0) < Facts(liveIn, liveOut)
    ensures !changed ==> liveIn == liveIn0 && liveOut == liveOut0
    ensures !changed ==> forall b :: 0 <= b < |succs| ==> Solved(succs, uses, defs, liveIn, liveOut, b)
  {
    liveIn, liveOut, changed := liveIn0, liveOut0, false;
    for b := |succs| downto 0
      invariant Growing(succs, uses, defs, liveIn, liveOut)
      invariant changed ==> Facts(liveIn0, liveOut0) < Facts(liveIn, liveOut)
      invariant !changed ==> liveIn == liveIn0 && liveOut == liveOut0
      invariant !changed ==> forall a :: b <= a < |succs| ==> Solved(succs, uses, defs, liveIn, liveOut, a)
    {
      var nextOut, nextIn := Transfer(succs, uses, defs, liveIn, b);
      if nextOut != liveOut[b] || nextIn != liveIn[b] {
        UpdateGrows(succs, uses, defs, liveIn, liveOut, b, nextIn, nextOut);
        FactsGrow(liveIn, liveOut, b, nextIn, nextOut);
        liveOut := liveOut[b := nextOut];
        liveIn := liveIn[b := nextIn];
        changed := true;
      }
    }
  }

  /** Sweeps until nothing changes: the result is exactly path exposure. */
  method SolveBackward(succs: seq<seq<nat>>, uses: seq<set<nat>>, defs: seq<set<nat>>)
    returns (liveIn: seq<set<nat>>, liveOut: seq<set<nat>>)
    requires Wired(succs) && |uses| == |defs| == |succs|
    ensures |liveIn| == |liveOut| == |succs|
    ensures forall b, r :: 0 <= b < |succs| ==> (r in liveIn[b] <==> Exposed(succs, uses, defs, b, r))
    ensures forall b :: 0 <= b < |succs| ==> Solved(succs, uses, defs, liveIn, liveOut, b)
  {
    liveIn := seq(|succs|, _ => {});
    liveOut := seq(|succs|, _ => {});
    var changed := true;
    while changed
      invariant Growing(succs, uses, defs, liveIn, liveOut)
      invariant !changed ==> forall b :: 0 <= b < |succs| ==> Solved(succs, uses, defs, liveIn, liveOut, b)
      decreases Universe(uses) - Facts(liveIn, liveOut), changed
    {
      ghost var before := Facts(liveIn, liveOut);
      liveIn, liveOut, changed := Sweep(succs, uses, defs, liveIn, liveOut);
      FactsBounded(succs, uses, defs, liveIn, liveOut);
      assert changed ==> Universe(uses) - Facts(liveIn, liveOut) < Universe(uses) - before;
    }
    forall b, r | 0 <= b < |succs| && Exposed(succs, uses, defs, b, r) ensures r in liveIn[b] {
      var k: nat :| ExposedWithin(succs, uses, defs, b, r, k);
      SolutionContainsExposed(succs, uses, defs, liveIn, liveOut, b, r, k);
    }
  }

  lemma {:induction false} SolutionContainsExposed(succs: seq<seq<nat>>, uses: seq<set<nat>>, defs: seq<set<nat>>,
                                                   liveIn: seq<set<nat>>, liveOut: seq<set<nat>>,
                                                   b: nat, r: nat, k: nat)
    requires Wired(succs) && |uses| == |defs| == |succs| == |liveIn| == |liveOut| && b < |succs|
    requires forall a :: 0 <= a < |succs| ==> Solved(succs, uses, defs, liveIn, liveOut, a)
    requires ExposedWithin(succs, uses, defs, b, r, k)
    ensures r in liveIn[b]
    decreases k
  {
    assert Solved(succs, uses, defs, liveIn, liveOut, b);
    if r !in uses[b] {
      var s :| s in succs[b] && ExposedWithin(succs, uses, defs, s, r, k - 1);
      SolutionContainsExposed(succs, uses, defs, liveIn, liveOut, s, r, k - 1);
    }
  }

  // ----- Exactness of the whole analysis -----

  ghost predicate Summarizes(f: Flow, uses: seq<set<nat>>, defs: seq<set<nat>>) {
    |uses| == |defs| == |f.blocks|
    && forall b :: 0 <= b < |f.blocks| ==> uses[b] == ExposedUses(f.blocks[b]) && defs[b] == AllDefs(f.blocks[b])
  }

  lemma {:induction false} ExposedToPath(f: Flow, uses: seq<set<nat>>, defs: seq<set<nat>>, b: nat, r: nat, k: nat)
    requires ValidFlow(f) && Summarizes(f, uses, defs) && b < |f.blocks|
    requires ExposedWithin(f.succs, uses, defs, b, r, k)
    ensures PathLive(f, b, 0, r)
    decreases k
  {
    SummaryDecides(f, b, 0, r);
    assert f.blocks[b][0..] == f.blocks[b];
    if r !in uses[b] {
      var s :| s in f.succs[b] && ExposedWithin(f.succs, uses, defs, s, r, k - 1);
      ExposedToPath(f, uses, defs, s, r, k - 1);
    }
  }

  lemma {:induction false} PathToExposed(f: Flow, uses: seq<set<nat>>, defs: seq<set<nat>>,
                                         b: nat, i: nat, r: nat, k: nat)
    requires ValidFlow(f) && Summarizes(f, uses, defs) && b < |f.blocks| && i <= |f.blocks[b]|
    requires LiveWithin(f, b, i, r, k)
    ensures r in ExposedUses(f.blocks[b][i..])
            || (r !in AllDefs(f.blocks[b][i..])
                && exists s :: s in f.succs[b] && Exposed(f.succs, uses, defs, s, r))
    decreases k
  {
    if i < |f.blocks[b]| {
      assert f.blocks[b][i..][1..] == f.blocks[b][i + 1..];
      if r !in f.blocks[b][i].uses {
        PathToExposed(f, uses, defs, b, i + 1, r, k - 1);
      }
    } else {
      var s :| s in f.succs[b] && LiveWithin(f, s, 0, r, k - 1);
      PathToExposed(f, uses, defs, s, 0, r, k - 1);
      assert f.blocks[s][0..] == f.blocks[s];
      if r in ExposedUses(f.blocks[s]) {
        assert ExposedWithin(f.succs, uses, defs, s, r, 0);
      } else {
        var t :| t in f.succs[s] && Exposed(f.succs, uses, defs, t, r);
        var j: nat :| ExposedWithin(f.succs, uses, defs, t, r, j);
        assert ExposedWithin(f.succs, uses, defs, s, r, j + 1);
      }
    }
  }

  /** With exact block summaries, block exposure is path liveness at the block's start. */
  lemma ExposedIsPathLive(f: Flow, uses: seq<set<nat>>, defs: seq<set<nat>>, b: nat, r: nat)
    requires ValidFlow(f) && Summarizes(f, uses, defs) && b < |f.blocks|
    ensures Exposed(f.succs, uses, defs, b, r) <==> PathLive(f, b, 0, r)
  {
    assert f.blocks[b][0..] == f.blocks[b];
    if Exposed(f.succs, uses, defs, b, r) {
      var k: nat :| ExposedWithin(f.succs, uses, defs, b, r, k);
      ExposedToPath(f, uses, defs, b, r, k);
    }
    if PathLive(f, b, 0, r) {
      var k: nat :| LiveWithin(f, b, 0, r, k);
      PathToExposed(f, uses, defs, b, 0, r, k);
      if r in uses[b] {
        assert ExposedWithin(f.succs, uses, defs, b, r, 0);
      } else {
        var t :| t in f.succs[b] && Exposed(f.succs, uses, defs, t, r);
        var j: nat :| ExposedWithin(f.succs, uses, defs, t, r, j);
        assert ExposedWithin(f.succs, uses, defs, b, r, j + 1);
      }
    }
  }

  /** Items live before the accesses, given the items live after them. */
  function LiveBefore(accs: seq<Access>, after: set<nat>): set<nat> {
    if accs == [] then after else accs[0].uses + (LiveBefore(accs[1..], after) - accs[0].defs)
  }

  /** The same for a single item. */
  predicate LiveThrough(accs: seq<Access>, x: nat, after: bool) {
    if accs == [] then after else x in accs[0].uses || (x !in accs[0].defs && LiveThrough(accs[1..], x, after))
  }

  lemma {:induction false} LiveThroughIs(accs: seq<Access>, out: set<nat>, x: nat)
    ensures x in LiveBefore(accs, out) <==> LiveThrough(accs, x, x in out)
  {
    if accs != [] { LiveThroughIs(accs[1..], out, x); }
  }

  lemma {:induction false} LiveThroughAppend(a: seq<Access>, b: seq<Access>, x: nat, after: bool)
    ensures LiveThrough(a + b, x, after) == LiveThrough(a, x, LiveThrough(b, x, after))
  {
    if a == [] {
      assert a + b == b;
    } else {
      assert (a + b)[1..] == a[1..] + b;
      LiveThroughAppend(a[1..], b, x, after);
    }
  }

  /** What no access touches is live before exactly when it is live after. */
  lemma {:induction false} LiveThroughUntouched(accs: seq<Access>, x: nat, after: bool)
    requires forall i :: 0 <= i < |accs| ==> x !in accs[i].uses && x !in accs[i].defs
    ensures LiveThrough(accs, x, after) == after
  {
    if accs != [] { LiveThroughUntouched(accs[1..], x, after); }
  }

  /** Every solution contains what some path reads before writing it. */
  lemma {:induction false} ClosedContainsLive(f: Flow, out: seq<set<nat>>, b: nat, i: nat, x: nat, k: nat)
    requires ValidFlow(f) && |out| == |f.blocks| && b < |f.blocks| && i <= |f.blocks[b]|
    requires forall a, s :: 0 <= a < |f.blocks| && s in f.succs[a] ==> LiveBefore(f.blocks[s], out[s]) <= out[a]
    requires LiveWithin(f, b, i, x, k)
    ensures x in LiveBefore(f.blocks[b][i..], out[b])
    decreases k
  {
    if i < |f.blocks[b]| {
      assert f.blocks[b][i..][1..] == f.blocks[b][i + 1..];
      if x !in f.blocks[b][i].uses { ClosedContainsLive(f, out, b, i + 1, x, k - 1); }
    } else {
      var s :| s in f.succs[b] && LiveWithin(f, s, 0, x, k - 1);
      ClosedContainsLive(f, out, s, 0, x, k - 1);
      assert f.blocks[s][0..] == f.blocks[s];
    }
  }

  lemma NothingLeft(accs: seq<Access>, out: set<nat>)
    ensures LiveBefore(accs[|accs|..], out) == out
  {
  }

  lemma LiveBeforeStep(accs: seq<Access>, out: set<nat>, i: nat)
    requires i < |accs|
    ensures LiveBefore(accs[i..], out) == (LiveBefore(accs[i + 1..], out) - accs[i].defs) + accs[i].uses
  {
    assert accs[i..][1..] == accs[i + 1..];
  }

  /** The reverse walk of one block: element i is the set live before instruction i. */
  method WalkBlock(accs: seq<Access>, out: set<nat>) returns (before: seq<set<nat>>)
    ensures |before| == |accs| + 1
    ensures forall i :: 0 <= i <= |accs| ==> before[i] == LiveBefore(accs[i..], out)
  {
    hide LiveBefore;
    assert LiveBefore(accs[|accs|..], out) == out by { NothingLeft(accs, out); }
    before := [out];
    var live := out;
    for i := |accs| downto 0
      invariant |before| == |accs| - i + 1
      invariant live == LiveBefore(accs[i..], out)
      invariant forall j :: i <= j <= |accs| ==> before[j - i] == LiveBefore(accs[j..], out)
    {
      LiveBeforeStep(accs, out, i);
      live := (live - accs[i].defs) + accs[i].uses;
      before := [live] + before;
    }
  }

  /** Per-instruction sets computed from exact block sets are exact at every position. */
  lemma {:induction false} WalkIsExact(f: Flow, b: nat, i: nat, out: set<nat>, r: nat)
    requires ValidFlow(f) && b < |f.blocks| && i <= |f.blocks[b]|
    requires r in out <==> exists s :: s in f.succs[b] && PathLive(f, s, 0, r)
    ensures r in LiveBefore(f.blocks[b][i..], out) <==> PathLive(f, b, i, r)
    decreases |f.blocks[b]| - i
  {
    PathLiveUnfolds(f, b, i, r);
    if i < |f.blocks[b]| {
      assert f.blocks[b][i..][1..] == f.blocks[b][i + 1..];
      WalkIsExact(f, b, i + 1, out, r);
    }
  }

  /** The complete analysis: exact at block boundaries and before every instruction. */
  method AnalyzeLiveness(f: Flow)
    returns (liveIn: seq<set<nat>>, liveOut: seq<set<nat>>, before: seq<seq<set<nat>>>)
    requires ValidFlow(f)
    ensures |liveIn| == |liveOut| == |before| == |f.blocks|
    ensures forall b, r :: 0 <= b < |f.blocks| ==> (r in liveIn[b] <==> PathLive(f, b, 0, r))
    ensures forall b, r :: 0 <= b < |f.blocks| ==> (r in liveOut[b] <==> PathLive(f, b, |f.blocks[b]|, r))
    ensures forall b :: 0 <= b < |f.blocks| ==> |before[b]| == |f.blocks[b]| + 1
    ensures forall b, i, r :: 0 <= b < |f.blocks| && 0 <= i <= |f.blocks[b]| ==>
                                (r in before[b][i] <==> PathLive(f, b, i, r))
  {
    var uses: seq<set<nat>>, defs: seq<set<nat>> := [], [];
    for b := 0 to |f.blocks|
      invariant |uses| == |defs| == b
      invariant forall a :: 0 <= a < b ==> uses[a] == ExposedUses(f.blocks[a]) && defs[a] == AllDefs(f.blocks[a])
    {
      var u, d := SummarizeBlock(f.blocks[b]);
      uses, defs := uses + [u], defs + [d];
    }
    liveIn, liveOut := SolveBackward(f.succs, uses, defs);
    forall b, r | 0 <= b < |f.blocks| ensures r in liveIn[b] <==> PathLive(f, b, 0, r) {
      ExposedIsPathLive(f, uses, defs, b, r);
    }
    forall b, r | 0 <= b < |f.blocks|
      ensures r in liveOut[b] <==> PathLive(f, b, |f.blocks[b]|, r)
    {
      PathLiveUnfolds(f, b, |f.blocks[b]|, r);
      assert Solved(f.succs, uses, defs, liveIn, liveOut, b);
    }
    before := [];
    for b := 0 to |f.blocks|
      invariant |before| == b
      invariant forall a :: 0 <= a < b ==> |before[a]| == |f.blocks[a]| + 1
      invariant forall a, i :: 0 <= a < b && 0 <= i <= |f.blocks[a]| ==>
                                 before[a][i] == LiveBefore(f.blocks[a][i..], liveOut[a])
    {
      var w := WalkBlock(f.blocks[b], liveOut[b]);
      before := before + [w];
    }
    forall b, i, r | 0 <= b < |f.blocks| && 0 <= i <= |f.blocks[b]|
      ensures r in before[b][i] <==> PathLive(f, b, i, r)
    {
      PathLiveUnfolds(f, b, |f.blocks[b]|, r);
      WalkIsExact(f, b, i, liveOut[b], r);
    }
  }
}
