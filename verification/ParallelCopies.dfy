/**
 Parallel copies.  PHI lowering orders them and breaks cycles with fresh temporaries;
 the post-allocation resolver only orders them and gives up on a cycle, relying on the
 colors that allocation forbade.
 */
module ParallelCopies {
  import opened MachineIR

  datatype Copy = Copy(dst: nat, src: nat)

  /** The copies one after the other. */
  function RunCopies(copies: seq<Copy>, f: File): File {
    if copies == [] then f else RunCopies(copies[1..], Put(f, copies[0].dst, f(copies[0].src)))
  }

  /** All copies at once, every source read first. */
  function Parallel(copies: seq<Copy>, f: File): File {
    if copies == [] then f else Put(Parallel(copies[1..], f), copies[0].dst, f(copies[0].src))
  }

  ghost predicate DistinctTargets(copies: seq<Copy>) {
    forall i, j :: 0 <= i < j < |copies| ==> copies[i].dst != copies[j].dst
  }

  ghost predicate IsTarget(copies: seq<Copy>, r: nat) {
    exists i :: 0 <= i < |copies| && copies[i].dst == r
  }

  ghost predicate IsSource(copies: seq<Copy>, r: nat) {
    exists i :: 0 <= i < |copies| && copies[i].src == r
  }

  /** The parallel assignment, register by register. */
  lemma {:induction false} ParallelTarget(copies: seq<Copy>, f: File, i: nat)
    requires DistinctTargets(copies) && i < |copies|
    ensures Parallel(copies, f)(copies[i].dst) == f(copies[i].src)
  {
    if i > 0 {
      assert copies[1..][i - 1] == copies[i];
      ParallelTarget(copies[1..], f, i - 1);
    }
  }

  lemma {:induction false} ParallelOther(copies: seq<Copy>, f: File, r: nat)
    requires !IsTarget(copies, r)
    ensures Parallel(copies, f)(r) == f(r)
  {
    if copies != [] {
      assert copies[0].dst != r;
      assert forall i :: 0 <= i < |copies| - 1 ==> copies[1..][i] == copies[i + 1];
      ParallelOther(copies[1..], f, r);
    }
  }

  lemma {:induction false} RunAppend(a: seq<Copy>, c: Copy, f: File)
    ensures RunCopies(a + [c], f) == Put(RunCopies(a, f), c.dst, RunCopies(a, f)(c.src))
  {
    if a == [] {
      assert (a + [c])[1..] == [];
    } else {
      assert (a + [c])[1..] == a[1..] + [c];
      RunAppend(a[1..], c, Put(f, a[0].dst, f(a[0].src)));
    }
  }

  function Drop(copies: seq<Copy>, i: nat): seq<Copy>
    requires i < |copies|
  {
    copies[..i] + copies[i + 1..]
  }

  /** Can this copy go first? */
  predicate Ready(copies: seq<Copy>, i: nat)
    requires i < |copies|
  {
    copies[i].dst == copies[i].src || forall j :: 0 <= j < |copies| ==> copies[j].src != copies[i].dst
  }

  /** What remains after a ready copy has been made computes the same assignment. */
  lemma TakeReady(copies: seq<Copy>, i: nat, f: File, r: nat)
    requires DistinctTargets(copies) && i < |copies| && Ready(copies, i)
    ensures DistinctTargets(Drop(copies, i))
    ensures copies[i].dst == copies[i].src ==> Parallel(Drop(copies, i), f)(r) == Parallel(copies, f)(r)
    ensures copies[i].dst != copies[i].src ==>
              Parallel(Drop(copies, i), Put(f, copies[i].dst, f(copies[i].src)))(r) == Parallel(copies, f)(r)
  {
    var rest, c := Drop(copies, i), copies[i];
    var g := if c.dst == c.src then f else Put(f, c.dst, f(c.src));
    assert forall j :: 0 <= j < |rest| ==> rest[j] == copies[if j < i then j else j + 1];
    if IsTarget(rest, r) {
      var j :| 0 <= j < |rest| && rest[j].dst == r;
      var k := if j < i then j else j + 1;
      assert copies[k] == rest[j];
      ParallelTarget(rest, f, j);
      ParallelTarget(rest, Put(f, c.dst, f(c.src)), j);
      ParallelTarget(copies, f, k);
    } else {
      ParallelOther(rest, f, r);
      ParallelOther(rest, Put(f, c.dst, f(c.src)), r);
      if r == c.dst {
        ParallelTarget(copies, f, i);
      } else {
        forall k | 0 <= k < |copies| ensures copies[k].dst != r {
          if k != i { assert rest[if k < i then k else k - 1] == copies[k]; }
        }
        ParallelOther(copies, f, r);
      }
    }
  }

  /** Every read of s replaced by a read of t. */
  function Redirect(copies: seq<Copy>, s: nat, t: nat): (r: seq<Copy>)
    ensures |r| == |copies|
    ensures forall i :: 0 <= i < |copies| ==>
              r[i] == if copies[i].src == s then Copy(copies[i].dst, t) else copies[i]
  {
    seq(|copies|, i requires 0 <= i < |copies| => if copies[i].src == s then Copy(copies[i].dst, t) else copies[i])
  }

  /** Saving a source in an unused register and reading it from there changes nothing else. */
  lemma SaveSource(copies: seq<Copy>, s: nat, t: nat, f: File, r: nat)
    requires DistinctTargets(copies) && !IsSource(copies, t) && !IsTarget(copies, t) && r != t
    ensures DistinctTargets(Redirect(copies, s, t))
    ensures Parallel(Redirect(copies, s, t), Put(f, t, f(s)))(r) == Parallel(copies, f)(r)
  {
    var moved := Redirect(copies, s, t);
    if IsTarget(copies, r) {
      var i :| 0 <= i < |copies| && copies[i].dst == r;
      assert moved[i].dst == r;
      ParallelTarget(copies, f, i);
      ParallelTarget(moved, Put(f, t, f(s)), i);
    } else {
      assert forall i :: 0 <= i < |copies| ==> moved[i].dst == copies[i].dst;
      ParallelOther(copies, f, r);
      ParallelOther(moved, Put(f, t, f(s)), r);
    }
  }

  // ----- Progress of PHI lowering -----

  ghost function Targets(copies: seq<Copy>): set<nat> {
    set c | c in copies :: c.dst
  }

  ghost function Sources(copies: seq<Copy>): set<nat> {
    set c | c in copies :: c.src
  }

  lemma FirstTarget(copies: seq<Copy>)
    requires DistinctTargets(copies) && copies != []
    ensures DistinctTargets(copies[1..])
    ensures Targets(copies) == Targets(copies[1..]) + {copies[0].dst}
    ensures copies[0].dst !in Targets(copies[1..])
  {
    assert copies == [copies[0]] + copies[1..];
    forall c | c in copies[1..] ensures c.dst != copies[0].dst {
      var j :| 0 <= j < |copies| - 1 && copies[1..][j] == c;
      assert copies[j + 1] == c;
    }
  }

  lemma {:induction false} CountTargets(copies: seq<Copy>)
    requires DistinctTargets(copies)
    ensures |Targets(copies)| == |copies|
  {
    if copies != [] {
      CountTargets(copies[1..]);
      FirstTarget(copies);
    }
  }

  lemma {:induction false} CountSources(copies: seq<Copy>)
    ensures |Sources(copies)| <= |copies|
  {
    if copies != [] {
      CountSources(copies[1..]);
      assert copies == [copies[0]] + copies[1..];
      assert Sources(copies) == Sources(copies[1..]) + {copies[0].src};
    }
  }

  lemma {:induction false} EqualBySize(a: set<nat>, b: set<nat>)
    requires a <= b && |b| <= |a|
    ensures a == b
    decreases a
  {
    if a != {} {
      var x :| x in a;
      EqualBySize(a - {x}, b - {x});
    }
  }

  /** With no copy ready, the sources are exactly the targets: only cycles are left. */
  lemma OnlyCyclesLeft(copies: seq<Copy>)
    requires DistinctTargets(copies)
    requires forall i :: 0 <= i < |copies| ==> !Ready(copies, i)
    ensures Sources(copies) == Targets(copies)
  {
    CountTargets(copies);
    CountSources(copies);
    forall r | r in Targets(copies) ensures r in Sources(copies) {
      var c :| c in copies && c.dst == r;
      var i :| 0 <= i < |copies| && copies[i] == c;
      assert !Ready(copies, i);
      var j :| 0 <= j < |copies| && copies[j].src == r;
      assert copies[j] in copies;
    }
    EqualBySize(Targets(copies), Sources(copies));
  }

  /** Copies still reading an original register. */
  ghost function Original(copies: seq<Copy>, limit: nat): nat {
    if copies == [] then 0 else (if copies[0].src < limit then 1 else 0) + Original(copies[1..], limit)
  }

  lemma {:induction false} RedirectLowers(copies: seq<Copy>, s: nat, t: nat, limit: nat)
    requires s < limit <= t
    ensures Original(Redirect(copies, s, t), limit) <= Original(copies, limit)
    ensures IsSource(copies, s) ==> Original(Redirect(copies, s, t), limit) < Original(copies, limit)
  {
    if copies != [] {
      assert Redirect(copies, s, t)[1..] == Redirect(copies[1..], s, t);
      RedirectLowers(copies[1..], s, t, limit);
      if IsSource(copies, s) && copies[0].src != s {
        var i :| 0 <= i < |copies| && copies[i].src == s;
        assert copies[1..][i - 1].src == s;
      }
    }
  }

  /** The first ready copy, if any. */
  method FindReady(pending: seq<Copy>) returns (found: bool, at: nat)
    ensures found ==> at < |pending| && Ready(pending, at) && forall i :: 0 <= i < at ==> !Ready(pending, i)
    ensures !found ==> forall i :: 0 <= i < |pending| ==> !Ready(pending, i)
  {
    var sources := set c | c in pending :: c.src;
    at := 0;
    while at < |pending|
      invariant at <= |pending|
      invariant forall i :: 0 <= i < at ==> !Ready(pending, i)
    {
      if pending[at].dst == pending[at].src || pending[at].dst !in sources {
        assert forall j :: 0 <= j < |pending| ==> pending[j] in pending;
        return true, at;
      }
      var c :| c in pending && c.src == pending[at].dst;
      at := at + 1;
    }
    return false, 0;
  }

  /** Registers below limit exist already; limit .. next - 1 are temporaries. */
  ghost predicate Progress(copies: seq<Copy>, pending: seq<Copy>, code: seq<Copy>, limit: nat, next: nat) {
    && DistinctTargets(pending)
    && (forall i :: 0 <= i < |pending| ==> pending[i].dst < limit && pending[i].src < next)
    && (forall f: File, r: nat {:trigger Parallel(pending, RunCopies(code, f))(r)} :: r < limit || r >= next ==>
          Parallel(pending, RunCopies(code, f))(r) == Parallel(copies, f)(r))
  }

  lemma ReadyStep(copies: seq<Copy>, pending: seq<Copy>, code: seq<Copy>, limit: nat, next: nat, i: nat)
    requires limit <= next && Progress(copies, pending, code, limit, next) && i < |pending| && Ready(pending, i)
    ensures var code' := if pending[i].dst == pending[i].src then code else code + [pending[i]];
            Progress(copies, Drop(pending, i), code', limit, next)
  {
    var c := pending[i];
    var code' := if c.dst == c.src then code else code + [c];
    var rest := Drop(pending, i);
    forall f: File, r: nat | r < limit || r >= next
      ensures Parallel(rest, RunCopies(code', f))(r) == Parallel(copies, f)(r)
    {
      RunAppend(code, c, f);
      TakeReady(pending, i, RunCopies(code, f), r);
      assert Parallel(pending, RunCopies(code, f))(r) == Parallel(copies, f)(r);
    }
    TakeReady(pending, i, _ => Scalar(0), 0);
  }

  lemma SaveStep(copies: seq<Copy>, pending: seq<Copy>, code: seq<Copy>, limit: nat, next: nat, s: nat)
    requires limit <= next && Progress(copies, pending, code, limit, next)
    ensures Progress(copies, Redirect(pending, s, next), code + [Copy(next, s)], limit, next + 1)
  {
    var moved := Redirect(pending, s, next);
    forall f: File, r: nat | r < limit || r >= next + 1
      ensures Parallel(moved, RunCopies(code + [Copy(next, s)], f))(r) == Parallel(copies, f)(r)
    {
      RunAppend(code, Copy(next, s), f);
      SaveSource(pending, s, next, RunCopies(code, f), r);
      assert Parallel(pending, RunCopies(code, f))(r) == Parallel(copies, f)(r);
    }
    assert forall i :: 0 <= i < |pending| ==> moved[i].dst == pending[i].dst;
  }

  /** A temporary is taken only for a cycle, and costs one copy more. */
  ghost predicate Frugal(copies: seq<Copy>, pending: seq<Copy>, code: seq<Copy>, limit: nat, next: nat) {
    && |code| + |pending| <= |copies| + next - limit
    && (next != limit ==> HasCycle(copies))
    && (next == limit ==> (HasCycle(copies) <==> HasCycle(pending)))
  }

  lemma FrugalStep(copies: seq<Copy>, pending: seq<Copy>, code: seq<Copy>, limit: nat, next: nat, at: nat)
    requires Frugal(copies, pending, code, limit, next) && at < |pending| && Ready(pending, at)
    ensures var code' := if pending[at].dst == pending[at].src then code else code + [pending[at]];
            Frugal(copies, Drop(pending, at), code', limit, next)
  {
    hide HasCycle, Ready;
    CycleKept(pending, at);
    CycleNotNew(pending, at);
  }

  /** PHI lowering of one edge: the emitted sequence is the parallel assignment on every register
      except fresh temporaries, of which there are some exactly when there is a cycle. */
  method SequenceCopies(copies: seq<Copy>, limit: nat) returns (code: seq<Copy>, next: nat)
    requires DistinctTargets(copies)
    requires forall i :: 0 <= i < |copies| ==> copies[i].dst < limit && copies[i].src < limit
    ensures limit <= next && (next == limit <==> !HasCycle(copies)) && |code| <= |copies| + next - limit
    ensures forall f: File, r: nat {:trigger RunCopies(code, f)(r)} ::
              r < limit || r >= next ==> RunCopies(code, f)(r) == Parallel(copies, f)(r)
  {
    hide HasCycle;
    var pending := copies;
    code, next := [], limit;
    NothingHasNoCycle();
    while pending != []
      invariant limit <= next && Progress(copies, pending, code, limit, next)
      invariant Frugal(copies, pending, code, limit, next)
      decreases |pending|, Original(pending, limit)
    {
      var found, at := FindReady(pending);
      if found {
        ReadyStep(copies, pending, code, limit, next, at);
        FrugalStep(copies, pending, code, limit, next, at);
        if pending[at].dst != pending[at].src {
          code := code + [pending[at]];
        }
        pending := Drop(pending, at);
      } else {
        var source := pending[0].src;
        OnlyCyclesLeft(pending);
        LeftoverIsStuck(pending);
        assert pending[0] in pending && source in Targets(pending);
        SaveStep(copies, pending, code, limit, next, source);
        RedirectLowers(pending, source, next, limit);
        code := code + [Copy(next, source)];
        pending := Redirect(pending, source, next);
        next := next + 1;
      }
    }
    forall f: File, r: nat | r < limit || r >= next ensures RunCopies(code, f)(r) == Parallel(copies, f)(r) {
      assert Parallel(pending, RunCopies(code, f))(r) == RunCopies(code, f)(r);
    }
  }

  // ----- The post-allocation resolver -----

  /** A set of copies that block each other. */
  ghost predicate Stuck(s: set<Copy>) {
    && s != {}
    && (forall c :: c in s ==> c.dst != c.src)
    && (forall c {:trigger ReadIn(s, c.dst)} :: c in s ==> ReadIn(s, c.dst))
  }

  ghost predicate ReadIn(s: set<Copy>, r: nat) {
    exists d :: d in s && d.src == r
  }

  ghost predicate Within(s: set<Copy>, copies: seq<Copy>) {
    forall c :: c in s ==> c in copies
  }

  ghost predicate HasCycle(copies: seq<Copy>) {
    exists s :: Stuck(s) && Within(s, copies)
  }

  /** No copy overwrites what a later one reads. */
  ghost predicate Ordered(copies: seq<Copy>) {
    forall i, j :: 0 <= i < j < |copies| ==> copies[i].dst != copies[j].src
  }

  function WithoutSelf(copies: seq<Copy>): seq<Copy> {
    if copies == [] then []
    else (if copies[0].dst == copies[0].src then [] else [copies[0]]) + WithoutSelf(copies[1..])
  }

  /** The resolver.  With distinct targets it succeeds exactly when there is no cycle, and then
      implements the parallel assignment; an ordered group it only strips of self-copies. */
  method Resolve(group: seq<Copy>) returns (ok: bool, code: seq<Copy>)
    ensures DistinctTargets(group) ==> (ok <==> !HasCycle(group))
    ensures DistinctTargets(group) && ok ==> forall f: File, r: nat {:trigger RunCopies(code, f)(r)} ::
              RunCopies(code, f)(r) == Parallel(group, f)(r)
    ensures Ordered(group) ==> ok && code == WithoutSelf(group)
  {
    var pending := group;
    code := [];
    ghost var limit := Bound(group);
    while pending != []
      invariant Resolving(group, pending, code, limit)
      decreases |pending|
    {
      var found, at := FindReady(pending);
      if !found {
        LeftoverIsStuck(pending);
        FirstOfOrdered(pending);
        return false, code;
      }
      ResolveStep(group, pending, code, limit, at);
      if pending[at].dst != pending[at].src {
        code := code + [pending[at]];
      }
      pending := Drop(pending, at);
    }
    NothingHasNoCycle();
    Resolved(group, code, limit);
    ok := true;
  }

  /** The resolver's loop invariant. */
  ghost predicate Resolving(group: seq<Copy>, pending: seq<Copy>, code: seq<Copy>, limit: nat) {
    && (DistinctTargets(group) ==> Progress(group, pending, code, limit, limit))
    && (HasCycle(group) <==> HasCycle(pending))
    && (Ordered(group) ==> Ordered(pending) && WithoutSelf(group) == code + WithoutSelf(pending))
  }

  lemma ResolveStep(group: seq<Copy>, pending: seq<Copy>, code: seq<Copy>, limit: nat, at: nat)
    requires Resolving(group, pending, code, limit) && at < |pending| && Ready(pending, at)
    requires forall i :: 0 <= i < at ==> !Ready(pending, i)
    ensures var code' := if pending[at].dst == pending[at].src then code else code + [pending[at]];
            Resolving(group, Drop(pending, at), code', limit)
  {
    hide HasCycle, Progress, WithoutSelf, Ordered, Drop, Ready;
    if DistinctTargets(group) { ReadyStep(group, pending, code, limit, limit, at); }
    CycleKept(pending, at);
    CycleNotNew(pending, at);
    if Ordered(group) { OrderedStep(pending, code, at); }
  }

  /** In an ordered group the resolver takes the first copy. */
  lemma OrderedStep(pending: seq<Copy>, code: seq<Copy>, at: nat)
    requires Ordered(pending) && at < |pending| && forall i :: 0 <= i < at ==> !Ready(pending, i)
    ensures Ordered(Drop(pending, at))
    ensures var code' := if pending[at].dst == pending[at].src then code else code + [pending[at]];
            code' + WithoutSelf(Drop(pending, at)) == code + WithoutSelf(pending)
  {
    FirstOfOrdered(pending);
    hide Ordered, Ready, Drop;
    assert at == 0;
    assert Drop(pending, at) == pending[1..];
    StripFirst(pending, code);
    hide WithoutSelf;
  }

  lemma StripFirst(pending: seq<Copy>, code: seq<Copy>)
    requires pending != []
    ensures (if pending[0].dst == pending[0].src then code else code + [pending[0]]) + WithoutSelf(pending[1..])
            == code + WithoutSelf(pending)
  {
    var first := if pending[0].dst == pending[0].src then [] else [pending[0]];
    assert WithoutSelf(pending) == first + WithoutSelf(pending[1..]);
    Associates(code, first, WithoutSelf(pending[1..]));
    assert code + [] == code;
  }

  lemma Associates(a: seq<Copy>, b: seq<Copy>, c: seq<Copy>)
    ensures (a + b) + c == a + (b + c)
  {
  }

  lemma Resolved(group: seq<Copy>, code: seq<Copy>, limit: nat)
    requires Resolving(group, [], code, limit)
    ensures DistinctTargets(group) ==> forall f: File, r: nat {:trigger RunCopies(code, f)(r)} ::
              RunCopies(code, f)(r) == Parallel(group, f)(r)
    ensures Ordered(group) ==> code == WithoutSelf(group)
  {
    if DistinctTargets(group) {
      forall f: File, r: nat ensures RunCopies(code, f)(r) == Parallel(group, f)(r) {
        assert Parallel([], RunCopies(code, f))(r) == Parallel(group, f)(r);
      }
    }
  }

  /** A number above every register of the group. */
  ghost function Bound(copies: seq<Copy>): (b: nat)
    ensures forall i :: 0 <= i < |copies| ==> copies[i].dst < b && copies[i].src < b
  {
    if copies == [] then 0
    else
      var b := Bound(copies[1..]);
      assert forall i :: 1 <= i < |copies| ==> copies[i] == copies[1..][i - 1];
      b + copies[0].dst + copies[0].src + 1
  }

  /** When nothing is ready the pending copies block each other. */
  lemma LeftoverIsStuck(pending: seq<Copy>)
    requires pending != [] && forall i :: 0 <= i < |pending| ==> !Ready(pending, i)
    ensures HasCycle(pending)
  {
    var s := set c | c in pending;
    assert pending[0] in s;
    forall c | c in s ensures c.dst != c.src && ReadIn(s, c.dst) {
      var i :| 0 <= i < |pending| && pending[i] == c;
      assert !Ready(pending, i);
      var j :| 0 <= j < |pending| && pending[j].src == c.dst;
      assert pending[j] in s;
    }
    assert Within(s, pending);
  }

  /** A ready copy belongs to no cycle. */
  lemma CycleKept(pending: seq<Copy>, at: nat)
    requires at < |pending| && Ready(pending, at)
    ensures HasCycle(pending) ==> HasCycle(Drop(pending, at))
  {
    if HasCycle(pending) {
      var s: set<Copy> :| Stuck(s) && Within(s, pending);
      var rest := Drop(pending, at);
      forall c: Copy | c in s ensures c in rest {
        NotReadyInCycle(pending, at, s, c);
        var i :| 0 <= i < |pending| && pending[i] == c;
        assert rest[if i < at then i else i - 1] == c;
      }
      assert Within(s, rest);
    }
  }

  lemma NotReadyInCycle(pending: seq<Copy>, at: nat, s: set<Copy>, c: Copy)
    requires at < |pending| && Ready(pending, at) && Stuck(s) && Within(s, pending) && c in s
    ensures c != pending[at]
  {
    assert ReadIn(s, c.dst);
    var e: Copy :| e in s && e.src == c.dst;
    assert e in pending;
    var j :| 0 <= j < |pending| && pending[j] == e;
  }

  lemma CycleNotNew(pending: seq<Copy>, at: nat)
    requires at < |pending|
    ensures HasCycle(Drop(pending, at)) ==> HasCycle(pending)
  {
    if HasCycle(Drop(pending, at)) {
      var s: set<Copy> :| Stuck(s) && Within(s, Drop(pending, at));
      assert Within(s, pending);
    }
  }

  lemma NothingHasNoCycle()
    ensures !HasCycle([])
  {
    forall s: set<Copy> | Stuck(s) ensures !Within(s, []) {
      var c :| c in s;
      assert c !in [];
    }
  }

  /** In an ordered group the first copy is always ready. */
  lemma FirstOfOrdered(pending: seq<Copy>)
    requires pending != []
    ensures Ordered(pending) ==> Ready(pending, 0) && Ordered(pending[1..])
    ensures Ordered(pending) ==> pending[1..] == Drop(pending, 0)
  {
  }

  /** An ordered group has no cycle, so the resolver never gives up on it. */
  lemma {:induction false} OrderedHasNoCycle(group: seq<Copy>)
    requires Ordered(group)
    ensures !HasCycle(group)
  {
    NothingHasNoCycle();
    if group != [] {
      FirstOfOrdered(group);
      CycleKept(group, 0);
      OrderedHasNoCycle(group[1..]);
    }
  }

  /** Swapping two registers is a cycle: the resolver does give up, no temporary is used. */
  lemma SwapHasCycle(a: nat, b: nat)
    requires a != b
    ensures HasCycle([Copy(a, b), Copy(b, a)])
  {
    var group := [Copy(a, b), Copy(b, a)];
    var s := {group[0], group[1]};
    assert ReadIn(s, a) by { assert group[1] in s; }
    assert ReadIn(s, b) by { assert group[0] in s; }
    assert Stuck(s) && Within(s, group);
  }

  /** An ordered group needs no reordering: in its own order it is the parallel assignment. */
  lemma {:induction false} OrderedRuns(group: seq<Copy>, f: File, r: nat)
    requires Ordered(group) && DistinctTargets(group)
    ensures RunCopies(group, f)(r) == Parallel(group, f)(r)
  {
    if group != [] {
      FirstOfOrdered(group);
      TakeReady(group, 0, f, r);
      var c := group[0];
      OrderedRuns(group[1..], Put(f, c.dst, f(c.src)), r);
      if c.dst == c.src {
        SameParallel(group[1..], Put(f, c.dst, f(c.src)), f, r);
      }
    }
  }

  lemma {:induction false} SameParallel(copies: seq<Copy>, f: File, g: File, r: nat)
    requires forall x: nat :: f(x) == g(x)
    ensures Parallel(copies, f)(r) == Parallel(copies, g)(r)
  {
    if copies != [] { SameParallel(copies[1..], f, g, r); }
  }

  /** Self-copies can go. */
  lemma {:induction false} WithoutSelfRuns(copies: seq<Copy>, f: File, g: File, r: nat)
    requires forall x: nat :: f(x) == g(x)
    ensures RunCopies(WithoutSelf(copies), f)(r) == RunCopies(copies, g)(r)
    decreases |copies|
  {
    if copies != [] {
      var c, rest := copies[0], copies[1..];
      if c.dst == c.src {
        assert WithoutSelf(copies) == WithoutSelf(rest);
        WithoutSelfRuns(rest, f, Put(g, c.dst, g(c.src)), r);
      } else {
        assert WithoutSelf(copies)[1..] == WithoutSelf(rest);
        WithoutSelfRuns(rest, Put(f, c.dst, f(c.src)), Put(g, c.dst, g(c.src)), r);
      }
    }
  }

  // ----- Colors that keep a group ordered -----

  /** One side of a copy before allocation. */
  datatype Side = Physical(reg: nat) | Virtual(vreg: nat)

  datatype GroupCopy = GroupCopy(dst: Side, src: Side)

  type Forbidden = map<nat, set<nat>>

  function Forbid(forbidden: Forbidden, v: nat, colors: set<nat>): (r: Forbidden)
    ensures forall w, c :: Forbids(r, w, c) <==> Forbids(forbidden, w, c) || (w == v && c in colors)
  {
    forbidden[v := (if v in forbidden then forbidden[v] else {}) + colors]
  }

  predicate Forbids(forbidden: Forbidden, v: nat, c: nat) {
    v in forbidden && c in forbidden[v]
  }

  /** An earlier copy into c precedes a copy reading v. */
  ghost predicate ReadsAfter(group: seq<GroupCopy>, n: nat, v: nat, c: nat) {
    exists i, j :: 0 <= i < j < n <= |group| && group[i].dst == Physical(c) && group[i].src.Virtual?
                   && group[j].src == Virtual(v) && group[j].dst.Physical?
  }

  /** A copy into v precedes a later copy reading c. */
  ghost predicate ReadLater(group: seq<GroupCopy>, n: nat, v: nat, c: nat) {
    exists i, j :: 0 <= i < j < |group| && i < n && group[i].dst == Virtual(v) && group[j].src == Physical(c)
  }

  /** Argument copies: a source read later must not be colored like an earlier target. */
  method ForbidEarlierTargets(group: seq<GroupCopy>, forbidden0: Forbidden) returns (forbidden: Forbidden)
    ensures forall v, c :: Forbids(forbidden, v, c) <==> Forbids(forbidden0, v, c) || ReadsAfter(group, |group|, v, c)
  {
    forbidden := forbidden0;
    var earlier: set<nat> := {};
    for k := 0 to |group|
      invariant forall c :: c in earlier <==>
        exists i :: 0 <= i < k && group[i].dst == Physical(c) && group[i].src.Virtual?
      invariant forall v, c :: Forbids(forbidden, v, c) <==> Forbids(forbidden0, v, c) || ReadsAfter(group, k, v, c)
    {
      var copy := group[k];
      if copy.dst.Physical? && copy.src.Virtual? {
        forall v, c ensures ReadsAfter(group, k + 1, v, c) <==>
            ReadsAfter(group, k, v, c) || (v == copy.src.vreg && c in earlier)
        {
          if ReadsAfter(group, k + 1, v, c) && !ReadsAfter(group, k, v, c) {
            var i, j :| 0 <= i < j < k + 1 && group[i].dst == Physical(c) && group[i].src.Virtual?
                        && group[j].src == Virtual(v) && group[j].dst.Physical?;
            assert j == k;
          }
        }
        forbidden := Forbid(forbidden, copy.src.vreg, earlier);
        earlier := earlier + {copy.dst.reg};
      } else {
        forall v, c ensures ReadsAfter(group, k + 1, v, c) <==> ReadsAfter(group, k, v, c) {
        }
      }
    }
  }

  /** The physical registers read by the copies from i on, with multiplicity. */
  function PhysicalReads(group: seq<GroupCopy>, i: nat): multiset<nat>
    requires i <= |group|
    decreases |group| - i
  {
    if i == |group| then multiset{}
    else (if group[i].src.Physical? then multiset{group[i].src.reg} else multiset{}) + PhysicalReads(group, i + 1)
  }

  lemma {:induction false} PhysicalReadsMeaning(group: seq<GroupCopy>, i: nat, c: nat)
    requires i <= |group|
    ensures c in PhysicalReads(group, i) <==> exists j :: i <= j < |group| && group[j].src == Physical(c)
    decreases |group| - i
  {
    if i < |group| {
      PhysicalReadsMeaning(group, i + 1, c);
      assert (exists j :: i <= j < |group| && group[j].src == Physical(c)) <==>
             group[i].src == Physical(c) || exists j :: i + 1 <= j < |group| && group[j].src == Physical(c);
    }
  }

  /** One more copy reserves, for its own target, everything still to be read after it. */
  lemma ReadLaterStep(group: seq<GroupCopy>, k: nat, v: nat, c: nat)
    requires k < |group|
    ensures ReadLater(group, k + 1, v, c) <==>
            ReadLater(group, k, v, c) || (group[k].dst == Virtual(v) && c in PhysicalReads(group, k + 1))
  {
    PhysicalReadsMeaning(group, k + 1, c);
    if ReadLater(group, k + 1, v, c) {
      var i, j :| 0 <= i < j < |group| && i < k + 1 && group[i].dst == Virtual(v) && group[j].src == Physical(c);
      assert i == k || ReadLater(group, k, v, c);
    }
  }

  /** Incoming arguments: a target must not be colored like a source still to be read. */
  method ForbidLaterReads(group: seq<GroupCopy>, forbidden0: Forbidden) returns (forbidden: Forbidden)
    ensures forall v, c :: Forbids(forbidden, v, c) <==> Forbids(forbidden0, v, c) || ReadLater(group, |group|, v, c)
  {
    var remaining := CountPhysicalReads(group);
    forbidden := forbidden0;
    for k := 0 to |group|
      invariant remaining == PhysicalReads(group, k)
      invariant forall v, c :: Forbids(forbidden, v, c) <==> Forbids(forbidden0, v, c) || ReadLater(group, k, v, c)
    {
      var copy := group[k];
      if copy.src.Physical? {
        remaining := remaining - multiset{copy.src.reg};
      }
      assert remaining == PhysicalReads(group, k + 1);
      hide ReadLater, PhysicalReads;
      forall v, c ensures ReadLater(group, k + 1, v, c) <==>
          ReadLater(group, k, v, c) || (copy.dst == Virtual(v) && c in remaining)
      {
        ReadLaterStep(group, k, v, c);
      }
      if copy.dst.Virtual? {
        forbidden := Forbid(forbidden, copy.dst.vreg, set c | c in remaining);
      }
    }
  }

  method CountPhysicalReads(group: seq<GroupCopy>) returns (remaining: multiset<nat>)
    ensures remaining == PhysicalReads(group, 0)
  {
    remaining := multiset{};
    for k := |group| downto 0
      invariant remaining == PhysicalReads(group, k)
    {
      if group[k].src.Physical? { remaining := multiset{group[k].src.reg} + remaining; }
    }
  }

  function ColorOf(side: Side, colors: map<nat, nat>): nat {
    match side
    case Physical(r) => r
    case Virtual(v) => if v in colors then colors[v] else 0
  }

  function ColorGroup(group: seq<GroupCopy>, colors: map<nat, nat>): (r: seq<Copy>)
    ensures |r| == |group|
    ensures forall i :: 0 <= i < |group| ==> r[i] == Copy(ColorOf(group[i].dst, colors), ColorOf(group[i].src, colors))
  {
    seq(|group|, i requires 0 <= i < |group| => Copy(ColorOf(group[i].dst, colors), ColorOf(group[i].src, colors)))
  }

  /** Call arguments go into physical registers, incoming arguments come out of them. */
  ghost predicate OneWay(group: seq<GroupCopy>) {
    (forall i :: 0 <= i < |group| ==> group[i].dst.Physical? && group[i].src.Virtual?)
    || (forall i :: 0 <= i < |group| ==> group[i].dst.Virtual? && group[i].src.Physical?)
  }

  ghost predicate Avoids(group: seq<GroupCopy>, colors: map<nat, nat>, forbidden: Forbidden) {
    forall v :: v in colors ==> !Forbids(forbidden, v, colors[v])
  }

  /** Any coloring that avoids the forbidden colors leaves the group ordered, hence without cycles. */
  lemma ColoredGroupOrdered(group: seq<GroupCopy>, colors: map<nat, nat>, forbidden: Forbidden)
    requires OneWay(group) && Avoids(group, colors, forbidden)
    requires forall i :: 0 <= i < |group| ==>
               (group[i].src.Virtual? ==> group[i].src.vreg in colors)
               && (group[i].dst.Virtual? ==> group[i].dst.vreg in colors)
    requires forall v, c :: ReadsAfter(group, |group|, v, c) || ReadLater(group, |group|, v, c) ==>
      Forbids(forbidden, v, c)
    ensures Ordered(ColorGroup(group, colors))
  {
    var copies := ColorGroup(group, colors);
    forall i, j | 0 <= i < j < |copies| ensures copies[i].dst != copies[j].src {
      if group[i].dst.Physical? {
        assert ReadsAfter(group, |group|, group[j].src.vreg, group[i].dst.reg);
      } else {
        assert ReadLater(group, |group|, group[i].dst.vreg, group[j].src.reg);
      }
    }
  }
}
