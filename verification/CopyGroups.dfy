/**
 Copy groups over a whole block.  Spill code may put instructions between any two copies of a
 group, so a group reaches the resolver as several runs; the resolver orders each run by itself.
 */
module CopyGroups {
  import opened MachineIR
  import opened ParallelCopies

  // ----- A group in runs -----

  function Flat(runs: seq<seq<Copy>>): seq<Copy> {
    if runs == [] then [] else runs[0] + Flat(runs[1..])
  }

  /** Where run k begins in the group. */
  function Start(runs: seq<seq<Copy>>, k: nat): nat
    requires k <= |runs|
  {
    if k == 0 then 0 else |runs[0]| + Start(runs[1..], k - 1)
  }

  lemma {:induction false} FlatAt(runs: seq<seq<Copy>>, k: nat, i: nat)
    requires k < |runs| && i < |runs[k]|
    ensures Start(runs, k) + i < |Flat(runs)| && Flat(runs)[Start(runs, k) + i] == runs[k][i]
  {
    if k > 0 {
      assert runs[1..][k - 1] == runs[k];
      FlatAt(runs[1..], k - 1, i);
    }
  }

  lemma {:induction false} StartGrows(runs: seq<seq<Copy>>, k: nat, l: nat)
    requires k < l <= |runs|
    ensures Start(runs, k) + |runs[k]| <= Start(runs, l)
  {
    if k > 0 {
      assert runs[1..][k - 1] == runs[k];
      StartGrows(runs[1..], k - 1, l - 1);
    }
  }

  /** Copies of an ordered group stay ordered within a run and between runs. */
  lemma OrderedPair(runs: seq<seq<Copy>>, k: nat, i: nat, l: nat, j: nat)
    requires Ordered(Flat(runs)) && k < |runs| && l < |runs| && i < |runs[k]| && j < |runs[l]|
    requires k < l || (k == l && i < j)
    ensures runs[k][i].dst != runs[l][j].src
  {
    FlatAt(runs, k, i);
    FlatAt(runs, l, j);
    if k < l { StartGrows(runs, k, l); }
  }

  lemma DistinctPair(runs: seq<seq<Copy>>, k: nat, i: nat, l: nat, j: nat)
    requires DistinctTargets(Flat(runs)) && k < |runs| && l < |runs| && i < |runs[k]| && j < |runs[l]|
    requires k < l || (k == l && i < j)
    ensures runs[k][i].dst != runs[l][j].dst
  {
    FlatAt(runs, k, i);
    FlatAt(runs, l, j);
    if k < l { StartGrows(runs, k, l); }
  }

  /** However the group was split, the resolver never gives up on a run of an ordered group. */
  lemma RunsOrdered(runs: seq<seq<Copy>>, k: nat)
    requires Ordered(Flat(runs)) && k < |runs|
    ensures Ordered(runs[k]) && !HasCycle(runs[k])
    ensures DistinctTargets(Flat(runs)) ==> DistinctTargets(runs[k])
  {
    forall i, j | 0 <= i < j < |runs[k]| ensures runs[k][i].dst != runs[k][j].src {
      OrderedPair(runs, k, i, k, j);
    }
    OrderedHasNoCycle(runs[k]);
    if DistinctTargets(Flat(runs)) {
      forall i, j | 0 <= i < j < |runs[k]| ensures runs[k][i].dst != runs[k][j].dst {
        DistinctPair(runs, k, i, k, j);
      }
    }
  }

  lemma {:induction false} RunOther(copies: seq<Copy>, f: File, r: nat)
    requires !IsTarget(copies, r)
    ensures RunCopies(copies, f)(r) == f(r)
    decreases |copies|
  {
    if copies != [] {
      assert copies[0].dst != r;
      assert forall i :: 0 <= i < |copies| - 1 ==> copies[1..][i] == copies[i + 1];
      RunOther(copies[1..], Put(f, copies[0].dst, f(copies[0].src)), r);
    }
  }

  /** files[k] is what run k finds.  The code between run k and the next leaves r alone; it may
      change anything else, in particular reload a source that is still to be read. */
  ghost predicate Leaves(runs: seq<seq<Copy>>, files: seq<File>, k: nat, r: nat)
    requires k < |runs| < |files|
  {
    files[k + 1](r) == RunCopies(runs[k], files[k])(r)
  }

  /** A target keeps what its source held when its run began, until something else writes it. */
  lemma {:induction false} TargetHolds(runs: seq<seq<Copy>>, files: seq<File>, k: nat, i: nat, m: nat)
    requires |files| == |runs| + 1 && Ordered(Flat(runs)) && k < m <= |runs| && i < |runs[k]|
    requires DistinctTargets(runs[k])
    requires forall l: nat :: k < l < m ==> !IsTarget(runs[l], runs[k][i].dst)
    requires forall l: nat :: k <= l < m ==> Leaves(runs, files, l, runs[k][i].dst)
    ensures files[m](runs[k][i].dst) == files[k](runs[k][i].src)
    decreases m
  {
    var r := runs[k][i].dst;
    assert Leaves(runs, files, m - 1, r);
    if m == k + 1 {
      RunsOrdered(runs, k);
      OrderedRuns(runs[k], files[k], r);
      ParallelTarget(runs[k], files[k], i);
    } else {
      TargetHolds(runs, files, k, i, m - 1);
      RunOther(runs[m - 1], files[m - 1], r);
    }
  }

  /** A source that no interruption touches still has its value from the beginning of the group. */
  lemma {:induction false} SourceHolds(runs: seq<seq<Copy>>, files: seq<File>, m: nat, j: nat, k: nat)
    requires |files| == |runs| + 1 && Ordered(Flat(runs)) && k <= m < |runs| && j < |runs[m]|
    requires forall l: nat :: l < k ==> Leaves(runs, files, l, runs[m][j].src)
    ensures files[k](runs[m][j].src) == files[0](runs[m][j].src)
    decreases k
  {
    if k > 0 {
      var s, run := runs[m][j].src, runs[k - 1];
      assert Leaves(runs, files, k - 1, s);
      SourceHolds(runs, files, m, j, k - 1);
      forall i | 0 <= i < |run| ensures run[i].dst != s {
        OrderedPair(runs, k - 1, i, m, j);
      }
      RunOther(runs[k - 1], files[k - 1], s);
    }
  }

  ghost predicate LeftFrom(runs: seq<seq<Copy>>, files: seq<File>, k: nat, r: nat)
    requires |files| == |runs| + 1
  {
    forall l: nat :: k <= l < |runs| ==> Leaves(runs, files, l, r)
  }

  /** The code in between keeps the targets already written. */
  ghost predicate KeepsTargets(runs: seq<seq<Copy>>, files: seq<File>) {
    |files| == |runs| + 1
    && forall k: nat, i: nat :: k < |runs| && i < |runs[k]| ==> LeftFrom(runs, files, k, runs[k][i].dst)
  }

  /** Spill code between the runs of a group does no harm as long as it keeps the targets already
      written: in the end every target holds what its source held when its run began. */
  lemma SplitRuns(runs: seq<seq<Copy>>, files: seq<File>)
    requires Ordered(Flat(runs)) && DistinctTargets(Flat(runs)) && KeepsTargets(runs, files)
    ensures forall k: nat, i: nat :: k < |runs| && i < |runs[k]| ==>
              files[|runs|](runs[k][i].dst) == files[k](runs[k][i].src)
    ensures forall k: nat :: k < |runs| ==> Ordered(runs[k]) && !HasCycle(runs[k])
  {
    forall k: nat | k < |runs| ensures Ordered(runs[k]) && !HasCycle(runs[k]) && DistinctTargets(runs[k]) {
      RunsOrdered(runs, k);
    }
    forall k: nat, i: nat | k < |runs| && i < |runs[k]|
      ensures files[|runs|](runs[k][i].dst) == files[k](runs[k][i].src)
    {
      assert LeftFrom(runs, files, k, runs[k][i].dst);
      forall l: nat | k < l < |runs| ensures !IsTarget(runs[l], runs[k][i].dst) {
        forall j | 0 <= j < |runs[l]| ensures runs[l][j].dst != runs[k][i].dst {
          DistinctPair(runs, k, i, l, j);
        }
      }
      TargetHolds(runs, files, k, i, |runs|);
    }
  }

  /** With every source either left alone or reloaded with the value it stands for, the split group
      is the parallel assignment of those values, as the group in one piece would be. */
  lemma SplitIsParallel(runs: seq<seq<Copy>>, files: seq<File>, f: File)
    requires Ordered(Flat(runs)) && DistinctTargets(Flat(runs)) && KeepsTargets(runs, files)
    requires forall k: nat, i: nat :: k < |runs| && i < |runs[k]| ==>
               || (files[0](runs[k][i].src) == f(runs[k][i].src)
                   && forall l: nat :: l < k ==> Leaves(runs, files, l, runs[k][i].src))
               || files[k](runs[k][i].src) == f(runs[k][i].src)
    ensures forall k: nat, i: nat :: k < |runs| && i < |runs[k]| ==>
              files[|runs|](runs[k][i].dst) == Parallel(Flat(runs), f)(runs[k][i].dst)
  {
    SplitRuns(runs, files);
    forall k: nat, i: nat | k < |runs| && i < |runs[k]|
      ensures files[|runs|](runs[k][i].dst) == Parallel(Flat(runs), f)(runs[k][i].dst)
    {
      FlatAt(runs, k, i);
      ParallelTarget(Flat(runs), f, Start(runs, k) + i);
      if files[k](runs[k][i].src) != f(runs[k][i].src) {
        SourceHolds(runs, files, k, i, k);
      }
    }
  }

  /** The code in between writes no register but sources of copies still to come: reloads. */
  ghost predicate OnlyReloads(runs: seq<seq<Copy>>, files: seq<File>) {
    |files| == |runs| + 1
    && forall k: nat, r: nat :: k < |runs| && !Leaves(runs, files, k, r) ==> ReadLaterThan(runs, k, r)
  }

  ghost predicate ReadLaterThan(runs: seq<seq<Copy>>, k: nat, r: nat) {
    exists l: nat, j: nat :: k < l < |runs| && j < |runs[l]| && runs[l][j].src == r
  }

  /** In an ordered group a reload cannot overwrite a target: no target is read later. */
  lemma ReloadsKeepTargets(runs: seq<seq<Copy>>, files: seq<File>)
    requires Ordered(Flat(runs)) && OnlyReloads(runs, files)
    ensures KeepsTargets(runs, files)
  {
    forall k: nat, i: nat, l: nat | k < |runs| && i < |runs[k]| && k <= l < |runs|
      ensures Leaves(runs, files, l, runs[k][i].dst)
    {
      var r := runs[k][i].dst;
      if ReadLaterThan(runs, l, r) {
        var m: nat, j: nat :| l < m < |runs| && j < |runs[m]| && runs[m][j].src == r;
        OrderedPair(runs, k, i, m, j);
      }
    }
    forall k: nat, i: nat | k < |runs| && i < |runs[k]| ensures LeftFrom(runs, files, k, runs[k][i].dst) {
    }
  }

  /** So a colored group survives its reloads: if each brings the value the source stands for, the
      interrupted group is the parallel assignment. */
  lemma ReloadedIsParallel(runs: seq<seq<Copy>>, files: seq<File>, f: File)
    requires Ordered(Flat(runs)) && DistinctTargets(Flat(runs)) && OnlyReloads(runs, files)
    requires forall k: nat, i: nat :: k < |runs| && i < |runs[k]| ==>
               || (files[0](runs[k][i].src) == f(runs[k][i].src)
                   && forall l: nat :: l < k ==> Leaves(runs, files, l, runs[k][i].src))
               || files[k](runs[k][i].src) == f(runs[k][i].src)
    ensures forall k: nat, i: nat :: k < |runs| && i < |runs[k]| ==>
              files[|runs|](runs[k][i].dst) == Parallel(Flat(runs), f)(runs[k][i].dst)
    ensures forall k: nat :: k < |runs| ==> Ordered(runs[k]) && !HasCycle(runs[k])
  {
    ReloadsKeepTargets(runs, files);
    SplitRuns(runs, files);
    SplitIsParallel(runs, files, f);
  }

  // ----- The resolver over a block -----

  /** An instruction of a block after allocation: a copy of a group, or anything else. */
  datatype Item = Grouped(group: nat, copy: Copy) | Other(id: nat)

  datatype Resolved = Move(copy: Copy) | Kept(id: nat)

  /** The copies of one group, in order, whatever lies between them. */
  function GroupOf(items: seq<Item>, g: nat): seq<Copy> {
    if items == [] then []
    else (if items[0].Grouped? && items[0].group == g then [items[0].copy] else []) + GroupOf(items[1..], g)
  }

  /** The block with groups dissolved and self-copies gone. */
  function Dissolved(items: seq<Item>): seq<Resolved> {
    if items == [] then []
    else
      (match items[0]
       case Grouped(_, c) => if c.dst == c.src then [] else [Move(c)]
       case Other(id) => [Kept(id)]) + Dissolved(items[1..])
  }

  function Moves(copies: seq<Copy>): (r: seq<Resolved>)
    ensures |r| == |copies| && forall i :: 0 <= i < |copies| ==> r[i] == Move(copies[i])
  {
    seq(|copies|, i requires 0 <= i < |copies| => Move(copies[i]))
  }

  function AsRun(g: nat, copies: seq<Copy>): (r: seq<Item>)
    ensures |r| == |copies| && forall i :: 0 <= i < |copies| ==> r[i] == Grouped(g, copies[i])
  {
    seq(|copies|, i requires 0 <= i < |copies| => Grouped(g, copies[i]))
  }

  lemma {:induction false} GroupAppend(a: seq<Item>, b: seq<Item>, g: nat)
    ensures GroupOf(a + b, g) == GroupOf(a, g) + GroupOf(b, g)
  {
    if a == [] {
      assert a + b == b;
    } else {
      assert (a + b)[1..] == a[1..] + b;
      GroupAppend(a[1..], b, g);
    }
  }

  lemma {:induction false} GroupOfRun(g: nat, copies: seq<Copy>)
    ensures GroupOf(AsRun(g, copies), g) == copies
    decreases |copies|
  {
    if copies != [] {
      assert AsRun(g, copies)[1..] == AsRun(g, copies[1..]);
      GroupOfRun(g, copies[1..]);
    }
  }

  lemma {:induction false} DissolvedAppend(a: seq<Item>, b: seq<Item>)
    ensures Dissolved(a + b) == Dissolved(a) + Dissolved(b)
  {
    if a == [] {
      assert a + b == b;
    } else {
      assert (a + b)[1..] == a[1..] + b;
      DissolvedAppend(a[1..], b);
    }
  }

  lemma {:induction false} DissolvedRun(g: nat, copies: seq<Copy>)
    ensures Dissolved(AsRun(g, copies)) == Moves(WithoutSelf(copies))
    decreases |copies|
  {
    if copies != [] {
      assert AsRun(g, copies)[1..] == AsRun(g, copies[1..]);
      DissolvedRun(g, copies[1..]);
      var first := if copies[0].dst == copies[0].src then [] else [copies[0]];
      assert Moves(first + WithoutSelf(copies[1..])) == Moves(first) + Moves(WithoutSelf(copies[1..]));
    }
  }

  /** Every group of the block is ordered. */
  ghost predicate GroupsOrdered(items: seq<Item>) {
    forall g: nat :: Ordered(GroupOf(items, g))
  }

  /** A stretch of a block has ordered groups too, and a run in it is ordered. */
  lemma StretchOrdered(before: seq<Item>, g: nat, run: seq<Copy>, after: seq<Item>)
    requires GroupsOrdered(before + AsRun(g, run) + after)
    ensures Ordered(run)
  {
    var all := before + AsRun(g, run) + after;
    GroupAppend(before + AsRun(g, run), after, g);
    GroupAppend(before, AsRun(g, run), g);
    GroupOfRun(g, run);
    var prefix, group := GroupOf(before, g), GroupOf(all, g);
    assert Ordered(group);
    forall i, j | 0 <= i < j < |run| ensures run[i].dst != run[j].src {
      assert group[|prefix| + i] == run[i] && group[|prefix| + j] == run[j];
    }
  }

  /** The loop that collects one run. */
  method CollectRun(items: seq<Item>, at: nat) returns (run: seq<Copy>, next: nat)
    requires at < |items| && items[at].Grouped?
    ensures at < next <= |items| && |run| == next - at && items[at..next] == AsRun(items[at].group, run)
    ensures next < |items| ==> !(items[next].Grouped? && items[next].group == items[at].group)
  {
    var group := items[at].group;
    run, next := [], at;
    while next < |items| && items[next].Grouped? && items[next].group == group
      invariant at <= next <= |items| && |run| == next - at && items[at..next] == AsRun(group, run)
      invariant next == at ==> next < |items|
    {
      run := run + [items[next].copy];
      assert items[at..next + 1] == items[at..next] + [items[next]];
      next := next + 1;
    }
  }

  /** The resolver over a block: when the groups are ordered, however they are interrupted, it
      never gives up and only drops the self-copies. */
  method ResolveBlock(items: seq<Item>) returns (ok: bool, code: seq<Resolved>)
    ensures GroupsOrdered(items) ==> ok && code == Dissolved(items)
    ensures !ok ==> exists at, next, group, run ::
              0 <= at < next <= |items| && items[at..next] == AsRun(group, run)
                && (DistinctTargets(run) ==> HasCycle(run))
  {
    hide Dissolved, GroupOf, Ordered, WithoutSelf;
    code := [];
    var at: nat := 0;
    assert Dissolved(items[..0]) == [] by { NothingDissolved(); }
    while at < |items|
      invariant at <= |items|
      invariant GroupsOrdered(items) ==> code == Dissolved(items[..at])
      decreases |items| - at
    {
      if items[at].Other? {
        OneKept(items, at);
        code := code + [Kept(items[at].id)];
        at := at + 1;
      } else {
        var group := items[at].group;
        var run, next := CollectRun(items, at);
        var resolved, moves := Resolve(run);
        if !resolved {
          if GroupsOrdered(items) { RunInBlock(items, at, next, group, run); }
          return false, code;
        }
        if GroupsOrdered(items) { RunInBlock(items, at, next, group, run); }
        code := code + Moves(moves);
        at := next;
      }
    }
    assert items[..at] == items;
    ok := true;
  }

  lemma NothingDissolved()
    ensures Dissolved([]) == []
  {
  }

  lemma OneKept(items: seq<Item>, at: nat)
    requires at < |items| && items[at].Other?
    ensures Dissolved(items[..at + 1]) == Dissolved(items[..at]) + [Kept(items[at].id)]
  {
    assert items[..at + 1] == items[..at] + [items[at]];
    DissolvedAppend(items[..at], [items[at]]);
    assert [items[at]][1..] == [];
    assert Dissolved([items[at]]) == [Kept(items[at].id)] + Dissolved([]);
  }

  lemma RunInBlock(items: seq<Item>, at: nat, next: nat, group: nat, run: seq<Copy>)
    requires GroupsOrdered(items) && at < next <= |items| && items[at..next] == AsRun(group, run)
    ensures Ordered(run) && Dissolved(items[..next]) == Dissolved(items[..at]) + Moves(WithoutSelf(run))
  {
    assert items == items[..at] + AsRun(group, run) + items[next..];
    StretchOrdered(items[..at], group, run, items[next..]);
    assert items[..next] == items[..at] + AsRun(group, run);
    DissolvedAppend(items[..at], AsRun(group, run));
    DissolvedRun(group, run);
  }

  // ----- Forbidden colors of all groups -----

  /** What the groups forbid: colors already written for sources, colors still read for targets. */
  ghost predicate GroupForbids(group: seq<GroupCopy>, v: nat, c: nat) {
    ReadsAfter(group, |group|, v, c) || ReadLater(group, |group|, v, c)
  }

  /** Both loops over every group of the function. */
  method ForbidGroups(groups: seq<seq<GroupCopy>>, forbidden0: Forbidden) returns (forbidden: Forbidden)
    ensures forall v, c :: Forbids(forbidden, v, c) <==>
              Forbids(forbidden0, v, c) || exists k :: 0 <= k < |groups| && GroupForbids(groups[k], v, c)
  {
    hide ReadsAfter, ReadLater;
    forbidden := forbidden0;
    for k := 0 to |groups|
      invariant forall v, c :: Forbids(forbidden, v, c) <==>
                  Forbids(forbidden0, v, c) || exists l :: 0 <= l < k && GroupForbids(groups[l], v, c)
    {
      var earlier := ForbidEarlierTargets(groups[k], forbidden);
      var later := ForbidLaterReads(groups[k], earlier);
      forall v, c ensures Forbids(later, v, c) <==> Forbids(forbidden, v, c) || GroupForbids(groups[k], v, c) {
      }
      forbidden := later;
    }
  }

  ghost predicate GroupColored(group: seq<GroupCopy>, colors: map<nat, nat>) {
    forall i :: 0 <= i < |group| ==>
      (group[i].src.Virtual? ==> group[i].src.vreg in colors) && (group[i].dst.Virtual? ==> group[i].dst.vreg in colors)
  }

  /** Any coloring that avoids what the groups forbid leaves all of them ordered. */
  lemma ColoredGroupsOrdered(groups: seq<seq<GroupCopy>>, forbidden0: Forbidden, forbidden: Forbidden,
                             colors: map<nat, nat>, k: nat)
    requires k < |groups| && OneWay(groups[k]) && GroupColored(groups[k], colors)
      && Avoids(groups[k], colors, forbidden)
    requires forall v, c :: Forbids(forbidden, v, c) <==>
               Forbids(forbidden0, v, c) || exists l :: 0 <= l < |groups| && GroupForbids(groups[l], v, c)
    ensures Ordered(ColorGroup(groups[k], colors)) && !HasCycle(ColorGroup(groups[k], colors))
  {
    forall v, c | ReadsAfter(groups[k], |groups[k]|, v, c) || ReadLater(groups[k], |groups[k]|, v, c)
      ensures Forbids(forbidden, v, c)
    {
      assert GroupForbids(groups[k], v, c);
    }
    ColoredGroupOrdered(groups[k], colors, forbidden);
    OrderedHasNoCycle(ColorGroup(groups[k], colors));
  }
}
