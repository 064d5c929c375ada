/** Live ranges as sorted lists of half-open slot ranges: merging, membership and overlap. */
module LiveSegments {

  datatype Range = Range(begin: int, end: int) {
    predicate Contains(slot: int) {
      begin <= slot < end
    }

    predicate Overlaps(other: Range) {
      begin < other.end && other.begin < end
    }
  }

  predicate Proper(s: seq<Range>) {
    forall i :: 0 <= i < |s| ==> s[i].begin < s[i].end
  }

  predicate Less(a: Range, b: Range) {
    a.begin < b.begin || (a.begin == b.begin && a.end < b.end)
  }

  predicate Sorted(s: seq<Range>) {
    forall i, j :: 0 <= i < j < |s| ==> !Less(s[j], s[i])
  }

  /** Neither overlapping nor touching, in order. */
  predicate Separated(s: seq<Range>) {
    Proper(s) && forall i, j :: 0 <= i < j < |s| ==> s[i].end < s[j].begin
  }

  ghost predicate Covers(s: seq<Range>, slot: int) {
    exists i :: 0 <= i < |s| && s[i].Contains(slot)
  }

  lemma CoversAppend(s: seq<Range>, t: seq<Range>, slot: int)
    ensures Covers(s + t, slot) <==> Covers(s, slot) || Covers(t, slot)
  {
    if Covers(s, slot) {
      var i :| 0 <= i < |s| && s[i].Contains(slot);
      assert (s + t)[i].Contains(slot);
    }
    if Covers(t, slot) {
      var i :| 0 <= i < |t| && t[i].Contains(slot);
      assert (s + t)[|s| + i].Contains(slot);
    }
  }

  lemma CoversOne(r: Range, slot: int)
    ensures Covers([r], slot) <==> r.Contains(slot)
  {
    assert [r][0] == r;
  }

  function Inserted(sorted: seq<Range>, at: nat, next: Range): (r: seq<Range>)
    requires at <= |sorted|
    ensures |r| == |sorted| + 1
    ensures forall i :: 0 <= i < |r| ==> r[i] == if i < at then sorted[i] else if i == at then next else sorted[i - 1]
  {
    sorted[..at] + [next] + sorted[at..]
  }

  lemma InsertedElements(sorted: seq<Range>, at: nat, next: Range)
    requires at <= |sorted|
    ensures multiset(Inserted(sorted, at, next)) == multiset(sorted) + multiset{next}
  {
    assert sorted == sorted[..at] + sorted[at..];
  }

  lemma InsertedSorted(sorted: seq<Range>, at: nat, next: Range)
    requires Sorted(sorted) && at <= |sorted|
    requires at > 0 ==> !Less(next, sorted[at - 1])
    requires forall i :: at <= i < |sorted| ==> Less(next, sorted[i])
    ensures Sorted(Inserted(sorted, at, next))
  {
    var after := Inserted(sorted, at, next);
    forall i, j | 0 <= i < j < |after| ensures !Less(after[j], after[i]) {
      if j == at {
        assert !Less(next, sorted[at - 1]);
        if i < at - 1 { assert !Less(sorted[at - 1], sorted[i]); }
      } else if i == at {
        assert Less(next, sorted[j - 1]);
      } else {
        var x, y := if i < at then i else i - 1, if j < at then j else j - 1;
        assert after[i] == sorted[x] && after[j] == sorted[y];
      }
    }
  }

  /** The library sort, by begin and then by end. */
  method Sort(segments: seq<Range>) returns (sorted: seq<Range>)
    ensures Sorted(sorted) && multiset(sorted) == multiset(segments)
  {
    hide Sorted, Inserted;
    sorted := [];
    assert Sorted(sorted) by { EmptySorted(); }
    for n := 0 to |segments|
      invariant Sorted(sorted) && multiset(sorted) == multiset(segments[..n])
    {
      var at := |sorted|;
      while at > 0 && Less(segments[n], sorted[at - 1])
        invariant 0 <= at <= |sorted|
        invariant forall i :: at <= i < |sorted| ==> Less(segments[n], sorted[i])
      {
        at := at - 1;
      }
      assert segments[..n + 1] == segments[..n] + [segments[n]];
      InsertedSorted(sorted, at, segments[n]);
      InsertedElements(sorted, at, segments[n]);
      sorted := Inserted(sorted, at, segments[n]);
    }
    assert segments[..|segments|] == segments;
  }

  lemma EmptySorted()
    ensures Sorted([])
  {
  }

  lemma SameElements(s: seq<Range>, t: seq<Range>, slot: int)
    requires multiset(s) == multiset(t)
    ensures Covers(s, slot) ==> Covers(t, slot)
    ensures Proper(s) ==> Proper(t)
  {
    if Covers(s, slot) {
      var i :| 0 <= i < |s| && s[i].Contains(slot);
      assert s[i] in multiset(t);
    }
    if Proper(s) {
      forall i | 0 <= i < |t| ensures t[i].begin < t[i].end {
        assert t[i] in multiset(s);
      }
    }
  }

  /** The last merged range takes the next one in, or the next one starts anew. */
  function Extended(merged: seq<Range>, next: Range): seq<Range> {
    if merged == [] || merged[|merged| - 1].end < next.begin then merged + [next]
    else
      var last := merged[|merged| - 1];
      merged[..|merged| - 1] + [last.(end := if last.end < next.end then next.end else last.end)]
  }

  lemma ExtendedCovers(merged: seq<Range>, next: Range, slot: int)
    requires Proper(merged) && next.begin < next.end
    requires forall i :: 0 <= i < |merged| ==> merged[i].begin <= next.begin
    ensures Covers(Extended(merged, next), slot) <==> Covers(merged, slot) || next.Contains(slot)
  {
    CoversAppend(merged, [next], slot);
    CoversOne(next, slot);
    if merged != [] && merged[|merged| - 1].end >= next.begin {
      var front, last := merged[..|merged| - 1], merged[|merged| - 1];
      assert merged == front + [last];
      CoversAppend(front, [last], slot);
      CoversOne(last, slot);
      var grown := last.(end := if last.end < next.end then next.end else last.end);
      CoversAppend(front, [grown], slot);
      CoversOne(grown, slot);
    }
  }

  lemma ExtendedSeparated(merged: seq<Range>, next: Range)
    requires Separated(merged) && next.begin < next.end
    requires forall i :: 0 <= i < |merged| ==> merged[i].begin <= next.begin
    ensures Separated(Extended(merged, next))
    ensures forall r: Range :: next.begin <= r.begin ==>
              forall i :: 0 <= i < |Extended(merged, next)| ==> Extended(merged, next)[i].begin <= r.begin
  {
  }

  /** Merging keeps exactly the slots covered and leaves no two ranges that overlap or touch. */
  method MergeSegments(segments: seq<Range>) returns (merged: seq<Range>)
    requires Proper(segments)
    ensures Separated(merged)
    ensures forall slot :: Covers(merged, slot) <==> Covers(segments, slot)
  {
    hide Extended;
    var sorted := Sort(segments);
    SameElements(segments, sorted, 0);
    merged := [];
    for n := 0 to |sorted|
      invariant Separated(merged)
      invariant forall i, k :: 0 <= i < |merged| && n <= k < |sorted| ==> merged[i].begin <= sorted[k].begin
      invariant forall slot :: Covers(merged, slot) <==> Covers(sorted[..n], slot)
    {
      var next := sorted[n];
      ExtendedSeparated(merged, next);
      forall slot ensures Covers(Extended(merged, next), slot) <==> Covers(sorted[..n + 1], slot) {
        ExtendedCovers(merged, next, slot);
        assert sorted[..n + 1] == sorted[..n] + [next];
        CoversAppend(sorted[..n], [next], slot);
        CoversOne(next, slot);
      }
      forall k | n + 1 <= k < |sorted| ensures next.begin <= sorted[k].begin {
        assert !Less(sorted[k], sorted[n]);
      }
      merged := Extended(merged, next);
    }
    assert sorted[..|sorted|] == sorted;
    forall slot ensures Covers(merged, slot) <==> Covers(segments, slot) {
      SameElements(segments, sorted, slot);
      SameElements(sorted, segments, slot);
    }
  }

  /** The walk over both lists finds an overlap exactly when some slot is covered by both. */
  method Overlaps(a: seq<Range>, b: seq<Range>) returns (overlap: bool)
    requires Separated(a) && Separated(b)
    ensures overlap <==> exists slot :: Covers(a, slot) && Covers(b, slot)
  {
    var lhs, rhs := 0, 0;
    while lhs < |a| && rhs < |b|
      invariant 0 <= lhs <= |a| && 0 <= rhs <= |b|
      invariant forall i, j :: 0 <= i < |a| && 0 <= j < |b| && (i < lhs || j < rhs) ==> !a[i].Overlaps(b[j])
      decreases |a| - lhs + |b| - rhs
    {
      if a[lhs].Overlaps(b[rhs]) {
        var slot := if a[lhs].begin < b[rhs].begin then b[rhs].begin else a[lhs].begin;
        assert a[lhs].Contains(slot) && b[rhs].Contains(slot);
        assert Covers(a, slot) && Covers(b, slot);
        return true;
      }
      if a[lhs].end <= b[rhs].begin {
        forall j | 0 <= j < |b| ensures !a[lhs].Overlaps(b[j]) { }
        lhs := lhs + 1;
      } else {
        forall i | 0 <= i < |a| ensures !a[i].Overlaps(b[rhs]) { }
        rhs := rhs + 1;
      }
    }
    forall slot ensures Covers(a, slot) ==> !Covers(b, slot) {
      if Covers(a, slot) {
        var i :| 0 <= i < |a| && a[i].Contains(slot);
        forall j | 0 <= j < |b| ensures !b[j].Contains(slot) {
          assert !a[i].Overlaps(b[j]);
        }
      }
    }
    return false;
  }

  /** The last range that starts at or before the slot decides. */
  method LiveAt(segments: seq<Range>, slot: int) returns (live: bool)
    requires Separated(segments)
    ensures live <==> Covers(segments, slot)
  {
    var low, high := 0, |segments|;
    while low < high
      invariant 0 <= low <= high <= |segments|
      invariant forall i :: 0 <= i < low ==> segments[i].begin <= slot
      invariant forall i :: high <= i < |segments| ==> slot < segments[i].begin
    {
      var middle := low + (high - low) / 2;
      if slot < segments[middle].begin {
        high := middle;
      } else {
        low := middle + 1;
      }
    }
    live := low != 0 && segments[low - 1].Contains(slot);
    if Covers(segments, slot) {
      var i :| 0 <= i < |segments| && segments[i].Contains(slot);
      assert i < low;
      assert i == low - 1;
    }
  }
}
