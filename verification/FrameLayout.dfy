/** The stack frame: where save slots, spill slots and local objects go. */
module FrameLayout {
  import opened Words

  const STACK_ALIGNMENT: nat := 16

  datatype StackObject = StackObject(size: nat, alignment: nat, offset: int, spill: bool, fixed: bool)

  function AlignTo(value: nat, alignment: nat): (r: nat)
    requires alignment > 0
    ensures value <= r < value + alignment && r % alignment == 0
  {
    AlignedUp(value, alignment);
    (value + alignment - 1) / alignment * alignment
  }

  lemma AlignedUp(value: nat, alignment: nat)
    requires alignment > 0
    ensures var r := (value + alignment - 1) / alignment * alignment;
      value <= r < value + alignment && r % alignment == 0
  {
    var q := (value + alignment - 1) / alignment;
    assert value + alignment - 1 == q * alignment + (value + alignment - 1) % alignment;
    RemainderIs(q * alignment, alignment, q, 0);
  }

  /** The save slots of the first n registers: packed above the outgoing arguments. */
  ghost predicate Saved(saved: seq<nat>, offsets: map<nat, int>, n: nat, low: nat, high: nat)
    requires n <= |saved|
  {
    && (forall i :: 0 <= i < n ==> saved[i] in offsets)
    && (forall i :: 0 <= i < n ==>
        low <= offsets[saved[i]] && offsets[saved[i]] + 8 <= high && offsets[saved[i]] % 8 == 0)
    && (forall i, j :: 0 <= i < j < n ==> offsets[saved[i]] + 8 <= offsets[saved[j]])
  }

  /** Spill slots are placed before the other objects, each kind in index order. */
  predicate Placed(o: StackObject, index: nat, pass: nat, next: nat) {
    !o.fixed && (if o.spill then pass > 0 || next > index else pass > 1 || (pass == 1 && next > index))
  }

  ghost predicate Apart(a: StackObject, b: StackObject) {
    a.offset + a.size <= b.offset || b.offset + b.size <= a.offset
  }

  /** The objects placed so far are aligned, inside [low, high) and do not overlap. */
  ghost predicate Laid(objects: seq<StackObject>, pass: nat, next: nat, low: nat, high: nat) {
    && (forall i :: 0 <= i < |objects| && Placed(objects[i], i, pass, next) ==>
          low <= objects[i].offset && objects[i].offset + objects[i].size <= high
          && objects[i].alignment > 0 && objects[i].offset % objects[i].alignment == 0)
    && (forall i, j :: 0 <= i < j < |objects| ==>
          Placed(objects[i], i, pass, next) && Placed(objects[j], j, pass, next) ==> Apart(objects[i], objects[j]))
  }

  /** Only offsets of objects that are not fixed may have changed. */
  ghost predicate SameObjects(a: seq<StackObject>, b: seq<StackObject>) {
    && |a| == |b|
    && forall i :: 0 <= i < |a| ==>
         b[i].size == a[i].size && b[i].alignment == a[i].alignment && b[i].spill == a[i].spill
         && b[i].fixed == a[i].fixed && (a[i].fixed ==> b[i] == a[i])
  }

  /** The spill slots, or the other objects, that are placed by the layout. */
  predicate Kind(o: StackObject, spills: bool) {
    !o.fixed && o.spill == spills
  }

  /** The most that the first n objects of a kind can take, padding included. */
  function Room(objects: seq<StackObject>, spills: bool, n: nat): nat
    requires n <= |objects|
  {
    if n == 0 then 0
    else
      Room(objects, spills, n - 1)
      + if Kind(objects[n - 1], spills) then objects[n - 1].size + objects[n - 1].alignment else 0
  }

  lemma {:induction false} SameRoom(a: seq<StackObject>, b: seq<StackObject>, spills: bool, n: nat)
    requires SameObjects(a, b) && n <= |a|
    ensures Room(a, spills, n) == Room(b, spills, n)
  {
    if n > 0 { SameRoom(a, b, spills, n - 1); }
  }

  /** Objects of one kind lie between low and high. */
  ghost predicate KindWithin(objects: seq<StackObject>, spills: bool, n: nat, low: int, high: int) {
    forall i :: 0 <= i < n <= |objects| && Kind(objects[i], spills) ==>
      low <= objects[i].offset && objects[i].offset + objects[i].size <= high
  }

  /** Spill slots lie below all other objects of the frame. */
  ghost predicate SpillsLow(objects: seq<StackObject>) {
    forall i, j :: 0 <= i < |objects| && 0 <= j < |objects| && Kind(objects[i], true) && Kind(objects[j], false) ==>
      objects[i].offset + objects[i].size <= objects[j].offset
  }

  /** The first n objects of one kind placed from start on, everything else as before. */
  ghost predicate PassState(before: seq<StackObject>, objects: seq<StackObject>, pass: nat, n: nat, start: int,
                            cursor: int)
    requires n <= |before|
  {
    && SameObjects(before, objects) && KindWithin(objects, pass == 0, n, start, cursor) && start <= cursor
    && (forall j :: 0 <= j < |objects| && !Kind(objects[j], pass == 0) ==> objects[j] == before[j])
    && cursor <= start + Room(before, pass == 0, n)
  }

  lemma PassStep(before: seq<StackObject>, objects: seq<StackObject>, pass: nat, i: nat, start: nat, cursor: nat)
    requires i < |before| == |objects| && PassState(before, objects, pass, i, start, cursor)
    ensures var o := objects[i];
      if Kind(o, pass == 0) then
        forall at: nat :: cursor <= at < cursor + o.alignment ==>
          PassState(before, objects[i := o.(offset := at)], pass, i + 1, start, at + o.size)
      else PassState(before, objects, pass, i + 1, start, cursor)
  {
    var o := objects[i];
    assert Kind(o, pass == 0) == Kind(before[i], pass == 0);
    if Kind(o, pass == 0) {
      forall at: nat | cursor <= at < cursor + o.alignment
        ensures PassState(before, objects[i := o.(offset := at)], pass, i + 1, start, at + o.size)
      {
      }
    }
  }

  lemma StateMeans(before: seq<StackObject>, objects: seq<StackObject>, pass: nat, start: int, cursor: int)
    requires PassState(before, objects, pass, |before|, start, cursor)
    ensures SameObjects(before, objects) && |objects| == |before|
    ensures KindWithin(objects, pass == 0, |before|, start, cursor)
    ensures forall j :: 0 <= j < |objects| && !Kind(objects[j], pass == 0) ==> objects[j] == before[j]
    ensures cursor <= start + Room(before, pass == 0, |before|)
  {
  }

  class Frame {
    var maxCallFrameSize: nat
    var stackSize: nat
    var savedRegisters: seq<nat>
    var savedRegisterOffsets: map<nat, int>
    var objects: seq<StackObject>

    constructor (maxCallFrameSize: nat, savedRegisters: seq<nat>, objects: seq<StackObject>)
      ensures this.maxCallFrameSize == maxCallFrameSize && this.savedRegisters == savedRegisters
      ensures this.objects == objects && stackSize == 0 && savedRegisterOffsets == map[]
    {
      this.maxCallFrameSize, this.savedRegisters, this.objects := maxCallFrameSize, savedRegisters, objects;
      stackSize, savedRegisterOffsets := 0, map[];
    }

    /** Outgoing arguments at the bottom, then save slots, spill slots and other objects: all
        apart, aligned, and inside a frame of a multiple of 16 bytes. */
    method LayoutFrame()
      requires forall i, j :: 0 <= i < j < |savedRegisters| ==> savedRegisters[i] != savedRegisters[j]
      requires forall i :: 0 <= i < |objects| ==> objects[i].alignment > 0
      modifies this
      ensures maxCallFrameSize == old(maxCallFrameSize) && savedRegisters == old(savedRegisters)
      ensures SameObjects(old(objects), objects) && stackSize % STACK_ALIGNMENT == 0
      ensures exists top: nat :: maxCallFrameSize <= top <= stackSize
                && Saved(savedRegisters, savedRegisterOffsets, |savedRegisters|, maxCallFrameSize, top)
                && Laid(objects, 2, 0, top, stackSize)
      ensures SpillsLow(objects)
      ensures stackSize < maxCallFrameSize + 8 + 8 * |savedRegisters| + Room(objects, true, |objects|)
                          + Room(objects, false, |objects|) + STACK_ALIGNMENT
    {
      hide Saved, Laid, SameObjects, SpillsLow, Room;
      var top := PlaceSaved();
      ghost var before := objects;
      var cursor := PlaceObjects(top);
      stackSize := AlignTo(cursor, STACK_ALIGNMENT);
      LaidWithin(objects, top, cursor, stackSize);
      assert |before| == |objects| by { SameLength(before, objects); }
      SameRoom(before, objects, true, |objects|);
      SameRoom(before, objects, false, |objects|);
    }

    /** First the spill slots, then the rest. */
    method PlaceObjects(top: nat) returns (cursor: nat)
      requires forall i :: 0 <= i < |objects| ==> objects[i].alignment > 0
      modifies this`objects
      ensures SameObjects(old(objects), objects) && top <= cursor && Laid(objects, 2, 0, top, cursor)
      ensures SpillsLow(objects)
      ensures cursor <= top + Room(old(objects), true, |old(objects)|) + Room(old(objects), false, |old(objects)|)
    {
      cursor := top;
      ghost var middle := top;
      for pass := 0 to 2
        invariant SameObjects(old(objects), objects) && top <= cursor && Laid(objects, pass, 0, top, cursor)
        invariant cursor <= top + (if pass > 0 then Room(old(objects), true, |old(objects)|) else 0)
                            + (if pass > 1 then Room(old(objects), false, |old(objects)|) else 0)
        invariant pass > 0 ==> KindWithin(objects, true, |objects|, top, middle)
        invariant pass == 1 ==> middle == cursor
        invariant pass > 1 ==> KindWithin(objects, false, |objects|, middle, cursor)
      {
        hide Laid, Room;
        SameRoom(old(objects), objects, pass == 0, |objects|);
        cursor := PlacePass(pass, top, cursor);
        if pass == 0 { middle := cursor; }
      }
    }

    /** One object in its turn. */
    static method PlaceIfKind(objects: seq<StackObject>, pass: nat, i: nat, ghost top: nat, ghost start: nat, at: nat,
                       ghost before: seq<StackObject>)
      returns (placed: seq<StackObject>, cursor: nat)
      requires pass < 2 && i < |objects| == |before| && objects[i].alignment > 0 && top <= start <= at
      requires Laid(objects, pass, i, top, at) && PassState(before, objects, pass, i, start, at)
      ensures |placed| == |objects| && at <= cursor
      ensures forall j :: 0 <= j < |objects| ==> placed[j].alignment == objects[j].alignment
      ensures Laid(placed, pass, i + 1, top, cursor) && PassState(before, placed, pass, i + 1, start, cursor)
    {
      hide Laid, PassState;
      var o := objects[i];
      PassStep(before, objects, pass, i, start, at);
      if !o.fixed && o.spill == (pass == 0) {
        var aligned := AlignTo(at, o.alignment);
        PlaceOne(objects, pass, i, top, at, aligned);
        placed, cursor := objects[i := o.(offset := aligned)], aligned + o.size;
      } else {
        PlaceNone(objects, pass, i, top, at);
        placed, cursor := objects, at;
      }
    }

    method PlacePass(pass: nat, top: nat, start: nat) returns (cursor: nat)
      requires pass < 2 && (forall i :: 0 <= i < |objects| ==> objects[i].alignment > 0)
      requires top <= start && Laid(objects, pass, 0, top, start)
      modifies this`objects
      ensures SameObjects(old(objects), objects) && start <= cursor && Laid(objects, pass + 1, 0, top, cursor)
      ensures KindWithin(objects, pass == 0, |objects|, start, cursor)
      ensures forall j :: 0 <= j < |objects| && !Kind(objects[j], pass == 0) ==> objects[j] == old(objects)[j]
      ensures cursor <= start + Room(old(objects), pass == 0, |old(objects)|)
    {
      cursor := start;
      assert PassState(old(objects), objects, pass, 0, start, cursor);
      hide Laid, PassState, SameObjects, KindWithin, Room;
      for i := 0 to |objects|
        invariant |objects| == |old(objects)| && (forall j :: 0 <= j < |objects| ==> objects[j].alignment > 0)
        invariant start <= cursor && Laid(objects, pass, i, top, cursor)
        invariant PassState(old(objects), objects, pass, i, start, cursor)
      {
        objects, cursor := PlaceIfKind(objects, pass, i, top, start, cursor, old(objects));
      }
      PassDone(objects, pass, top, cursor);
      StateMeans(old(objects), objects, pass, start, cursor);
    }

    method PlaceSaved() returns (cursor: nat)
      requires forall i, j :: 0 <= i < j < |savedRegisters| ==> savedRegisters[i] != savedRegisters[j]
      modifies this`savedRegisterOffsets
      ensures maxCallFrameSize <= cursor
      ensures Saved(savedRegisters, savedRegisterOffsets, |savedRegisters|, maxCallFrameSize, cursor)
      ensures cursor < maxCallFrameSize + 8 + 8 * |savedRegisters|
    {
      cursor := maxCallFrameSize;
      for i := 0 to |savedRegisters|
        invariant maxCallFrameSize <= cursor
        invariant Saved(savedRegisters, savedRegisterOffsets, i, maxCallFrameSize, cursor)
        invariant cursor < maxCallFrameSize + 8 + 8 * i
        invariant if i == 0 then cursor == maxCallFrameSize else cursor % 8 == 0
      {
        hide Saved;
        var aligned := AlignTo(cursor, 8);
        AlreadyAligned(cursor, aligned);
        SavedMore(savedRegisters, savedRegisterOffsets, i, maxCallFrameSize, cursor, aligned);
        cursor := aligned;
        savedRegisterOffsets := savedRegisterOffsets[savedRegisters[i] := cursor];
        cursor := cursor + 8;
      }
    }
  }

  lemma AlreadyAligned(cursor: nat, aligned: nat)
    requires cursor <= aligned < cursor + 8 && aligned % 8 == 0
    ensures (cursor % 8 == 0 ==> aligned == cursor) && (aligned + 8) % 8 == 0
  {
  }

  lemma SavedMore(saved: seq<nat>, offsets: map<nat, int>, i: nat, low: nat, cursor: nat, at: nat)
    requires i < |saved| && (forall k, l :: 0 <= k < l < |saved| ==> saved[k] != saved[l])
    requires low <= cursor <= at && at % 8 == 0 && Saved(saved, offsets, i, low, cursor)
    ensures Saved(saved, offsets[saved[i] := at], i + 1, low, at + 8)
  {
  }

  lemma SameLength(a: seq<StackObject>, b: seq<StackObject>)
    requires SameObjects(a, b)
    ensures |a| == |b|
  {
  }

  lemma LaidWithin(objects: seq<StackObject>, low: nat, cursor: nat, high: nat)
    requires Laid(objects, 2, 0, low, cursor) && cursor <= high
    ensures Laid(objects, 2, 0, low, high)
  {
  }

  lemma PlaceOne(objects: seq<StackObject>, pass: nat, i: nat, low: nat, cursor: nat, at: nat)
    requires pass < 2 && i < |objects| && Laid(objects, pass, i, low, cursor) && low <= cursor <= at
    requires !objects[i].fixed && objects[i].spill == (pass == 0)
    requires objects[i].alignment > 0 && at % objects[i].alignment == 0
    ensures Laid(objects[i := objects[i].(offset := at)], pass, i + 1, low, at + objects[i].size)
  {
    var objects' := objects[i := objects[i].(offset := at)];
    forall j | 0 <= j < |objects|
      ensures Placed(objects'[j], j, pass, i + 1) <==> j == i || Placed(objects[j], j, pass, i) {
    }
  }

  lemma PlaceNone(objects: seq<StackObject>, pass: nat, i: nat, low: nat, cursor: nat)
    requires pass < 2 && i < |objects| && Laid(objects, pass, i, low, cursor)
    requires objects[i].fixed || objects[i].spill != (pass == 0)
    ensures Laid(objects, pass, i + 1, low, cursor)
  {
    forall j | 0 <= j < |objects| ensures Placed(objects[j], j, pass, i + 1) <==> Placed(objects[j], j, pass, i) {
    }
  }

  lemma PassDone(objects: seq<StackObject>, pass: nat, low: nat, cursor: nat)
    requires pass < 2 && Laid(objects, pass, |objects|, low, cursor)
    ensures Laid(objects, pass + 1, 0, low, cursor)
  {
    forall j | 0 <= j < |objects|
      ensures Placed(objects[j], j, pass + 1, 0) <==> Placed(objects[j], j, pass, |objects|) {
    }
  }
}
