/** The first-fit extent allocator of the mutable region. */
module Allocator {
  import opened Bytes
  import opened Entries
  import opened Sorting

  /** Capacity bytes fit at offset at: aligned, inside the data area, touching no taken range. */
  ghost predicate Fits(r: Region, taken: set<Range>, capacity: nat, at: nat) {
    && at % 64 == 0
    && r.DataStart() <= at && at + capacity <= r.size
    && forall t :: t in taken ==> at + capacity <= t.start || t.end <= at
  }

  ghost predicate IsLowestFit(r: Region, taken: set<Range>, capacity: nat, at: nat) {
    && Fits(r, taken, capacity, at)
    && forall lower: nat :: lower < at ==> !Fits(r, taken, capacity, lower)
  }

  /** The lowest place where the capacity fits, if it fits anywhere. */
  ghost function LowestFit(r: Region, taken: set<Range>, capacity: nat): (place: Option<nat>)
  {
    if exists at :: IsLowestFit(r, taken, capacity, at) then
      Some(var at :| IsLowestFit(r, taken, capacity, at); at)
    else None
  }

  lemma LowestFitIs(r: Region, taken: set<Range>, capacity: nat, at: nat)
    requires IsLowestFit(r, taken, capacity, at)
    ensures LowestFit(r, taken, capacity) == Some(at)
  {
    var place := LowestFit(r, taken, capacity).value;
    assert IsLowestFit(r, taken, capacity, place);
  }

  /** If there is a place at all there is a lowest one. */
  lemma {:induction false} LowestFitExists(r: Region, taken: set<Range>, capacity: nat, at: nat)
    requires Fits(r, taken, capacity, at)
    ensures LowestFit(r, taken, capacity).Some?
    decreases at
  {
    if lower: nat :| lower < at && Fits(r, taken, capacity, lower) {
      LowestFitExists(r, taken, capacity, lower);
    } else {
      LowestFitIs(r, taken, capacity, at);
    }
  }

  predicate ByStart(a: Range, b: Range) {
    a.start <= b.start
  }

  ghost function Elements(s: seq<Range>): set<Range> {
    set t | t in s
  }

  /** The sweep over the sorted extents: the result is the lowest place that fits, and failure
      means that no place fits. */
  method FindFreeExtent(r: Region, extents: seq<Range>, capacity: nat) returns (place: Option<nat>)
    requires r.Valid() && 0 < capacity <= U64_MAX
    requires forall t :: t in extents ==> t.end <= r.size
    ensures place == LowestFit(r, Elements(extents), capacity)
  {
    hide LowestFit, IsSorted;
    var ranges := Sort(extents, ByStart);
    SameElements(ranges, extents);
    assert Elements(ranges) == Elements(extents);
    var cursor := Sweep(r, ranges, capacity);
    SweepEnds(r, Elements(extents), capacity, cursor);
    place := if cursor > r.size || capacity > r.size - cursor then None else Some(cursor);
  }

  /** The loop over the sorted extents: nothing fits below the cursor, and where it stops nothing
      taken is in the way. */
  method Sweep(r: Region, ranges: seq<Range>, capacity: nat) returns (cursor: nat)
    requires r.Valid() && 0 < capacity <= U64_MAX && IsSorted(ranges, ByStart)
    requires forall i :: 0 <= i < |ranges| ==> ranges[i].end <= r.size
    ensures r.DataStart() <= cursor && cursor % 64 == 0
    ensures forall at: nat :: at < cursor ==> !Fits(r, Elements(ranges), capacity, at)
    ensures forall t :: t in Elements(ranges) ==> cursor + capacity <= t.start || t.end <= cursor
  {
    hide Fits, Align64;
    ghost var taken := Elements(ranges);
    cursor := r.DataStart();
    BelowData(r, taken, capacity);
    var index := 0;
    while index < |ranges|
      invariant 0 <= index <= |ranges|
      invariant r.DataStart() <= cursor && cursor % 64 == 0
      invariant forall i :: 0 <= i < index ==> ranges[i].end <= cursor
      invariant forall at: nat :: at < cursor ==> !Fits(r, taken, capacity, at)
    {
      var range := ranges[index];
      if range.start >= cursor && capacity <= range.start - cursor {
        break;
      }
      if range.end > cursor {
        Align64Least(range.end);
        SkipRange(r, taken, capacity, cursor, range);
        cursor := Align64(range.end);
      }
      index := index + 1;
    }
    ClearAt(taken, ranges, index, cursor, capacity);
  }

  lemma BelowData(r: Region, taken: set<Range>, capacity: nat)
    ensures forall at: nat :: at < r.DataStart() ==> !Fits(r, taken, capacity, at)
    ensures r.DataStart() % 64 == 0
  {
  }

  /** The cursor is the lowest place, or there is none. */
  lemma SweepEnds(r: Region, taken: set<Range>, capacity: nat, cursor: nat)
    requires r.DataStart() <= cursor && cursor % 64 == 0
    requires forall at: nat :: at < cursor ==> !Fits(r, taken, capacity, at)
    requires forall t :: t in taken ==> cursor + capacity <= t.start || t.end <= cursor
    ensures LowestFit(r, taken, capacity) == if cursor + capacity <= r.size then Some(cursor) else None
  {
    if cursor + capacity <= r.size {
      LowestFitIs(r, taken, capacity, cursor);
    } else {
      assert forall at: nat :: !Fits(r, taken, capacity, at);
    }
  }

  /** Where the sweep stops, nothing taken is in the way. */
  lemma ClearAt(taken: set<Range>, ranges: seq<Range>, index: nat, cursor: nat, capacity: nat)
    requires IsSorted(ranges, ByStart) && index <= |ranges| && forall t :: t in taken ==> t in ranges
    requires forall i :: 0 <= i < index ==> ranges[i].end <= cursor
    requires index < |ranges| ==> ranges[index].start >= cursor && capacity <= ranges[index].start - cursor
    ensures forall t :: t in taken ==> cursor + capacity <= t.start || t.end <= cursor
  {
    forall t | t in taken ensures cursor + capacity <= t.start || t.end <= cursor {
      var j :| 0 <= j < |ranges| && ranges[j] == t;
      assert index < j ==> ByStart(ranges[index], ranges[j]);
    }
  }

  /** Between the cursor and the aligned end of a range that leaves no room before it, nothing fits. */
  lemma SkipRange(r: Region, taken: set<Range>, capacity: nat, cursor: nat, range: Range)
    requires range in taken && range.end > cursor && range.end <= U64_MAX - 63 && 0 < capacity
    requires range.start < cursor || capacity > range.start - cursor
    ensures forall at: nat :: cursor <= at < Align64(range.end) ==> !Fits(r, taken, capacity, at)
  {
  }
}
