/** What a write call decides, said from outside: when it refuses, where a new object goes, how much
    room it gets, and every field of its entry, in numbers a caller could check. */
module Placement {
  import opened Bytes
  import opened Entries
  import opened Directory
  import opened Objects
  import opened Allocator
  import opened Commits
  import Crc

  /** c is the least multiple of 64 that is at least n. */
  predicate LeastMultiple(n: nat, c: nat) {
    c % 64 == 0 && n <= c < n + 64
  }

  /** The room a new object is given: what the caller asked for or, failing that, what the bytes need,
      one byte at least, in whole units of 64; the bytes must fit. */
  predicate RightCapacity(q: Request, c: nat) {
    && (q.capacity != 0 ==> LeastMultiple(q.capacity, c))
    && (q.capacity == 0 && |q.first| > 0 ==> LeastMultiple(|q.first|, c))
    && (q.capacity == 0 && |q.first| == 0 ==> c == 64)
    && |q.first| <= c
  }

  /** c bytes at offset at: in whole units, behind the directory, inside the region, and apart from the
      extent of every slot in use. */
  ghost predicate Room(r: Region, slots: seq<Slot>, c: nat, at: nat) {
    && at % 64 == 0 && 4096 + 512 * r.slots <= at && at + c <= r.size
    && forall i :: 0 <= i < |slots| && Usable(slots, i) ==> Apart(slots[i], at, at + c)
  }

  predicate Apart(s: Slot, lo: nat, hi: nat) {
    s.Occupied? ==> hi <= s.e.offset || s.e.offset + s.e.capacity <= lo
  }

  ghost predicate LowestRoom(r: Region, slots: seq<Slot>, c: nat, at: nat) {
    && Room(r, slots, c, at)
    && forall lower: nat :: lower < at ==> !Room(r, slots, c, lower)
  }

  predicate FirstFreeAt(slots: seq<Slot>, k: nat) {
    k < |slots| && slots[k].Free? && forall i :: 0 <= i < k ==> !slots[i].Free?
  }

  /** Places in the sense of the allocator are the same. */
  lemma FitsIsRoom(r: Region, slots: seq<Slot>, c: nat, at: nat)
    ensures Fits(r, Taken(slots), c, at) <==> Room(r, slots, c, at)
  {
    hide Usable;
    if Room(r, slots, c, at) {
      forall t | t in Taken(slots) ensures at + c <= t.start || t.end <= at {
        var i := TakenBy(slots, t);
        assert Apart(slots[i], at, at + c);
      }
    }
    if Fits(r, Taken(slots), c, at) {
      forall i | 0 <= i < |slots| && Usable(slots, i) ensures Apart(slots[i], at, at + c) {
        UsableOccupied(slots, i);
        assert Range(slots[i].e.offset, slots[i].e.offset + slots[i].e.capacity) in Taken(slots);
      }
    }
  }

  lemma TakenBy(slots: seq<Slot>, t: Range) returns (i: nat)
    requires t in Taken(slots)
    ensures i < |slots| && Usable(slots, i) && slots[i].Occupied?
    ensures t == Range(slots[i].e.offset, slots[i].e.offset + slots[i].e.capacity)
  {
    i :| 0 <= i < |slots| && Usable(slots, i) && t == Range(slots[i].e.offset, slots[i].e.offset + slots[i].e.capacity);
  }

  lemma UsableOccupied(slots: seq<Slot>, i: nat)
    requires i < |slots| && Usable(slots, i)
    ensures slots[i].Occupied?
  {
  }

  /** The place the allocator names is the lowest with room, and it names none only if there is none. */
  lemma PlaceExactly(r: Region, slots: seq<Slot>, c: nat)
    ensures match LowestFit(r, Taken(slots), c)
      case None => forall at: nat :: !Room(r, slots, c, at)
      case Some(at) => LowestRoom(r, slots, c, at)
  {
    hide Fits, Room, LowestFit, Taken;
    forall at: nat ensures Fits(r, Taken(slots), c, at) <==> Room(r, slots, c, at) {
      FitsIsRoom(r, slots, c, at);
    }
    PlaceMeans(r, Taken(slots), c);
  }

  lemma PlaceMeans(r: Region, taken: set<Range>, c: nat)
    ensures match LowestFit(r, taken, c)
      case None => forall at: nat :: !Fits(r, taken, c, at)
      case Some(at) => Fits(r, taken, c, at) && forall lower: nat :: lower < at ==> !Fits(r, taken, c, lower)
  {
    hide Fits;
    if at: nat :| Fits(r, taken, c, at) {
      LowestFitExists(r, taken, c, at);
    }
  }

  /** The capacity a request rounds to is the right one whenever the right one lies below 2^64 at all. */
  lemma CapacityExactly(q: Request, c: nat)
    requires q.Typed()
    ensures c < U64_MAX ==> (RightCapacity(q, c) <==> c == q.RoundedCapacity() && |q.first| <= c)
    ensures q.RoundedCapacity() > 0
  {
    var n := if q.capacity != 0 then q.capacity else if |q.first| == 0 then 1 else |q.first|;
    if n <= U64_MAX - 63 {
      Align64Least(n);
    }
  }

  /** A name nobody sees yet: the call is accepted exactly if the directory is clean, a slot is free,
      and there is room for the right capacity; the entry then says so. */
  lemma NewNameExactly(r: Region, slots: seq<Slot>, q: Request)
    requires r.Valid() && q.Typed() && q.Target() !in Names(slots)
    ensures PlanWrite(r, slots, q).Commit? <==>
      && Clean(slots) && (exists k :: FirstFreeAt(slots, k))
      && exists c, at :: RightCapacity(q, c) && Room(r, slots, c, at)
    ensures PlanWrite(r, slots, q).Reject? ==> PlanWrite(r, slots, q) == Reject(NoSpace)
    ensures PlanWrite(r, slots, q).Commit? ==> var plan := PlanWrite(r, slots, q);
      && FirstFreeAt(slots, plan.k)
      && RightCapacity(q, plan.e.capacity) && LowestRoom(r, slots, plan.e.capacity, plan.e.offset)
      && plan.e.state == 1 && plan.e.ns == q.ns && plan.e.key == q.key && plan.e.size == |q.first|
      && plan.e.generation == 1 && plan.e.modified == q.modified && plan.e.crc == Crc.Crc32(q.first)
  {
    hide Room, LowestFit, Clean, Usable, RightCapacity, Names, Crc.Crc32, Taken;
    var c := q.RoundedCapacity();
    PlaceExactly(r, slots, c);
    FreeMeans(slots);
    forall d, at | RightCapacity(q, d) && Room(r, slots, d, at) ensures d == c && |q.first| <= c {
      RoomInside(r, slots, d, at);
      CapacityExactly(q, d);
    }
    if at: nat :| Room(r, slots, c, at) {
      RoomInside(r, slots, c, at);
      CapacityExactly(q, c);
    }
  }

  lemma RoomInside(r: Region, slots: seq<Slot>, c: nat, at: nat)
    requires r.Valid() && Room(r, slots, c, at)
    ensures c < U64_MAX
  {
  }

  lemma FreeMeans(slots: seq<Slot>)
    ensures match FirstFree(slots)
      case None => forall k :: !FirstFreeAt(slots, k)
      case Some(k) => FirstFreeAt(slots, k)
  {
  }

  /** A name already seen: the call is accepted exactly if a generation is left, the bytes fit the
      object's extent, and no other capacity is asked for. The object keeps slot and extent. */
  lemma OverwriteExactly(r: Region, slots: seq<Slot>, q: Request, k: nat)
    requires k < |slots| && VisibleAs(slots, k, q.Target())
    ensures slots[k].Occupied?
    ensures var was := slots[k].e; var plan := PlanWrite(r, slots, q);
      && (plan == Reject(OutOfRange) <==> was.generation == 0xffff_ffff_ffff_ffff)
      && (plan.Commit? <==> was.generation != 0xffff_ffff_ffff_ffff && |q.first| <= was.capacity &&
                            (q.capacity == 0 || q.capacity == was.capacity))
      && (plan.Reject? && plan != Reject(OutOfRange) ==> plan == Reject(NoSpace))
      && (plan.Commit? ==>
            plan == Commit(k, Entry(1, q.ns, q.key, was.offset, was.capacity, |q.first|, was.generation + 1, q.modified,
                                    Crc.Crc32(q.first))))
  {
    hide Usable, Crc.Crc32;
    VisibleOccupied(slots, k);
    VisibleNamed(slots, k);
    VisibleUnique(slots, k, SlotOf(slots, q.Target()), q.Target());
  }
}
