/** Writes an interrupted call has left unsynced, and why they harm nobody: they lie in a part of the
    data area that belongs to no visible object. */
module Leftovers {
  import opened Bytes
  import opened Entries
  import opened Directory
  import opened Objects
  import opened Commits

  /** No visible object has a byte in [lo, hi), a range of the data area. */
  ghost predicate Idle(r: Region, img: seq<byte>, lo: nat, hi: nat)
    requires Holds(r, img)
  {
    && r.base + r.DataStart() <= lo <= hi <= r.base + r.size
    && forall i :: 0 <= i < r.slots && Visible(Slots(r, img), i) ==> Misses(r, Slots(r, img)[i], lo, hi)
  }

  predicate Misses(r: Region, s: Slot, lo: nat, hi: nat) {
    s.Occupied? && (r.base + s.e.offset + s.e.capacity <= lo || hi <= r.base + s.e.offset)
  }

  /** The end of the region is always idle. */
  lemma IdleEnd(r: Region, img: seq<byte>)
    requires Holds(r, img)
    ensures Idle(r, img, r.base + r.size, r.base + r.size)
  {
    hide Usable, Slots;
    SlotsWellFormed(r, img);
    forall i | 0 <= i < r.slots && Visible(Slots(r, img), i)
      ensures Misses(r, Slots(r, img)[i], r.base + r.size, r.base + r.size)
    {
      VisibleOccupied(Slots(r, img), i);
    }
  }

  /** Whatever an idle range holds, readers see the same. */
  lemma IdleSame(r: Region, img: seq<byte>, after: seq<byte>, lo: nat, hi: nat)
    requires Holds(r, img) && Idle(r, img, lo, hi) && AgreeOutside(img, after, lo, hi)
    ensures Holds(r, after) && Slots(r, after) == Slots(r, img) && ViewOf(r, after) == ViewOf(r, img)
    ensures Idle(r, after, lo, hi)
  {
    hide Usable, Slots, DataBytes, AgreeOutside;
    SameLength(img, after, lo, hi);
    DataWritten(r, img, after, lo, hi);
    SlotsWellFormed(r, img);
    var slots := Slots(r, img);
    forall i | 0 <= i < r.slots && Visible(slots, i)
      ensures slots[i].Occupied? && DataBytes(r, after, slots[i].e) == DataBytes(r, img, slots[i].e)
    {
      BytesKept(r, img, after, lo, hi, slots[i].e);
    }
  }

  lemma SameLength(a: seq<byte>, b: seq<byte>, lo: nat, hi: nat)
    requires AgreeOutside(a, b, lo, hi)
    ensures |a| == |b|
  {
  }

  /** A step that shows no new object keeps a range idle. */
  lemma IdleKept(r: Region, img: seq<byte>, after: seq<byte>, k: nat, lo: nat, hi: nat)
    requires Holds(r, img) && Holds(r, after) && k < r.slots && SameElsewhere(r, img, after, k)
    requires !Visible(Slots(r, after), k) && Idle(r, img, lo, hi)
    ensures Idle(r, after, lo, hi)
  {
    hide Usable, Slots, DataBytes;
  }

  /** While an entry is being written its own extent is idle. */
  lemma IdleExtent(r: Region, start: seq<byte>, k: nat, e: Entry, img: seq<byte>)
    requires Holds(r, start) && Admissible(r, Slots(r, start), k, e) && e.state != ACTIVE
    requires Parse(r, Print(e)) == Occupied(e) && During(r, start, k, Print(e), e, img)
    ensures Holds(r, img) && Idle(r, img, r.base + e.offset, r.base + e.offset + e.size)
  {
    hide Usable, Slots, DataBytes, Print, Parse, During, Clean, Names, ClearOf, OthersKept;
    StepSlots(r, start, k, e, img);
    SlotsWellFormed(r, start);
    var s := Slots(r, start);
    forall i | 0 <= i < r.slots && Visible(Slots(r, img), i)
      ensures Misses(r, Slots(r, img)[i], r.base + e.offset, r.base + e.offset + e.size)
    {
      assert i != k && Visible(s, i) && s[i] == Slots(r, img)[i];
      ApartFrom(r, s, k, e, i);
    }
  }

  /** Other visible objects lie apart from an admissible entry. */
  lemma ApartFrom(r: Region, s: seq<Slot>, k: nat, e: Entry, i: nat)
    requires r.Valid() && WellFormed(r, s) && Admissible(r, s, k, e) && i < |s| && i != k && Visible(s, i)
    ensures Misses(r, s[i], r.base + e.offset, r.base + e.offset + e.size)
  {
    hide Clean, Names;
    VisibleOccupied(s, i);
    if Visible(s, k) {
      VisibleOccupied(s, k);
      UsableDisjoint(s, i, k);
    }
  }
}
