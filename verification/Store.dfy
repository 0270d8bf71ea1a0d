/** The mutable store: opening its directory, and the durable write and delete protocols with what
    survives a crash at any moment of them. */
module Store {
  import opened Bytes
  import opened Paths
  import opened Entries
  import opened Directory
  import opened Objects
  import opened Allocator
  import opened Commits
  import Crc
  import RegionHeader

  /** Where the footer says the region lies in a file of the given length; size 0 means none. */
  predicate Placed(base: nat, size: nat, length: nat) {
    size == 0 || (base % 4096 == 0 && size % 4096 == 0 && 12288 <= size && base + size <= length && base + size < U64)
  }

  /** The region an image holds, if its header is acceptable. */
  function RegionOf(img: seq<byte>, base: nat, size: nat): (r: Option<Region>)
    requires Placed(base, size, |img|) && size != 0
  {
    RegionHeader.Open(img[base..base + HEADER_SIZE], base, size)
  }

  lemma RegionHolds(img: seq<byte>, base: nat, size: nat)
    requires Placed(base, size, |img|) && size != 0 && RegionOf(img, base, size).Some?
    ensures Holds(RegionOf(img, base, size).value, img)
    ensures RegionOf(img, base, size).value.base == base && RegionOf(img, base, size).value.size == size
  {
    RegionHeader.OpenPrints(img[base..base + HEADER_SIZE], base, size);
  }

  // ---------- opening ----------

  /** Reads one slot. */
  method ReadSlot(r: Region, img: seq<byte>, index: nat) returns (slot: Slot)
    requires Holds(r, img) && index < r.slots
    ensures slot == Slots(r, img)[index]
  {
    slot := ParseEntry(r, SlotBytes(r, img, index));
  }

  /** Reads every slot. */
  method ReadSlots(r: Region, img: seq<byte>) returns (slots: seq<Slot>)
    requires Holds(r, img)
    ensures slots == Slots(r, img)
  {
    slots := [];
    for index := 0 to r.slots
      invariant slots == Slots(r, img)[..index]
    {
      var slot := ReadSlot(r, img, index);
      slots := slots + [slot];
    }
  }

  /** A slot is usable for now if its entry is acceptable; a malformed one degrades the region. */
  method FirstFlags(slots: seq<Slot>) returns (usable: array<bool>, degraded: bool)
    ensures fresh(usable) && usable.Length == |slots|
    ensures forall i :: 0 <= i < |slots| ==> usable[i] == slots[i].Occupied?
    ensures degraded == exists i :: 0 <= i < |slots| && slots[i].Malformed?
  {
    degraded := false;
    usable := new bool[|slots|];
    for index := 0 to |slots|
      invariant forall i :: 0 <= i < index ==> usable[i] == slots[i].Occupied?
      invariant degraded == exists i :: 0 <= i < index && slots[i].Malformed?
    {
      usable[index] := slots[index].Occupied?;
      if slots[index].Malformed? {
        degraded := true;
      }
    }
  }

  /** Reads every slot, then runs the conflict pass. */
  method ReadDirectory(r: Region, img: seq<byte>) returns (slots: seq<Slot>, usable: array<bool>, degraded: bool)
    requires Holds(r, img)
    ensures slots == Slots(r, img) && fresh(usable) && usable.Length == |slots|
    ensures forall i :: 0 <= i < |slots| ==> usable[i] == Usable(slots, i)
    ensures degraded == !Clean(slots)
  {
    slots := ReadSlots(r, img);
    usable, degraded := FirstFlags(slots);
    var clashes := ConflictPass(slots, usable);
    degraded := degraded || clashes;
  }

  /** The first usable ACTIVE slot bearing the name. */
  method FindActive(slots: seq<Slot>, usable: array<bool>, ns: nat, key: seq<byte>) returns (found: Option<nat>)
    requires usable.Length == |slots| && NulFree(key)
    requires forall i :: 0 <= i < |slots| ==> usable[i] == Usable(slots, i)
    requires forall i :: 0 <= i < |slots| && slots[i].Occupied? ==> NulFree(slots[i].e.key)
    ensures found.Some? <==> Name(ns, Fold(key)) in Names(slots)
    ensures found.Some? ==> found.value == SlotOf(slots, Name(ns, Fold(key)))
  {
    var n := Name(ns, Fold(key));
    for index := 0 to |slots|
      invariant forall i :: 0 <= i < index ==> !VisibleAs(slots, i, n)
    {
      if usable[index] && slots[index].e.state == ACTIVE && slots[index].e.ns == ns {
        var equal := AsciiFoldEqual(slots[index].e.key, key);
        if equal {
          assert VisibleAs(slots, index, n);
          VisibleNamed(slots, index);
          VisibleUnique(slots, index, SlotOf(slots, n), n);
          return Some(index);
        }
      }
    }
    found := None;
    NotNamed(slots, n);
  }

  lemma NotNamed(slots: seq<Slot>, n: Name)
    requires forall i :: 0 <= i < |slots| ==> !VisibleAs(slots, i, n)
    ensures n !in Names(slots)
  {
    forall i | 0 <= i < |slots| && Visible(slots, i) ensures NameOf(slots[i].e) != n {
      assert !VisibleAs(slots, i, n);
    }
  }

  /** What a lookup returns: the object, if its bytes still match their checksum. */
  datatype Found = Absent | Damaged | Present(held: Object)

  ghost function Lookup(v: View, n: Name): Found {
    if n !in v then Absent
    else if Crc.Crc32(v[n].bytes) != v[n].e.crc then Damaged
    else Present(v[n])
  }

  lemma KeysNulFree(r: Region, slots: seq<Slot>)
    requires WellFormed(r, slots)
    ensures forall i :: 0 <= i < |slots| && slots[i].Occupied? ==> NulFree(slots[i].e.key)
  {
  }

  lemma OccupiedOk(r: Region, slots: seq<Slot>, k: nat)
    requires WellFormed(r, slots) && k < |slots| && Visible(slots, k)
    ensures slots[k].Occupied? && EntryOk(r, slots[k].e)
  {
  }

  /** The reader's lookup, checksum included. */
  method FindObject(r: Region, img: seq<byte>, ns: nat, key: seq<byte>, chunk: nat) returns (found: Found)
    requires Holds(r, img) && NulFree(key) && chunk > 0
    ensures found == Lookup(ViewOf(r, img), Name(ns, Fold(key)))
    ensures var v := ViewOf(r, img); var n := Name(ns, Fold(key));
      && (found.Absent? <==> n !in v)
      && (found.Damaged? <==> n in v && Crc.Crc32(v[n].bytes) != v[n].e.crc)
      && (found.Present? ==> n in v && found.held == v[n] && Crc.Crc32(found.held.bytes) == found.held.e.crc)
  {
    hide Crc.Crc32, Fold, IsPath, Parse, WellFormed;
    SlotsWellFormed(r, img);
    var slots, usable, degraded := ReadDirectory(r, img);
    KeysNulFree(r, slots);
    var k := FindActive(slots, usable, ns, key);
    if k.None? {
      return Absent;
    }
    OccupiedOk(r, slots, k.value);
    var e := slots[k.value].e;
    ViewHas(r, img, k.value);
    var crc := Crc.ChunkedCrc(DataBytes(r, img, e), chunk);
    found := if crc != e.crc then Damaged else Present(Object(e, DataBytes(r, img, e)));
  }

  // ---------- damage ----------

  /** Bytes of the data area that belong to one visible object change that object and nothing else. */
  lemma DataChanged(r: Region, img: seq<byte>, after: seq<byte>, n: Name)
    requires Holds(r, img) && n in ViewOf(r, img)
    requires var e := ViewOf(r, img)[n].e; AgreeOutside(img, after, r.base + e.offset, r.base + e.offset + e.size)
    ensures var e := ViewOf(r, img)[n].e;
      && Holds(r, after) && EntryOk(r, e) && Slots(r, after) == Slots(r, img)
      && ViewOf(r, after) == ViewOf(r, img)[n := Object(e, DataBytes(r, after, e))]
  {
    hide Slots, Parse, Usable, DataBytes, AgreeOutside, ViewOf, Visible, EntryOk;
    ViewSlot(r, img, n);
    var e := ViewOf(r, img)[n].e;
    DataSlots(r, img, after, e);
    SameNames(r, img, after);
    var next, o := ViewOf(r, after), Object(e, DataBytes(r, after, e));
    forall p | p in ViewOf(r, img) ensures next[p] == if p == n then o else ViewOf(r, img)[p] {
      ViewAgain(r, img, after, n, p);
    }
    assert next == ViewOf(r, img)[n := o];
  }

  lemma DataSlots(r: Region, img: seq<byte>, after: seq<byte>, e: Entry)
    requires Holds(r, img) && EntryOk(r, e) && AgreeOutside(img, after, r.base + e.offset, r.base + e.offset + e.size)
    ensures Holds(r, after) && Slots(r, after) == Slots(r, img)
  {
    hide Slots, Parse, KeyOk;
    DataWritten(r, img, after, r.base + e.offset, r.base + e.offset + e.size);
  }

  lemma SameNames(r: Region, img: seq<byte>, after: seq<byte>)
    requires Holds(r, img) && Holds(r, after) && Slots(r, after) == Slots(r, img)
    ensures ViewOf(r, after).Keys == ViewOf(r, img).Keys
  {
    hide Slots, Parse, Names;
  }

  lemma ViewAgain(r: Region, img: seq<byte>, after: seq<byte>, n: Name, p: Name)
    requires Holds(r, img) && Holds(r, after) && Slots(r, after) == Slots(r, img)
    requires n in ViewOf(r, img) && p in ViewOf(r, img) && EntryOk(r, ViewOf(r, img)[n].e)
    requires var e := ViewOf(r, img)[n].e; AgreeOutside(img, after, r.base + e.offset, r.base + e.offset + e.size)
    ensures p in ViewOf(r, after)
    ensures p == n ==> ViewOf(r, after)[n] == Object(ViewOf(r, img)[n].e, DataBytes(r, after, ViewOf(r, img)[n].e))
    ensures p != n ==> ViewOf(r, after)[p] == ViewOf(r, img)[p]
  {
    hide Slots, Parse, DataBytes, AgreeOutside, EntryOk, ViewOf, Visible;
    ViewSlot(r, img, n);
    ViewSlot(r, img, p);
    var slots := Slots(r, img);
    var i, k := SlotOf(slots, p), SlotOf(slots, n);
    ViewHas(r, img, i);
    ViewHas(r, after, i);
    if p != n {
      BytesApart(r, img, after, i, k);
    }
  }

  lemma BytesApart(r: Region, img: seq<byte>, after: seq<byte>, i: nat, k: nat)
    requires Holds(r, img) && Holds(r, after) && i < r.slots && k < r.slots && i != k
    requires Visible(Slots(r, img), i) && Visible(Slots(r, img), k)
    requires Slots(r, img)[i].Occupied? && EntryOk(r, Slots(r, img)[i].e)
    requires Slots(r, img)[k].Occupied? && EntryOk(r, Slots(r, img)[k].e)
    requires var e := Slots(r, img)[k].e; AgreeOutside(img, after, r.base + e.offset, r.base + e.offset + e.size)
    ensures DataBytes(r, after, Slots(r, img)[i].e) == DataBytes(r, img, Slots(r, img)[i].e)
  {
    hide Slots, Parse, Usable, DataBytes, AgreeOutside, KeyOk;
    UsableDisjoint(Slots(r, img), i, k);
    var e := Slots(r, img)[k].e;
    BytesKept(r, img, after, r.base + e.offset, r.base + e.offset + e.size, Slots(r, img)[i].e);
  }

  /** However up to four consecutive bytes of an intact object change on the medium, the lookup
      notices: it reports the object damaged, and every other name is answered as before. */
  lemma DamageFound(r: Region, img: seq<byte>, after: seq<byte>, n: Name, lo: nat, hi: nat)
    requires Holds(r, img) && n in ViewOf(r, img) && Crc.Crc32(ViewOf(r, img)[n].bytes) == ViewOf(r, img)[n].e.crc
    requires var e := ViewOf(r, img)[n].e;
      r.base + e.offset <= lo && hi <= r.base + e.offset + e.size && hi <= lo + 4 && AgreeOutside(img, after, lo, hi)
    requires img != after
    ensures Holds(r, after) && Lookup(ViewOf(r, after), n) == Damaged
    ensures forall p :: p != n ==> Lookup(ViewOf(r, after), p) == Lookup(ViewOf(r, img), p)
  {
    hide Slots, Parse, Crc.Crc32, ViewOf, Holds, EntryOk;
    var e := ViewOf(r, img)[n].e;
    ViewBytes(r, img, n);
    DataChanged(r, img, after, n);
    var at := r.base + e.offset;
    var i :| 0 <= i < |img| && img[i] != after[i];
    assert DataBytes(r, img, e)[i - at] == img[i] && DataBytes(r, after, e)[i - at] == after[i];
    Crc.BurstDetected(DataBytes(r, img, e), DataBytes(r, after, e), lo - at);
  }

  lemma ViewBytes(r: Region, img: seq<byte>, n: Name)
    requires Holds(r, img) && n in ViewOf(r, img)
    ensures EntryOk(r, ViewOf(r, img)[n].e) && ViewOf(r, img)[n].bytes == DataBytes(r, img, ViewOf(r, img)[n].e)
    ensures r.base + ViewOf(r, img)[n].e.offset + ViewOf(r, img)[n].e.size <= |img|
  {
    hide Slots, Parse, KeyOk;
    ViewSlot(r, img, n);
  }

  // ---------- planning ----------

  /** The extents of the usable slots, as the allocator is given them. */
  method UsableExtents(r: Region, slots: seq<Slot>, usable: array<bool>) returns (extents: seq<Range>)
    requires usable.Length == |slots| && WellFormed(r, slots)
    requires forall i :: 0 <= i < |slots| ==> usable[i] == Usable(slots, i)
    ensures Elements(extents) == Taken(slots)
    ensures forall t :: t in extents ==> t.end <= r.size
  {
    extents := [];
    for index := 0 to |slots|
      invariant forall t :: t in extents ==> t.end <= r.size
      invariant Elements(extents) ==
        set i | 0 <= i < index && Usable(slots, i) :: Range(slots[i].e.offset, slots[i].e.offset + slots[i].e.capacity)
    {
      if usable[index] {
        var e := slots[index].e;
        ghost var before := extents;
        extents := extents + [Range(e.offset, e.offset + e.capacity)];
        assert Elements(extents) == Elements(before) + {Range(e.offset, e.offset + e.capacity)};
      }
    }
  }

  /** The first slot that holds no entry at all. */
  method FindFree(slots: seq<Slot>) returns (k: Option<nat>)
    ensures k == FirstFree(slots)
  {
    for index := 0 to |slots|
      invariant forall i :: 0 <= i < index ==> !slots[i].Free?
    {
      if slots[index].Free? {
        FirstFreeIs(slots, index);
        return Some(index);
      }
    }
    k := None;
  }

  lemma FirstFreeIs(slots: seq<Slot>, k: nat)
    requires k < |slots| && slots[k].Free? && forall i :: 0 <= i < k ==> !slots[i].Free?
    ensures FirstFree(slots) == Some(k)
  {
  }

  method PlanNew(r: Region, slots: seq<Slot>, usable: array<bool>, degraded: bool, q: Request, crc: nat)
    returns (plan: Plan)
    requires r.Valid() && WellFormed(r, slots) && usable.Length == |slots| && q.Typed()
    requires forall i :: 0 <= i < |slots| ==> usable[i] == Usable(slots, i)
    requires degraded == !Clean(slots) && crc == Crc.Crc32(q.first)
    ensures plan == PlanCreate(r, slots, q)
  {
    if degraded {
      return Reject(NoSpace);
    }
    var free := FindFree(slots);
    if free.None? {
      return Reject(NoSpace);
    }
    var capacity := q.RoundedCapacity();
    RoundedOk(q);
    if capacity < |q.first| {
      return Reject(NoSpace);
    }
    var extents := UsableExtents(r, slots, usable);
    var place := FindFreeExtent(r, extents, capacity);
    if place.None? {
      return Reject(NoSpace);
    }
    plan := Commit(free.value, Entry(ACTIVE, q.ns, q.key, place.value, capacity, |q.first|, 1, q.modified, crc));
  }

  /** Everything the writer decides between opening the file and its first write. */
  method MakePlan(r: Region, img: seq<byte>, q: Request, crc: nat) returns (plan: Plan)
    requires Holds(r, img) && q.Typed() && crc == Crc.Crc32(q.first)
    ensures plan == PlanWrite(r, Slots(r, img), q)
  {
    SlotsWellFormed(r, img);
    var slots, usable, degraded := ReadDirectory(r, img);
    var existing := FindActive(slots, usable, q.ns, q.key);
    if existing.None? {
      plan := PlanNew(r, slots, usable, degraded, q, crc);
      return;
    }
    var current := slots[existing.value].e;
    if current.generation == U64_MAX {
      return Reject(OutOfRange);
    }
    if |q.first| > current.capacity || (q.capacity != 0 && q.capacity != current.capacity) {
      return Reject(NoSpace);
    }
    plan := Commit(existing.value, Entry(ACTIVE, q.ns, q.key, current.offset, current.capacity, |q.first|,
                                         current.generation + 1, q.modified, crc));
  }
}
