/** The objects a file image shows: its directory, the view a reader gets of it, and how single
    writes to a slot or to an extent change that view. */
module Objects {
  import opened Bytes
  import opened Paths
  import opened Entries
  import opened Directory

  /** A name under which an object is found: namespace and case-folded key. */
  datatype Name = Name(ns: nat, key: seq<byte>)

  function NameOf(e: Entry): Name {
    Name(e.ns, Fold(e.key))
  }

  /** A committed object: its entry and the bytes of its extent. */
  datatype Object = Object(e: Entry, bytes: seq<byte>)

  type View = map<Name, Object>

  /** The image is large enough to hold the region. */
  predicate Holds(r: Region, img: seq<byte>) {
    r.Valid() && r.base + r.size <= |img|
  }

  function SlotOffset(r: Region, i: nat): nat {
    r.base + HEADER_SIZE + i * ENTRY_SIZE
  }

  lemma SlotInside(r: Region, i: nat)
    requires r.Valid() && i < r.slots
    ensures SlotOffset(r, i) + ENTRY_SIZE <= r.base + r.DataStart() < r.base + r.size
    ensures SlotOffset(r, i) % 512 == 0
  {
    assert (i + 1) * ENTRY_SIZE <= r.slots * ENTRY_SIZE;
  }

  function SlotBytes(r: Region, img: seq<byte>, i: nat): (b: seq<byte>)
    requires Holds(r, img) && i < r.slots
    ensures |b| == ENTRY_SIZE
  {
    SlotInside(r, i);
    img[SlotOffset(r, i)..SlotOffset(r, i) + ENTRY_SIZE]
  }

  /** The directory of an image. */
  function Slots(r: Region, img: seq<byte>): (s: seq<Slot>)
    requires Holds(r, img)
    ensures |s| == r.slots
    ensures forall i :: 0 <= i < r.slots ==> s[i] == Parse(r, SlotBytes(r, img, i))
  {
    seq(r.slots, i requires 0 <= i < r.slots => Parse(r, SlotBytes(r, img, i)))
  }

  /** Every occupied slot of a directory satisfies the entry rules. */
  predicate WellFormed(r: Region, slots: seq<Slot>) {
    |slots| == r.slots && forall i :: 0 <= i < |slots| && slots[i].Occupied? ==> EntryOk(r, slots[i].e)
  }

  lemma SlotsWellFormed(r: Region, img: seq<byte>)
    requires Holds(r, img)
    ensures WellFormed(r, Slots(r, img))
  {
  }

  /** The bytes of an entry's object. */
  function DataBytes(r: Region, img: seq<byte>, e: Entry): (b: seq<byte>)
    requires Holds(r, img) && EntryOk(r, e)
    ensures |b| == e.size
  {
    img[r.base + e.offset..r.base + e.offset + e.size]
  }

  /** A slot whose object a reader returns. */
  ghost predicate Visible(slots: seq<Slot>, i: nat)
    requires i < |slots|
  {
    Usable(slots, i) && slots[i].e.state == ACTIVE
  }

  lemma VisibleOccupied(slots: seq<Slot>, i: nat)
    requires i < |slots| && Visible(slots, i)
    ensures slots[i].Occupied? && Usable(slots, i)
  {
  }

  ghost predicate VisibleAs(slots: seq<Slot>, i: nat, n: Name)
    requires i < |slots|
  {
    Visible(slots, i) && NameOf(slots[i].e) == n
  }

  lemma VisibleUnique(slots: seq<Slot>, i: nat, j: nat, n: Name)
    requires i < |slots| && j < |slots| && VisibleAs(slots, i, n) && VisibleAs(slots, j, n)
    ensures i == j
  {
    if i != j {
      UsableDisjoint(slots, i, j);
    }
  }

  ghost function Names(slots: seq<Slot>): set<Name> {
    set i | 0 <= i < |slots| && Visible(slots, i) :: NameOf(slots[i].e)
  }

  /** The slot a name is visible in. */
  ghost function SlotOf(slots: seq<Slot>, n: Name): (i: nat)
    requires n in Names(slots)
    ensures i < |slots| && VisibleAs(slots, i, n)
  {
    var i :| 0 <= i < |slots| && Visible(slots, i) && NameOf(slots[i].e) == n;
    i
  }

  /** Everything a reader can find in an image. */
  ghost function ViewOf(r: Region, img: seq<byte>): View
    requires Holds(r, img)
  {
    var slots := Slots(r, img);
    map n | n in Names(slots) :: Object(slots[SlotOf(slots, n)].e, DataBytes(r, img, slots[SlotOf(slots, n)].e))
  }

  lemma ViewHas(r: Region, img: seq<byte>, i: nat)
    requires Holds(r, img) && i < r.slots && Visible(Slots(r, img), i)
    ensures var e := Slots(r, img)[i].e;
      NameOf(e) in ViewOf(r, img) && ViewOf(r, img)[NameOf(e)] == Object(e, DataBytes(r, img, e))
  {
    var slots := Slots(r, img);
    var n := NameOf(slots[i].e);
    VisibleUnique(slots, i, SlotOf(slots, n), n);
  }

  /** The slot behind what a view shows. */
  lemma ViewSlot(r: Region, img: seq<byte>, n: Name)
    requires Holds(r, img) && n in ViewOf(r, img)
    ensures n in Names(Slots(r, img)) && SlotOf(Slots(r, img), n) < r.slots
    ensures var k := SlotOf(Slots(r, img), n);
      Visible(Slots(r, img), k) && Slots(r, img)[k].Occupied? && Slots(r, img)[k].e == ViewOf(r, img)[n].e
      && NameOf(Slots(r, img)[k].e) == n && EntryOk(r, Slots(r, img)[k].e)
  {
    hide Slots;
    SlotsWellFormed(r, img);
  }

  lemma ViewOnly(r: Region, img: seq<byte>, n: Name)
    requires Holds(r, img) && n in ViewOf(r, img)
    ensures exists i :: 0 <= i < r.slots && VisibleAs(Slots(r, img), i, n)
  {
    assert VisibleAs(Slots(r, img), SlotOf(Slots(r, img), n), n);
  }

  // ---------- one slot changes ----------

  /** Apart from slot k, both images show the same objects. */
  ghost predicate SameElsewhere(r: Region, img: seq<byte>, after: seq<byte>, k: nat)
    requires Holds(r, img) && Holds(r, after) && k < r.slots
  {
    var s, t := Slots(r, img), Slots(r, after);
    forall i :: 0 <= i < r.slots && i != k ==>
      && s[i] == t[i] && (Visible(s, i) <==> Visible(t, i))
      && (Visible(s, i) ==> DataBytes(r, img, s[i].e) == DataBytes(r, after, s[i].e))
  }

  function Drop(m: View, k: Name): (d: View)
    ensures forall n :: n in d <==> n in m && n != k
    ensures forall n :: n in d ==> d[n] == m[n]
  {
    m - {k}
  }

  /** A view without the object of slot k. */
  ghost function Without(r: Region, img: seq<byte>, k: nat): View
    requires Holds(r, img) && k < r.slots
  {
    if Visible(Slots(r, img), k) then Drop(ViewOf(r, img), NameOf(Slots(r, img)[k].e)) else ViewOf(r, img)
  }

  lemma WithoutExact(r: Region, img: seq<byte>, k: nat, n: Name)
    requires Holds(r, img) && k < r.slots
    ensures n in Without(r, img, k) <==> exists i :: 0 <= i < r.slots && i != k && VisibleAs(Slots(r, img), i, n)
  {
    var s := Slots(r, img);
    if n in Without(r, img, k) {
      ViewOnly(r, img, n);
    }
    if i :| 0 <= i < r.slots && i != k && VisibleAs(s, i, n) {
      ViewHas(r, img, i);
      if Visible(s, k) && NameOf(s[k].e) == n {
        VisibleUnique(s, i, k, n);
      }
    }
  }

  lemma WithoutValue(r: Region, img: seq<byte>, k: nat, n: Name, i: nat)
    requires Holds(r, img) && k < r.slots && i < r.slots && VisibleAs(Slots(r, img), i, n)
    requires n in Without(r, img, k)
    ensures var e := Slots(r, img)[i].e; Without(r, img, k)[n] == Object(e, DataBytes(r, img, e))
  {
    ViewHas(r, img, i);
  }

  /** One direction: whatever img shows outside slot k, after shows too, unchanged. */
  lemma WithoutIncluded(r: Region, img: seq<byte>, after: seq<byte>, k: nat, n: Name)
    requires Holds(r, img) && Holds(r, after) && k < r.slots && SameElsewhere(r, img, after, k)
    requires n in Without(r, img, k)
    ensures n in Without(r, after, k) && Without(r, after, k)[n] == Without(r, img, k)[n]
  {
    WithoutExact(r, img, k, n);
    var i :| 0 <= i < r.slots && i != k && VisibleAs(Slots(r, img), i, n);
    assert VisibleAs(Slots(r, after), i, n);
    WithoutExact(r, after, k, n);
    WithoutValue(r, img, k, n, i);
    WithoutValue(r, after, k, n, i);
  }

  lemma WithoutSame(r: Region, img: seq<byte>, after: seq<byte>, k: nat)
    requires Holds(r, img) && Holds(r, after) && k < r.slots && SameElsewhere(r, img, after, k)
    ensures Without(r, after, k) == Without(r, img, k)
  {
    forall n | n in Without(r, img, k)
      ensures n in Without(r, after, k) && Without(r, after, k)[n] == Without(r, img, k)[n]
    {
      WithoutIncluded(r, img, after, k, n);
    }
    forall n | n in Without(r, after, k) ensures n in Without(r, img, k) {
      WithoutIncluded(r, after, img, k, n);
    }
  }

  lemma PutItBack(m: View, k: Name, v: Object)
    requires k in m && m[k] == v
    ensures Drop(m, k)[k := v] == m
  {
  }

  /** The view after a change confined to slot k and its extent. */
  lemma ViewStep(r: Region, img: seq<byte>, after: seq<byte>, k: nat)
    requires Holds(r, img) && Holds(r, after) && k < r.slots && SameElsewhere(r, img, after, k)
    ensures !Visible(Slots(r, after), k) ==> ViewOf(r, after) == Without(r, img, k)
    ensures Visible(Slots(r, after), k) ==>
      var e := Slots(r, after)[k].e;
      ViewOf(r, after) == Without(r, img, k)[NameOf(e) := Object(e, DataBytes(r, after, e))]
  {
    WithoutSame(r, img, after, k);
    if Visible(Slots(r, after), k) {
      ViewHas(r, after, k);
      var e := Slots(r, after)[k].e;
      PutItBack(ViewOf(r, after), NameOf(e), Object(e, DataBytes(r, after, e)));
    }
  }

  // ---------- writes ----------

  /** Both images agree outside [lo, hi). */
  predicate AgreeOutside(a: seq<byte>, b: seq<byte>, lo: nat, hi: nat) {
    |a| == |b| && forall i :: 0 <= i < |a| && !(lo <= i < hi) ==> a[i] == b[i]
  }

  /** Storing 512 bytes in slot k. */
  function WithSlot(r: Region, img: seq<byte>, k: nat, b: seq<byte>): (after: seq<byte>)
    requires Holds(r, img) && k < r.slots && |b| == ENTRY_SIZE
    ensures Holds(r, after) && |after| == |img|
  {
    SlotInside(r, k);
    Put(img, SlotOffset(r, k), b)
  }

  lemma SlotsApart(i: nat, k: nat)
    requires i != k
    ensures i * ENTRY_SIZE + ENTRY_SIZE <= k * ENTRY_SIZE || k * ENTRY_SIZE + ENTRY_SIZE <= i * ENTRY_SIZE
  {
  }

  lemma SlotWritten(r: Region, img: seq<byte>, k: nat, b: seq<byte>)
    requires Holds(r, img) && k < r.slots && |b| == ENTRY_SIZE
    ensures Slots(r, WithSlot(r, img, k, b)) == Slots(r, img)[k := Parse(r, b)]
    ensures AgreeOutside(img, WithSlot(r, img, k, b), SlotOffset(r, k), SlotOffset(r, k) + ENTRY_SIZE)
  {
    SlotInside(r, k);
    var after := WithSlot(r, img, k, b);
    forall i | 0 <= i < r.slots
      ensures SlotBytes(r, after, i) == if i == k then b else SlotBytes(r, img, i)
    {
      SlotInside(r, i);
      if i != k {
        SlotsApart(i, k);
      }
      FieldOfPut(img, SlotOffset(r, k), b, SlotOffset(r, i), ENTRY_SIZE);
    }
  }

  /** Writing inside the data area leaves the directory alone. */
  lemma DataWritten(r: Region, img: seq<byte>, after: seq<byte>, lo: nat, hi: nat)
    requires Holds(r, img) && AgreeOutside(img, after, lo, hi) && r.base + r.DataStart() <= lo
    ensures Slots(r, after) == Slots(r, img)
  {
    forall i | 0 <= i < r.slots ensures SlotBytes(r, after, i) == SlotBytes(r, img, i) {
      SlotInside(r, i);
      SameSlices(img, after, SlotOffset(r, i), SlotOffset(r, i) + ENTRY_SIZE);
    }
  }

  lemma SameSlices(a: seq<byte>, b: seq<byte>, lo: nat, hi: nat)
    requires |a| == |b| && lo <= hi <= |a| && forall i :: lo <= i < hi ==> a[i] == b[i]
    ensures a[lo..hi] == b[lo..hi]
  {
  }

  /** Objects whose extents are disjoint from the written range keep their bytes. */
  lemma BytesKept(r: Region, img: seq<byte>, after: seq<byte>, lo: nat, hi: nat, e: Entry)
    requires Holds(r, img) && AgreeOutside(img, after, lo, hi) && EntryOk(r, e)
    requires r.base + e.offset + e.capacity <= lo || hi <= r.base + e.offset
    ensures DataBytes(r, after, e) == DataBytes(r, img, e)
  {
    SameSlices(img, after, r.base + e.offset, r.base + e.offset + e.size);
  }

  // ---------- the two kinds of commit ----------

  /** Overwriting or deleting a visible object touches nothing else, whatever its slot and its
      extent hold at the moment. */
  lemma ReplaceEffect(r: Region, img: seq<byte>, k: nat, b: seq<byte>, after: seq<byte>)
    requires Holds(r, img) && k < r.slots && |b| == ENTRY_SIZE
    requires Visible(Slots(r, img), k) && Discreet(Slots(r, img)[k], Parse(r, b))
    requires var e := Slots(r, img)[k].e;
      AgreeOutside(WithSlot(r, img, k, b), after, r.base + e.offset, r.base + e.offset + e.capacity)
    ensures Holds(r, after) && Slots(r, after) == Slots(r, img)[k := Parse(r, b)]
    ensures SameElsewhere(r, img, after, k)
    ensures Visible(Slots(r, after), k) <==> Parse(r, b).Occupied? && Parse(r, b).e.state == ACTIVE
  {
    var s, e := Slots(r, img), Slots(r, img)[k].e;
    var mid := WithSlot(r, img, k, b);
    SlotsWellFormed(r, img);
    SlotWritten(r, img, k, b);
    DataWritten(r, mid, after, r.base + e.offset, r.base + e.offset + e.capacity);
    forall i | 0 <= i < r.slots && i != k
      ensures Usable(Slots(r, after), i) == Usable(s, i)
      ensures Visible(s, i) ==> DataBytes(r, img, s[i].e) == DataBytes(r, after, s[i].e)
    {
      UsableStable(s, k, Parse(r, b), i);
      if Visible(s, i) {
        UsableDisjoint(s, i, k);
        SlotThenData(r, img, mid, after, k, b, e, s[i].e);
      }
    }
    if Parse(r, b).Occupied? {
      UsableReplaced(s, k, Parse(r, b));
    }
  }

  /** Neither the slot write nor the data write reaches a disjoint object. */
  lemma SlotThenData(r: Region, img: seq<byte>, mid: seq<byte>, after: seq<byte>, k: nat, b: seq<byte>, e: Entry, o: Entry)
    requires Holds(r, img) && k < r.slots && |b| == ENTRY_SIZE && mid == WithSlot(r, img, k, b)
    requires EntryOk(r, e) && EntryOk(r, o) && !Overlap(o, e)
    requires AgreeOutside(mid, after, r.base + e.offset, r.base + e.offset + e.capacity)
    ensures DataBytes(r, after, o) == DataBytes(r, img, o)
  {
    SlotInside(r, k);
    SlotWritten(r, img, k, b);
    BytesKept(r, img, mid, SlotOffset(r, k), SlotOffset(r, k) + ENTRY_SIZE, o);
    BytesKept(r, mid, after, r.base + e.offset, r.base + e.offset + e.capacity, o);
  }

  /** Filling a free slot of a clean directory with an entry whose extent is unused and whose name
      no visible object bears: only an unfinished entry of the same name can spoil it. */
  lemma FillEffect(r: Region, img: seq<byte>, k: nat, e: Entry, b: seq<byte>, after: seq<byte>)
    requires Holds(r, img) && k < r.slots && |b| == ENTRY_SIZE && Parse(r, b) == Occupied(e)
    requires Clean(Slots(r, img)) && Slots(r, img)[k].Free? && EntryOk(r, e)
    requires NameOf(e) !in Names(Slots(r, img))
    requires ExtentUnused(Slots(r, img), e)
    requires AgreeOutside(WithSlot(r, img, k, b), after, r.base + e.offset, r.base + e.offset + e.capacity)
    ensures Holds(r, after) && Slots(r, after) == Slots(r, img)[k := Occupied(e)]
    ensures SameElsewhere(r, img, after, k)
    ensures Visible(Slots(r, after), k) <==> e.state == ACTIVE && ClearOf(Slots(r, img), e)
  {
    var s := Slots(r, img);
    var mid := WithSlot(r, img, k, b);
    SlotsWellFormed(r, img);
    SlotWritten(r, img, k, b);
    DataWritten(r, mid, after, r.base + e.offset, r.base + e.offset + e.capacity);
    FillVisible(s, k, e);
    forall i | 0 <= i < r.slots && i != k && Visible(s, i)
      ensures DataBytes(r, img, s[i].e) == DataBytes(r, after, s[i].e)
    {
      SlotThenData(r, img, mid, after, k, b, e, s[i].e);
    }
  }

  lemma VisibleNamed(slots: seq<Slot>, i: nat)
    requires i < |slots| && Visible(slots, i)
    ensures NameOf(slots[i].e) in Names(slots)
  {
  }

  lemma FillVisible(slots: seq<Slot>, k: nat, e: Entry)
    requires k < |slots| && Clean(slots) && slots[k].Free?
    requires NameOf(e) !in Names(slots) && ExtentUnused(slots, e)
    ensures forall i :: 0 <= i < |slots| && i != k ==> (Visible(slots, i) <==> Visible(slots[k := Occupied(e)], i))
    ensures Visible(slots[k := Occupied(e)], k) <==> e.state == ACTIVE && ClearOf(slots, e)
  {
    FillFree(slots, k, e);
    forall i | 0 <= i < |slots| && Visible(slots, i) ensures !Clash(slots[i].e, e) {
      VisibleNamed(slots, i);
    }
  }

  /** No occupied slot's extent overlaps e's. */
  ghost predicate ExtentUnused(slots: seq<Slot>, e: Entry) {
    forall i :: 0 <= i < |slots| && slots[i].Occupied? ==> !Overlap(slots[i].e, e)
  }

  /** An unfinished entry, left by an interrupted commit, bears the name. */
  ghost predicate StaleName(slots: seq<Slot>, n: Name) {
    exists i :: 0 <= i < |slots| && slots[i].Occupied? && slots[i].e.state != ACTIVE && NameOf(slots[i].e) == n
  }

  /** In a clean directory a newcomer with an unused extent and a name nobody shows is clear of
      everything exactly when no stale entry bears its name. */
  lemma ClearUnlessStale(slots: seq<Slot>, e: Entry)
    requires Clean(slots) && ExtentUnused(slots, e) && NameOf(e) !in Names(slots)
    ensures ClearOf(slots, e) <==> !StaleName(slots, NameOf(e))
  {
    if !ClearOf(slots, e) {
      var i :| 0 <= i < |slots| && slots[i].Occupied? && Clash(slots[i].e, e);
      if slots[i].e.state == ACTIVE {
        VisibleNamed(slots, i);
      }
    }
  }
}
