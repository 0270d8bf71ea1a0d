/** What a commit to the mutable region intends, as a function of the image it starts from, and
    what every intermediate image of it shows to a reader. */
module Commits {
  import opened Bytes
  import opened Paths
  import opened Entries
  import opened Directory
  import opened Objects
  import opened Allocator
  import Crc

  datatype Error = InvalidArgument | MutableAbsent | MutableHeader | MutableEntry | NoSpace | OutOfRange | DataCrc

  /** A write call: the source is read twice, once for its checksum and once for its bytes. */
  datatype Request = Request(ns: nat, key: seq<byte>, first: seq<byte>, second: seq<byte>,
                             capacity: nat, modified: nat)
  {
    /** What the types of the source guarantee about a call. */
    predicate Typed() {
      NulFree(key) && |first| == |second| && |first| < U64 && capacity < U64 && modified < U64
    }

    function Target(): Name {
      Name(ns, Fold(key))
    }

    function RoundedCapacity(): nat {
      if capacity != 0 then Align64(capacity) else Align64(if |first| == 0 then 1 else |first|)
    }
  }

  /** What a call decides before it writes anything: refuse, or commit entry e in slot k. */
  datatype Plan = Reject(error: Error) | Commit(k: nat, e: Entry)

  ghost function Taken(slots: seq<Slot>): set<Range> {
    set i | 0 <= i < |slots| && Usable(slots, i) ::
      Range(slots[i].e.offset, slots[i].e.offset + slots[i].e.capacity)
  }

  function FirstFree(slots: seq<Slot>): (k: Option<nat>)
    ensures k.Some? ==> k.value < |slots| && slots[k.value].Free? && forall i :: 0 <= i < k.value ==> !slots[i].Free?
    ensures k.None? ==> forall i :: 0 <= i < |slots| ==> !slots[i].Free?
  {
    if slots == [] then None
    else if slots[0].Free? then Some(0)
    else match FirstFree(slots[1..])
      case None => None
      case Some(i) => Some(i + 1)
  }

  ghost function PlanOverwrite(current: Entry, k: nat, q: Request): Plan {
    if current.generation == U64_MAX then Reject(OutOfRange)
    else if |q.first| > current.capacity || (q.capacity != 0 && q.capacity != current.capacity) then Reject(NoSpace)
    else Commit(k, Entry(ACTIVE, q.ns, q.key, current.offset, current.capacity, |q.first|, current.generation + 1,
                         q.modified, Crc.Crc32(q.first)))
  }

  ghost function PlanCreate(r: Region, slots: seq<Slot>, q: Request): Plan {
    if !Clean(slots) then Reject(NoSpace)
    else match FirstFree(slots)
      case None => Reject(NoSpace)
      case Some(k) =>
        if q.RoundedCapacity() < |q.first| then Reject(NoSpace)
        else match LowestFit(r, Taken(slots), q.RoundedCapacity())
          case None => Reject(NoSpace)
          case Some(at) =>
            Commit(k, Entry(ACTIVE, q.ns, q.key, at, q.RoundedCapacity(), |q.first|, 1, q.modified,
                            Crc.Crc32(q.first)))
  }

  ghost function PlanWrite(r: Region, slots: seq<Slot>, q: Request): Plan {
    if q.Target() in Names(slots)
    then PlanOverwrite(slots[SlotOf(slots, q.Target())].e, SlotOf(slots, q.Target()), q)
    else PlanCreate(r, slots, q)
  }

  // ---------- a planned commit is admissible ----------

  /** Entry e may be committed in slot k: it replaces the visible object of its name in place, or
      fills a free slot of a clean directory with an unused extent. */
  ghost predicate Admissible(r: Region, slots: seq<Slot>, k: nat, e: Entry) {
    && k < |slots| == r.slots
    && EntryOk(r, e)
    && ((Visible(slots, k) && SameName(slots[k].e, e) &&
         e.offset == slots[k].e.offset && e.capacity == slots[k].e.capacity) ||
        (Clean(slots) && slots[k].Free? && NameOf(e) !in Names(slots) && ExtentUnused(slots, e)))
  }

  lemma RoundedOk(q: Request)
    requires q.Typed()
    ensures q.RoundedCapacity() > 0
    ensures q.RoundedCapacity() <= U64_MAX
  {
  }

  lemma DataCrcOk(s: seq<byte>)
    ensures |s| == 0 ==> Crc.Crc32(s) == 0
  {
    if |s| == 0 {
      assert s == [];
      Crc.EmptyCrc();
    }
  }

  /** Every plan the writer makes is admissible, and is for the name it was asked for. */
  lemma PlanAdmissible(r: Region, slots: seq<Slot>, q: Request)
    requires r.Valid() && WellFormed(r, slots) && q.Typed() && KeyOk(q.ns, q.key)
    requires PlanWrite(r, slots, q).Commit?
    ensures Admissible(r, slots, PlanWrite(r, slots, q).k, PlanWrite(r, slots, q).e)
    ensures NameOf(PlanWrite(r, slots, q).e) == q.Target() && PlanWrite(r, slots, q).e.size == |q.first|
    ensures PlanWrite(r, slots, q).e.state == ACTIVE
  {
    if q.Target() in Names(slots) {
      hide Admissible, KeyOk, WellFormed, Names, SlotOf;
      var k := SlotOf(slots, q.Target());
      OverwriteAdmissible(r, slots, k, q);
    } else {
      hide Admissible, KeyOk, WellFormed, Names, SlotOf, Clean, LowestFit, FirstFree, Taken;
      CreateAdmissible(r, slots, q);
    }
  }

  lemma OverwriteAdmissible(r: Region, slots: seq<Slot>, k: nat, q: Request)
    requires r.Valid() && WellFormed(r, slots) && q.Typed() && KeyOk(q.ns, q.key)
    requires k < |slots| && Visible(slots, k) && NameOf(slots[k].e) == q.Target() && PlanOverwrite(slots[k].e, k, q).Commit?
    ensures Admissible(r, slots, k, PlanOverwrite(slots[k].e, k, q).e)
    ensures NameOf(PlanOverwrite(slots[k].e, k, q).e) == q.Target()
  {
    hide Crc.Crc32;
    DataCrcOk(q.first);
  }

  lemma CreateAdmissible(r: Region, slots: seq<Slot>, q: Request)
    requires r.Valid() && WellFormed(r, slots) && q.Typed() && KeyOk(q.ns, q.key)
    requires q.Target() !in Names(slots) && PlanCreate(r, slots, q).Commit?
    ensures Admissible(r, slots, PlanCreate(r, slots, q).k, PlanCreate(r, slots, q).e)
    ensures NameOf(PlanCreate(r, slots, q).e) == q.Target()
  {
    hide KeyOk, Crc.Crc32;
    DataCrcOk(q.first);
    RoundedOk(q);
    var e := PlanCreate(r, slots, q).e;
    assert IsLowestFit(r, Taken(slots), q.RoundedCapacity(), e.offset);
    forall i | 0 <= i < |slots| && slots[i].Occupied? ensures !Overlap(slots[i].e, e) {
      assert Usable(slots, i);
      assert Range(slots[i].e.offset, slots[i].e.offset + slots[i].e.capacity) in Taken(slots);
    }
  }

  // ---------- what intermediate images show ----------

  /** img is the starting image with slot k holding b and anything at all inside e's extent. */
  ghost predicate During(r: Region, start: seq<byte>, k: nat, b: seq<byte>, e: Entry, img: seq<byte>) {
    && Holds(r, start) && k < r.slots && |b| == ENTRY_SIZE && EntryOk(r, e)
    && AgreeOutside(WithSlot(r, start, k, b), img, r.base + e.offset, r.base + e.offset + e.capacity)
  }

  /** While slot k says WRITING the target is absent; every other object is intact. */
  lemma ShowsWriting(r: Region, start: seq<byte>, k: nat, e: Entry, img: seq<byte>)
    requires Holds(r, start) && Admissible(r, Slots(r, start), k, e) && e.state == WRITING
    requires During(r, start, k, Print(e), e, img)
    ensures Holds(r, img) && ViewOf(r, img) == Drop(ViewOf(r, start), NameOf(e))
    ensures OthersKept(r, start, img, k)
  {
    PrintParse(r, e);
    StepTaken(r, start, k, e, img);
  }

  /** Once slot k says ACTIVE the target is the new object, unless a stale entry spoils it. */
  lemma ShowsActive(r: Region, start: seq<byte>, k: nat, e: Entry, img: seq<byte>)
    requires Holds(r, start) && Admissible(r, Slots(r, start), k, e) && e.state == ACTIVE
    requires During(r, start, k, Print(e), e, img)
    ensures Holds(r, img) && OthersKept(r, start, img, k)
    ensures Spoiled(r, start, k, e) ==> ViewOf(r, img) == Drop(ViewOf(r, start), NameOf(e))
    ensures !Spoiled(r, start, k, e) ==>
      ViewOf(r, img) == ViewOf(r, start)[NameOf(e) := Object(e, DataBytes(r, img, e))]
  {
    PrintParse(r, e);
    StepTaken(r, start, k, e, img);
    if !Visible(Slots(r, start), k) {
      ClearUnlessStale(Slots(r, start), e);
    }
  }

  /** A new object is spoiled when a stale unfinished entry already bears its name. */
  ghost predicate Spoiled(r: Region, start: seq<byte>, k: nat, e: Entry)
    requires Holds(r, start) && k < r.slots
  {
    !Visible(Slots(r, start), k) && StaleName(Slots(r, start), NameOf(e))
  }

  /** Every slot but k holds what it held, and none that was quarantined has come back. */
  ghost predicate OthersKept(r: Region, start: seq<byte>, img: seq<byte>, k: nat)
    requires Holds(r, start) && Holds(r, img)
  {
    var s, t := Slots(r, start), Slots(r, img);
    forall i :: 0 <= i < r.slots && i != k ==> s[i] == t[i] && (s[i].Occupied? && !Usable(s, i) ==> !Usable(t, i))
  }

  /** Filling a slot of a clean directory brings nothing back: nothing was quarantined. */
  lemma OthersKeptByFill(r: Region, start: seq<byte>, img: seq<byte>, k: nat, b: Slot)
    requires Holds(r, start) && Holds(r, img) && k < r.slots
    requires Clean(Slots(r, start)) && Slots(r, img) == Slots(r, start)[k := b]
    ensures OthersKept(r, start, img, k)
  {
  }

  lemma OthersKeptByReplace(r: Region, start: seq<byte>, img: seq<byte>, k: nat, b: Slot)
    requires Holds(r, start) && Holds(r, img) && k < r.slots
    requires Usable(Slots(r, start), k) && Discreet(Slots(r, start)[k], b) && Slots(r, img) == Slots(r, start)[k := b]
    ensures OthersKept(r, start, img, k)
  {
    forall i | 0 <= i < r.slots && i != k ensures Usable(Slots(r, img), i) == Usable(Slots(r, start), i) {
      UsableStable(Slots(r, start), k, b, i);
    }
  }

  lemma DropThenPut(v: View, n: Name, o: Object)
    ensures Drop(v, n)[n := o] == v[n := o]
    ensures n !in v ==> Drop(v, n) == v
  {
  }

  /** The commit's effect on the directory and on every other object. */
  lemma StepSlots(r: Region, start: seq<byte>, k: nat, e: Entry, img: seq<byte>)
    requires Holds(r, start) && Admissible(r, Slots(r, start), k, e)
    requires Parse(r, Print(e)) == Occupied(e) && During(r, start, k, Print(e), e, img)
    ensures Holds(r, img) && Slots(r, img) == Slots(r, start)[k := Occupied(e)]
    ensures OthersKept(r, start, img, k) && SameElsewhere(r, start, img, k)
    ensures Visible(Slots(r, img), k) <==>
      e.state == ACTIVE && (Visible(Slots(r, start), k) || ClearOf(Slots(r, start), e))
  {
    hide Print, Parse, Slots, Usable, OthersKept, DataBytes, SameElsewhere, Clean, ExtentUnused, ClearOf, Names, IsPath;
    if Visible(Slots(r, start), k) {
      VisibleOccupied(Slots(r, start), k);
      ReplaceEffect(r, start, k, Print(e), img);
      OthersKeptByReplace(r, start, img, k, Occupied(e));
    } else {
      FillEffect(r, start, k, e, Print(e), img);
      OthersKeptByFill(r, start, img, k, Occupied(e));
    }
  }

  lemma WithoutTarget(r: Region, start: seq<byte>, k: nat, e: Entry)
    requires Holds(r, start) && Admissible(r, Slots(r, start), k, e)
    ensures Without(r, start, k) == Drop(ViewOf(r, start), NameOf(e))
  {
    hide Slots, Usable, Clean, ExtentUnused;
    if Visible(Slots(r, start), k) {
      VisibleOccupied(Slots(r, start), k);
      assert NameOf(Slots(r, start)[k].e) == NameOf(e);
    } else {
      assert NameOf(e) !in ViewOf(r, start);
      DropThenPut(ViewOf(r, start), NameOf(e), Object(e, []));
    }
  }

  lemma StepTaken(r: Region, start: seq<byte>, k: nat, e: Entry, img: seq<byte>)
    requires Holds(r, start) && Admissible(r, Slots(r, start), k, e)
    requires Parse(r, Print(e)) == Occupied(e) && During(r, start, k, Print(e), e, img)
    ensures Holds(r, img) && OthersKept(r, start, img, k)
    ensures Slots(r, img) == Slots(r, start)[k := Occupied(e)]
    ensures !Visible(Slots(r, img), k) ==> ViewOf(r, img) == Drop(ViewOf(r, start), NameOf(e))
    ensures Visible(Slots(r, img), k) ==>
      ViewOf(r, img) == ViewOf(r, start)[NameOf(e) := Object(e, DataBytes(r, img, e))]
    ensures Visible(Slots(r, img), k) <==>
      e.state == ACTIVE && (Visible(Slots(r, start), k) || ClearOf(Slots(r, start), e))
  {
    hide Print, Slots, OthersKept, DataBytes, SameElsewhere, ClearOf, During, Visible, ViewOf, Without, Drop;
    StepSlots(r, start, k, e, img);
    WithoutTarget(r, start, k, e);
    ViewStep(r, start, img, k);
    DropThenPut(ViewOf(r, start), NameOf(e), Object(e, DataBytes(r, img, e)));
  }
}
