/** Where the store falls short of what one would expect of it, and exactly when. */
module Limits {
  import opened Bytes
  import opened Paths
  import opened Entries
  import opened Directory
  import opened Objects
  import opened Allocator
  import opened Commits
  import opened CrashSafe
  import opened Disk
  import opened Protocol
  import opened Runs
  import opened Refinement

  // ---------- the moments of a call ----------

  /** Slot k of the region, in the file. */
  function SlotAt(r: Region, k: nat): nat {
    r.base + 4096 + 512 * k
  }

  /** What a write call lets the disk go through, step by step: the WRITING sector on top of what was
      pending, that sector durable and alone, then only writes inside the extent; a completed call goes
      on with the data durable, the ACTIVE sector on its way, and that sector durable. */
  lemma WriteMoments(h: seq<Moment>, before: seq<Moment>, m: Moment, r: Region, k: nat, e: Entry, data: seq<byte>, written: bool)
    requires InRange(|m.durable|, m.pending) && Holds(r, Current(m)) && k < r.slots && EntryOk(r, e) && |data| == e.size
    requires CommitOrder(h, before, m, r, k, e, data, written)
    ensures var at, target, n := SlotAt(r, k), r.base + e.offset, |before|;
      var announced := Put(Current(m), at, Print(AsWriting(e))); var stored := Put(announced, target, data);
      && |h| >= n + (if written then 5 else 2) && h[..n] == before
      && h[n] == Moment(m.durable, m.pending + [Disk.Write(at, Print(AsWriting(e)))]) && h[n + 1] == Moment(announced, [])
      && (forall i :: n + 2 <= i < |h| - (if written then 3 else 0) ==> Writing(h[i], announced, target, target + |data|))
      && (written ==>
            && h[|h| - 3] == Moment(stored, []) && h[|h| - 2] == Moment(stored, [Disk.Write(at, Print(e))])
            && h[|h| - 1] == Moment(Put(stored, at, Print(e)), []))
  {
    hide Print, Current, IsPath, Writing;
    var at, target, n := SlotAt(r, k), r.base + e.offset, |before|;
    assert at == SlotOffset(r, k);
    var announced := Put(Current(m), at, Print(AsWriting(e)));
    var first, stored := Announced(m, r, k, e), Put(announced, target, data);
    var last := if written then
      [Moment(stored, []), Moment(stored, [Disk.Write(at, Print(e))]), Moment(Put(stored, at, Print(e)), [])] else [];
    assert InStages(h, before, first, announced, target, target + |data|, last);
    var streamed :| AllWriting(streamed, announced, target, target + |data|) &&
      h == before + [first, Moment(announced, [])] + streamed + last;
    forall i | n + 2 <= i < |h| - |last| ensures Writing(h[i], announced, target, target + |data|) {
      assert h[i] == streamed[i - n - 2];
    }
  }

  /** What a delete call lets the disk go through. */
  lemma DeleteMoments(m: Moment, r: Region, k: nat, t: Entry)
    requires InRange(|m.durable|, m.pending) && Holds(r, Current(m)) && k < r.slots && |t.key| <= KEY_CAPACITY
    ensures var at := SlotAt(r, k); var hidden := Put(Current(m), at, Print(t));
      DeleteOrder(m, r, k, t) ==
        [Moment(m.durable, m.pending + [Disk.Write(at, Print(t))]), Moment(hidden, []),
         Moment(hidden, [Disk.Write(at, Zeros(512))]), Moment(Put(hidden, at, Zeros(512)), [])]
  {
    hide Print, Current;
    assert SlotAt(r, k) == SlotOffset(r, k);
    SlotTwice(r, Current(m), k, Print(t), Zeros(512));
  }

  // ---------- an interrupted write ----------

  /** The announcement of a write, if the crash lets it through, leaves the name stuck: by
      StuckForever no later call can make it visible. The moment is the first of every write. */
  lemma CrashSticks(m: Moment, r: Region, q: Request)
    requires InRange(|m.durable|, m.pending) && Holds(r, Current(m)) && q.Typed() && KeyOk(q.ns, q.key)
    requires PlanWrite(r, Slots(r, Current(m)), q).Commit?
    ensures var img := Current(m); var plan := PlanWrite(r, Slots(r, img), q);
      plan.k < r.slots && EntryOk(r, plan.e) &&
      var torn := WithSlot(r, img, plan.k, Print(AsWriting(plan.e)));
      CrashImage(Announced(m, r, plan.k, plan.e), torn) && Leads(r, img, Update(q), torn) && Stuck(r, torn, q.Target())
  {
    hide Slots, ViewOf, Usable, PlanWrite, KeyOk, Visible, Survives, Print, Current, CrashImage;
    var plan := PlanWrite(r, Slots(r, Current(m)), q);
    PlanShape(r, Current(m), q);
    SlotInside(r, plan.k);
    KeyFits(plan.e.ns, plan.e.key);
    CurrentAppend(m, Disk.Write(SlotOffset(r, plan.k), Print(AsWriting(plan.e))));
    CrashAll(Announced(m, r, plan.k, plan.e));
    TornSurvives(r, Current(m), plan.k, plan.e, q.second);
  }

  lemma TornSurvives(r: Region, img: seq<byte>, k: nat, e: Entry, data: seq<byte>)
    requires Committing(r, img, k, e, data)
    ensures var torn := WithSlot(r, img, k, Print(AsWriting(e)));
      Survives(r, img, k, NameOf(e), Object(e, data), torn) && Stuck(r, torn, NameOf(e))
  {
    hide Slots, ViewOf, Usable, Print, OthersKept, Visible;
    var w := AsWriting(e);
    var torn := WithSlot(r, img, k, Print(w));
    WritingAdmissible(r, img, k, e, data);
    TornDuring(r, img, k, w);
    PrintParse(r, w);
    ShowsWriting(r, img, k, w, torn);
    StepTaken(r, img, k, w, torn);
    DuringInside(r, img, k, Print(w), w, torn);
    assert Slots(r, torn)[k] == Occupied(w);
  }

  lemma TornDuring(r: Region, img: seq<byte>, k: nat, w: Entry)
    requires Holds(r, img) && k < r.slots && EntryOk(r, w)
    ensures During(r, img, k, Print(w), w, WithSlot(r, img, k, Print(w)))
  {
  }

  /** A completed write is seen exactly when the name can show; otherwise it reports success, the
      reader sees nothing, and the directory is degraded: from then on no new name is accepted. */
  lemma WriteShownExactly(r: Region, img: seq<byte>, q: Request)
    requires Holds(r, img) && q.Typed() && KeyOk(q.ns, q.key) && PlanWrite(r, Slots(r, img), q).Commit?
    ensures var next := After(r, img, Update(q)); var o := Object(PlanWrite(r, Slots(r, img), q).e, q.second);
      if CanShow(r, img, q.Target()) then ViewOf(r, next) == ViewOf(r, img)[q.Target() := o]
      else ViewOf(r, next) == ViewOf(r, img) && q.Target() !in ViewOf(r, next) && !Clean(Slots(r, next))
  {
    hide Slots, ViewOf, Usable, CanShow, Final, KeyOk, Visible, PlanWrite, Clean;
    var plan := PlanWrite(r, Slots(r, img), q);
    PlanShape(r, img, q);
    if CanShow(r, img, q.Target()) {
      CommitShown(r, img, plan.k, plan.e, q.second);
    } else {
      CommitSpoils(r, img, plan.k, plan.e, q.second);
    }
  }

  lemma CommitSpoils(r: Region, img: seq<byte>, k: nat, e: Entry, data: seq<byte>)
    requires Committing(r, img, k, e, data) && !CanShow(r, img, NameOf(e))
    ensures var next := Final(r, img, k, e, data);
      ViewOf(r, next) == ViewOf(r, img) && NameOf(e) !in ViewOf(r, next) && !Clean(Slots(r, next))
  {
    hide Print, Slots, ViewOf, During, Final, Usable;
    var next := Final(r, img, k, e, data);
    PrintParse(r, e);
    FinalDuring(r, img, k, e, data);
    FinalShown(r, img, k, e);
    ShowsActive(r, img, k, e, next);
    StepTaken(r, img, k, e, next);
    DropThenPut(ViewOf(r, img), NameOf(e), Object(e, data));
    NotVisibleNotClean(Slots(r, next), k);
    SpoiledHidden(r, img, k, e);
  }

  lemma SpoiledHidden(r: Region, img: seq<byte>, k: nat, e: Entry)
    requires Holds(r, img) && Admissible(r, Slots(r, img), k, e) && Spoiled(r, img, k, e)
    ensures !ClearOf(Slots(r, img), e)
  {
    hide Slots;
    ClearUnlessStale(Slots(r, img), e);
  }

  lemma NotVisibleNotClean(slots: seq<Slot>, k: nat)
    requires k < |slots|
    ensures slots[k].Occupied? && slots[k].e.state == ACTIVE && !Visible(slots, k) ==> !Clean(slots)
  {
  }

  /** A degraded directory takes no new name. */
  lemma DegradedRefusesNew(r: Region, img: seq<byte>, q: Request)
    requires Holds(r, img) && !Clean(Slots(r, img)) && q.Target() !in ViewOf(r, img)
    ensures PlanWrite(r, Slots(r, img), q) == Reject(NoSpace)
  {
  }

  // ---------- a writer stopped before its last sync ----------

  /** The moment of a writer that has issued its final entry and not synced it. */
  function Unsynced(r: Region, start: seq<byte>, k: nat, e: Entry, data: seq<byte>): Moment
    requires Holds(r, start) && k < r.slots && EntryOk(r, e) && |data| == e.size
  {
    Moment(Stored(r, start, k, e, data), [Disk.Write(SlotOffset(r, k), Print(e))])
  }

  /** What is left pending must not be a slot: the next caller sees the new object, and a crash in
      the first moment of its call, whatever it writes, can make that object disappear, which no call
      about another name may do. */
  lemma UnsyncedLoses(r: Region, start: seq<byte>, k: nat, e: Entry, data: seq<byte>, w: Disk.Write)
    requires Committing(r, start, k, e, data) && CanShow(r, start, NameOf(e)) && w.at + |w.bytes| <= |start|
    ensures k < r.slots && EntryOk(r, e) && |data| == e.size
    ensures var m := Unsynced(r, start, k, e, data); var lost := Stored(r, start, k, e, data);
      && InRange(|m.durable|, m.pending) && Holds(r, Current(m)) && Holds(r, lost)
      && NameOf(e) in ViewOf(r, Current(m)) && ViewOf(r, Current(m))[NameOf(e)] == Object(e, data)
      && CrashImage(Moment(m.durable, m.pending + [w]), lost) && NameOf(e) !in ViewOf(r, lost)
      && forall j, n, o :: n != NameOf(e) ==> !Survives(r, Current(m), j, n, o, lost)
  {
    hide Slots, ViewOf, Usable, Print, Visible, CanShow, Final, OthersKept, CrashImage;
    CommittingFits(r, start, k, e, data);
    SlotInside(r, k);
    UnsyncedShows(r, start, k, e, data);
    CrashNothing(Moment(Stored(r, start, k, e, data), [Disk.Write(SlotOffset(r, k), Print(e))] + [w]));
  }

  lemma UnsyncedShows(r: Region, start: seq<byte>, k: nat, e: Entry, data: seq<byte>)
    requires Committing(r, start, k, e, data) && CanShow(r, start, NameOf(e))
    ensures k < r.slots && EntryOk(r, e) && |data| == e.size
    ensures var m := Unsynced(r, start, k, e, data); var lost := Stored(r, start, k, e, data);
      && InRange(|m.durable|, m.pending) && Holds(r, Current(m)) && Holds(r, lost)
      && ViewOf(r, Current(m)) == ViewOf(r, start)[NameOf(e) := Object(e, data)]
      && ViewOf(r, lost) == Drop(ViewOf(r, start), NameOf(e))
  {
    hide Slots, ViewOf, Usable, Print, Visible, CanShow, OthersKept, Current, During;
    CommittingFits(r, start, k, e, data);
    SlotInside(r, k);
    var lost := Stored(r, start, k, e, data);
    CurrentSynced(lost);
    CurrentAppend(Moment(lost, []), Disk.Write(SlotOffset(r, k), Print(e)));
    assert [] + [Disk.Write(SlotOffset(r, k), Print(e))] == [Disk.Write(SlotOffset(r, k), Print(e))];
    CommitShown(r, start, k, e, data);
    WritingAdmissible(r, start, k, e, data);
    StoredDuring(r, start, k, e, data);
    ShowsWriting(r, start, k, AsWriting(e), lost);
  }

  lemma StoredDuring(r: Region, start: seq<byte>, k: nat, e: Entry, data: seq<byte>)
    requires Committing(r, start, k, e, data)
    ensures k < r.slots && EntryOk(r, e) && |data| == e.size
    ensures During(r, start, k, Print(AsWriting(e)), AsWriting(e), Stored(r, start, k, e, data))
  {
    hide Print, Slots;
    CommittingFits(r, start, k, e, data);
  }

  // ---------- repeating a request ----------

  /** The capacity a caller asks for is rounded when the object is created but compared unrounded
      when it is overwritten: the same request succeeds twice exactly when it left the choice of
      capacity open or asked for a multiple of 64. */
  lemma RepeatSucceedsExactly(r: Region, img: seq<byte>, q: Request)
    requires Tidy(r, img) && q.Typed() && KeyOk(q.ns, q.key)
    requires q.Target() !in ViewOf(r, img) && PlanWrite(r, Slots(r, img), q).Commit?
    ensures Tidy(r, After(r, img, Update(q)))
    ensures PlanWrite(r, Slots(r, After(r, img, Update(q))), q).Commit? <==> q.capacity == 0 || q.capacity % 64 == 0
  {
    hide Slots, ViewOf, Usable, PlanWrite, SpecWrite, SpecAfter, KeyOk, TidySlots;
    var next := After(r, img, Update(q));
    DecisionRefines(r, img, q);
    UpdateRefines(r, img, q);
    DecisionRefines(r, next, q);
    SpecRepeats(r, ViewOf(r, img), q);
  }

  lemma SpecRepeats(r: Region, m: View, q: Request)
    requires r.Valid() && q.Target() !in m && KeyOk(q.ns, q.key) && SpecWrite(r, m, q).Accepted?
    ensures SpecWrite(r, SpecAfter(r, m, Update(q)), q).Accepted? <==> q.capacity == 0 || q.capacity % 64 == 0
  {
    hide LowestFit, Extents, KeyOk;
    PlaceFits(r, Extents(m), q.RoundedCapacity());
    RoundedExactly(q.capacity);
  }

  lemma PlaceFits(r: Region, taken: set<Range>, capacity: nat)
    ensures LowestFit(r, taken, capacity).Some? ==> capacity <= r.size
  {
  }

  lemma RoundedExactly(c: nat)
    ensures c <= U64_MAX - 63 ==> (Align64(c) == c <==> c % 64 == 0)
  {
  }

  // ---------- deleting the last generation ----------

  /** The tombstone of a delete leaves a clean directory clean, unless the generation was the
      largest the field can hold: then it wraps to zero, and a crash before the slot is cleared
      leaves a malformed entry and a degraded region. */
  lemma TombstoneCleanExactly(r: Region, img: seq<byte>, k: nat, key: seq<byte>)
    requires Holds(r, img) && Clean(Slots(r, img)) && k < r.slots && Visible(Slots(r, img), k)
    requires KeyOk(Slots(r, img)[k].e.ns, key) && Fold(key) == Fold(Slots(r, img)[k].e.key)
    ensures var e := Slots(r, img)[k].e;
      |key| <= KEY_CAPACITY &&
      (Clean(Slots(r, WithSlot(r, img, k, Print(AsDeleting(e, key))))) <==> e.generation != U64_MAX)
  {
    hide Slots, Usable, Print, Parse, KeyOk, Clean;
    var slots := Slots(r, img);
    VisibleOccupied(slots, k);
    var e := slots[k].e;
    SlotsWellFormed(r, img);
    assert |key| <= KEY_CAPACITY by {
      KeyFits(e.ns, key);
    }
    var b := Parse(r, Print(AsDeleting(e, key)));
    TombstoneParses(r, e, key);
    SlotWritten(r, img, k, Print(AsDeleting(e, key)));
    if e.generation != U64_MAX {
      UsableReplaced(slots, k, b);
      CleanReplaced(slots, k, b);
    } else {
      MalformedNotClean(slots[k := b], k);
    }
  }

  /** A crash in the first moment of a delete can leave the tombstone, and then the name is stuck: by
      StuckForever no later call can make it visible again. If the generation was the largest, the
      tombstone does not even parse, and the directory takes no new name at all. */
  lemma DeleteSticks(m: Moment, r: Region, ns: nat, key: seq<byte>)
    requires InRange(|m.durable|, m.pending) && Holds(r, Current(m)) && KeyOk(ns, key)
    requires Name(ns, Fold(key)) in ViewOf(r, Current(m))
    ensures |key| <= KEY_CAPACITY
    ensures var n := Name(ns, Fold(key)); var k := SlotOf(Slots(r, Current(m)), n); var e := ViewOf(r, Current(m))[n].e;
      var torn := WithSlot(r, Current(m), k, Print(AsDeleting(e, key)));
      && CrashImage(Hidden(m, r, k, AsDeleting(e, key)), torn) && Leads(r, Current(m), Remove(ns, key), torn)
      && (e.generation < U64_MAX ==> Stuck(r, torn, n))
      && (e.generation == U64_MAX ==> n !in ViewOf(r, torn) && Slots(r, torn)[k].Malformed? && !Clean(Slots(r, torn)))
  {
    hide Slots, Usable, Print, Parse, Clean, Survives, KeyOk, Current, CrashImage, ViewOf, Visible;
    var img, n := Current(m), Name(ns, Fold(key));
    KeyFits(ns, key);
    ViewSlot(r, img, n);
    var k, e := SlotOf(Slots(r, img), n), ViewOf(r, img)[n].e;
    SlotInside(r, k);
    CurrentAppend(m, Disk.Write(SlotOffset(r, k), Print(AsDeleting(e, key))));
    CrashAll(Hidden(m, r, k, AsDeleting(e, key)));
    TombstoneSurvives(r, img, k, e, key, ViewOf(r, img)[n]);
    TombstoneSticks(r, img, k, key);
  }

  lemma TombstoneSticks(r: Region, img: seq<byte>, k: nat, key: seq<byte>)
    requires Holds(r, img) && k < r.slots && Visible(Slots(r, img), k) && EntryOk(r, Slots(r, img)[k].e)
    requires KeyOk(Slots(r, img)[k].e.ns, key) && Fold(key) == Fold(Slots(r, img)[k].e.key) && |key| <= KEY_CAPACITY
    ensures var e := Slots(r, img)[k].e; var torn := WithSlot(r, img, k, Print(AsDeleting(e, key)));
      && NameOf(e) !in ViewOf(r, torn)
      && (e.generation < U64_MAX ==> Stuck(r, torn, NameOf(e)))
      && (e.generation == U64_MAX ==> Slots(r, torn)[k].Malformed? && !Clean(Slots(r, torn)))
  {
    hide Slots, Usable, Print, Parse, Clean, WithSlot, KeyOk, ViewOf, OthersKept;
    var slots := Slots(r, img);
    VisibleOccupied(slots, k);
    var e := slots[k].e;
    var torn := WithSlot(r, img, k, Print(AsDeleting(e, key)));
    TombstoneParses(r, e, key);
    ShowsDeleted(r, img, k, Print(AsDeleting(e, key)));
    if e.generation == U64_MAX {
      MalformedNotClean(Slots(r, torn), k);
    } else {
      assert Slots(r, torn)[k] == Occupied(AsDeleting(e, key));
    }
  }

  lemma KeyFits(ns: nat, key: seq<byte>)
    requires KeyOk(ns, key)
    ensures |key| <= KEY_CAPACITY
  {
  }

  lemma MalformedNotClean(slots: seq<Slot>, k: nat)
    requires k < |slots| && slots[k].Malformed?
    ensures !Clean(slots)
  {
  }

  lemma CleanReplaced(slots: seq<Slot>, k: nat, b: Slot)
    requires k < |slots| && Clean(slots) && b.Occupied? && Discreet(slots[k], b)
    ensures Clean(slots[k := b])
  {
    CleanMeans(slots);
    var after := slots[k := b];
    CleanMeans(after);
    forall i, j | 0 <= i < j < |slots| ensures !Conflict(after[i], after[j]) {
      assert !Conflict(slots[i], slots[j]);
    }
  }
}
