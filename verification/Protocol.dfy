/** The commit protocols: durable write and delete, and what survives a crash at any moment. */
module Protocol {
  import opened Bytes
  import opened Paths
  import opened Entries
  import opened Directory
  import opened Objects
  import opened Commits
  import opened Disk
  import opened CrashSafe
  import opened Leftovers
  import opened Store
  import Crc
  import RegionHeader

  /** What a reader may find after a crash: everything as before, or only the target gone, or only
      the target replaced by the new object, whole. Every slot but k holds what it held, and nothing
      outside the region's slots and data area has changed. */
  ghost predicate Survives(r: Region, start: seq<byte>, k: nat, n: Name, o: Object, img: seq<byte>)
    requires Holds(r, start)
  {
    && Holds(r, img) && OthersKept(r, start, img, k)
    && AgreeOutside(start, img, r.base + HEADER_SIZE, r.base + r.size)
    && (ViewOf(r, img) == ViewOf(r, start) ||
        ViewOf(r, img) == Drop(ViewOf(r, start), n) ||
        (ViewOf(r, img) == ViewOf(r, start)[n := o] && CanShow(r, start, n)))
  }

  /** A write of the name will be seen by readers: it is visible already, or no unfinished entry
      left by an earlier crash bears it. */
  ghost predicate CanShow(r: Region, start: seq<byte>, n: Name)
    requires Holds(r, start)
  {
    n in ViewOf(r, start) || !StaleName(Slots(r, start), n)
  }

  ghost function Safety(r: Region, start: seq<byte>, k: nat, n: Name, o: Object): Property
    requires Holds(r, start)
  {
    img => Survives(r, start, k, n, o, img)
  }

  // ---------- the moments of a write ----------

  /** A commit in progress: entry e (its final, ACTIVE form) for slot k, and the bytes to store. */
  ghost predicate Committing(r: Region, start: seq<byte>, k: nat, e: Entry, data: seq<byte>) {
    && Holds(r, start) && Admissible(r, Slots(r, start), k, e)
    && e.state == ACTIVE && |data| == e.size
  }

  function AsWriting(e: Entry): Entry {
    e.(state := WRITING)
  }

  lemma WritingAdmissible(r: Region, start: seq<byte>, k: nat, e: Entry, data: seq<byte>)
    requires Committing(r, start, k, e, data)
    ensures Admissible(r, Slots(r, start), k, AsWriting(e)) && NameOf(AsWriting(e)) == NameOf(e)
  {
  }

  /** Slot and extent both lie between the region's header and its end. */
  lemma DuringInside(r: Region, start: seq<byte>, k: nat, b: seq<byte>, e: Entry, img: seq<byte>)
    requires During(r, start, k, b, e, img)
    ensures AgreeOutside(start, img, r.base + HEADER_SIZE, r.base + r.size)
  {
    SlotInside(r, k);
  }

  /** Whatever the extent holds while the slot says WRITING, the image survives. */
  lemma WritingSurvives(r: Region, start: seq<byte>, k: nat, e: Entry, data: seq<byte>)
    requires Committing(r, start, k, e, data)
    ensures RangeSafe(WithSlot(r, start, k, Print(AsWriting(e))), r.base + e.offset, r.base + e.offset + |data|,
                      Safety(r, start, k, NameOf(e), Object(e, data)))
  {
    hide Print, Slots, ViewOf, OthersKept, StaleName, CanShow, Usable;
    var base := WithSlot(r, start, k, Print(AsWriting(e)));
    WritingAdmissible(r, start, k, e, data);
    forall img | Around(base, img, r.base + e.offset, r.base + e.offset + |data|)
      ensures Survives(r, start, k, NameOf(e), Object(e, data), img)
    {
      DuringInside(r, start, k, Print(AsWriting(e)), e, img);
      ShowsWriting(r, start, k, AsWriting(e), img);
    }
  }

  /** The image once the data is durable, and once the entry is ACTIVE. */
  function Stored(r: Region, start: seq<byte>, k: nat, e: Entry, data: seq<byte>): (img: seq<byte>)
    requires Holds(r, start) && k < r.slots && EntryOk(r, e) && |data| == e.size
    ensures |img| == |start|
  {
    Put(WithSlot(r, start, k, Print(AsWriting(e))), r.base + e.offset, data)
  }

  function Final(r: Region, start: seq<byte>, k: nat, e: Entry, data: seq<byte>): (img: seq<byte>)
    requires Holds(r, start) && k < r.slots && EntryOk(r, e) && |data| == e.size
    ensures |img| == |start|
  {
    WithSlot(r, Stored(r, start, k, e, data), k, Print(e))
  }

  lemma FinalDuring(r: Region, start: seq<byte>, k: nat, e: Entry, data: seq<byte>)
    requires Holds(r, start) && k < r.slots && EntryOk(r, e) && |data| == e.size
    ensures During(r, start, k, Print(e), e, Final(r, start, k, e, data))
    ensures DataBytes(r, Final(r, start, k, e, data), e) == data
  {
    hide Print, Put, IsPath;
    SlotInside(r, k);
    SlotDataSlot(start, SlotOffset(r, k), Print(AsWriting(e)), Print(e), r.base + e.offset, data);
  }

  /** A sector written, data elsewhere, and the sector written again. */
  lemma SlotDataSlot(s: seq<byte>, at: nat, a: seq<byte>, b: seq<byte>, target: nat, data: seq<byte>)
    requires |a| == |b| && at + |a| <= target && target + |data| <= |s|
    ensures var last := Put(Put(Put(s, at, a), target, data), at, b);
      && last[target..target + |data|] == data
      && AgreeOutside(Put(s, at, b), last, target, target + |data|)
  {
    FieldOfPut(Put(s, at, a), target, data, target, |data|);
    FieldOfPut(Put(Put(s, at, a), target, data), at, b, target, |data|);
  }

  lemma FinalSurvives(r: Region, start: seq<byte>, k: nat, e: Entry, data: seq<byte>)
    requires Committing(r, start, k, e, data)
    ensures Survives(r, start, k, NameOf(e), Object(e, data), Final(r, start, k, e, data))
  {
    var img := Final(r, start, k, e, data);
    FinalDuring(r, start, k, e, data);
    DuringInside(r, start, k, Print(e), e, img);
    ShowsActive(r, start, k, e, img);
    FinalShown(r, start, k, e);
  }

  lemma FinalShown(r: Region, start: seq<byte>, k: nat, e: Entry)
    requires Holds(r, start) && Admissible(r, Slots(r, start), k, e)
    ensures Spoiled(r, start, k, e) == !CanShow(r, start, NameOf(e))
  {
    if Visible(Slots(r, start), k) {
      ViewHas(r, start, k);
      VisibleOccupied(Slots(r, start), k);
    }
  }

  // ---------- write ----------

  datatype Outcome = Done(k: nat, e: Entry) | Failed(error: Error)

  /** The check both entry points make of the name they are given. */
  method KeyIsValid(ns: nat, key: seq<byte>) returns (ok: bool)
    ensures ok == KeyOk(ns, key)
  {
    if |key| == 0 || |key| > KEY_CAPACITY || ns < SAVE || ns > PRIVATE {
      return false;
    }
    var path, separator := PathIsValid(key);
    ok := path && (ns != PRIVATE || separator);
  }

  /** The smallest buffer a write call works with. */
  const MIN_CHUNK: nat := 1024

  /** What a write call decides, arguments and region included. */
  ghost function Decide(img: seq<byte>, base: nat, size: nat, q: Request, chunk: nat): Plan
    requires Placed(base, size, |img|)
  {
    if !KeyOk(q.ns, q.key) || chunk < MIN_CHUNK then Reject(InvalidArgument)
    else if size == 0 then Reject(MutableAbsent)
    else if RegionOf(img, base, size).None? then Reject(MutableHeader)
    else if Holds(RegionOf(img, base, size).value, img)
      then PlanWrite(RegionOf(img, base, size).value, Slots(RegionOf(img, base, size).value, img), q)
    else Reject(MutableHeader)
  }

  /** The image is still WRITING: only the extent is being filled. */
  ghost predicate Interrupted(m: Moment, r: Region, start: seq<byte>, k: nat, e: Entry)
    requires Holds(r, start) && k < r.slots && |e.key| <= KEY_CAPACITY
  {
    Writing(m, WithSlot(r, start, k, Print(AsWriting(e))), r.base + e.offset, r.base + e.offset + e.size)
  }

  /** The first moment of a commit: the WRITING entry has been issued on top of what was pending. */
  function Announced(m: Moment, r: Region, k: nat, e: Entry): Moment
    requires |e.key| <= KEY_CAPACITY
  {
    Moment(m.durable, m.pending + [Disk.Write(SlotOffset(r, k), Print(AsWriting(e)))])
  }

  /** The moments of a write call in order: the WRITING entry issued, that entry durable, any number
      spent filling the extent, the data durable, the ACTIVE entry issued, the ACTIVE entry durable. A
      call whose source changed ends while filling the extent. */
  ghost predicate CommitOrder(history: seq<Moment>, before: seq<Moment>, m: Moment, r: Region, k: nat, e: Entry,
                              data: seq<byte>, written: bool)
    requires InRange(|m.durable|, m.pending) && Holds(r, Current(m)) && k < r.slots && EntryOk(r, e) && |data| == e.size
  {
    var announced, stored := WithSlot(r, Current(m), k, Print(AsWriting(e))), Stored(r, Current(m), k, e, data);
    InStages(history, before, Announced(m, r, k, e), announced, r.base + e.offset, r.base + e.offset + |data|,
             if written then [Moment(stored, []), Moment(stored, [Disk.Write(SlotOffset(r, k), Print(e))]),
                              Moment(Final(r, Current(m), k, e, data), [])]
             else [])
  }

  // ---------- what an earlier call may have left pending ----------

  /** Nothing is pending, or only bytes of the data area that belong to no visible object. */
  ghost predicate Settled(m: Moment, base: nat, size: nat) {
    && InRange(|m.durable|, m.pending)
    && (m.pending == [] ||
        (size != 0 && Placed(base, size, |m.durable|) && RegionOf(Current(m), base, size).Some? &&
         exists lo, hi :: LeftIn(m, RegionOf(Current(m), base, size).value, lo, hi)))
  }

  /** All pending writes lie in an idle range. */
  ghost predicate LeftIn(m: Moment, r: Region, lo: nat, hi: nat)
    requires InRange(|m.durable|, m.pending)
  {
    Holds(r, Current(m)) && Confined(m.pending, lo, hi) && Idle(r, Current(m), lo, hi)
  }

  lemma SettledLeft(m: Moment, base: nat, size: nat) returns (lo: nat, hi: nat)
    requires Settled(m, base, size) && size != 0 && Placed(base, size, |m.durable|)
    requires RegionOf(Current(m), base, size).Some?
    ensures LeftIn(m, RegionOf(Current(m), base, size).value, lo, hi)
  {
    hide RegionOf, Idle, Holds;
    var r := RegionOf(Current(m), base, size).value;
    RegionHolds(Current(m), base, size);
    if m.pending == [] {
      lo, hi := r.base + r.size, r.base + r.size;
      IdleEnd(r, Current(m));
    } else {
      lo, hi :| LeftIn(m, r, lo, hi);
    }
  }

  /** An idle range may hold anything. */
  lemma IdleSurvives(r: Region, start: seq<byte>, k: nat, n: Name, o: Object, a: seq<byte>, img: seq<byte>, lo: nat, hi: nat)
    requires Holds(r, start) && Survives(r, start, k, n, o, a)
    requires Idle(r, a, lo, hi) && AgreeOutside(a, img, lo, hi)
    ensures Survives(r, start, k, n, o, img)
  {
    hide Slots, ViewOf, CanShow, Usable;
    IdleSame(r, a, img, lo, hi);
  }

  /** The first sector of a call, issued over leftovers, is safe if it is safe without them. */
  lemma FirstMomentSafe(m: Moment, r: Region, k: nat, b: seq<byte>, n: Name, o: Object, lo: nat, hi: nat)
    requires InRange(|m.durable|, m.pending) && LeftIn(m, r, lo, hi) && k < r.slots && |b| == ENTRY_SIZE
    requires Survives(r, Current(m), k, n, o, WithSlot(r, Current(m), k, b))
    requires Idle(r, WithSlot(r, Current(m), k, b), lo, hi)
    ensures MomentSafe(Moment(m.durable, m.pending + [Disk.Write(SlotOffset(r, k), b)]), Safety(r, Current(m), k, n, o))
  {
    hide Survives, Slots, Current, CrashImage;
    var start, w := Current(m), Disk.Write(SlotOffset(r, k), b);
    SlotInside(r, k);
    CurrentConfined(m, lo, hi);
    StartSurvives(r, start, k, n, o);
    forall img | CrashImage(Moment(m.durable, m.pending + [w]), img) ensures Survives(r, start, k, n, o, img) {
      CrashLeftover(m, img, w, lo, hi);
      if AgreeOutside(start, img, lo, hi) {
        IdleSurvives(r, start, k, n, o, start, img, lo, hi);
      } else {
        IdleSurvives(r, start, k, n, o, WithSlot(r, start, k, b), img, lo, hi);
      }
    }
  }

  /** Announcing a commit over leftovers. */
  lemma AnnounceSafe(m: Moment, r: Region, k: nat, e: Entry, data: seq<byte>, lo: nat, hi: nat)
    requires InRange(|m.durable|, m.pending) && LeftIn(m, r, lo, hi) && Committing(r, Current(m), k, e, data)
    ensures |e.key| <= KEY_CAPACITY
    ensures MomentSafe(Announced(m, r, k, e), Safety(r, Current(m), k, NameOf(e), Object(e, data)))
  {
    hide Survives, Slots, Current, Idle, Print, Parse, OthersKept, SameElsewhere, Usable, ViewOf, Visible, ClearOf, Clean;
    var start, w := Current(m), AsWriting(e);
    WritingAdmissible(r, start, k, e, data);
    PrintParse(r, w);
    var announced := WithSlot(r, start, k, Print(w));
    AnnouncedDuring(r, start, k, w);
    StepSlots(r, start, k, w, announced);
    IdleKept(r, start, announced, k, lo, hi);
    WritingSurvives(r, start, k, e, data);
    RangeItself(announced, r.base + e.offset, r.base + e.offset + |data|, Safety(r, start, k, NameOf(e), Object(e, data)));
    FirstMomentSafe(m, r, k, Print(w), NameOf(e), Object(e, data), lo, hi);
  }

  lemma AnnouncedDuring(r: Region, start: seq<byte>, k: nat, w: Entry)
    requires Holds(r, start) && k < r.slots && EntryOk(r, w)
    ensures During(r, start, k, Print(w), w, WithSlot(r, start, k, Print(w)))
  {
    hide Print;
  }

  lemma StartSurvives(r: Region, start: seq<byte>, k: nat, n: Name, o: Object)
    requires Holds(r, start)
    ensures Survives(r, start, k, n, o, start)
  {
  }

  /** The three steps are in range and every image between them survives. */
  lemma CommitReady(r: Region, start: seq<byte>, k: nat, e: Entry, source: seq<byte>)
    requires Committing(r, start, k, e, source)
    ensures k < r.slots && EntryOk(r, e) && |source| == e.size
    ensures IsSector(start, SlotOffset(r, k), Print(AsWriting(e))) && IsSector(start, SlotOffset(r, k), Print(e))
    ensures r.base + e.offset + |source| <= |start|
    ensures RangeSafe(Put(start, SlotOffset(r, k), Print(AsWriting(e))), r.base + e.offset, r.base + e.offset + |source|,
                      Safety(r, start, k, NameOf(e), Object(e, source)))
    ensures Safety(r, start, k, NameOf(e), Object(e, source))(
      Put(Put(Put(start, SlotOffset(r, k), Print(AsWriting(e))), r.base + e.offset, source), SlotOffset(r, k), Print(e)))
  {
    hide Survives, Print, RangeSafe;
    SlotInside(r, k);
    WritingSurvives(r, start, k, e, source);
    FinalSurvives(r, start, k, e, source);
  }

  /** The three durable steps: WRITING entry, data, ACTIVE entry, each followed by a sync. */
  method CommitEntry(file: File, r: Region, k: nat, e: Entry, crc: nat, source: seq<byte>, chunk: nat, ghost lo: nat, ghost hi: nat)
    returns (written: bool)
    requires file.Valid() && LeftIn(file.Now(), r, lo, hi) && chunk > 0
    requires Committing(r, file.Contents(), k, e, source)
    modifies file
    ensures file.Valid() && |file.durable| == |old(file.durable)| && old(file.history) <= file.history
    ensures SafeSince(file.history, |old(file.history)|, Safety(r, old(file.Contents()), k, NameOf(e), Object(e, source)))
    ensures CommitOrder(file.history, old(file.history), old(file.Now()), r, k, e, source, written)
    ensures written == (Crc.Crc32(source) == crc)
    ensures written ==> file.pending == [] && file.durable == Final(r, old(file.Contents()), k, e, source)
    ensures !written ==> Interrupted(file.Now(), r, old(file.Contents()), k, e)
  {
    hide Survives, Print, RangeSafe, Admissible, InStages, SafeSince, IsSector, IsPath, Writing, MomentSafe, LeftIn, Current;
    ghost var safe := Safety(r, file.Contents(), k, NameOf(e), Object(e, source));
    SameSector(file.durable, file.Contents());
    CommitReady(r, file.Contents(), k, e, source);
    AnnounceSafe(file.Now(), r, k, e, source, lo, hi);
    var announce := BuildEntry(AsWriting(e));
    var commit := BuildEntry(e);
    written := ThreeSteps(file, SlotOffset(r, k), announce[..], r.base + e.offset, source, crc, commit[..], chunk, safe);
    if !written {
      SameLengthWriting(file.Now(), Put(old(file.Contents()), SlotOffset(r, k), announce[..]),
                        r.base + e.offset, r.base + e.offset + |source|);
    }
  }

  lemma SameSector(a: seq<byte>, b: seq<byte>)
    requires |a| == |b|
    ensures forall at, s :: IsSector(a, at, s) <==> IsSector(b, at, s)
  {
  }

  lemma SameLengthWriting(m: Moment, base: seq<byte>, lo: nat, hi: nat)
    requires Writing(m, base, lo, hi)
    ensures |m.durable| == |base|
  {
  }

  /** A write whose source changed stops with pending bytes of its own extent only. */
  lemma InterruptedSettled(m: Moment, r: Region, start: seq<byte>, k: nat, e: Entry, data: seq<byte>)
    requires Committing(r, start, k, e, data) && Interrupted(m, r, start, k, e)
    requires Placed(r.base, r.size, |start|) && r.size != 0 && RegionOf(start, r.base, r.size) == Some(r)
    ensures Settled(m, r.base, r.size)
    ensures Survives(r, start, k, NameOf(e), Object(e, data), Current(m))
  {
    hide Survives, Print, Parse, Slots, Usable, Current, RegionHeader.Open, Idle, Admissible;
    AdmissibleFits(r, start, k, e);
    var w, lo, hi := AsWriting(e), r.base + e.offset, r.base + e.offset + e.size;
    var base, now := WithSlot(r, start, k, Print(AsWriting(e))), Current(m);
    WritingAdmissible(r, start, k, e, data);
    CurrentConfined(m, lo, hi);
    PrintParse(r, w);
    IdleExtent(r, start, k, w, now);
    WritingSurvives(r, start, k, e, data);
    assert Around(base, now, lo, hi);
    HeaderKept(r, start, k, Print(w), now, lo, hi);
    LeftSettled(m, r, lo, hi);
  }

  lemma LeftSettled(m: Moment, r: Region, lo: nat, hi: nat)
    requires InRange(|m.durable|, m.pending) && LeftIn(m, r, lo, hi)
    requires Placed(r.base, r.size, |m.durable|) && r.size != 0 && RegionOf(Current(m), r.base, r.size) == Some(r)
    ensures Settled(m, r.base, r.size)
  {
    hide RegionOf, Idle, Current, Placed;
  }

  lemma HeaderKept(r: Region, start: seq<byte>, k: nat, b: seq<byte>, now: seq<byte>, lo: nat, hi: nat)
    requires Holds(r, start) && k < r.slots && |b| == ENTRY_SIZE
    requires AgreeOutside(WithSlot(r, start, k, b), now, lo, hi) && r.base + r.DataStart() <= lo
    ensures |now| == |start| && now[r.base..r.base + HEADER_SIZE] == start[r.base..r.base + HEADER_SIZE]
  {
    SlotInside(r, k);
    SameSlices(start, now, r.base, r.base + HEADER_SIZE);
  }

  lemma AdmissibleFits(r: Region, start: seq<byte>, k: nat, e: Entry)
    requires Holds(r, start) && Admissible(r, Slots(r, start), k, e)
    ensures k < r.slots && EntryOk(r, e) && |e.key| <= KEY_CAPACITY
    ensures e.offset >= r.DataStart() && e.offset + e.size <= r.size
  {
    hide Slots;
  }

  /** A whole write call. */
  method MutableWrite(file: File, base: nat, size: nat, q: Request, chunk: nat) returns (outcome: Outcome)
    requires file.Valid() && Settled(file.Now(), base, size) && q.Typed() && Placed(base, size, |file.durable|)
    modifies file
    ensures file.Valid() && |file.durable| == |old(file.durable)| && old(file.history) <= file.history
    ensures Settled(file.Now(), base, size)
    ensures var start := old(file.Contents()); var plan := Decide(start, base, size, q, chunk);
      && (plan.Reject? ==> outcome == Failed(plan.error) && file.Now() == old(file.Now()) && file.history == old(file.history))
      && (plan.Commit? ==> var r := RegionOf(start, base, size).value; var o := Object(plan.e, q.second);
            && Committing(r, start, plan.k, plan.e, q.second) && NameOf(plan.e) == q.Target()
            && SafeSince(file.history, |old(file.history)|, Safety(r, start, plan.k, q.Target(), o))
            && Survives(r, start, plan.k, q.Target(), o, file.Contents())
            && CommitOrder(file.history, old(file.history), old(file.Now()), r, plan.k, plan.e, q.second, outcome.Done?)
            && (Crc.Crc32(q.second) == Crc.Crc32(q.first) ==>
                  outcome == Done(plan.k, plan.e) && file.pending == [] &&
                  file.durable == Final(r, start, plan.k, plan.e, q.second))
            && (Crc.Crc32(q.second) != Crc.Crc32(q.first) ==>
                  outcome == Failed(DataCrc) && Interrupted(file.Now(), r, start, plan.k, plan.e)))
  {
    var ok := KeyIsValid(q.ns, q.key);
    if !ok || chunk < MIN_CHUNK {
      return Failed(InvalidArgument);
    }
    var crc := Crc.ChunkedCrc(q.first, chunk);
    if size == 0 {
      return Failed(MutableAbsent);
    }
    var img := file.Contents();
    var region := RegionOf(img, base, size);
    if region.None? {
      return Failed(MutableHeader);
    }
    RegionHolds(img, base, size);
    var r := region.value;
    var plan := MakePlan(r, img, q, crc);
    if plan.Reject? {
      return Failed(plan.error);
    }
    SlotsWellFormed(r, img);
    PlanAdmissible(r, Slots(r, img), q);
    PlanCrc(r, Slots(r, img), q);
    ghost var lo, hi := SettledLeft(file.Now(), base, size);
    outcome := WritePlanned(file, r, plan.k, plan.e, q.second, chunk, lo, hi);
  }

  /** The commit, and how the call ends. */
  method WritePlanned(file: File, r: Region, k: nat, e: Entry, source: seq<byte>, chunk: nat, ghost lo: nat, ghost hi: nat)
    returns (outcome: Outcome)
    requires file.Valid() && LeftIn(file.Now(), r, lo, hi) && chunk > 0
    requires Committing(r, file.Contents(), k, e, source)
    requires Placed(r.base, r.size, |file.durable|) && r.size != 0 && RegionOf(file.Contents(), r.base, r.size) == Some(r)
    modifies file
    ensures file.Valid() && |file.durable| == |old(file.durable)| && old(file.history) <= file.history
    ensures Settled(file.Now(), r.base, r.size)
    ensures SafeSince(file.history, |old(file.history)|, Safety(r, old(file.Contents()), k, NameOf(e), Object(e, source)))
    ensures Survives(r, old(file.Contents()), k, NameOf(e), Object(e, source), file.Contents())
    ensures CommitOrder(file.history, old(file.history), old(file.Now()), r, k, e, source, outcome.Done?)
    ensures Crc.Crc32(source) == e.crc ==>
      outcome == Done(k, e) && file.pending == [] && file.durable == Final(r, old(file.Contents()), k, e, source)
    ensures Crc.Crc32(source) != e.crc ==>
      outcome == Failed(DataCrc) && Interrupted(file.Now(), r, old(file.Contents()), k, e)
  {
    hide Survives, Committing, LeftIn, CommitOrder, SafeSince, Interrupted, Final, RegionOf, Placed, Crc.Crc32;
    ghost var start := file.Contents();
    CommittingFits(r, start, k, e, source);
    var written := CommitEntry(file, r, k, e, e.crc, source, chunk, lo, hi);
    if written {
      outcome := Done(k, e);
      FinalSurvives(r, start, k, e, source);
      CurrentSynced(file.durable);
    } else {
      outcome := Failed(DataCrc);
      InterruptedSettled(file.Now(), r, start, k, e, source);
    }
  }

  lemma CommittingFits(r: Region, start: seq<byte>, k: nat, e: Entry, data: seq<byte>)
    requires Committing(r, start, k, e, data)
    ensures Holds(r, start) && k < r.slots && EntryOk(r, e) && |e.key| <= KEY_CAPACITY && |data| == e.size
  {
  }

  lemma PlanCrc(r: Region, slots: seq<Slot>, q: Request)
    requires PlanWrite(r, slots, q).Commit?
    ensures PlanWrite(r, slots, q).e.crc == Crc.Crc32(q.first)
  {
  }

  // ---------- delete ----------

  /** The entry a delete leaves in the slot before clearing it; its generation field wraps. */
  function AsDeleting(e: Entry, key: seq<byte>): Entry {
    e.(state := DELETING, key := key, generation := e.generation + 1)
  }

  /** The tombstone parses as a DELETING entry unless its generation wrapped to zero. */
  lemma TombstoneParses(r: Region, e: Entry, key: seq<byte>)
    requires r.Valid() && EntryOk(r, e) && KeyOk(e.ns, key)
    ensures Parse(r, Print(AsDeleting(e, key))) ==
      if e.generation == U64_MAX then Malformed else Occupied(AsDeleting(e, key))
  {
    var t := AsDeleting(e, key);
    if e.generation == U64_MAX {
      var sum := Le(4, Crc.Crc32(Body(t)));
      PrintedFields(t, sum);
      Wraps();
      assert FromLe(Print(t)[40..48]) == 0;
      assert Print(t)[0..4][0] != 0;
    } else {
      PrintParse(r, t);
    }
  }

  /** What the tombstone sector says: state 3, the name as the caller spelled it, the next generation
      as far as 64 bits hold it, and everything else as in the deleted entry. */
  lemma TombstoneStores(r: Region, e: Entry, key: seq<byte>)
    requires r.Valid() && EntryOk(r, e) && KeyOk(e.ns, key)
    ensures |key| <= KEY_CAPACITY
    ensures Stores(Print(AsDeleting(e, key)),
                   Entry(3, e.ns, key, e.offset, e.capacity, e.size, (e.generation + 1) % 0x1_0000_0000_0000_0000, e.modified, e.crc))
  {
    hide Print, Stores, IsPath;
    PrintStores(AsDeleting(e, key));
  }

  /** What the two sectors of a write say: state 2 before the data, state 1 after it, nothing else
      differs. */
  lemma CommitStores(r: Region, e: Entry)
    requires r.Valid() && EntryOk(r, e) && e.state == ACTIVE
    ensures Stores(Print(AsWriting(e)), Entry(2, e.ns, e.key, e.offset, e.capacity, e.size, e.generation, e.modified, e.crc))
    ensures Stores(Print(e), Entry(1, e.ns, e.key, e.offset, e.capacity, e.size, e.generation, e.modified, e.crc))
  {
    hide Print, Stores, IsPath;
    PrintStores(AsWriting(e));
    PrintStores(e);
  }

  lemma Wraps()
    ensures FromLe(Le(8, U64)) == 0
  {
    LeRoundTrip(8, U64);
    Pow256Values();
  }

  /** A slot that holds no ACTIVE entry of the old name hides the object and nothing else. */
  lemma ShowsDeleted(r: Region, start: seq<byte>, k: nat, b: seq<byte>)
    requires Holds(r, start) && k < r.slots && |b| == ENTRY_SIZE && Visible(Slots(r, start), k)
    requires Discreet(Slots(r, start)[k], Parse(r, b))
    requires Parse(r, b).Occupied? ==> Parse(r, b).e.state != ACTIVE
    ensures ViewOf(r, WithSlot(r, start, k, b)) == Drop(ViewOf(r, start), NameOf(Slots(r, start)[k].e))
    ensures Slots(r, WithSlot(r, start, k, b)) == Slots(r, start)[k := Parse(r, b)]
    ensures OthersKept(r, start, WithSlot(r, start, k, b), k)
    ensures AgreeOutside(start, WithSlot(r, start, k, b), r.base + HEADER_SIZE, r.base + r.size)
  {
    hide Parse, Slots, ViewOf, Usable, DataBytes, OthersKept, SameElsewhere;
    SlotInside(r, k);
    SlotsWellFormed(r, start);
    VisibleOccupied(Slots(r, start), k);
    ReplaceEffect(r, start, k, b, WithSlot(r, start, k, b));
    OthersKeptByReplace(r, start, WithSlot(r, start, k, b), k, Parse(r, b));
    ViewStep(r, start, WithSlot(r, start, k, b), k);
  }

  /** What a delete call decides. */
  ghost function DecideDelete(img: seq<byte>, base: nat, size: nat, ns: nat, key: seq<byte>): Plan
    requires Placed(base, size, |img|)
  {
    if !KeyOk(ns, key) then Reject(InvalidArgument)
    else if size == 0 then Reject(MutableAbsent)
    else if RegionOf(img, base, size).None? then Reject(MutableHeader)
    else if Holds(RegionOf(img, base, size).value, img) then
      var slots := Slots(RegionOf(img, base, size).value, img);
      if Name(ns, Fold(key)) in Names(slots)
      then Commit(SlotOf(slots, Name(ns, Fold(key))), AsDeleting(slots[SlotOf(slots, Name(ns, Fold(key)))].e, key))
      else Reject(MutableEntry)
    else Reject(MutableHeader)
  }

  /** Storing the same slot twice leaves the second contents. */
  lemma SlotTwice(r: Region, img: seq<byte>, k: nat, a: seq<byte>, b: seq<byte>)
    requires Holds(r, img) && k < r.slots && |a| == |b| == ENTRY_SIZE
    ensures WithSlot(r, WithSlot(r, img, k, a), k, b) == WithSlot(r, img, k, b)
  {
  }

  lemma TombstoneSurvives(r: Region, start: seq<byte>, k: nat, e: Entry, key: seq<byte>, o: Object)
    requires Holds(r, start) && k < r.slots && Visible(Slots(r, start), k) && Slots(r, start)[k].e == e
    requires KeyOk(e.ns, key) && Fold(key) == Fold(e.key)
    ensures |e.key| <= KEY_CAPACITY
    ensures Survives(r, start, k, NameOf(e), o, WithSlot(r, start, k, Print(AsDeleting(e, key))))
  {
    hide Parse, Print, Slots, ViewOf, Usable, OthersKept, WithSlot;
    SlotsWellFormed(r, start);
    VisibleOccupied(Slots(r, start), k);
    TombstoneParses(r, e, key);
    ShowsDeleted(r, start, k, Print(AsDeleting(e, key)));
  }

  lemma ClearedSurvives(r: Region, start: seq<byte>, k: nat, e: Entry, o: Object)
    requires Holds(r, start) && k < r.slots && Visible(Slots(r, start), k) && Slots(r, start)[k].e == e
    ensures Survives(r, start, k, NameOf(e), o, WithSlot(r, start, k, Zeros(ENTRY_SIZE)))
    ensures ViewOf(r, WithSlot(r, start, k, Zeros(ENTRY_SIZE))) == Drop(ViewOf(r, start), NameOf(e))
  {
    hide Slots, ViewOf, Visible, OthersKept, WithSlot;
    ShowsDeleted(r, start, k, Zeros(ENTRY_SIZE));
  }

  /** Hiding an object over leftovers. */
  lemma TombstoneSafe(m: Moment, r: Region, k: nat, e: Entry, key: seq<byte>, o: Object, lo: nat, hi: nat)
    requires InRange(|m.durable|, m.pending) && LeftIn(m, r, lo, hi) && k < r.slots
    requires Visible(Slots(r, Current(m)), k) && Slots(r, Current(m))[k].e == e
    requires KeyOk(e.ns, key) && Fold(key) == Fold(e.key)
    ensures |e.key| <= KEY_CAPACITY && |key| <= KEY_CAPACITY
    ensures MomentSafe(Moment(m.durable, m.pending + [Disk.Write(SlotOffset(r, k), Print(AsDeleting(e, key)))]),
                       Safety(r, Current(m), k, NameOf(e), o))
  {
    hide Survives, Slots, Current, Idle, Print, Parse, SameElsewhere, Usable, DataBytes, IsPath;
    var start, b := Current(m), Print(AsDeleting(e, key));
    var hidden := WithSlot(r, start, k, b);
    SlotsWellFormed(r, start);
    VisibleOccupied(Slots(r, start), k);
    TombstoneParses(r, e, key);
    ReplaceEffect(r, start, k, b, hidden);
    IdleKept(r, start, hidden, k, lo, hi);
    TombstoneSurvives(r, start, k, e, key, o);
    FirstMomentSafe(m, r, k, b, NameOf(e), o, lo, hi);
  }

  /** The moments of a delete in order: the tombstone issued, the tombstone durable, the cleared slot
      issued, the cleared slot durable. */
  function DeleteOrder(m: Moment, r: Region, k: nat, t: Entry): seq<Moment>
    requires InRange(|m.durable|, m.pending) && Holds(r, Current(m)) && k < r.slots && |t.key| <= KEY_CAPACITY
  {
    var hidden := WithSlot(r, Current(m), k, Print(t));
    [Hidden(m, r, k, t), Moment(hidden, []), Moment(hidden, [Disk.Write(SlotOffset(r, k), Zeros(ENTRY_SIZE))]),
     Moment(WithSlot(r, Current(m), k, Zeros(ENTRY_SIZE)), [])]
  }

  /** The first moment of a delete: the tombstone has been issued on top of what was pending. */
  function Hidden(m: Moment, r: Region, k: nat, t: Entry): Moment
    requires |t.key| <= KEY_CAPACITY
  {
    Moment(m.durable, m.pending + [Disk.Write(SlotOffset(r, k), Print(t))])
  }

  /** The two durable steps of a delete: a DELETING tombstone, then a cleared slot. */
  method ClearSlot(file: File, r: Region, k: nat, e: Entry, key: seq<byte>, ghost o: Object, ghost lo: nat, ghost hi: nat)
    requires file.Valid() && LeftIn(file.Now(), r, lo, hi) && k < r.slots
    requires Visible(Slots(r, file.Contents()), k) && Slots(r, file.Contents())[k].e == e
    requires KeyOk(e.ns, key) && Fold(key) == Fold(e.key)
    modifies file
    ensures file.Valid() && file.pending == [] && old(file.history) <= file.history
    ensures file.durable == WithSlot(r, old(file.Contents()), k, Zeros(ENTRY_SIZE))
    ensures ViewOf(r, file.durable) == Drop(ViewOf(r, old(file.Contents())), NameOf(e))
    ensures Survives(r, old(file.Contents()), k, NameOf(e), o, file.durable)
    ensures SafeSince(file.history, |old(file.history)|, Safety(r, old(file.Contents()), k, NameOf(e), o))
    ensures |key| <= KEY_CAPACITY
    ensures file.history == old(file.history) + DeleteOrder(old(file.Now()), r, k, AsDeleting(e, key))
  {
    hide Survives, Print, KeyOk, Visible, Slots, ViewOf, Current, Idle, MomentSafe, SafeSince;
    ghost var start, h0 := file.Contents(), file.history;
    ghost var safe := Safety(r, start, k, NameOf(e), o);
    SlotInside(r, k);
    TombstoneSafe(file.Now(), r, k, e, key, o, lo, hi);
    TombstoneSurvives(r, start, k, e, key, o);
    ClearedSurvives(r, start, k, e, o);
    var tombstone := BuildEntry(AsDeleting(e, key));
    RewriteSector(file, SlotOffset(r, k), tombstone[..], safe);
    ghost var h1 := file.history;
    SlotTwice(r, start, k, tombstone[..], Zeros(ENTRY_SIZE));
    RewriteSynced(file, SlotOffset(r, k), Zeros(ENTRY_SIZE), safe);
    SinceJoin(h0, h1, file.history, safe);
  }

  /** A whole delete call. */
  method MutableDelete(file: File, base: nat, size: nat, ns: nat, key: seq<byte>) returns (outcome: Outcome)
    requires file.Valid() && Settled(file.Now(), base, size) && NulFree(key) && Placed(base, size, |file.durable|)
    modifies file
    ensures file.Valid() && |file.durable| == |old(file.durable)| && old(file.history) <= file.history
    ensures Settled(file.Now(), base, size)
    ensures var start := old(file.Contents()); var plan := DecideDelete(start, base, size, ns, key);
      && (plan.Reject? ==> outcome == Failed(plan.error) && file.Now() == old(file.Now()) && file.history == old(file.history))
      && (plan.Commit? ==> var r := RegionOf(start, base, size).value;
            var n := Name(ns, Fold(key));
            && Holds(r, start) && n in ViewOf(r, start)
            && plan.k < r.slots
            && outcome == Done(plan.k, plan.e) && file.pending == []
            && file.durable == WithSlot(r, start, plan.k, Zeros(ENTRY_SIZE))
            && ViewOf(r, file.durable) == Drop(ViewOf(r, start), n)
            && Survives(r, start, plan.k, n, ViewOf(r, start)[n], file.durable)
            && SafeSince(file.history, |old(file.history)|, Safety(r, start, plan.k, n, ViewOf(r, start)[n]))
            && plan.e == AsDeleting(ViewOf(r, start)[n].e, key) && |key| <= KEY_CAPACITY
            && file.history == old(file.history) + DeleteOrder(old(file.Now()), r, plan.k, plan.e))
  {
    hide Survives, LeftIn, SafeSince, WithSlot, DeleteOrder;
    var ok := KeyIsValid(ns, key);
    if !ok {
      return Failed(InvalidArgument);
    }
    if size == 0 {
      return Failed(MutableAbsent);
    }
    var img := file.Contents();
    var region := RegionOf(img, base, size);
    if region.None? {
      return Failed(MutableHeader);
    }
    RegionHolds(img, base, size);
    var r := region.value;
    var slots, usable, degraded := ReadDirectory(r, img);
    var found := FindActive(slots, usable, ns, key);
    if found.None? {
      return Failed(MutableEntry);
    }
    var e := AsDeleting(slots[found.value].e, key);
    ghost var n := Name(ns, Fold(key));
    ViewHas(r, img, found.value);
    ghost var lo, hi := SettledLeft(file.Now(), base, size);
    ClearSlot(file, r, found.value, slots[found.value].e, key, ViewOf(r, img)[n], lo, hi);
    outcome := Done(found.value, e);
  }
}
