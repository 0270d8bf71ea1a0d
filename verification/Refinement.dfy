/** Completed calls on a tidy region refine a map from names to objects: the slots, the free list and
    the conflict pass disappear behind it. */
module Refinement {
  import opened Bytes
  import opened Paths
  import opened Entries
  import opened Directory
  import opened Objects
  import opened Allocator
  import opened Commits
  import opened Store
  import opened Protocol
  import opened Runs
  import Crc
  import RegionHeader

  // ---------- the abstract store ----------

  datatype Verdict = Refused(error: Error) | Accepted(e: Entry)

  ghost function Extents(m: View): set<Range> {
    set n | n in m :: Range(m[n].e.offset, m[n].e.offset + m[n].e.capacity)
  }

  /** What a write of an existing name may do: keep the extent, raise the generation by one. */
  ghost function SpecOverwrite(current: Entry, q: Request): Verdict {
    if current.generation == U64_MAX then Refused(OutOfRange)
    else if |q.first| > current.capacity || (q.capacity != 0 && q.capacity != current.capacity) then Refused(NoSpace)
    else Accepted(Entry(ACTIVE, q.ns, q.key, current.offset, current.capacity, |q.first|, current.generation + 1,
                        q.modified, Crc.Crc32(q.first)))
  }

  /** What a write of a new name may do: take the lowest place that fits, unless the region is full. */
  ghost function SpecCreate(r: Region, m: View, q: Request): Verdict {
    if |m| == r.slots || q.RoundedCapacity() < |q.first| then Refused(NoSpace)
    else match LowestFit(r, Extents(m), q.RoundedCapacity())
      case None => Refused(NoSpace)
      case Some(at) =>
        Accepted(Entry(ACTIVE, q.ns, q.key, at, q.RoundedCapacity(), |q.first|, 1, q.modified, Crc.Crc32(q.first)))
  }

  ghost function SpecWrite(r: Region, m: View, q: Request): Verdict {
    if q.Target() in m then SpecOverwrite(m[q.Target()].e, q) else SpecCreate(r, m, q)
  }

  /** The abstract store after a call. */
  ghost function SpecAfter(r: Region, m: View, c: Call): View {
    match c
    case Update(q) =>
      if KeyOk(q.ns, q.key) && SpecWrite(r, m, q).Accepted?
      then m[q.Target() := Object(SpecWrite(r, m, q).e, q.second)] else m
    case Remove(ns, key) =>
      if KeyOk(ns, key) then Drop(m, c.Target()) else m
  }

  ghost function SpecRun(r: Region, m: View, calls: seq<Call>): View
    decreases |calls|
  {
    if calls == [] then m else SpecRun(r, SpecAfter(r, m, calls[0]), calls[1..])
  }

  // ---------- the concrete store ----------

  /** No stale entry, no malformed slot, no clash. */
  ghost predicate TidySlots(slots: seq<Slot>) {
    Clean(slots) && forall i :: 0 <= i < |slots| && slots[i].Occupied? ==> slots[i].e.state == ACTIVE
  }

  ghost predicate Tidy(r: Region, img: seq<byte>) {
    Holds(r, img) && TidySlots(Slots(r, img))
  }

  /** The source of a completed write was the same on both passes, as far as the checksum tells. */
  predicate Completes(c: Call) {
    c.Update? ==> Crc.Crc32(c.q.first) == Crc.Crc32(c.q.second)
  }

  predicate AllTyped(calls: seq<Call>) {
    forall i :: 0 <= i < |calls| ==> calls[i].Typed()
  }

  predicate AllComplete(calls: seq<Call>) {
    forall i :: 0 <= i < |calls| ==> Completes(calls[i])
  }

  lemma PlanShape(r: Region, img: seq<byte>, q: Request)
    requires Holds(r, img) && q.Typed() && KeyOk(q.ns, q.key) && PlanWrite(r, Slots(r, img), q).Commit?
    ensures var plan := PlanWrite(r, Slots(r, img), q);
      Committing(r, img, plan.k, plan.e, q.second) && NameOf(plan.e) == q.Target()
  {
    hide PlanWrite, Slots;
    SlotsWellFormed(r, img);
    PlanAdmissible(r, Slots(r, img), q);
  }

  /** The durable image once a completed call has returned. */
  ghost function After(r: Region, img: seq<byte>, c: Call): (next: seq<byte>)
    requires Holds(r, img) && c.Typed()
    ensures Holds(r, next)
  {
    match c
    case Update(q) =>
      if KeyOk(q.ns, q.key) && PlanWrite(r, Slots(r, img), q).Commit? then
        var plan := PlanWrite(r, Slots(r, img), q);
        PlanShape(r, img, q);
        Final(r, img, plan.k, plan.e, q.second)
      else img
    case Remove(ns, key) =>
      if KeyOk(ns, key) && c.Target() in Names(Slots(r, img))
      then WithSlot(r, img, SlotOf(Slots(r, img), c.Target()), Zeros(ENTRY_SIZE))
      else img
  }

  ghost function AfterAll(r: Region, img: seq<byte>, calls: seq<Call>): (last: seq<byte>)
    requires Holds(r, img) && AllTyped(calls)
    ensures Holds(r, last)
    decreases |calls|
  {
    if calls == [] then img else AfterAll(r, After(r, img, calls[0]), calls[1..])
  }

  // ---------- counting and extents ----------

  ghost function NamesUpTo(slots: seq<Slot>, n: nat): set<Name>
    requires n <= |slots|
  {
    set i | 0 <= i < n && Visible(slots, i) :: NameOf(slots[i].e)
  }

  predicate AllOccupied(slots: seq<Slot>, n: nat)
    requires n <= |slots|
  {
    forall i :: 0 <= i < n ==> slots[i].Occupied?
  }

  lemma NamesStep(slots: seq<Slot>, n: nat)
    requires n < |slots| && TidySlots(slots)
    ensures slots[n].Occupied? ==> NameOf(slots[n].e) !in NamesUpTo(slots, n)
    ensures NamesUpTo(slots, n + 1) == NamesUpTo(slots, n) + (if slots[n].Occupied? then {NameOf(slots[n].e)} else {})
  {
    if slots[n].Occupied? {
      assert Visible(slots, n);
      forall i | 0 <= i < n && Visible(slots, i) ensures NameOf(slots[i].e) != NameOf(slots[n].e) {
        UsableDisjoint(slots, i, n);
      }
    }
  }

  lemma NoNames(slots: seq<Slot>)
    ensures NamesUpTo(slots, 0) == {}
  {
  }

  /** In a tidy directory there are as many names as occupied slots. */
  lemma {:induction false} NamesCount(slots: seq<Slot>, n: nat)
    requires n <= |slots| && TidySlots(slots)
    ensures |NamesUpTo(slots, n)| <= n
    ensures |NamesUpTo(slots, n)| == n <==> AllOccupied(slots, n)
  {
    hide TidySlots, NamesUpTo;
    if n == 0 {
      NoNames(slots);
    } else {
      NamesCount(slots, n - 1);
      NamesStep(slots, n - 1);
    }
  }

  lemma FullSlots(slots: seq<Slot>)
    requires TidySlots(slots)
    ensures FirstFree(slots).None? <==> |Names(slots)| == |slots|
  {
    hide Usable;
    NamesCount(slots, |slots|);
    assert NamesUpTo(slots, |slots|) == Names(slots);
  }

  /** No slot is free exactly when the map has one name to a slot. */
  lemma FullMeans(r: Region, img: seq<byte>)
    requires Tidy(r, img)
    ensures FirstFree(Slots(r, img)).None? <==> |ViewOf(r, img)| == r.slots
  {
    FullSlots(Slots(r, img));
    assert ViewOf(r, img).Keys == Names(Slots(r, img));
  }

  /** The map lists the entries of the visible slots. */
  ghost predicate Lists(slots: seq<Slot>, m: View) {
    && (forall i :: 0 <= i < |slots| && Visible(slots, i) ==> NameOf(slots[i].e) in m && m[NameOf(slots[i].e)].e == slots[i].e)
    && (forall n :: n in m ==> exists i :: 0 <= i < |slots| && VisibleAs(slots, i, n))
  }

  lemma ViewLists(r: Region, img: seq<byte>)
    requires Holds(r, img)
    ensures Lists(Slots(r, img), ViewOf(r, img))
  {
    hide Slots, ViewOf, DataBytes;
    forall i | 0 <= i < r.slots && Visible(Slots(r, img), i)
      ensures NameOf(Slots(r, img)[i].e) in ViewOf(r, img) && ViewOf(r, img)[NameOf(Slots(r, img)[i].e)].e == Slots(r, img)[i].e
    {
      ViewHas(r, img, i);
    }
    forall n | n in ViewOf(r, img) ensures exists i :: 0 <= i < r.slots && VisibleAs(Slots(r, img), i, n) {
      ViewOnly(r, img, n);
    }
  }

  lemma ListedExtents(slots: seq<Slot>, m: View)
    requires TidySlots(slots) && Lists(slots, m)
    ensures Taken(slots) == Extents(m)
  {
    hide Lists, TidySlots, Usable;
    forall t | t in Taken(slots) ensures t in Extents(m) {
      TakenListed(slots, m, t);
    }
    forall n | n in m ensures Range(m[n].e.offset, m[n].e.offset + m[n].e.capacity) in Taken(slots) {
      ListedTaken(slots, m, n);
    }
  }

  lemma TakenListed(slots: seq<Slot>, m: View, t: Range)
    requires TidySlots(slots) && Lists(slots, m) && t in Taken(slots)
    ensures t in Extents(m)
  {
    TidyVisible(slots);
    hide TidySlots, Usable;
    var i :| 0 <= i < |slots| && Usable(slots, i) && t == Range(slots[i].e.offset, slots[i].e.offset + slots[i].e.capacity);
  }

  lemma TidyVisible(slots: seq<Slot>)
    requires TidySlots(slots)
    ensures forall i :: 0 <= i < |slots| && Usable(slots, i) ==> slots[i].Occupied? && Visible(slots, i)
  {
  }

  lemma ListedTaken(slots: seq<Slot>, m: View, n: Name)
    requires Lists(slots, m) && n in m
    ensures Range(m[n].e.offset, m[n].e.offset + m[n].e.capacity) in Taken(slots)
  {
    var i :| 0 <= i < |slots| && VisibleAs(slots, i, n);
  }

  // ---------- one call refines the abstract step ----------

  function VerdictOf(plan: Plan): Verdict {
    if plan.Reject? then Refused(plan.error) else Accepted(plan.e)
  }

  /** The decision depends on the map alone: same refusals, same entry. */
  lemma DecisionRefines(r: Region, img: seq<byte>, q: Request)
    requires Tidy(r, img)
    ensures VerdictOf(PlanWrite(r, Slots(r, img), q)) == SpecWrite(r, ViewOf(r, img), q)
  {
    hide Slots, Usable, LowestFit, Taken, Extents, FirstFree;
    var slots, n := Slots(r, img), q.Target();
    if n in ViewOf(r, img) {
      ViewHas(r, img, SlotOf(slots, n));
    } else {
      FullMeans(r, img);
      ViewLists(r, img);
      ListedExtents(slots, ViewOf(r, img));
    }
  }

  lemma KeepsTidy(slots: seq<Slot>, k: nat, b: Slot)
    requires k < |slots| && TidySlots(slots)
    requires b.Occupied? ==> b.e.state == ACTIVE && Usable(slots[k := b], k)
    requires !b.Malformed? && (Discreet(slots[k], b) || slots[k].Free?)
    ensures TidySlots(slots[k := b])
  {
    CleanMeans(slots);
    var after := slots[k := b];
    CleanMeans(after);
    forall i, j | 0 <= i < j < |slots| ensures !Conflict(after[i], after[j]) {
      if i != k && j != k {
        assert !Conflict(slots[i], slots[j]);
      } else if b.Occupied? {
        KeepsClear(slots, k, b, if i == k then j else i);
        ConflictSymmetric(after[i], after[j]);
      }
    }
  }

  /** A usable newcomer clashes with nobody in a directory that was clean. */
  lemma KeepsClear(slots: seq<Slot>, k: nat, b: Slot, i: nat)
    requires k < |slots| && i < |slots| && i != k && Clean(slots) && b.Occupied?
    requires Usable(slots[k := b], k) && (Discreet(slots[k], b) || slots[k].Free?)
    ensures !Conflict(b, slots[i])
  {
    if slots[k].Free? {
      FillFree(slots, k, b.e);
      if slots[i].Occupied? {
        assert !Clash(slots[i].e, b.e);
      }
    } else if Conflict(b, slots[i]) {
      DiscreetConflict(slots[k], b, slots[i]);
      UsableDisjoint(slots, k, i);
    }
  }

  /** A completed commit of a name that can be shown: the slot holds the entry, the reader sees the
      new object. */
  lemma CommitShown(r: Region, img: seq<byte>, k: nat, e: Entry, data: seq<byte>)
    requires Committing(r, img, k, e, data) && CanShow(r, img, NameOf(e))
    ensures var next := Final(r, img, k, e, data);
      && Slots(r, next) == Slots(r, img)[k := Occupied(e)] && Visible(Slots(r, next), k)
      && ViewOf(r, next) == ViewOf(r, img)[NameOf(e) := Object(e, data)]
  {
    hide Print, Slots, ViewOf, CanShow, During, Final, Usable;
    PrintParse(r, e);
    FinalDuring(r, img, k, e, data);
    FinalShown(r, img, k, e);
    ShowsActive(r, img, k, e, Final(r, img, k, e, data));
    StepTaken(r, img, k, e, Final(r, img, k, e, data));
    StepSeen(r, img, k, e);
  }

  lemma StepSeen(r: Region, img: seq<byte>, k: nat, e: Entry)
    requires Holds(r, img) && Admissible(r, Slots(r, img), k, e) && !Spoiled(r, img, k, e)
    ensures Visible(Slots(r, img), k) || ClearOf(Slots(r, img), e)
  {
    hide Slots, Usable;
    if !Visible(Slots(r, img), k) {
      ClearUnlessStale(Slots(r, img), e);
    }
  }

  lemma TidyShows(r: Region, img: seq<byte>, n: Name)
    requires Tidy(r, img)
    ensures CanShow(r, img, n)
  {
  }

  lemma UpdateRefines(r: Region, img: seq<byte>, q: Request)
    requires Tidy(r, img) && q.Typed()
    ensures Tidy(r, After(r, img, Update(q)))
    ensures ViewOf(r, After(r, img, Update(q))) == SpecAfter(r, ViewOf(r, img), Update(q))
  {
    hide Slots, ViewOf, Usable, PlanWrite, SpecWrite, CanShow, Final, KeyOk;
    DecisionRefines(r, img, q);
    if KeyOk(q.ns, q.key) && PlanWrite(r, Slots(r, img), q).Commit? {
      var plan := PlanWrite(r, Slots(r, img), q);
      PlanShape(r, img, q);
      TidyShows(r, img, q.Target());
      CommitShown(r, img, plan.k, plan.e, q.second);
      AdmissibleTidy(Slots(r, img), r, plan.k, plan.e);
    }
  }

  lemma AdmissibleTidy(slots: seq<Slot>, r: Region, k: nat, e: Entry)
    requires TidySlots(slots) && Admissible(r, slots, k, e) && e.state == ACTIVE
    requires Visible(slots[k := Occupied(e)], k)
    ensures TidySlots(slots[k := Occupied(e)])
  {
    KeepsTidy(slots, k, Occupied(e));
  }

  lemma RemoveRefines(r: Region, img: seq<byte>, ns: nat, key: seq<byte>)
    requires Tidy(r, img) && NulFree(key)
    ensures Tidy(r, After(r, img, Remove(ns, key)))
    ensures ViewOf(r, After(r, img, Remove(ns, key))) == SpecAfter(r, ViewOf(r, img), Remove(ns, key))
  {
    hide Slots, Usable, KeyOk, WithSlot;
    var slots, n := Slots(r, img), Name(ns, Fold(key));
    if KeyOk(ns, key) && n in Names(slots) {
      var k := SlotOf(slots, n);
      ShowsDeleted(r, img, k, Zeros(ENTRY_SIZE));
      KeepsTidy(slots, k, Free);
    }
    if n !in Names(slots) {
      DropThenPut(ViewOf(r, img), n, Object(Entry(0, 0, [], 0, 0, 0, 0, 0, 0), []));
    }
  }

  /** Any run of completed calls: the region stays tidy, and the reader sees exactly the map the
      abstract store computes. */
  lemma {:induction false} RunRefines(r: Region, img: seq<byte>, calls: seq<Call>)
    requires Tidy(r, img) && AllTyped(calls) && AllComplete(calls)
    ensures Tidy(r, AfterAll(r, img, calls))
    ensures ViewOf(r, AfterAll(r, img, calls)) == SpecRun(r, ViewOf(r, img), calls)
    decreases |calls|
  {
    hide TidySlots, ViewOf, After, SpecAfter;
    if calls != [] {
      CallRefines(r, img, calls[0]);
      RunRefines(r, After(r, img, calls[0]), calls[1..]);
    }
  }

  lemma CallRefines(r: Region, img: seq<byte>, c: Call)
    requires Tidy(r, img) && c.Typed()
    ensures Tidy(r, After(r, img, c))
    ensures ViewOf(r, After(r, img, c)) == SpecAfter(r, ViewOf(r, img), c)
  {
    hide ViewOf, After, SpecAfter, TidySlots;
    if c.Update? {
      UpdateRefines(r, img, c.q);
    } else {
      RemoveRefines(r, img, c.ns, c.key);
    }
  }

  // ---------- the region the container writer emits ----------

  lemma BlankOpens(r: Region, img: seq<byte>)
    requires Holds(r, img) && r.slots < U32 && img[r.base..r.base + r.size] == RegionHeader.Blank(r.slots, r.size)
    ensures Placed(r.base, r.size, |img|) && r.size != 0 && RegionOf(img, r.base, r.size) == Some(r)
  {
    hide RegionHeader.Print, RegionHeader.Open;
    var b := RegionHeader.Blank(r.slots, r.size);
    SubSlice(img, r.base, 0, HEADER_SIZE, r.base + r.size);
    assert b[..HEADER_SIZE] == RegionHeader.Print(RegionHeader.Describe(r.slots, r.size));
    RegionHeader.PrintOpens(r);
  }

  lemma BlankSlot(r: Region, img: seq<byte>, i: nat)
    requires Holds(r, img) && i < r.slots && img[r.base..r.base + r.size] == RegionHeader.Blank(r.slots, r.size)
    ensures Slots(r, img)[i] == Free
  {
    hide RegionHeader.Print;
    SlotInside(r, i);
    var at := SlotOffset(r, i) - r.base;
    SubSlice(img, r.base, at, at + ENTRY_SIZE, r.base + r.size);
    assert AllZero(RegionHeader.Blank(r.slots, r.size)[at..at + ENTRY_SIZE]);
  }

  /** An empty region as the writer emits it opens, is tidy, and shows nothing. */
  lemma BlankIsEmpty(r: Region, img: seq<byte>)
    requires Holds(r, img) && r.slots < U32 && img[r.base..r.base + r.size] == RegionHeader.Blank(r.slots, r.size)
    ensures Placed(r.base, r.size, |img|) && r.size != 0 && RegionOf(img, r.base, r.size) == Some(r)
    ensures Tidy(r, img) && ViewOf(r, img) == map[]
  {
    hide RegionHeader.Print, RegionHeader.Open, RegionHeader.Blank, Usable;
    BlankOpens(r, img);
    forall i | 0 <= i < r.slots ensures Slots(r, img)[i] == Free {
      BlankSlot(r, img, i);
    }
    NothingShown(Slots(r, img));
    assert ViewOf(r, img).Keys == Names(Slots(r, img));
  }

  lemma NothingShown(slots: seq<Slot>)
    requires forall i :: 0 <= i < |slots| ==> slots[i] == Free
    ensures TidySlots(slots) && Names(slots) == {}
  {
  }

  /** From an empty region every run of completed calls refines the abstract store from the empty
      map on. */
  lemma FreshRunRefines(r: Region, img: seq<byte>, calls: seq<Call>)
    requires Holds(r, img) && r.slots < U32 && img[r.base..r.base + r.size] == RegionHeader.Blank(r.slots, r.size)
    requires AllTyped(calls) && AllComplete(calls)
    ensures Tidy(r, AfterAll(r, img, calls)) && ViewOf(r, AfterAll(r, img, calls)) == SpecRun(r, map[], calls)
  {
    hide RegionHeader.Blank, TidySlots, ViewOf, AfterAll, SpecRun;
    BlankIsEmpty(r, img);
    RunRefines(r, img, calls);
  }

  /** What a completed write stored is what the next lookup returns. */
  lemma ReadBack(r: Region, img: seq<byte>, q: Request)
    requires Holds(r, img) && q.Typed() && Completes(Update(q)) && KeyOk(q.ns, q.key)
    requires PlanWrite(r, Slots(r, img), q).Commit? && CanShow(r, img, q.Target())
    ensures Lookup(ViewOf(r, After(r, img, Update(q))), q.Target()) ==
            Present(Object(PlanWrite(r, Slots(r, img), q).e, q.second))
  {
    hide Slots, ViewOf, Usable, CanShow, Final, KeyOk, Visible;
    var plan := PlanWrite(r, Slots(r, img), q);
    PlanShape(r, img, q);
    PlanCrc(r, Slots(r, img), q);
    CommitShown(r, img, plan.k, plan.e, q.second);
  }
}
