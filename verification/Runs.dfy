/** Whole runs of the store: any number of write and delete calls, each completed or cut short by a
    crash at any moment and followed by a reopen. */
module Runs {
  import opened Bytes
  import opened Paths
  import opened Entries
  import opened Directory
  import opened Objects
  import opened Commits
  import opened CrashSafe
  import opened Store
  import opened Protocol
  import Disk

  datatype Call = Update(q: Request) | Remove(ns: nat, key: seq<byte>) {
    predicate Typed() {
      if Update? then q.Typed() else NulFree(key)
    }

    function Target(): Name {
      if Update? then q.Target() else Name(ns, Fold(key))
    }
  }

  // ---------- one call ----------

  /** The image a call may leave behind, whether it runs to its end or a crash cuts it short. */
  ghost predicate Leads(r: Region, img: seq<byte>, c: Call, next: seq<byte>)
    requires Holds(r, img)
  {
    match c
    case Update(q) =>
      if KeyOk(q.ns, q.key) && PlanWrite(r, Slots(r, img), q).Commit? then
        var plan := PlanWrite(r, Slots(r, img), q);
        Survives(r, img, plan.k, q.Target(), Object(plan.e, q.second), next)
      else next == img
    case Remove(ns, key) =>
      if KeyOk(ns, key) && c.Target() in ViewOf(r, img) then
        Survives(r, img, SlotOf(Slots(r, img), c.Target()), c.Target(), ViewOf(r, img)[c.Target()], next)
      else next == img
  }

  /** Every crash during or after a write call leaves an image the call may lead to. */
  lemma WriteLeads(img: seq<byte>, base: nat, size: nat, q: Request, chunk: nat, history: seq<Disk.Moment>, before: nat)
    requires q.Typed() && Placed(base, size, |img|) && Decide(img, base, size, q, chunk).Commit?
    requires var r := RegionOf(img, base, size).value; var plan := Decide(img, base, size, q, chunk);
      SafeSince(history, before, Safety(r, img, plan.k, q.Target(), Object(plan.e, q.second)))
    ensures var r := RegionOf(img, base, size).value;
      forall t, next :: before <= t < |history| && Disk.CrashImage(history[t], next) ==> Leads(r, img, Update(q), next)
  {
    hide Survives, PlanWrite, Disk.CrashImage, KeyOk;
    var r, plan := RegionOf(img, base, size).value, Decide(img, base, size, q, chunk);
    forall t, next | before <= t < |history| && Disk.CrashImage(history[t], next)
      ensures Leads(r, img, Update(q), next)
    {
      assert MomentSafe(history[t], Safety(r, img, plan.k, q.Target(), Object(plan.e, q.second)));
    }
  }

  lemma DeleteLeads(img: seq<byte>, base: nat, size: nat, ns: nat, key: seq<byte>, history: seq<Disk.Moment>, before: nat)
    requires NulFree(key) && Placed(base, size, |img|) && DecideDelete(img, base, size, ns, key).Commit?
    requires var r := RegionOf(img, base, size).value; var n := Name(ns, Fold(key));
      Holds(r, img) && n in ViewOf(r, img) &&
      SafeSince(history, before, Safety(r, img, DecideDelete(img, base, size, ns, key).k, n, ViewOf(r, img)[n]))
    ensures var r := RegionOf(img, base, size).value;
      forall t, next :: before <= t < |history| && Disk.CrashImage(history[t], next) ==> Leads(r, img, Remove(ns, key), next)
  {
    hide Disk.CrashImage, KeyOk, ViewOf, Slots, RegionOf, Fold, MomentSafe, Leads, Safety;
    var r, n := RegionOf(img, base, size).value, Name(ns, Fold(key));
    var k := DecideDelete(img, base, size, ns, key).k;
    forall t, next | before <= t < |history| && Disk.CrashImage(history[t], next)
      ensures Leads(r, img, Remove(ns, key), next)
    {
      assert MomentSafe(history[t], Safety(r, img, k, n, ViewOf(r, img)[n]));
      RemoveLeads(r, img, ns, key, history[t], next);
    }
  }

  lemma RemoveLeads(r: Region, img: seq<byte>, ns: nat, key: seq<byte>, m: Disk.Moment, next: seq<byte>)
    requires Holds(r, img) && KeyOk(ns, key) && Name(ns, Fold(key)) in ViewOf(r, img)
    requires var n := Name(ns, Fold(key)); MomentSafe(m, Safety(r, img, SlotOf(Slots(r, img), n), n, ViewOf(r, img)[n]))
    requires Disk.CrashImage(m, next)
    ensures Leads(r, img, Remove(ns, key), next)
  {
    hide Survives, Disk.CrashImage, KeyOk, ViewOf, Slots, Fold;
  }

  /** The slot a call touches is visible or free; every other slot keeps its entry. */
  lemma TouchedSlot(r: Region, img: seq<byte>, c: Call, next: seq<byte>) returns (k: nat)
    requires Holds(r, img) && c.Typed() && Leads(r, img, c, next)
    ensures Holds(r, next) && OthersKept(r, img, next, k)
    ensures k < r.slots ==> Visible(Slots(r, img), k) || Slots(r, img)[k].Free?
  {
    hide OthersKept, Usable;
    SlotsWellFormed(r, img);
    if c.Update? && KeyOk(c.q.ns, c.q.key) && PlanWrite(r, Slots(r, img), c.q).Commit? {
      k := PlanWrite(r, Slots(r, img), c.q).k;
      PlanAdmissible(r, Slots(r, img), c.q);
    } else if c.Remove? && KeyOk(c.ns, c.key) && c.Target() in ViewOf(r, img) {
      k := SlotOf(Slots(r, img), c.Target());
    } else {
      k := r.slots;
      NothingTouched(r, img);
    }
  }

  lemma NothingTouched(r: Region, img: seq<byte>)
    requires Holds(r, img)
    ensures OthersKept(r, img, img, r.slots)
  {
  }

  /** What a reader sees after a call. */
  lemma LeadsView(r: Region, img: seq<byte>, c: Call, next: seq<byte>)
    requires Holds(r, img) && Leads(r, img, c, next)
    ensures Holds(r, next) && AgreeOutside(img, next, r.base + HEADER_SIZE, r.base + r.size)
    ensures ViewOf(r, next) == ViewOf(r, img) || ViewOf(r, next) == Drop(ViewOf(r, img), c.Target()) ||
            (c.Update? && CanShow(r, img, c.Target()) && PlanWrite(r, Slots(r, img), c.q).Commit? &&
             ViewOf(r, next) == ViewOf(r, img)[c.Target() := Object(PlanWrite(r, Slots(r, img), c.q).e, c.q.second)])
  {
    hide ViewOf, Slots, PlanWrite, OthersKept, CanShow;
    if c.Remove? && c.Target() in ViewOf(r, img) {
      SameAgain(ViewOf(r, img), c.Target());
    }
  }

  lemma SameAgain(v: View, n: Name)
    requires n in v
    ensures v[n := v[n]] == v
  {
  }

  // ---------- runs ----------

  /** A run: one image before each call and one after the last. */
  ghost predicate Run(r: Region, imgs: seq<seq<byte>>, calls: seq<Call>) {
    && |imgs| == |calls| + 1
    && Holds(r, imgs[0])
    && forall i :: 0 <= i < |calls| ==> Holds(r, imgs[i]) && calls[i].Typed() && Leads(r, imgs[i], calls[i], imgs[i + 1])
  }

  lemma RunInit(r: Region, imgs: seq<seq<byte>>, calls: seq<Call>)
    requires Run(r, imgs, calls) && calls != []
    ensures var n := |calls| - 1;
      Run(r, imgs[..n + 1], calls[..n]) && Holds(r, imgs[n]) && calls[n].Typed() && Leads(r, imgs[n], calls[n], imgs[n + 1])
  {
    hide Leads;
  }

  /** A run never leaves the slots and the data area: what lies outside, the region's own header
      included, is untouched, so reopening finds the same region. */
  lemma {:induction false} RunStaysInside(r: Region, imgs: seq<seq<byte>>, calls: seq<Call>)
    requires Run(r, imgs, calls)
    ensures Holds(r, imgs[|calls|]) && AgreeOutside(imgs[0], imgs[|calls|], r.base + HEADER_SIZE, r.base + r.size)
    ensures Placed(r.base, r.size, |imgs[0]|) && r.size != 0
    ensures RegionOf(imgs[|calls|], r.base, r.size) == RegionOf(imgs[0], r.base, r.size)
    decreases |calls|
  {
    hide Leads;
    if calls != [] {
      var n := |calls| - 1;
      RunInit(r, imgs, calls);
      RunStaysInside(r, imgs[..n + 1], calls[..n]);
      LeadsView(r, imgs[n], calls[n], imgs[n + 1]);
    }
    SameSlices(imgs[0], imgs[|calls|], r.base, r.base + HEADER_SIZE);
  }

  /** The object is exactly what the call was asked to store under that name. */
  ghost predicate StoredBy(c: Call, n: Name, o: Object) {
    && c.Update? && c.Target() == n && o.bytes == c.q.second
    && o.e.key == c.q.key && o.e.ns == c.q.ns && o.e.modified == c.q.modified && o.e.size == |c.q.first|
  }

  lemma PlanStores(r: Region, slots: seq<Slot>, q: Request)
    requires PlanWrite(r, slots, q).Commit?
    ensures StoredBy(Update(q), q.Target(), Object(PlanWrite(r, slots, q).e, q.second))
  {
  }

  /** Nothing a reader finds is ever made up: each object is one the region started with, whole, or
      one that some call of the run stored, whole. */
  lemma {:induction false} NothingFabricated(r: Region, imgs: seq<seq<byte>>, calls: seq<Call>, n: Name)
    requires Run(r, imgs, calls)
    ensures Holds(r, imgs[|calls|])
    ensures n in ViewOf(r, imgs[|calls|]) ==>
      (n in ViewOf(r, imgs[0]) && ViewOf(r, imgs[0])[n] == ViewOf(r, imgs[|calls|])[n]) ||
      exists i :: 0 <= i < |calls| && StoredBy(calls[i], n, ViewOf(r, imgs[|calls|])[n])
    decreases |calls|
  {
    hide Leads, ViewOf, CanShow, PlanWrite, StoredBy;
    if calls != [] {
      var m := |calls| - 1;
      RunInit(r, imgs, calls);
      NothingFabricated(r, imgs[..m + 1], calls[..m], n);
      LeadsView(r, imgs[m], calls[m], imgs[m + 1]);
      if calls[m].Update? && PlanWrite(r, Slots(r, imgs[m]), calls[m].q).Commit? {
        PlanStores(r, Slots(r, imgs[m]), calls[m].q);
      }
      var o := ViewOf(r, imgs[m + 1]);
      if n in o && n in ViewOf(r, imgs[m]) && o[n] == ViewOf(r, imgs[m])[n] {
        if i :| 0 <= i < m && StoredBy(calls[..m][i], n, o[n]) {
          assert StoredBy(calls[i], n, o[n]);
        }
      }
    }
  }

  /** A name no call of the run is about is visible throughout or not at all, with the same object. */
  lemma {:induction false} OthersUntouched(r: Region, imgs: seq<seq<byte>>, calls: seq<Call>, n: Name)
    requires Run(r, imgs, calls) && forall i :: 0 <= i < |calls| ==> calls[i].Target() != n
    ensures Holds(r, imgs[|calls|])
    ensures n in ViewOf(r, imgs[|calls|]) <==> n in ViewOf(r, imgs[0])
    ensures n in ViewOf(r, imgs[0]) ==> ViewOf(r, imgs[|calls|])[n] == ViewOf(r, imgs[0])[n]
    decreases |calls|
  {
    hide Leads, ViewOf, CanShow, PlanWrite;
    if calls != [] {
      var m := |calls| - 1;
      RunInit(r, imgs, calls);
      OthersUntouched(r, imgs[..m + 1], calls[..m], n);
      LeadsView(r, imgs[m], calls[m], imgs[m + 1]);
    }
  }

  // ---------- quarantine ----------

  ghost predicate Quarantined(slots: seq<Slot>, i: nat) {
    i < |slots| && slots[i].Occupied? && !Usable(slots, i)
  }

  /** A quarantined slot keeps its entry and stays quarantined through every run. */
  lemma {:induction false} QuarantineForever(r: Region, imgs: seq<seq<byte>>, calls: seq<Call>, i: nat)
    requires Run(r, imgs, calls) && Quarantined(Slots(r, imgs[0]), i)
    ensures Holds(r, imgs[|calls|])
    ensures Quarantined(Slots(r, imgs[|calls|]), i) && Slots(r, imgs[|calls|])[i] == Slots(r, imgs[0])[i]
    decreases |calls|
  {
    hide Leads, Slots, Quarantined;
    if calls != [] {
      var m := |calls| - 1;
      RunInit(r, imgs, calls);
      QuarantineForever(r, imgs[..m + 1], calls[..m], i);
      QuarantineKept(r, imgs[m], calls[m], imgs[m + 1], i);
    }
  }

  lemma QuarantineKept(r: Region, img: seq<byte>, c: Call, next: seq<byte>, i: nat)
    requires Holds(r, img) && c.Typed() && Leads(r, img, c, next) && Quarantined(Slots(r, img), i)
    ensures Holds(r, next) && Quarantined(Slots(r, next), i) && Slots(r, next)[i] == Slots(r, img)[i]
  {
    hide Leads, Slots, Usable;
    var k := TouchedSlot(r, img, c, next);
  }

  // ---------- stuck names ----------

  /** An unfinished entry bears the name and no reader sees it. */
  ghost predicate Stuck(r: Region, img: seq<byte>, n: Name)
    requires Holds(r, img)
  {
    n !in ViewOf(r, img) && StaleName(Slots(r, img), n)
  }

  lemma StaleStays(s: seq<Slot>, t: seq<Slot>, k: nat, n: Name)
    requires |s| == |t| && forall i :: 0 <= i < |s| && i != k ==> s[i] == t[i]
    requires k < |s| ==> Visible(s, k) || s[k].Free?
    requires StaleName(s, n)
    ensures StaleName(t, n)
  {
    hide Usable;
    var i :| 0 <= i < |s| && s[i].Occupied? && s[i].e.state != ACTIVE && NameOf(s[i].e) == n;
    assert t[i] == s[i];
  }

  lemma StaleKept(r: Region, img: seq<byte>, c: Call, next: seq<byte>, n: Name)
    requires Holds(r, img) && c.Typed() && Leads(r, img, c, next) && StaleName(Slots(r, img), n)
    ensures Holds(r, next) && StaleName(Slots(r, next), n)
  {
    hide Leads, Usable, Slots, StaleName, Visible;
    var k := TouchedSlot(r, img, c, next);
    StaleStays(Slots(r, img), Slots(r, next), k, n);
  }

  /** A stuck name is never seen again: no run of writes and deletes, whatever crashes interrupt
      it, makes an object of that name visible. */
  lemma {:induction false} StuckForever(r: Region, imgs: seq<seq<byte>>, calls: seq<Call>, n: Name)
    requires Run(r, imgs, calls) && Stuck(r, imgs[0], n)
    ensures Holds(r, imgs[|calls|]) && Stuck(r, imgs[|calls|], n)
    decreases |calls|
  {
    hide Leads, ViewOf, StaleName, PlanWrite;
    if calls != [] {
      var m := |calls| - 1;
      RunInit(r, imgs, calls);
      StuckForever(r, imgs[..m + 1], calls[..m], n);
      LeadsView(r, imgs[m], calls[m], imgs[m + 1]);
      StaleKept(r, imgs[m], calls[m], imgs[m + 1], n);
    }
  }
}
