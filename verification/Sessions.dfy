/** A sequence of calls made one after another on the same open file: what it leaves in the file, and
    what a crash at any moment of it leaves on the medium. */
module Sessions {
  import opened Bytes
  import opened Objects
  import opened Commits
  import opened CrashSafe
  import opened Disk
  import opened Store
  import opened Protocol
  import opened Runs
  import opened Refinement
  import opened Paths
  import opened Entries
  import Crc
  import RegionHeader

  /** The file holds a region at this place, and nothing harmful is pending. */
  ghost predicate Ready(m: Moment, r: Region) {
    && Settled(m, r.base, r.size) && r.size != 0 && Placed(r.base, r.size, |m.durable|)
    && RegionOf(Current(m), r.base, r.size) == Some(r)
  }

  lemma ReadyHolds(m: Moment, r: Region)
    requires Ready(m, r)
    ensures InRange(|m.durable|, m.pending) && Holds(r, Current(m))
  {
    hide RegionOf, Current;
    RegionHolds(Current(m), r.base, r.size);
  }

  /** Every crash at one of the moments leaves an image the call may lead to. */
  ghost predicate CrashesLead(history: seq<Moment>, before: nat, r: Region, img: seq<byte>, c: Call)
    requires Holds(r, img)
  {
    forall t, next :: before <= t < |history| && CrashImage(history[t], next) ==> Leads(r, img, c, next)
  }

  /** One call, whichever it is. */
  method MakeCall(file: File, r: Region, c: Call, chunk: nat) returns (outcome: Outcome)
    requires file.Valid() && Ready(file.Now(), r) && c.Typed()
    modifies file
    ensures file.Valid() && Ready(file.Now(), r) && old(file.history) <= file.history
    ensures Holds(r, old(file.Contents())) && Leads(r, old(file.Contents()), c, file.Contents())
    ensures CrashesLead(file.history, |old(file.history)|, r, old(file.Contents()), c)
    ensures Completes(c) && chunk >= MIN_CHUNK ==> file.Contents() == After(r, old(file.Contents()), c)
  {
    ReadyHolds(file.Now(), r);
    match c {
      case Update(q) => outcome := MakeUpdate(file, r, q, chunk);
      case Remove(ns, key) => outcome := MakeRemove(file, r, ns, key);
    }
  }

  method MakeUpdate(file: File, r: Region, q: Request, chunk: nat) returns (outcome: Outcome)
    requires file.Valid() && Ready(file.Now(), r) && q.Typed()
    modifies file
    ensures file.Valid() && Ready(file.Now(), r) && old(file.history) <= file.history
    ensures Holds(r, old(file.Contents())) && Leads(r, old(file.Contents()), Update(q), file.Contents())
    ensures CrashesLead(file.history, |old(file.history)|, r, old(file.Contents()), Update(q))
    ensures Completes(Update(q)) && chunk >= MIN_CHUNK ==> file.Contents() == After(r, old(file.Contents()), Update(q))
  {
    hide Survives, PlanWrite, RegionOf, Current, Final, KeyOk, Crc.Crc32, Settled, Placed, CrashImage, Committing;
    ghost var start, h0 := file.Contents(), file.history;
    ReadyHolds(file.Now(), r);
    outcome := MutableWrite(file, r.base, r.size, q, chunk);
    CurrentSynced(file.durable);
    if Decide(start, r.base, r.size, q, chunk).Commit? {
      WriteLeads(start, r.base, r.size, q, chunk, file.history, |h0|);
      SurvivesRegion(r, start, Decide(start, r.base, r.size, q, chunk).k, q.Target(),
                     Object(Decide(start, r.base, r.size, q, chunk).e, q.second), file.Contents());
    } else {
      RejectedLeads(r, start, q);
    }
  }

  /** A call refused for its arguments leaves what any call may leave: the image as it was. */
  lemma RejectedLeads(r: Region, start: seq<byte>, q: Request)
    requires Holds(r, start) && q.Typed()
    ensures Leads(r, start, Update(q), start)
  {
    hide PlanWrite, ViewOf, Slots, CanShow;
  }

  method MakeRemove(file: File, r: Region, ns: nat, key: seq<byte>) returns (outcome: Outcome)
    requires file.Valid() && Ready(file.Now(), r) && NulFree(key)
    modifies file
    ensures file.Valid() && Ready(file.Now(), r) && old(file.history) <= file.history
    ensures Holds(r, old(file.Contents())) && Leads(r, old(file.Contents()), Remove(ns, key), file.Contents())
    ensures CrashesLead(file.history, |old(file.history)|, r, old(file.Contents()), Remove(ns, key))
    ensures file.Contents() == After(r, old(file.Contents()), Remove(ns, key))
  {
    hide Survives, RegionOf, Current, KeyOk, Settled, Placed, CrashImage, WithSlot, ViewOf, Slots, SafeSince, Drop;
    ghost var start, h0 := file.Contents(), file.history;
    ReadyHolds(file.Now(), r);
    outcome := MutableDelete(file, r.base, r.size, ns, key);
    CurrentSynced(file.durable);
    ghost var plan := DecideDelete(start, r.base, r.size, ns, key);
    ghost var n := Name(ns, Fold(key));
    RemoveAfter(r, start, ns, key);
    if plan.Commit? {
      DeleteLeads(start, r.base, r.size, ns, key, file.history, |h0|);
      SurvivesRegion(r, start, plan.k, n, ViewOf(r, start)[n], file.Contents());
    }
  }

  /** What the decision of a delete means for what it leads to. */
  lemma RemoveAfter(r: Region, start: seq<byte>, ns: nat, key: seq<byte>)
    requires Holds(r, start) && NulFree(key) && r.size != 0 && Placed(r.base, r.size, |start|)
    requires RegionOf(start, r.base, r.size) == Some(r)
    ensures var plan := DecideDelete(start, r.base, r.size, ns, key); var c := Remove(ns, key);
      && (plan.Reject? ==> After(r, start, c) == start && Leads(r, start, c, start))
      && (plan.Commit? ==>
            (plan.k < r.slots && After(r, start, c) == WithSlot(r, start, plan.k, Zeros(ENTRY_SIZE)) &&
             c.Target() in ViewOf(r, start) &&
             forall next ::
               Survives(r, start, plan.k, c.Target(), ViewOf(r, start)[c.Target()], next) ==> Leads(r, start, c, next)))
  {
    hide Survives, RegionOf, KeyOk, WithSlot, Slots, Visible;
  }

  /** The region is still there. */
  lemma SurvivesRegion(r: Region, start: seq<byte>, k: nat, n: Name, o: Object, img: seq<byte>)
    requires Holds(r, start) && Survives(r, start, k, n, o, img)
    requires r.size != 0 && Placed(r.base, r.size, |start|)
    ensures |img| == |start| && RegionOf(img, r.base, r.size) == RegionOf(start, r.base, r.size)
  {
    hide ViewOf, OthersKept, CanShow, RegionHeader.Open;
    SameSlices(start, img, r.base, r.base + HEADER_SIZE);
  }

  // ---------- many calls ----------

  lemma {:induction false} AfterLast(r: Region, img: seq<byte>, calls: seq<Call>, c: Call)
    requires Holds(r, img) && AllTyped(calls) && c.Typed()
    ensures AllTyped(calls + [c]) && AfterAll(r, img, calls + [c]) == After(r, AfterAll(r, img, calls), c)
    decreases |calls|
  {
    hide After;
    if calls == [] {
      assert [] + [c] == [c] && [c][1..] == [];
    } else {
      assert (calls + [c])[0] == calls[0] && (calls + [c])[1..] == calls[1..] + [c];
      AfterLast(r, After(r, img, calls[0]), calls[1..], c);
    }
  }

  /** Every crash at one of the moments leaves the last image of a run of some of the calls, the last
      of them cut short or not. */
  ghost predicate CrashesRun(history: seq<Moment>, before: nat, r: Region, imgs: seq<seq<byte>>, calls: seq<Call>) {
    forall t, next :: before <= t < |history| && CrashImage(history[t], next) ==> RunTo(r, imgs, calls, next)
  }

  ghost predicate RunTo(r: Region, imgs: seq<seq<byte>>, calls: seq<Call>, next: seq<byte>) {
    exists j :: CutAt(r, imgs, calls, j, next)
  }

  /** Call j was the last, and left next. */
  ghost predicate CutAt(r: Region, imgs: seq<seq<byte>>, calls: seq<Call>, j: nat, next: seq<byte>) {
    j < |calls| && j < |imgs| && Run(r, imgs[..j + 1] + [next], calls[..j + 1])
  }

  lemma RunMore(r: Region, imgs: seq<seq<byte>>, calls: seq<Call>, c: Call, next: seq<byte>)
    requires Run(r, imgs, calls) && c.Typed() && Holds(r, imgs[|calls|]) && Leads(r, imgs[|calls|], c, next)
    ensures Run(r, imgs + [next], calls + [c])
  {
    hide Leads;
  }

  /** One more call keeps the whole session's promise. */
  lemma CrashesMore(h1: seq<Moment>, h2: seq<Moment>, before: nat, r: Region, imgs: seq<seq<byte>>, calls: seq<Call>, c: Call,
                    next: seq<byte>)
    requires before <= |h1| && h1 <= h2 && CrashesRun(h1, before, r, imgs, calls)
    requires Run(r, imgs, calls) && c.Typed() && Holds(r, imgs[|calls|])
    requires CrashesLead(h2, |h1|, r, imgs[|calls|], c)
    ensures CrashesRun(h2, before, r, imgs + [next], calls + [c])
  {
    hide Leads, Run, CrashImage;
    forall t, img | before <= t < |h2| && CrashImage(h2[t], img) ensures RunTo(r, imgs + [next], calls + [c], img) {
      if t < |h1| {
        assert h2[t] == h1[t];
        RunToMore(r, imgs, calls, c, next, img);
      } else {
        RunMore(r, imgs, calls, c, img);
        RunSizes(r, imgs, calls);
        var j := |calls|;
        assert (imgs + [next])[..j + 1] == imgs && (calls + [c])[..j + 1] == calls + [c];
        assert CutAt(r, imgs + [next], calls + [c], j, img);
      }
    }
  }

  lemma RunSizes(r: Region, imgs: seq<seq<byte>>, calls: seq<Call>)
    requires Run(r, imgs, calls)
    ensures |imgs| == |calls| + 1
  {
  }

  lemma RunToMore(r: Region, imgs: seq<seq<byte>>, calls: seq<Call>, c: Call, next: seq<byte>, img: seq<byte>)
    requires RunTo(r, imgs, calls, img)
    ensures RunTo(r, imgs + [next], calls + [c], img)
  {
    hide Run;
    var j :| CutAt(r, imgs, calls, j, img);
    assert (imgs + [next])[..j + 1] == imgs[..j + 1] && (calls + [c])[..j + 1] == calls[..j + 1];
    assert CutAt(r, imgs + [next], calls + [c], j, img);
  }

  /** Makes the calls in order. Their images form a run, whatever their outcomes; a crash at any
      moment cuts that run short; and if every source kept its checksum the file ends up as the whole
      list of completed calls leaves it. */
  method MakeCalls(file: File, r: Region, calls: seq<Call>, chunk: nat) returns (outcomes: seq<Outcome>, ghost imgs: seq<seq<byte>>)
    requires file.Valid() && Ready(file.Now(), r) && AllTyped(calls)
    modifies file
    ensures file.Valid() && Ready(file.Now(), r) && old(file.history) <= file.history && |outcomes| == |calls|
    ensures Run(r, imgs, calls) && imgs[0] == old(file.Contents()) && imgs[|calls|] == file.Contents()
    ensures CrashesRun(file.history, |old(file.history)|, r, imgs, calls)
    ensures Holds(r, old(file.Contents()))
    ensures AllComplete(calls) && chunk >= MIN_CHUNK ==> file.Contents() == AfterAll(r, old(file.Contents()), calls)
  {
    hide Ready, Current, After, AfterAll, CrashesLead, CrashesRun, Leads, Completes;
    ghost var start, before := file.Contents(), |file.history|;
    ReadyHolds(file.Now(), r);
    outcomes, imgs := [], [start];
    SessionStarts(r, file.history, start);
    for i := 0 to |calls|
      invariant file.Valid() && Ready(file.Now(), r) && old(file.history) <= file.history && |outcomes| == i
      invariant AllTyped(calls[..i]) && Run(r, imgs, calls[..i]) && imgs[0] == start && imgs[i] == file.Contents()
      invariant CrashesRun(file.history, before, r, imgs, calls[..i])
      invariant AllComplete(calls[..i]) && chunk >= MIN_CHUNK ==> file.Contents() == AfterAll(r, start, calls[..i])
    {
      ghost var h1, from := file.history, file.Contents();
      ReadyHolds(file.Now(), r);
      var outcome := MakeCall(file, r, calls[i], chunk);
      outcomes := outcomes + [outcome];
      CrashesMore(h1, file.history, before, r, imgs, calls[..i], calls[i], file.Contents());
      RunMore(r, imgs, calls[..i], calls[i], file.Contents());
      AfterLast(r, start, calls[..i], calls[i]);
      imgs := imgs + [file.Contents()];
      assert calls[..i + 1] == calls[..i] + [calls[i]];
      CompleteLast(calls[..i], calls[i]);
    }
    assert calls[..|calls|] == calls;
  }

  lemma CompleteLast(calls: seq<Call>, c: Call)
    ensures AllComplete(calls + [c]) ==> AllComplete(calls) && Completes(c)
  {
    hide Completes;
    if AllComplete(calls + [c]) {
      assert (calls + [c])[|calls|] == c;
      forall i | 0 <= i < |calls| ensures Completes(calls[i]) {
        assert (calls + [c])[i] == calls[i];
      }
    }
  }

  lemma SessionStarts(r: Region, history: seq<Moment>, start: seq<byte>)
    requires Holds(r, start)
    ensures Run(r, [start], []) && CrashesRun(history, |history|, r, [start], []) && AfterAll(r, start, []) == start
  {
  }
}
