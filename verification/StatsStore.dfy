/** STATS documents kept in the mutable region: what is written is what a later reader finds, in
    values and not just in bytes, however crashes interrupt the calls in between. */
module StatsStore {
  import opened Bytes
  import opened Paths
  import opened Entries
  import opened Objects
  import opened Commits
  import opened Disk
  import opened Store
  import opened Runs
  import opened Refinement
  import Allocator
  import CrashSafe
  import Crc
  import Directory
  import Protocol
  import Stats
  import StatsText
  import StatsPrinter

  const STATS_NAMESPACE: nat := 3

  /** The write call behind a statistics update: the document is in memory, so both passes over it agree. */
  function StatsRequest(key: seq<byte>, s: Stats.Stats, capacity: nat, modified: nat): (q: Request)
    requires NulFree(key) && capacity < U64 && modified < U64 && Stats.ValuesValid(s)
    ensures q.Typed()
  {
    DocumentTyped(s);
    StatsRequestOf(key, StatsText.Document(s), capacity, modified)
  }

  function StatsRequestOf(key: seq<byte>, document: seq<byte>, capacity: nat, modified: nat): Request {
    Request(STATS_NAMESPACE, key, document, document, capacity, modified)
  }

  datatype Result = InvalidValues | Attempted(outcome: Protocol.Outcome)

  /** Serializes and stores statistics. */
  method WriteStats(file: File, base: nat, size: nat, key: seq<byte>, s: Stats.Stats, capacity: nat, modified: nat, chunk: nat)
    returns (result: Result)
    requires file.Valid() && Protocol.Settled(file.Now(), base, size) && Placed(base, size, |file.durable|)
    requires NulFree(key) && capacity < U64 && modified < U64
    modifies file
    ensures file.Valid() && Protocol.Settled(file.Now(), base, size) && old(file.history) <= file.history
    ensures result.InvalidValues? <==> !Stats.ValuesValid(s)
    ensures result.InvalidValues? ==> file.Now() == old(file.Now()) && file.history == old(file.history)
    ensures result.Attempted? ==>
      var q := StatsRequest(key, s, capacity, modified);
      var plan := Protocol.Decide(old(file.Contents()), base, size, q, chunk);
      && (plan.Reject? ==> result.outcome == Protocol.Failed(plan.error) && file.Now() == old(file.Now()))
      && (plan.Commit? ==> var r := RegionOf(old(file.Contents()), base, size).value;
            && Protocol.Committing(r, old(file.Contents()), plan.k, plan.e, q.second)
            && result.outcome == Protocol.Done(plan.k, plan.e) && file.pending == []
            && file.durable == Protocol.Final(r, old(file.Contents()), plan.k, plan.e, q.second)
            && CrashSafe.SafeSince(file.history, |old(file.history)|,
                                   Protocol.Safety(r, old(file.Contents()), plan.k, q.Target(), Object(plan.e, q.second))))
  {
    hide StatsText.Document, Stats.ValuesValid, Protocol.Survives, CrashSafe.SafeSince, Protocol.Decide, Protocol.Final,
      Protocol.Committing, Protocol.Settled, Crc.Crc32, Placed, RegionOf, Current;
    var document := Render(s);
    if document.None? {
      return InvalidValues;
    }
    DocumentTyped(s);
    var outcome := Protocol.MutableWrite(file, base, size, StatsRequestOf(key, document.value, capacity, modified), chunk);
    result := Attempted(outcome);
  }

  /** The document, assembled in a local buffer. */
  method Render(s: Stats.Stats) returns (document: Option<seq<byte>>)
    ensures document == if Stats.ValuesValid(s) then Some(StatsText.Document(s)) else None
  {
    hide StatsText.Document, Stats.ValuesValid;
    var json := new byte[Stats.MAX_JSON_SIZE](_ => 0);
    if Stats.ValuesValid(s) {
      StatsPrinter.DocumentShape(s);
    }
    var serialized := StatsPrinter.Serialize(s, json);
    if !serialized.Done? {
      return None;
    }
    assert json[..][..serialized.required] == StatsText.Document(s);
    document := Some(json[..serialized.required]);
  }

  lemma DocumentTyped(s: Stats.Stats)
    requires Stats.ValuesValid(s)
    ensures |StatsText.Document(s)| < U64
  {
    hide StatsText.Document;
    StatsPrinter.DocumentShape(s);
  }

  lemma PlanFields(r: Region, slots: seq<Slot>, q: Request)
    requires PlanWrite(r, slots, q).Commit?
    ensures var e := PlanWrite(r, slots, q).e; e.ns == q.ns && e.key == q.key && e.modified == q.modified && e.size == |q.first|
  {
    hide Directory.Clean, Directory.Usable, Taken, Allocator.LowestFit, Names, SlotOf;
  }

  /** A completed update is what the next lookup finds, and it reads as the values written. */
  lemma StatsReadBack(r: Region, img: seq<byte>, key: seq<byte>, s: Stats.Stats, capacity: nat, modified: nat)
    requires Holds(r, img) && NulFree(key) && KeyOk(STATS_NAMESPACE, key) && capacity < U64 && modified < U64 && Stats.ValuesValid(s)
    requires var q := StatsRequest(key, s, capacity, modified);
      PlanWrite(r, Slots(r, img), q).Commit? && Protocol.CanShow(r, img, q.Target())
    ensures var q := StatsRequest(key, s, capacity, modified);
      var found := Lookup(ViewOf(r, After(r, img, Update(q))), q.Target());
      found.Present? && Stats.OutcomeOf(found.held.bytes) == Stats.Accepted(StatsText.Normalized(s))
      && q.Target() == Name(3, Fold(key)) && found.held.e.ns == 3 && found.held.e.key == key
      && found.held.e.modified == modified && found.held.e.size == |found.held.bytes|
  {
    hide StatsText.Document, Stats.ValuesValid, Stats.OutcomeOf, PlanWrite, Protocol.CanShow, After, Lookup, Holds,
      Crc.Crc32;
    DocumentTyped(s);
    StatsPrinter.RoundTrip(s);
    var q := StatsRequest(key, s, capacity, modified);
    ReadBack(r, img, q);
    PlanFields(r, Slots(r, img), q);
  }

  /** The call stores the document of some valid values, if it stores anything under this name. */
  ghost predicate StoresStats(c: Call, n: Name) {
    c.Update? && c.Target() == n ==> exists s :: Stats.ValuesValid(s) && c.q.second == StatsText.Document(s)
  }

  ghost predicate IsStats(o: Object) {
    Stats.OutcomeOf(o.bytes).Accepted?
  }

  /** Whatever crashes interrupt a run, a reader who finds statistics under a name can read them,
      provided only statistics were stored there and the first ones could be read. */
  lemma StatsSurvive(r: Region, imgs: seq<seq<byte>>, calls: seq<Call>, n: Name)
    requires Run(r, imgs, calls) && forall i :: 0 <= i < |calls| ==> StoresStats(calls[i], n)
    requires n in ViewOf(r, imgs[0]) ==> IsStats(ViewOf(r, imgs[0])[n])
    ensures Holds(r, imgs[|calls|]) && (n in ViewOf(r, imgs[|calls|]) ==> IsStats(ViewOf(r, imgs[|calls|])[n]))
  {
    hide StatsText.Document, Stats.ValuesValid, Stats.OutcomeOf, ViewOf, Leads, Holds, StatsText.Normalized;
    NothingFabricated(r, imgs, calls, n);
    if n in ViewOf(r, imgs[|calls|]) {
      var o := ViewOf(r, imgs[|calls|])[n];
      if !(n in ViewOf(r, imgs[0]) && ViewOf(r, imgs[0])[n] == o) {
        var i :| 0 <= i < |calls| && StoredBy(calls[i], n, o);
        assert StoresStats(calls[i], n);
        var s :| Stats.ValuesValid(s) && calls[i].q.second == StatsText.Document(s);
        StatsPrinter.RoundTrip(s);
      }
    }
  }
}
