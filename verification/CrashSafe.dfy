/** Durable update sequences whose every moment is safe: for any property of images, if the images
    between the steps have it, then so does whatever a crash leaves at any time. */
module CrashSafe {
  import opened Bytes
  import opened Disk
  import Crc

  type Property = seq<byte> -> bool

  /** Every image a crash at this moment can leave has the property. */
  ghost predicate MomentSafe(m: Moment, safe: Property) {
    forall img :: CrashImage(m, img) ==> safe(img)
  }

  /** The moments of a history from the given one on are all safe. */
  ghost predicate SafeSince(history: seq<Moment>, before: nat, safe: Property) {
    forall t :: before <= t < |history| ==> MomentSafe(history[t], safe)
  }

  lemma SinceJoin(h0: seq<Moment>, h1: seq<Moment>, h2: seq<Moment>, safe: Property)
    requires h0 <= h1 <= h2
    requires SafeSince(h1, |h0|, safe) && SafeSince(h2, |h1|, safe)
    ensures SafeSince(h2, |h0|, safe)
  {
    forall t | |h0| <= t < |h2| ensures MomentSafe(h2[t], safe) {
      if t < |h1| {
        assert h2[t] == h1[t];
      }
    }
  }

  // ---------- one atomic sector ----------

  predicate IsSector(base: seq<byte>, at: nat, b: seq<byte>) {
    at % SECTOR == 0 && |b| == SECTOR && at + SECTOR <= |base|
  }

  /** While a sector is being rewritten, and after, a crash leaves the image before or after. */
  lemma RewriteSafe(base: seq<byte>, at: nat, b: seq<byte>, safe: Property)
    requires IsSector(base, at, b) && safe(base) && safe(Put(base, at, b))
    ensures MomentSafe(Moment(base, [Write(at, b)]), safe)
    ensures MomentSafe(Moment(Put(base, at, b), []), safe)
  {
    forall img | CrashImage(Moment(base, [Write(at, b)]), img) ensures safe(img) {
      CrashAtomic(Moment(base, [Write(at, b)]), img, Write(at, b));
    }
    forall img | CrashImage(Moment(Put(base, at, b), []), img) ensures safe(img) {
      CrashSynced(Moment(Put(base, at, b), []), img);
    }
  }

  /** Rewrites one sector and syncs; earlier writes may still be pending, if a crash at the first
      moment is safe all the same. */
  method RewriteSector(file: File, at: nat, b: seq<byte>, ghost safe: Property)
    requires file.Valid() && IsSector(file.durable, at, b)
    requires MomentSafe(Moment(file.durable, file.pending + [Write(at, b)]), safe)
    requires safe(Put(file.Contents(), at, b))
    modifies file
    ensures file.Valid() && file.pending == [] && old(file.history) <= file.history
    ensures file.durable == Put(old(file.Contents()), at, b)
    ensures SafeSince(file.history, |old(file.history)|, safe)
    ensures file.history ==
      old(file.history) + [Moment(old(file.durable), old(file.pending) + [Write(at, b)]), Moment(file.durable, [])]
  {
    hide Put, Current;
    ghost var m, h0 := file.Now(), file.history;
    CurrentAppend(m, Write(at, b));
    file.WriteAt(at, b);
    ghost var h1 := file.history;
    SingleMoment(h0, h1, Moment(m.durable, m.pending + [Write(at, b)]), safe);
    file.Sync();
    SyncedSafe(file.durable, safe);
    SingleMoment(h1, file.history, Moment(file.durable, []), safe);
    SinceJoin(h0, h1, file.history, safe);
  }

  lemma SyncedSafe(img: seq<byte>, safe: Property)
    requires safe(img)
    ensures MomentSafe(Moment(img, []), safe)
  {
    forall crashed | CrashImage(Moment(img, []), crashed) ensures safe(crashed) {
      CrashSynced(Moment(img, []), crashed);
    }
  }

  /** The same from a synced file: the images before and after decide. */
  method RewriteSynced(file: File, at: nat, b: seq<byte>, ghost safe: Property)
    requires file.Valid() && file.pending == [] && IsSector(file.durable, at, b)
    requires safe(file.durable) && safe(Put(file.durable, at, b))
    modifies file
    ensures file.Valid() && file.pending == [] && old(file.history) <= file.history
    ensures file.durable == Put(old(file.durable), at, b)
    ensures SafeSince(file.history, |old(file.history)|, safe)
    ensures file.history == old(file.history) + [Moment(old(file.durable), [Write(at, b)]), Moment(file.durable, [])]
  {
    hide Put;
    RewriteSafe(file.durable, at, b, safe);
    CurrentSynced(file.durable);
    assert [] + [Write(at, b)] == [Write(at, b)];
    RewriteSector(file, at, b, safe);
  }

  lemma SingleMoment(h: seq<Moment>, next: seq<Moment>, m: Moment, safe: Property)
    requires next == h + [m] && MomentSafe(m, safe)
    ensures SafeSince(next, |h|, safe) && h <= next
  {
    assert next[|h|] == m;
  }

  // ---------- a stream into one range ----------

  /** Whatever [lo, hi) of base holds, the image has the property. */
  ghost predicate RangeSafe(base: seq<byte>, lo: nat, hi: nat, safe: Property) {
    forall img :: Around(base, img, lo, hi) ==> safe(img)
  }

  /** img is base with anything at all inside [lo, hi). */
  predicate Around(base: seq<byte>, img: seq<byte>, lo: nat, hi: nat) {
    |base| == |img| && forall i :: 0 <= i < |base| && !(lo <= i < hi) ==> base[i] == img[i]
  }

  lemma StreamSafe(history: seq<Moment>, since: nat, base: seq<byte>, lo: nat, hi: nat, safe: Property)
    requires RangeSafe(base, lo, hi, safe) && WritingSince(history, since, base, lo, hi)
    ensures SafeSince(history, since, safe)
  {
    forall t | since <= t < |history| ensures MomentSafe(history[t], safe) {
      forall img | CrashImage(history[t], img) ensures safe(img) {
        CrashConfined(history[t], img, lo, hi);
        assert Around(base, img, lo, hi);
      }
    }
  }

  lemma StreamedSafe(base: seq<byte>, target: nat, source: seq<byte>, safe: Property)
    requires target + |source| <= |base| && RangeSafe(base, target, target + |source|, safe)
    ensures MomentSafe(Moment(Put(base, target, source), []), safe)
  {
    forall img | CrashImage(Moment(Put(base, target, source), []), img) ensures safe(img) {
      CrashSynced(Moment(Put(base, target, source), []), img);
      assert Around(base, img, target, target + |source|);
    }
  }

  /** Streams the source into place and, if it is still what was checksummed, makes it durable. */
  method StoreData(file: File, target: nat, source: seq<byte>, crc: nat, chunk: nat, ghost safe: Property)
    returns (same: bool, ghost streamed: seq<Moment>)
    requires file.Valid() && file.pending == [] && chunk > 0 && target + |source| <= |file.durable|
    requires RangeSafe(file.durable, target, target + |source|, safe)
    modifies file
    ensures file.Valid() && old(file.history) <= file.history
    ensures same == (Crc.Crc32(source) == crc)
    ensures same ==> file.pending == [] && file.durable == Put(old(file.durable), target, source)
    ensures !same ==> Writing(file.Now(), old(file.durable), target, target + |source|)
    ensures SafeSince(file.history, |old(file.history)|, safe)
    ensures AllWriting(streamed, old(file.durable), target, target + |source|)
    ensures file.history == old(file.history) + streamed + if same then [Moment(file.durable, [])] else []
  {
    ghost var base, h0 := file.durable, file.history;
    var writtenCrc := SourceWrite(file, target, source, chunk);
    StreamEnds(file.Now(), base, target, source);
    ghost var h1 := file.history;
    StreamSafe(h1, |h0|, base, target, target + |source|, safe);
    streamed := h1[|h0|..];
    assert h1 == h0 + streamed;
    if writtenCrc != crc {
      return false, streamed;
    }
    StreamedSafe(base, target, source, safe);
    file.Sync();
    SingleMoment(h1, file.history, Moment(Put(base, target, source), []), safe);
    SinceJoin(h0, h1, file.history, safe);
    same := true;
  }

  // ---------- announce, store, commit ----------

  predicate AllWriting(streamed: seq<Moment>, base: seq<byte>, lo: nat, hi: nat) {
    forall i :: 0 <= i < |streamed| ==> Writing(streamed[i], base, lo, hi)
  }

  /** The moments of an update in order: the first, the announcement durable, any number spent writing
      in [lo, hi), then the last ones. */
  ghost predicate InStages(history: seq<Moment>, before: seq<Moment>, first: Moment, announced: seq<byte>,
                           lo: nat, hi: nat, last: seq<Moment>) {
    exists streamed: seq<Moment> :: AllWriting(streamed, announced, lo, hi) &&
      history == before + [first, Moment(announced, [])] + streamed + last
  }

  /** Announces the update in one sector, stores the data, and commits in the same sector; each
      step is durable before the next begins. What was still pending before becomes durable with the
      announcement. */
  method ThreeSteps(file: File, at: nat, announce: seq<byte>, target: nat, source: seq<byte>, crc: nat,
                    commit: seq<byte>, chunk: nat, ghost safe: Property)
    returns (written: bool)
    requires file.Valid() && chunk > 0
    requires IsSector(file.durable, at, announce) && IsSector(file.durable, at, commit)
    requires target + |source| <= |file.durable|
    requires MomentSafe(Moment(file.durable, file.pending + [Write(at, announce)]), safe)
    requires RangeSafe(Put(file.Contents(), at, announce), target, target + |source|, safe)
    requires safe(Put(Put(Put(file.Contents(), at, announce), target, source), at, commit))
    modifies file
    ensures file.Valid() && old(file.history) <= file.history
    ensures SafeSince(file.history, |old(file.history)|, safe)
    ensures var announced := Put(old(file.Contents()), at, announce); var stored := Put(announced, target, source);
      InStages(file.history, old(file.history), Moment(old(file.durable), old(file.pending) + [Write(at, announce)]),
               announced, target, target + |source|,
               if written then [Moment(stored, []), Moment(stored, [Write(at, commit)]), Moment(file.durable, [])] else [])
    ensures written == (Crc.Crc32(source) == crc)
    ensures written ==> file.pending == []
    ensures written ==> file.durable == Put(Put(Put(old(file.Contents()), at, announce), target, source), at, commit)
    ensures !written ==> Writing(file.Now(), Put(old(file.Contents()), at, announce), target, target + |source|)
  {
    hide Put, Current, Crc.Crc32;
    ghost var base, h0 := file.Contents(), file.history;
    RangeItself(Put(base, at, announce), target, target + |source|, safe);
    RewriteSector(file, at, announce, safe);
    ghost var h1, first := file.history, Moment(old(file.durable), old(file.pending) + [Write(at, announce)]);
    ghost var streamed: seq<Moment>;
    written, streamed := StoreData(file, target, source, crc, chunk, safe);
    ghost var h2 := file.history;
    SinceJoin(h0, h1, h2, safe);
    if written {
      RangeStored(Put(base, at, announce), target, source, safe);
      RewriteSynced(file, at, commit, safe);
      SinceJoin(h0, h2, file.history, safe);
      ghost var stored := Put(Put(base, at, announce), target, source);
      StagesEnd(h0, first, Put(base, at, announce), target, target + |source|, streamed, Moment(stored, []),
                [Moment(stored, [Write(at, commit)]), Moment(file.durable, [])]);
    } else {
      assert h2 == h0 + [first, Moment(Put(base, at, announce), [])] + streamed + [];
    }
  }

  lemma StagesEnd(h: seq<Moment>, first: Moment, announced: seq<byte>, lo: nat, hi: nat, streamed: seq<Moment>, m: Moment,
                  last: seq<Moment>)
    requires AllWriting(streamed, announced, lo, hi)
    ensures InStages(h + [first, Moment(announced, [])] + streamed + [m] + last, h, first, announced, lo, hi, [m] + last)
  {
    var front := h + [first, Moment(announced, [])] + streamed;
    assert front + [m] + last == front + ([m] + last);
  }

  lemma RangeItself(base: seq<byte>, lo: nat, hi: nat, safe: Property)
    requires RangeSafe(base, lo, hi, safe)
    ensures safe(base)
  {
    assert Around(base, base, lo, hi);
  }

  lemma RangeStored(base: seq<byte>, target: nat, source: seq<byte>, safe: Property)
    requires target + |source| <= |base| && RangeSafe(base, target, target + |source|, safe)
    ensures safe(Put(base, target, source))
  {
    assert Around(base, Put(base, target, source), target, target + |source|);
  }
}
