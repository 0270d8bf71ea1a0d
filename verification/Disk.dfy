/** The file under a commit: durable bytes, writes issued since the last sync, and what a crash can
    leave behind. Sectors of 512 bytes are written atomically; a sync is a barrier. */
module Disk {
  import opened Bytes
  import Crc

  const SECTOR: nat := 512

  datatype Write = Write(at: nat, bytes: seq<byte>)

  /** A moment in the life of the file. */
  datatype Moment = Moment(durable: seq<byte>, pending: seq<Write>)

  predicate InRange(n: nat, pending: seq<Write>) {
    forall i :: 0 <= i < |pending| ==> pending[i].at + |pending[i].bytes| <= n
  }

  /** The selected writes applied in the order they were issued. */
  function Apply(img: seq<byte>, pending: seq<Write>, mask: seq<bool>): (r: seq<byte>)
    requires |mask| == |pending| && InRange(|img|, pending)
    ensures |r| == |img|
    decreases |pending|
  {
    if pending == [] then img
    else
      var last := |pending| - 1;
      var before := Apply(img, pending[..last], mask[..last]);
      if mask[last] then Put(before, pending[last].at, pending[last].bytes) else before
  }

  function AllSet(n: nat): (mask: seq<bool>)
    ensures |mask| == n && forall i :: 0 <= i < n ==> mask[i]
  {
    seq(n, _ => true)
  }

  /** What the process itself reads back: every write it has issued. */
  function Current(m: Moment): (img: seq<byte>)
    requires InRange(|m.durable|, m.pending)
    ensures |img| == |m.durable|
  {
    Apply(m.durable, m.pending, AllSet(|m.pending|))
  }

  predicate InSector(i: nat, sector: nat) {
    sector * SECTOR <= i < (sector + 1) * SECTOR
  }

  /** Some subset of the pending writes accounts for this sector of img. */
  ghost predicate SectorExplained(m: Moment, img: seq<byte>, sector: nat)
    requires InRange(|m.durable|, m.pending) && |img| == |m.durable|
  {
    exists mask: seq<bool> :: |mask| == |m.pending| &&
      var written := Apply(m.durable, m.pending, mask);
      forall i: nat :: i < |img| && InSector(i, sector) ==> img[i] == written[i]
  }

  /** What a crash at this moment can leave on the medium: sector by sector, any subset of the
      writes that were still pending. */
  ghost predicate CrashImage(m: Moment, img: seq<byte>) {
    && InRange(|m.durable|, m.pending)
    && |img| == |m.durable|
    && forall sector: nat :: SectorExplained(m, img, sector)
  }

  /** A byte no pending write covers is unaffected by any of them. */
  lemma {:induction false} ApplyElsewhere(img: seq<byte>, pending: seq<Write>, mask: seq<bool>, lo: nat, hi: nat, i: nat)
    requires |mask| == |pending| && InRange(|img|, pending) && i < |img| && !(lo <= i < hi)
    requires forall j :: 0 <= j < |pending| ==> lo <= pending[j].at && pending[j].at + |pending[j].bytes| <= hi
    ensures Apply(img, pending, mask)[i] == img[i]
    decreases |pending|
  {
    if pending != [] {
      var last := |pending| - 1;
      ApplyElsewhere(img, pending[..last], mask[..last], lo, hi, i);
    }
  }

  /** All pending writes lie in [lo, hi). */
  predicate Confined(pending: seq<Write>, lo: nat, hi: nat) {
    forall j :: 0 <= j < |pending| ==> lo <= pending[j].at && pending[j].at + |pending[j].bytes| <= hi
  }

  /** A crash cannot reach beyond the range the pending writes are confined to. */
  lemma CrashConfined(m: Moment, img: seq<byte>, lo: nat, hi: nat)
    requires CrashImage(m, img) && Confined(m.pending, lo, hi)
    ensures forall i :: 0 <= i < |img| && !(lo <= i < hi) ==> img[i] == m.durable[i]
  {
    forall i | 0 <= i < |img| && !(lo <= i < hi) ensures img[i] == m.durable[i] {
      var sector := i / SECTOR;
      assert InSector(i, sector) && SectorExplained(m, img, sector);
      var mask: seq<bool> :| |mask| == |m.pending| &&
        var written := Apply(m.durable, m.pending, mask);
        forall i: nat :: i < |img| && InSector(i, sector) ==> img[i] == written[i];
      ApplyElsewhere(m.durable, m.pending, mask, lo, hi, i);
    }
  }

  lemma CrashSynced(m: Moment, img: seq<byte>)
    requires CrashImage(m, img) && m.pending == []
    ensures img == m.durable
  {
    CrashConfined(m, img, 0, 0);
  }

  /** A single pending write of exactly one sector is on the medium whole or not at all. */
  lemma CrashAtomic(m: Moment, img: seq<byte>, w: Write)
    requires m.pending == [w] && w.at % SECTOR == 0 && |w.bytes| == SECTOR && w.at + SECTOR <= |m.durable|
    requires CrashImage(m, img)
    ensures img == m.durable || img == Put(m.durable, w.at, w.bytes)
  {
    var sector := w.at / SECTOR;
    var written := Put(m.durable, w.at, w.bytes);
    assert SectorExplained(m, img, sector);
    var mask: seq<bool> :| |mask| == |m.pending| &&
      var out := Apply(m.durable, m.pending, mask);
      forall i: nat :: i < |img| && InSector(i, sector) ==> img[i] == out[i];
    assert Apply(m.durable, m.pending, mask) == if mask[0] then written else m.durable;
    CrashConfined(m, img, w.at, w.at + SECTOR);
    if mask[0] {
      assert img == written;
    } else {
      assert img == m.durable;
    }
  }

  /** Outside the range the pending writes are confined to, the process reads what is durable. */
  lemma CurrentConfined(m: Moment, lo: nat, hi: nat)
    requires InRange(|m.durable|, m.pending) && Confined(m.pending, lo, hi)
    ensures forall i :: 0 <= i < |m.durable| && !(lo <= i < hi) ==> Current(m)[i] == m.durable[i]
  {
    forall i | 0 <= i < |m.durable| && !(lo <= i < hi) ensures Current(m)[i] == m.durable[i] {
      ApplyElsewhere(m.durable, m.pending, AllSet(|m.pending|), lo, hi, i);
    }
  }

  /** A crash may let every pending write through. */
  lemma CrashAll(m: Moment)
    requires InRange(|m.durable|, m.pending)
    ensures CrashImage(m, Current(m))
  {
    forall sector: nat ensures SectorExplained(m, Current(m), sector) {
      var mask := AllSet(|m.pending|);
      assert |mask| == |m.pending|;
    }
  }

  /** A crash may let nothing through. */
  lemma {:induction false} ApplyNothing(img: seq<byte>, pending: seq<Write>)
    requires InRange(|img|, pending)
    ensures Apply(img, pending, seq(|pending|, _ => false)) == img
    decreases |pending|
  {
    if pending != [] {
      var last := |pending| - 1;
      assert seq(|pending|, _ => false)[..last] == seq(last, _ => false);
      ApplyNothing(img, pending[..last]);
    }
  }

  lemma CrashNothing(m: Moment)
    requires InRange(|m.durable|, m.pending)
    ensures CrashImage(m, m.durable)
  {
    ApplyNothing(m.durable, m.pending);
    forall sector: nat ensures SectorExplained(m, m.durable, sector) {
      var mask := seq(|m.pending|, _ => false);
      assert |mask| == |m.pending|;
    }
  }

  /** b, or base, in the sector at offset at; anything in [lo, hi); base elsewhere. */
  predicate OldOrNew(base: seq<byte>, img: seq<byte>, at: nat, b: seq<byte>, lo: nat, hi: nat)
    requires at + |b| <= |base|
  {
    |img| == |base| &&
    ((forall i :: 0 <= i < |base| && !(lo <= i < hi) ==> img[i] == base[i]) ||
     (forall i :: 0 <= i < |base| && !(lo <= i < hi) ==> img[i] == Put(base, at, b)[i]))
  }

  lemma SectorOf(at: nat, i: nat)
    requires at % SECTOR == 0
    ensures InSector(i, at / SECTOR) <==> at <= i < at + SECTOR
  {
  }

  /** Writes left over from earlier, confined to a range apart from a sector, do not disturb the
      atomicity of a write to that sector. */
  lemma CrashLeftover(m: Moment, img: seq<byte>, w: Write, lo: nat, hi: nat)
    requires InRange(|m.durable|, m.pending) && Confined(m.pending, lo, hi)
    requires w.at % SECTOR == 0 && |w.bytes| == SECTOR && w.at + SECTOR <= |m.durable| && (w.at + SECTOR <= lo || hi <= w.at)
    requires CrashImage(Moment(m.durable, m.pending + [w]), img)
    ensures OldOrNew(m.durable, img, w.at, w.bytes, lo, hi)
  {
    var all := Moment(m.durable, m.pending + [w]);
    var n, sector := |m.pending|, w.at / SECTOR;
    assert all.pending[..n] == m.pending && all.pending[n] == w;
    assert SectorExplained(all, img, sector);
    var mask: seq<bool> :| |mask| == |all.pending| &&
      var out := Apply(m.durable, all.pending, mask);
      forall i: nat :: i < |img| && InSector(i, sector) ==> img[i] == out[i];
    forall i | 0 <= i < |img| && !(lo <= i < hi)
      ensures img[i] == if mask[n] then Put(m.durable, w.at, w.bytes)[i] else m.durable[i]
    {
      SectorOf(w.at, i);
      ApplyElsewhere(m.durable, m.pending, mask[..n], lo, hi, i);
      if !InSector(i, sector) {
        LeftoverElsewhere(m, img, w, lo, hi, i);
      }
    }
  }

  lemma LeftoverElsewhere(m: Moment, img: seq<byte>, w: Write, lo: nat, hi: nat, i: nat)
    requires InRange(|m.durable|, m.pending) && Confined(m.pending, lo, hi) && w.at + |w.bytes| <= |m.durable|
    requires CrashImage(Moment(m.durable, m.pending + [w]), img)
    requires i < |img| && !(lo <= i < hi) && !(w.at <= i < w.at + |w.bytes|)
    ensures img[i] == m.durable[i]
  {
    var all := Moment(m.durable, m.pending + [w]);
    var n := |m.pending|;
    assert all.pending[..n] == m.pending && all.pending[n] == w;
    assert InSector(i, i / SECTOR) && SectorExplained(all, img, i / SECTOR);
    var mask: seq<bool> :| |mask| == |all.pending| &&
      var out := Apply(m.durable, all.pending, mask);
      forall j: nat :: j < |img| && InSector(j, i / SECTOR) ==> img[j] == out[j];
    ApplyElsewhere(m.durable, m.pending, mask[..n], lo, hi, i);
  }

  /** What the process reads back after one more write. */
  lemma CurrentAppend(m: Moment, w: Write)
    requires InRange(|m.durable|, m.pending) && w.at + |w.bytes| <= |m.durable|
    ensures InRange(|m.durable|, m.pending + [w])
    ensures Current(Moment(m.durable, m.pending + [w])) == Put(Current(m), w.at, w.bytes)
  {
    var n, all := |m.pending|, m.pending + [w];
    assert all[..n] == m.pending && all[n] == w;
    assert AllSet(n + 1)[..n] == AllSet(n);
  }

  lemma CurrentSynced(img: seq<byte>)
    ensures Current(Moment(img, [])) == img
  {
  }

  // ---------- the file object ----------

  class File {
    var durable: seq<byte>
    var pending: seq<Write>
    /** Every moment the file has gone through. */
    ghost var history: seq<Moment>

    ghost predicate Valid()
      reads this
    {
      InRange(|durable|, pending)
    }

    function Now(): Moment
      reads this
    {
      Moment(durable, pending)
    }

    /** What the process reads back. */
    function Contents(): seq<byte>
      reads this
      requires Valid()
    {
      Current(Now())
    }

    constructor (contents: seq<byte>)
      ensures Valid() && durable == contents && pending == []
      ensures history == [Moment(contents, [])]
    {
      durable, pending := contents, [];
      history := [Moment(contents, [])];
    }

    /** A positioned write: visible to the process at once, durable only after a sync. */
    method WriteAt(at: nat, bytes: seq<byte>)
      requires Valid() && at + |bytes| <= |durable|
      modifies this
      ensures Valid() && durable == old(durable)
      ensures pending == old(pending) + [Write(at, bytes)]
      ensures history == old(history) + [Now()]
    {
      pending := pending + [Write(at, bytes)];
      history := history + [Now()];
    }

    /** Makes every issued write durable. */
    method Sync()
      requires Valid()
      modifies this
      ensures Valid() && durable == Current(old(Now())) && pending == []
      ensures history == old(history) + [Now()]
    {
      durable, pending := Current(Now()), [];
      history := history + [Now()];
    }
  }

  // ---------- streaming ----------

  /** A moment at which only bytes of [lo, hi) of the durable image base are being written. */
  predicate Writing(m: Moment, base: seq<byte>, lo: nat, hi: nat) {
    m.durable == base && InRange(|base|, m.pending) && Confined(m.pending, lo, hi)
  }

  lemma WritingMore(m: Moment, base: seq<byte>, lo: nat, hi: nat, w: Write)
    requires Writing(m, base, lo, hi) && lo <= w.at && w.at + |w.bytes| <= hi <= |base|
    ensures Writing(Moment(base, m.pending + [w]), base, lo, hi)
  {
  }

  lemma PutMore(base: seq<byte>, target: nat, source: seq<byte>, position: nat, count: nat)
    requires position + count <= |source| && target + |source| <= |base|
    ensures Put(Put(base, target, source[..position]), target + position, source[position..position + count])
      == Put(base, target, source[..position + count])
  {
    assert source[..position] + source[position..position + count] == source[..position + count];
    PutPut(base, target, source[..position], source[position..position + count]);
  }

  lemma ChunkStep(m: Moment, base: seq<byte>, target: nat, source: seq<byte>, position: nat, count: nat)
    requires position + count <= |source| && target + |source| <= |base|
    requires Writing(m, base, target, target + |source|)
    requires Current(m) == Put(base, target, source[..position])
    ensures Writing(Moment(base, m.pending + [Write(target + position, source[position..position + count])]),
                    base, target, target + |source|)
    ensures Current(Moment(base, m.pending + [Write(target + position, source[position..position + count])]))
      == Put(base, target, source[..position + count])
  {
    var w := Write(target + position, source[position..position + count]);
    WritingMore(m, base, target, target + |source|, w);
    CurrentAppend(m, w);
    PutMore(base, target, source, position, count);
  }

  /** Every moment after the first `before` was spent writing inside [lo, hi) of base. */
  predicate WritingSince(history: seq<Moment>, before: nat, base: seq<byte>, lo: nat, hi: nat) {
    forall t :: before <= t < |history| ==> Writing(history[t], base, lo, hi)
  }

  /** Where a stream of source to target stands after position bytes. */
  predicate Streamed(m: Moment, base: seq<byte>, target: nat, source: seq<byte>, position: nat) {
    && position <= |source| && target + |source| <= |base|
    && Writing(m, base, target, target + |source|)
    && Current(m) == Put(base, target, source[..position])
  }

  /** One chunk of the stream, written and checksummed. */
  method StreamChunk(file: File, target: nat, source: seq<byte>, position: nat, count: nat, register: Crc.Register,
                     ghost base: seq<byte>, ghost since: nat)
    returns (next: Crc.Register)
    requires file.Valid() && position + count <= |source| && Crc.Running(register, source, position)
    requires Streamed(file.Now(), base, target, source, position) && since <= |file.history|
    requires WritingSince(file.history, since, base, target, target + |source|)
    modifies file
    ensures file.Valid() && Streamed(file.Now(), base, target, source, position + count)
    ensures Crc.Running(next, source, position + count)
    ensures old(file.history) <= file.history
    ensures WritingSince(file.history, since, base, target, target + |source|)
  {
    next := Crc.Advance(register, source, position, count);
    WriteChunk(file, target, source, position, count, base, since);
  }

  method WriteChunk(file: File, target: nat, source: seq<byte>, position: nat, count: nat, ghost base: seq<byte>, ghost since: nat)
    requires file.Valid() && position + count <= |source| && since <= |file.history|
    requires Streamed(file.Now(), base, target, source, position)
    requires WritingSince(file.history, since, base, target, target + |source|)
    modifies file
    ensures file.Valid() && Streamed(file.Now(), base, target, source, position + count)
    ensures old(file.history) <= file.history
    ensures WritingSince(file.history, since, base, target, target + |source|)
  {
    ChunkStep(file.Now(), base, target, source, position, count);
    file.WriteAt(target + position, source[position..position + count]);
    SinceMore(old(file.history), file.Now(), since, base, target, target + |source|);
  }

  lemma SinceMore(history: seq<Moment>, m: Moment, before: nat, base: seq<byte>, lo: nat, hi: nat)
    requires WritingSince(history, before, base, lo, hi) && Writing(m, base, lo, hi)
    ensures WritingSince(history + [m], before, base, lo, hi)
  {
  }

  lemma StreamStarts(base: seq<byte>, target: nat, source: seq<byte>)
    requires target + |source| <= |base|
    ensures Streamed(Moment(base, []), base, target, source, 0)
  {
    CurrentSynced(base);
    assert Put(base, target, source[..0]) == base;
  }

  lemma StreamEnds(m: Moment, base: seq<byte>, target: nat, source: seq<byte>)
    requires Streamed(m, base, target, source, |source|)
    ensures Current(m) == Put(base, target, source)
  {
    assert source[..|source|] == source;
  }

  /** Streams a source to the file, chunk by chunk, checksumming it on the way. */
  method SourceWrite(file: File, target: nat, source: seq<byte>, chunk: nat) returns (crc: nat)
    requires chunk > 0 && file.Valid() && file.pending == [] && target + |source| <= |file.durable|
    modifies file
    ensures file.Valid() && Streamed(file.Now(), old(file.durable), target, source, |source|)
    ensures crc == Crc.Crc32(source)
    ensures old(file.history) <= file.history
    ensures WritingSince(file.history, |old(file.history)|, old(file.durable), target, target + |source|)
  {
    hide Current, Put, InRange;
    ghost var base, since := file.durable, |file.history|;
    var register, position := Crc.ONES, 0;
    StreamStarts(base, target, source);
    while position < |source|
      invariant position <= |source| && file.Valid() && Streamed(file.Now(), base, target, source, position)
      invariant Crc.Running(register, source, position)
      invariant old(file.history) <= file.history
      invariant WritingSince(file.history, since, base, target, target + |source|)
    {
      var count := if |source| - position > chunk then chunk else |source| - position;
      register := StreamChunk(file, target, source, position, count, register, base, since);
      position := position + count;
    }
    crc := Crc.Close(register, source);
  }
}
