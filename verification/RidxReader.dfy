/** Reading the payload index, and what its acceptance guarantees about the file. */
module RidxReader {
  import opened Bytes
  import opened Paths
  import opened Sorting
  import opened Ridx
  import Crc
  import Footer

  /** What an accepted footer promises about the layout. */
  predicate InfoOk(info: Footer.Info, fileSize: nat) {
    && info.footerOffset + Footer.FOOTER_SIZE == fileSize < U64
    && info.immutable + info.region == info.footerOffset
    && 0 < info.payload && info.payload + HEADER_SIZE <= info.immutable
    && (info.region != 0 ==> info.regionOffset == info.immutable && 12288 <= info.region && info.region % 4096 == 0)
  }

  lemma FooterGivesInfo(footer: seq<byte>, fileSize: nat)
    requires |footer| == Footer.FOOTER_SIZE && Footer.Accepts(footer, fileSize) && fileSize < U64
    ensures fileSize >= Footer.FOOTER_SIZE + Footer.Decode(footer).capacity
    ensures InfoOk(Footer.InfoOf(Footer.Decode(footer), fileSize), fileSize)
  {
  }

  // ---------- the loop over the entries ----------

  /** The checks on one entry alone. */
  method CheckEntry(img: seq<byte>, at: nat, i: nat, payload: nat) returns (ok: bool)
    requires EntryAt(at, i) + ENTRY_SIZE <= |img|
    ensures ok == (StoredPlausible(img, at, i) && EntryOk(StoredEntry(img, at, i), payload))
  {
    hide IsPath, Field, AllZero;
    var base, e := EntryAt(at, i), StoredEntry(img, at, i);
    if !StoredPlausible(img, at, i) {
      return false;
    }
    var path, separator := PathIsValid(e.path);
    if !path {
      return false;
    }
    if !e.HasCrc() && e.crc != 0 {
      return false;
    }
    if e.offset > payload || e.size > payload - e.offset {
      return false;
    }
    if e.IsEntrypoint() {
      ok := e.offset == 0 && e.size != 0 && e.format != 0 && e.format != Footer.PROHIBITED;
    } else {
      ok := e.format != Footer.PROHIBITED;
    }
  }

  /** Whether a path collides with an earlier one after folding. */
  method Collides(path: seq<byte>, es: seq<Entry>) returns (collides: bool)
    requires NulFree(path) && forall i :: 0 <= i < |es| ==> NulFree(es[i].path)
    ensures collides == exists i :: 0 <= i < |es| && Fold(es[i].path) == Fold(path)
  {
    for other := 0 to |es|
      invariant forall i :: 0 <= i < other ==> Fold(es[i].path) != Fold(path)
    {
      collides := AsciiFoldEqual(path, es[other].path);
      if collides {
        return;
      }
    }
    collides := false;
  }

  /** The entries read so far pass every check that looks at entries. */
  predicate EntriesOk(img: seq<byte>, at: nat, es: seq<Entry>, payload: nat) {
    && (forall i :: 0 <= i < |es| ==> StoredPlausible(img, at, i) && EntryOk(es[i], payload))
    && FoldDistinct(PathsOf(es))
  }

  lemma OneMore(img: seq<byte>, at: nat, es: seq<Entry>, e: Entry, payload: nat)
    requires EntriesOk(img, at, es, payload)
    ensures EntriesOk(img, at, es + [e], payload) <==>
      StoredPlausible(img, at, |es|) && EntryOk(e, payload) && forall i :: 0 <= i < |es| ==> Fold(es[i].path) != Fold(e.path)
  {
    hide StoredPlausible, EntryOk, Fold, FoldDistinct;
    assert PathsOf(es + [e]) == PathsOf(es) + [e.path];
    AppendDistinct(PathsOf(es), e.path);
    if EntriesOk(img, at, es + [e], payload) {
      assert StoredPlausible(img, at, |es|) && EntryOk((es + [e])[|es|], payload);
    }
  }

  lemma OneMoreCounted(es: seq<Entry>, e: Entry)
    ensures Ranges(es + [e]) == Ranges(es) + (if e.size != 0 then [Range(e.offset, e.End())] else [])
    ensures Entrypoints(es + [e]) == Entrypoints(es) + (if e.IsEntrypoint() then 1 else 0)
  {
    assert (es + [e])[..|es|] == es;
  }

  lemma PrefixFails(img: seq<byte>, at: nat, es: seq<Entry>, n: nat, payload: nat)
    requires n <= |es| && !EntriesOk(img, at, es[..n], payload)
    ensures !EntriesOk(img, at, es, payload)
  {
    hide StoredPlausible, EntryOk, Fold;
    if EntriesOk(img, at, es, payload) {
      forall i, j | 0 <= i < j < n ensures Fold(PathsOf(es[..n])[i]) != Fold(PathsOf(es[..n])[j]) {
        assert Fold(PathsOf(es)[i]) != Fold(PathsOf(es)[j]);
      }
    }
  }

  /** Reads every entry, collecting ranges and counting entrypoints on the way. */
  method ReadEntries(img: seq<byte>, at: nat, payload: nat)
    returns (ok: bool, es: seq<Entry>, ranges: seq<Range>, entrypoints: nat)
    requires at + IndexSize(img, at) <= |img|
    ensures ok == EntriesOk(img, at, StoredEntries(img, at), payload)
    ensures ok ==> es == StoredEntries(img, at) && ranges == Ranges(es) && entrypoints == Entrypoints(es)
  {
    hide StoredPlausible, StoredEntry, EntryOk, Field, IsPath;
    ghost var all := StoredEntries(img, at);
    es, ranges, entrypoints := [], [], 0;
    for position := 0 to Count(img, at)
      invariant es == all[..position] && ranges == Ranges(es) && entrypoints == Entrypoints(es)
      invariant EntriesOk(img, at, es, payload)
    {
      var e := StoredEntry(img, at, position);
      assert all[..position + 1] == es + [e];
      OneMore(img, at, es, e, payload);
      OneMoreCounted(es, e);
      EntryInside(img, at, position);
      ok := CheckEntry(img, at, position, payload);
      if !ok {
        PrefixFails(img, at, all, position + 1, payload);
        return;
      }
      EntryPaths(es, e, payload);
      var collides := Collides(e.path, es);
      if collides {
        PrefixFails(img, at, all, position + 1, payload);
        return false, es, ranges, entrypoints;
      }
      if e.IsEntrypoint() {
        entrypoints := entrypoints + 1;
      }
      if e.size != 0 {
        ranges := ranges + [Range(e.offset, e.End())];
      }
      es := es + [e];
    }
    assert all[..|all|] == all;
    ok := true;
  }

  lemma EntryInside(img: seq<byte>, at: nat, i: nat)
    requires at + IndexSize(img, at) <= |img| && i < Count(img, at)
    ensures EntryAt(at, i) + ENTRY_SIZE <= |img|
  {
    assert ENTRY_SIZE * (i + 1) <= ENTRY_SIZE * Count(img, at);
  }

  lemma EntryPaths(es: seq<Entry>, e: Entry, payload: nat)
    requires EntryOk(e, payload) && forall i :: 0 <= i < |es| ==> EntryOk(es[i], payload)
    ensures NulFree(e.path) && forall i :: 0 <= i < |es| ==> NulFree(es[i].path)
  {
  }

  lemma RangesInside(es: seq<Entry>, payload: nat)
    requires forall i :: 0 <= i < |es| ==> es[i].End() <= payload
    ensures forall i :: 0 <= i < |Ranges(es)| ==> Ranges(es)[i].start < Ranges(es)[i].end <= payload
  {
    if es != [] {
      RangesInside(es[..|es| - 1], payload);
    }
  }

  // ---------- the reader ----------

  /** Header, room and checksum of the index. */
  method CheckHeader(img: seq<byte>, info: Footer.Info) returns (ok: bool)
    requires InfoOk(info, |img|)
    ensures ok == HeaderAccepts(img, info)
  {
    hide Field, AllZero, Slice, Count, Put, Crc.Crc32;
    var at := info.payload;
    if Slice(img, at, 4) != MAGIC || Field(img, at + 0x04, 2) != 1 || Field(img, at + 0x06, 2) != HEADER_SIZE ||
       Field(img, at + 0x0c, 4) != ENTRY_SIZE || Field(img, at + 0x10, 4) != 0 || !AllZero(Slice(img, at + 0x18, 40)) {
      return false;
    }
    var count := Count(img, at);
    RoomMeans(count, info.immutable - at - HEADER_SIZE);
    if count == 0 || count > (info.immutable - at - HEADER_SIZE) / ENTRY_SIZE {
      return false;
    }
    var crc := IndexCrc(img[at..at + IndexSize(img, at)]);
    ok := crc == Field(img, at + 0x14, 4);
  }

  method IndexCrc(index: seq<byte>) returns (crc: nat)
    requires |index| >= HEADER_SIZE
    ensures crc == Crc.Crc32(Put(index, 0x14, Zeros(4)))
  {
    hide Put, Crc.Crc32, Crc.Update, Crc.Finish;
    var register := Crc.UpdateLoop(Crc.ONES, Put(index, 0x14, Zeros(4)));
    Crc.Finished(Put(index, 0x14, Zeros(4)));
    crc := Crc.Finish(register);
  }

  lemma RoomMeans(count: nat, room: nat)
    ensures count > room / ENTRY_SIZE <==> ENTRY_SIZE * count > room
  {
  }

  /** Where metadata, cover, padding and region must lie. */
  method CheckLayout(img: seq<byte>, info: Footer.Info) returns (ok: bool)
    requires InfoOk(info, |img|) && info.payload + IndexSize(img, info.payload) <= info.immutable
    ensures ok == LayoutOk(img, info)
  {
    hide IndexSize;
    var contentEnd := info.payload + IndexSize(img, info.payload);
    if info.metadata > info.immutable - contentEnd {
      return false;
    }
    contentEnd := contentEnd + info.metadata;
    if info.cover > info.immutable - contentEnd {
      return false;
    }
    contentEnd := contentEnd + info.cover;
    if info.region == 0 {
      return contentEnd == info.footerOffset;
    }
    if contentEnd > U64_MAX - 4095 || Up4096(contentEnd) != info.regionOffset {
      return false;
    }
    ok := RangeIsZero(img, contentEnd, info.regionOffset, 4096);
  }

  /** The whole reader of the index. */
  method ParseRidx(img: seq<byte>, info: Footer.Info) returns (entries: Option<seq<Entry>>)
    requires InfoOk(info, |img|)
    ensures entries.Some? <==> Accepts(img, info)
    ensures entries.Some? ==> entries.value == StoredEntries(img, info.payload)
  {
    hide HeaderAccepts, StoredPlausible, StoredEntry, EntryOk, LayoutOk, FoldDistinct, AllApart, GapsZero, Entrypoints;
    var ok := CheckHeader(img, info);
    if !ok {
      return None;
    }
    HeaderRoom(img, info);
    var es: seq<Entry>, ranges: seq<Range>, entrypoints: nat;
    ok, es, ranges, entrypoints := ReadEntries(img, info.payload, info.payload);
    if !ok || entrypoints != 1 {
      return None;
    }
    if |es| == 1 && (es[0].offset != 0 || es[0].size != info.payload) {
      return None;
    }
    SweepReady(es, info.payload);
    RangeOrder();
    var sorted := Sort(ranges, RangeNotAfter);
    SortedSweep(img, ranges, sorted, info.payload);
    ok := Sweep(img, sorted, info.payload);
    if !ok {
      return None;
    }
    ok := CheckLayout(img, info);
    entries := if ok then Some(es) else None;
  }

  lemma HeaderRoom(img: seq<byte>, info: Footer.Info)
    requires HeaderAccepts(img, info)
    ensures info.payload + IndexSize(img, info.payload) <= info.immutable <= |img|
  {
  }

  lemma SweepReady(es: seq<Entry>, payload: nat)
    requires forall i :: 0 <= i < |es| ==> EntryOk(es[i], payload)
    ensures forall i :: 0 <= i < |Ranges(es)| ==> Ranges(es)[i].start < Ranges(es)[i].end <= payload
  {
    RangesInside(es, payload);
  }

  /** Sorting changes nothing the sweep is about. */
  lemma SortedSweep(img: seq<byte>, ranges: seq<Range>, sorted: seq<Range>, payload: nat)
    requires multiset(sorted) == multiset(ranges) && payload <= |img|
    requires forall i :: 0 <= i < |ranges| ==> ranges[i].start < ranges[i].end <= payload
    ensures forall i :: 0 <= i < |sorted| ==> sorted[i].start < sorted[i].end <= payload
    ensures AllApart(sorted) == AllApart(ranges) && GapsZero(img, sorted, payload) == GapsZero(img, ranges, payload)
  {
    hide AllApart, GapsZero;
    SameElements(sorted, ranges);
    forall i | 0 <= i < |sorted| ensures sorted[i].start < sorted[i].end <= payload {
      assert sorted[i] in ranges;
    }
    if AllApart(ranges) {
      ApartPermuted(ranges, sorted);
    }
    if AllApart(sorted) {
      ApartPermuted(sorted, ranges);
    }
    if GapsZero(img, ranges, payload) {
      GapsPermuted(img, ranges, sorted, payload);
    }
    if GapsZero(img, sorted, payload) {
      GapsPermuted(img, sorted, ranges, payload);
    }
  }

  // ---------- reading a file ----------

  datatype EntryRead = NoEntry | OutOfBounds | Delivered(bytes: seq<byte>)

  /** What reading size bytes at an offset of some data delivers. */
  function Window(data: seq<byte>, offset: nat, size: nat): EntryRead {
    if offset > |data| then OutOfBounds else Delivered(data[offset..Least(offset + size, |data|)])
  }

  /** Reads from a file of an accepted container, shortened at the end of the file. */
  method ReadEntry(img: seq<byte>, info: Footer.Info, entries: seq<Entry>, index: nat, offset: nat, size: nat) returns (r: EntryRead)
    requires Accepts(img, info) && entries == StoredEntries(img, info.payload)
    ensures index >= |entries| ==> r == NoEntry
    ensures index < |entries| ==> var e := entries[index];
      e.End() <= |img| && r == Window(img[e.offset..e.End()], offset, size)
  {
    hide HeaderAccepts, StoredPlausible, StoredEntry, FoldDistinct, AllApart, GapsZero, LayoutOk, Entrypoints, IsPath;
    if index >= |entries| {
      return NoEntry;
    }
    var e := entries[index];
    EndsInside(img, info, index);
    if offset > e.size {
      return OutOfBounds;
    }
    var count := e.size - offset;
    if count > size {
      count := size;
    }
    if count == 0 {
      return Delivered([]);
    }
    SubSlice(img, e.offset, offset, offset + count, e.End());
    r := Delivered(img[e.offset + offset..e.offset + offset + count]);
  }

  lemma EndsInside(img: seq<byte>, info: Footer.Info, index: nat)
    requires Accepts(img, info) && index < |StoredEntries(img, info.payload)|
    ensures StoredEntries(img, info.payload)[index].End() <= |img|
  {
    hide StoredPlausible, StoredEntry, FoldDistinct, AllApart, GapsZero, LayoutOk, Entrypoints, IsPath;
    assert EntryOk(StoredEntries(img, info.payload)[index], info.payload);
  }

  // ---------- what acceptance guarantees ----------

  predicate Holds(e: Entry, p: nat) {
    e.offset <= p < e.End()
  }

  lemma {:induction false} CoveredMeans(es: seq<Entry>, p: nat)
    ensures Covered(Ranges(es), p) <==> exists i :: 0 <= i < |es| && Holds(es[i], p)
    decreases |es|
  {
    if es != [] {
      var n := |es| - 1;
      CoveredMeans(es[..n], p);
      var init, rs := Ranges(es[..n]), Ranges(es);
      if Covered(init, p) {
        var i :| 0 <= i < |init| && Covers(init[i], p);
        assert Covers(rs[i], p);
      }
      if Holds(es[n], p) {
        assert Covers(rs[|init|], p);
      }
      if i :| 0 <= i < |es| && Holds(es[i], p) {
        assert i < n ==> Holds(es[..n][i], p);
      }
    }
  }

  lemma {:induction false} EntryRange(es: seq<Entry>, i: nat) returns (k: nat)
    requires i < |es| && es[i].size != 0
    ensures k < |Ranges(es)| && Ranges(es)[k] == Range(es[i].offset, es[i].End())
    decreases |es|
  {
    var n := |es| - 1;
    if i == n {
      k := |Ranges(es[..n])|;
    } else {
      k := EntryRange(es[..n], i);
    }
  }

  /** Two different files never share a byte. */
  lemma {:induction false} EntriesApart(es: seq<Entry>, i: nat, j: nat, p: nat)
    requires i < j < |es| && AllApart(Ranges(es)) && Holds(es[i], p)
    ensures !Holds(es[j], p)
    decreases |es|
  {
    var n := |es| - 1;
    var init, rs := Ranges(es[..n]), Ranges(es);
    if j < n {
      forall a, b | 0 <= a < b < |init| ensures Apart(init[a], init[b]) {
        assert Apart(rs[a], rs[b]);
      }
      EntriesApart(es[..n], i, j, p);
    } else if es[j].size != 0 {
      var k := EntryRange(es[..n], i);
      assert Apart(rs[k], rs[|init|]);
    }
  }

  lemma {:induction false} OneEntrypoint(es: seq<Entry>) returns (k: nat)
    requires Entrypoints(es) == 1
    ensures k < |es| && es[k].IsEntrypoint() && forall i :: 0 <= i < |es| && es[i].IsEntrypoint() ==> i == k
    decreases |es|
  {
    var n := |es| - 1;
    if es[n].IsEntrypoint() {
      k := n;
      NoEntrypoint(es[..n]);
      assert forall i :: 0 <= i < n ==> es[..n][i] == es[i];
    } else {
      k := OneEntrypoint(es[..n]);
      assert forall i :: 0 <= i < n ==> es[..n][i] == es[i];
    }
  }

  lemma {:induction false} NoEntrypoint(es: seq<Entry>)
    requires Entrypoints(es) == 0
    ensures forall i :: 0 <= i < |es| ==> !es[i].IsEntrypoint()
    decreases |es|
  {
    if es != [] {
      NoEntrypoint(es[..|es| - 1]);
      assert forall i :: 0 <= i < |es| - 1 ==> es[..|es| - 1][i] == es[i];
    }
  }

  /** Exactly one file holds byte p of the payload. */
  ghost predicate HeldOnce(es: seq<Entry>, p: nat) {
    exists i :: 0 <= i < |es| && Holds(es[i], p) && forall j :: 0 <= j < |es| && Holds(es[j], p) ==> j == i
  }

  /** In an accepted file every payload byte belongs to exactly one file or is zero. */
  lemma PayloadTiled(img: seq<byte>, info: Footer.Info, p: nat)
    requires Accepts(img, info) && p < info.payload
    ensures p < |img| && (img[p] == 0 || HeldOnce(StoredEntries(img, info.payload), p))
  {
    hide StoredEntry, StoredPlausible, EntryOk, FoldDistinct, LayoutOk, Field, Ranges;
    var es := StoredEntries(img, info.payload);
    if img[p] != 0 {
      CoveredMeans(es, p);
      var i :| 0 <= i < |es| && Holds(es[i], p);
      forall j | 0 <= j < |es| && Holds(es[j], p) ensures j == i {
        if i < j {
          EntriesApart(es, i, j, p);
        } else if j < i {
          EntriesApart(es, j, i, p);
        }
      }
    }
  }

  /** In an accepted file payload, index, metadata, cover, zero padding, mutable region and footer
      follow one another without gap or overlap up to the end of the file, and exactly one entry is
      the entrypoint, which starts at offset zero. */
  lemma FileTiled(img: seq<byte>, info: Footer.Info) returns (padding: nat, entrypoint: nat)
    requires InfoOk(info, |img|) && Accepts(img, info)
    ensures info.payload + IndexSize(img, info.payload) + info.metadata + info.cover + padding + info.region + Footer.FOOTER_SIZE == |img|
    ensures padding < 4096 && (info.region == 0 ==> padding == 0)
    ensures ZeroRange(img, ContentEnd(img, info), ContentEnd(img, info) + padding)
    ensures info.region != 0 ==> info.regionOffset == ContentEnd(img, info) + padding && info.regionOffset % 4096 == 0
    ensures var es := StoredEntries(img, info.payload);
      && entrypoint < |es| && es[entrypoint].IsEntrypoint() && es[entrypoint].offset == 0 && es[entrypoint].size > 0
      && forall i :: 0 <= i < |es| && es[i].IsEntrypoint() ==> i == entrypoint
  {
    hide StoredEntry, StoredPlausible, FoldDistinct, Field, Ranges, HeaderAccepts, IndexSize;
    padding := info.immutable - ContentEnd(img, info);
    entrypoint := OneEntrypoint(StoredEntries(img, info.payload));
  }

  /** The layout a file's last 128 bytes announce. */
  function InfoOf(img: seq<byte>): Footer.Info
    requires Footer.FOOTER_SIZE <= |img| && Footer.Accepts(img[|img| - Footer.FOOTER_SIZE..], |img|)
  {
    Footer.InfoOf(Footer.Decode(img[|img| - Footer.FOOTER_SIZE..]), |img|)
  }

  /** Footer and index of a file both pass. */
  predicate Opens(img: seq<byte>) {
    && Footer.FOOTER_SIZE <= |img| < U64
    && Footer.Accepts(img[|img| - Footer.FOOTER_SIZE..], |img|) && Accepts(img, InfoOf(img))
  }

  /** Whatever file opens is tiled by its parts, and its payload by its files and zeros. */
  lemma OpenedTiled(img: seq<byte>) returns (padding: nat, entrypoint: nat)
    requires Opens(img)
    ensures var info := InfoOf(img);
      && info.payload + IndexSize(img, info.payload) + info.metadata + info.cover + padding + info.region + Footer.FOOTER_SIZE == |img|
      && padding < 4096 && (info.region == 0 ==> padding == 0)
      && ZeroRange(img, ContentEnd(img, info), ContentEnd(img, info) + padding)
      && (info.region != 0 ==> info.regionOffset == ContentEnd(img, info) + padding && info.regionOffset % 4096 == 0)
    ensures var es := StoredEntries(img, InfoOf(img).payload);
      && entrypoint < |es| && es[entrypoint].IsEntrypoint() && es[entrypoint].offset == 0 && es[entrypoint].size > 0
      && (forall i :: 0 <= i < |es| && es[i].IsEntrypoint() ==> i == entrypoint)
      && forall p :: 0 <= p < InfoOf(img).payload ==> p < |img| && (img[p] == 0 || HeldOnce(es, p))
  {
    hide InfoOf, Accepts, Footer.Accepts, IndexSize, StoredEntries, HeldOnce, ContentEnd;
    var info := InfoOf(img);
    InfoAnnounced(img);
    padding, entrypoint := FileTiled(img, info);
    forall p | 0 <= p < info.payload
      ensures p < |img| && (img[p] == 0 || HeldOnce(StoredEntries(img, info.payload), p))
    {
      PayloadTiled(img, info, p);
    }
  }

  lemma InfoAnnounced(img: seq<byte>)
    requires Opens(img)
    ensures InfoOk(InfoOf(img), |img|)
  {
    hide Accepts, Footer.Accepts, InfoOk, Footer.Decode;
    FooterGivesInfo(img[|img| - Footer.FOOTER_SIZE..], |img|);
  }
}
