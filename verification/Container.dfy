/** What the writer emits is what the readers accept: footer, index, every file's bytes, the immutable
    hash, and an empty mutable region ready for use. */
module Container {
  import opened Bytes
  import opened Paths
  import opened Sorting
  import opened Writer
  import Crc
  import Entries
  import Footer
  import Objects
  import Refinement
  import RegionHeader
  import Ridx
  import RidxReader
  import Sha256
  import Store

  // ---------- where files lie ----------

  lemma OffsetStep(sources: seq<Source>, e: nat, i: nat)
    requires e < |sources| && i < |sources|
    ensures Rank(e, i) < |sources|
    ensures OffsetOf(sources, e, i) + |sources[i].data| == |Payload(sources, e, Rank(e, i) + 1)| <= |Payload(sources, e, |sources|)|
  {
    hide Payload;
    OrderIsPermutation(e, |sources|, i);
    PayloadNext(sources, e, Rank(e, i));
    PayloadGrows(sources, e, Rank(e, i) + 1, |sources|);
  }

  /** Files written at different times do not overlap. */
  lemma OffsetsApart(sources: seq<Source>, e: nat, i: nat, j: nat)
    requires e < |sources| && i < |sources| && j < |sources| && Rank(e, i) < Rank(e, j)
    ensures OffsetOf(sources, e, i) + |sources[i].data| <= OffsetOf(sources, e, j)
  {
    hide Payload;
    OrderIsPermutation(e, |sources|, i);
    OrderIsPermutation(e, |sources|, j);
    PayloadNext(sources, e, Rank(e, i));
    PayloadGrows(sources, e, Rank(e, i) + 1, Rank(e, j));
  }

  /** The payload holds every file's bytes at its offset. */
  lemma PayloadHolds(sources: seq<Source>, e: nat, i: nat)
    requires e < |sources| && i < |sources|
    ensures Stands(Payload(sources, e, |sources|), OffsetOf(sources, e, i), sources[i].data)
  {
    hide Payload;
    OffsetStep(sources, e, i);
    OrderIsPermutation(e, |sources|, i);
    PayloadNext(sources, e, Rank(e, i));
    PayloadGrows(sources, e, Rank(e, i) + 1, |sources|);
    var all, upTo := Payload(sources, e, |sources|), Payload(sources, e, Rank(e, i) + 1);
    var at, n := OffsetOf(sources, e, i), |sources[i].data|;
    assert upTo[at..at + n] == sources[i].data;
    assert all[..|upTo|] == upTo;
    assert all[at..at + n] == all[..|upTo|][at..at + n];
  }

  /** Every payload byte belongs to some file. */
  lemma {:induction false} PayloadCovered(sources: seq<Source>, e: nat, k: nat, p: nat) returns (i: nat)
    requires e < |sources| && k <= |sources| && p < |Payload(sources, e, k)|
    ensures i < |sources| && RidxReader.Holds(IndexEntry(sources, e, i), p)
    decreases k
  {
    hide Payload, Crc.Crc32;
    if k == 0 {
      PayloadNone(sources, e);
      assert false;
    } else {
      PayloadNext(sources, e, k - 1);
      if p < |Payload(sources, e, k - 1)| {
        i := PayloadCovered(sources, e, k - 1, p);
      } else {
        i := Nth(e, k - 1);
        OrderIsPermutation(e, |sources|, k - 1);
      }
    }
  }

  // ---------- the index of a container satisfies the reader ----------

  lemma IndexEntryOk(sources: seq<Source>, e: nat, i: nat)
    requires SourcesOk(sources, e) && i < |sources|
    ensures Ridx.EntryOk(IndexEntry(sources, e, i), |Payload(sources, e, |sources|)|)
  {
    hide Payload, IsPath, FoldDistinct, Crc.Crc32;
    OffsetStep(sources, e, i);
    PayloadNone(sources, e);
  }

  lemma {:induction false} OneEntrypoint(sources: seq<Source>, e: nat, n: nat)
    requires EntrypointAmong(sources, |sources|, e) && n <= |sources|
    ensures Ridx.Entrypoints(IndexEntries(sources, e, n)) == if e < n then 1 else 0
    decreases n
  {
    hide OffsetOf, Crc.Crc32;
    if n != 0 {
      OneEntrypoint(sources, e, n - 1);
      assert IndexEntries(sources, e, n)[..n - 1] == IndexEntries(sources, e, n - 1);
    }
  }

  /** Entries pairwise apart have ranges pairwise apart. */
  predicate IsRangeOf(r: Range, es: seq<Ridx.Entry>) {
    exists i :: 0 <= i < |es| && r == Range(es[i].offset, es[i].End())
  }

  lemma {:induction false} RangeListed(es: seq<Ridx.Entry>, k: nat)
    requires k < |Ridx.Ranges(es)|
    ensures IsRangeOf(Ridx.Ranges(es)[k], es)
    decreases |es|
  {
    var init, rs := es[..|es| - 1], Ridx.Ranges(es[..|es| - 1]);
    if k < |rs| {
      RangeListed(init, k);
      var i :| 0 <= i < |init| && rs[k] == Range(init[i].offset, init[i].End());
      assert es[i] == init[i];
    }
  }

  lemma {:induction false} RangesApart(es: seq<Ridx.Entry>)
    requires forall i, j :: 0 <= i < j < |es| ==> es[i].End() <= es[j].offset || es[j].End() <= es[i].offset
    ensures Ridx.AllApart(Ridx.Ranges(es))
    decreases |es|
  {
    if es != [] {
      var n := |es| - 1;
      var init, rs := es[..n], Ridx.Ranges(es[..n]);
      RangesApart(init);
      forall a, b | 0 <= a < b < |Ridx.Ranges(es)| ensures Ridx.Apart(Ridx.Ranges(es)[a], Ridx.Ranges(es)[b]) {
        if b < |rs| {
          assert Ridx.Apart(rs[a], rs[b]);
        } else {
          RangeListed(init, a);
          var i :| 0 <= i < |init| && rs[a] == Range(init[i].offset, init[i].End());
          assert es[i] == init[i];
        }
      }
    }
  }

  lemma IndexTiles(sources: seq<Source>, e: nat, img: seq<byte>)
    requires e < |sources| && Payload(sources, e, |sources|) <= img
    ensures var rs := Ridx.Ranges(IndexEntries(sources, e, |sources|));
      Ridx.AllApart(rs) && Ridx.GapsZero(img, rs, |Payload(sources, e, |sources|)|)
  {
    hide Payload, Crc.Crc32, Ridx.Ranges;
    var es := IndexEntries(sources, e, |sources|);
    forall i, j | 0 <= i < j < |es| ensures es[i].End() <= es[j].offset || es[j].End() <= es[i].offset {
      OrderIsPermutation(e, |sources|, i);
      OrderIsPermutation(e, |sources|, j);
      if Rank(e, i) < Rank(e, j) {
        OffsetsApart(sources, e, i, j);
      } else {
        OffsetsApart(sources, e, j, i);
      }
    }
    RangesApart(es);
    forall p | 0 <= p < |Payload(sources, e, |sources|)| ensures Ridx.Covered(Ridx.Ranges(es), p) {
      var i := PayloadCovered(sources, e, |sources|, p);
      assert RidxReader.Holds(es[i], p);
      RidxReader.CoveredMeans(es, p);
    }
  }

  // ---------- reading the index back ----------

  lemma {:induction false} EntryStands(es: seq<Ridx.Entry>, i: nat)
    requires Ridx.PathsFit(es) && i < |es|
    ensures Stands(Ridx.EntriesBytes(es), Ridx.ENTRY_SIZE * i, Ridx.EntryBytes(es[i]))
    decreases |es|
  {
    hide Ridx.EntryBytes;
    var n := |es| - 1;
    var front := Ridx.EntriesBytes(es[..n]);
    assert Ridx.EntriesBytes(es) == front + Ridx.EntryBytes(es[n]);
    if i < n {
      EntryStands(es[..n], i);
      SlotInIndex(i, n);
      var at := Ridx.ENTRY_SIZE * i;
      assert (front + Ridx.EntryBytes(es[n]))[at..at + 512] == front[at..at + 512];
    }
  }

  predicate EntryFits(x: Ridx.Entry) {
    && x.flags < U32 && x.format < U16 && 0 < |x.path| <= Ridx.PATH_CAPACITY && x.offset < U64 && x.size < U64 && x.crc < U32
  }

  /** A stored entry reads back as it was written. */
  lemma EntryReads(img: seq<byte>, at: nat, i: nat, x: Ridx.Entry)
    requires EntryFits(x) && Stands(img, Ridx.EntryAt(at, i), Ridx.EntryBytes(x))
    ensures Ridx.StoredEntry(img, at, i) == x
    ensures x.flags < 4 ==> Ridx.StoredPlausible(img, at, i)
  {
    hide FromLe, Le, AllZero, Ridx.Numbers, Ridx.EntryBytes;
    var base := Ridx.EntryAt(at, i);
    var b := Ridx.EntryBytes(x);
    var n := |x.path|;
    NumbersRead(x);
    PathRead(x);
    ReadWithin(img, base, 512, 0, 4);
    ReadWithin(img, base, 512, 4, 2);
    ReadWithin(img, base, 512, 6, 2);
    ReadWithin(img, base, 512, 8, 8);
    ReadWithin(img, base, 512, 16, 8);
    ReadWithin(img, base, 512, 24, 4);
    ReadWithin(img, base, 512, 28, 4);
    ReadWithin(img, base, 512, 32, n);
    ReadWithin(img, base, 512, 32 + n, 480 - n);
  }

  lemma NumbersRead(x: Ridx.Entry)
    requires EntryFits(x)
    ensures var b := Ridx.EntryBytes(x);
      && FromLe(b[0..4]) == x.flags && FromLe(b[4..6]) == x.format && FromLe(b[6..8]) == |x.path|
      && FromLe(b[8..16]) == x.offset && FromLe(b[16..24]) == x.size && FromLe(b[24..28]) == x.crc && FromLe(b[28..32]) == 0
  {
    hide FromLe, Le, Ridx.PathField;
    var b := Ridx.EntryBytes(x);
    assert b[0..32] == Ridx.Numbers(x);
    var h := b[0..32];
    ThreePieces(h, 0, Le(4, x.flags), Le(2, x.format), Le(2, |x.path|));
    StandsSplit(h, 8, Le(8, x.offset), Le(8, x.size));
    StandsSplit(h, 24, Le(4, x.crc), Zeros(4));
    assert h[0..8] == Le(4, x.flags) + Le(2, x.format) + Le(2, |x.path|);
    assert h[8..24] == Le(8, x.offset) + Le(8, x.size);
    assert h[24..32] == Le(4, x.crc) + Zeros(4);
    SubSlice(b, 0, 0, 4, 32);
    SubSlice(b, 0, 4, 6, 32);
    SubSlice(b, 0, 6, 8, 32);
    SubSlice(b, 0, 8, 16, 32);
    SubSlice(b, 0, 16, 24, 32);
    SubSlice(b, 0, 24, 28, 32);
    SubSlice(b, 0, 28, 32, 32);
    LeExactly(b[0..4], 4, x.flags);
    LeExactly(b[4..6], 2, x.format);
    LeExactly(b[6..8], 2, |x.path|);
    LeExactly(b[8..16], 8, x.offset);
    LeExactly(b[16..24], 8, x.size);
    LeExactly(b[24..28], 4, x.crc);
    ZeroField(b[28..32]);
  }

  lemma PathRead(x: Ridx.Entry)
    requires |x.path| <= Ridx.PATH_CAPACITY
    ensures var b, n := Ridx.EntryBytes(x), |x.path|;
      b[32..32 + n] == x.path && AllZero(b[32 + n..32 + n + (480 - n)])
  {
    hide Ridx.Numbers;
    var b, n := Ridx.EntryBytes(x), |x.path|;
    assert b[32..512] == x.path + Zeros(480 - n);
    SubSlice(b, 32, 0, n, 512);
    SubSlice(b, 32, n, 480, 512);
  }

  lemma HeaderRead(count: nat, sum: seq<byte>)
    requires count < U32 && |sum| == 4
    ensures var h := Ridx.HeaderBytes(count, sum);
      && h[0..4] == Ridx.MAGIC && FromLe(h[4..6]) == 1 && FromLe(h[6..8]) == 64 && FromLe(h[8..12]) == count
      && FromLe(h[12..16]) == 512 && FromLe(h[16..20]) == 0 && h[20..24] == sum && AllZero(h[24..64])
  {
    hide FromLe, Le;
    var h := Ridx.HeaderBytes(count, sum);
    var a, b, c := Ridx.MAGIC + Le(2, 1) + Le(2, 64), Le(4, count) + Le(4, 512), Zeros(4) + sum + Zeros(40);
    assert h == a + b + c;
    assert h[0..8] == a && h[8..16] == b && h[16..64] == c;
    ThreePieces(h, 0, Ridx.MAGIC, Le(2, 1), Le(2, 64));
    StandsSplit(h, 8, Le(4, count), Le(4, 512));
    ThreePieces(h, 16, Zeros(4), sum, Zeros(40));
    LeExactly(h[4..6], 2, 1);
    LeExactly(h[6..8], 2, 64);
    LeExactly(h[8..12], 4, count);
    LeExactly(h[12..16], 4, 512);
    ZeroField(h[16..20]);
  }

  /** The header of a stored index, read field by field. */
  lemma HeaderFieldsRead(img: seq<byte>, at: nat, count: nat, sum: seq<byte>)
    requires count < U32 && |sum| == 4 && Stands(img, at, Ridx.HeaderBytes(count, sum))
    ensures Slice(img, at, 4) == Ridx.MAGIC && Field(img, at + 4, 2) == 1 && Field(img, at + 6, 2) == 64
    ensures Field(img, at + 8, 4) == count && Field(img, at + 12, 4) == 512 && Field(img, at + 16, 4) == 0
    ensures Field(img, at + 20, 4) == FromLe(sum) && AllZero(Slice(img, at + 24, 40))
  {
    hide FromLe, Le, AllZero, Ridx.HeaderBytes;
    HeaderRead(count, sum);
    ReadWithin(img, at, 64, 0, 4);
    ReadWithin(img, at, 64, 4, 2);
    ReadWithin(img, at, 64, 6, 2);
    ReadWithin(img, at, 64, 8, 4);
    ReadWithin(img, at, 64, 12, 4);
    ReadWithin(img, at, 64, 16, 4);
    ReadWithin(img, at, 64, 20, 4);
    ReadWithin(img, at, 64, 24, 40);
  }

  lemma HeaderReads(img: seq<byte>, info: Footer.Info, es: seq<Ridx.Entry>)
    requires Ridx.PathsFit(es) && 0 < |es| < U32 && Stands(img, info.payload, Ridx.Index(es))
    requires info.payload + |Ridx.Index(es)| <= info.immutable <= |img|
    ensures Ridx.HeaderAccepts(img, info) && Ridx.Count(img, info.payload) == |es|
  {
    hide FromLe, Le, AllZero, Ridx.EntriesBytes, Ridx.HeaderBytes, Field, Slice, Put;
    var crc := Crc.Crc32(Ridx.IndexWith(es, Zeros(4)));
    var sum := Le(4, crc);
    IndexSealed(es, sum, Zeros(4));
    LeExactly(sum, 4, crc);
    StandsSplit(img, info.payload, Ridx.HeaderBytes(|es|, sum), Ridx.EntriesBytes(es));
    HeaderFieldsRead(img, info.payload, |es|, sum);
  }

  /** Every entry of a stored index, read back. */
  lemma IndexReads(img: seq<byte>, info: Footer.Info, es: seq<Ridx.Entry>)
    requires Ridx.PathsFit(es) && 0 < |es| < U32 && Stands(img, info.payload, Ridx.Index(es))
    requires info.payload + |Ridx.Index(es)| <= info.immutable <= |img|
    requires forall i :: 0 <= i < |es| ==> EntryFits(es[i]) && es[i].flags < 4
    ensures Ridx.HeaderAccepts(img, info) && Ridx.StoredEntries(img, info.payload) == es
    ensures Ridx.IndexSize(img, info.payload) == |Ridx.Index(es)|
    ensures forall i :: 0 <= i < |es| ==> Ridx.StoredPlausible(img, info.payload, i)
  {
    hide Le, Ridx.EntriesBytes, Ridx.HeaderBytes, Ridx.EntryBytes, Ridx.HeaderAccepts, Ridx.StoredEntry,
      Ridx.StoredPlausible, Ridx.Count, EntryFits, Stands, Crc.Crc32, Ridx.IndexWith;
    HeaderReads(img, info, es);
    forall i | 0 <= i < |es|
      ensures Ridx.StoredEntry(img, info.payload, i) == es[i] && Ridx.StoredPlausible(img, info.payload, i)
    {
      IndexReadsAt(img, info.payload, es, i);
    }
    assert |Ridx.Index(es)| == 64 + 512 * |es|;
  }

  lemma IndexReadsAt(img: seq<byte>, at: nat, es: seq<Ridx.Entry>, i: nat)
    requires Ridx.PathsFit(es) && 0 < |es| < U32 && Stands(img, at, Ridx.Index(es))
    requires i < |es| && EntryFits(es[i]) && es[i].flags < 4
    ensures Ridx.StoredEntry(img, at, i) == es[i] && Ridx.StoredPlausible(img, at, i)
  {
    hide Le, Ridx.EntriesBytes, Ridx.HeaderBytes, Ridx.EntryBytes, Ridx.StoredEntry, Ridx.StoredPlausible, Crc.Crc32,
      EntryFits, Stands;
    var sum := Le(4, Crc.Crc32(Ridx.IndexWith(es, Zeros(4))));
    StandsSplit(img, at, Ridx.HeaderBytes(|es|, sum), Ridx.EntriesBytes(es));
    EntryStands(es, i);
    StandsWithin(img, at + 64, Ridx.EntriesBytes(es), 512 * i, Ridx.EntryBytes(es[i]));
    EntryReads(img, at, i, es[i]);
  }

  /** What stands inside something that stands. */
  lemma StandsWithin(img: seq<byte>, at: nat, outer: seq<byte>, o: nat, inner: seq<byte>)
    requires Stands(img, at, outer) && Stands(outer, o, inner)
    ensures Stands(img, at + o, inner)
  {
    SubSlice(img, at, o, o + |inner|, at + |outer|);
  }

  // ---------- the whole container ----------

  /** The arguments of a write that succeeds, and a result that fits 64-bit offsets. */
  predicate Written(sources: seq<Source>, e: nat, metadata: seq<byte>, cover: seq<byte>, s: Options, img: seq<byte>) {
    && SettingsOk(s) && OptionsTyped(s) && Typed(sources) && SourcesOk(sources, e) && PathsFit(sources)
    && e < |sources|
    && img == Writer.Container(sources, e, metadata, cover, s) && |img| < U64
  }

  /** Where the parts of a container lie. */
  lemma Parts(sources: seq<Source>, e: nat, metadata: seq<byte>, cover: seq<byte>, s: Options, img: seq<byte>)
    requires Written(sources, e, metadata, cover, s, img)
    ensures var p := |Payload(sources, e, |sources|)|; var x := |IndexOf(sources, e)|;
      var immutable := Immutable(Content(sources, e, metadata, cover), s.capacity);
      && Payload(sources, e, |sources|) <= img && Stands(img, p, IndexOf(sources, e))
      && Stands(img, p + x, metadata) && Stands(img, p + x + |metadata|, cover)
      && ZeroRange(img, p + x + |metadata| + |cover|, |immutable|)
      && immutable <= img && |img| == |immutable| + s.capacity + 128
      && img[|immutable|..|immutable| + s.capacity] == Region(s)
      && img[|img| - 128..] == Footer.Print(FooterOf(s, p, |metadata|, |cover|, immutable))
  {
    hide Payload, IndexOf, SettingsOk, SourcesOk, Typed, Region, Footer.Print, Sha256.Hash, Ridx.Up4096;
    var payload, index := Payload(sources, e, |sources|), IndexOf(sources, e);
    var content := Content(sources, e, metadata, cover);
    var immutable := Immutable(content, s.capacity);
    var foot := Footer.Print(FooterOf(s, |payload|, |metadata|, |cover|, immutable));
    assert img == immutable + Region(s) + foot;
    var pad := Zeros(|immutable| - |content|);
    assert immutable == content + pad;
    Append5(payload, index, metadata, cover, pad, Region(s) + foot, img);
  }

  lemma Append5(a: seq<byte>, b: seq<byte>, c: seq<byte>, d: seq<byte>, z: seq<byte>, rest: seq<byte>, img: seq<byte>)
    requires img == a + b + c + d + z + rest && AllZero(z)
    ensures a <= img && Stands(img, |a|, b) && Stands(img, |a| + |b|, c) && Stands(img, |a| + |b| + |c|, d)
    ensures ZeroRange(img, |a| + |b| + |c| + |d|, |a| + |b| + |c| + |d| + |z|)
  {
    assert img[|a|..|a| + |b|] == b;
    assert img[|a| + |b|..|a| + |b| + |c|] == c;
    assert img[|a| + |b| + |c|..|a| + |b| + |c| + |d|] == d;
    assert img[|a| + |b| + |c| + |d|..|a| + |b| + |c| + |d| + |z|] == z;
  }

  /** The footer of a container is accepted and describes it. */
  lemma FooterReads(sources: seq<Source>, e: nat, metadata: seq<byte>, cover: seq<byte>, s: Options, img: seq<byte>)
    requires Written(sources, e, metadata, cover, s, img)
    ensures |img| >= 128 && Footer.Accepts(img[|img| - 128..], |img|)
    ensures Footer.Decode(img[|img| - 128..]) == FooterOf(s, |Payload(sources, e, |sources|)|, |metadata|, |cover|,
                                                          Immutable(Content(sources, e, metadata, cover), s.capacity))
  {
    hide IndexOf, Region, Footer.Print, Sha256.Hash, Ridx.Up4096, IsPath, FoldDistinct, Footer.Accepts, Content,
      Stands, ZeroRange;
    Parts(sources, e, metadata, cover, s, img);
    PayloadNotEmpty(sources, e);
    ContentSize(sources, e, metadata, cover, s.capacity);
    var f := FooterOf(s, |Payload(sources, e, |sources|)|, |metadata|, |cover|,
                      Immutable(Content(sources, e, metadata, cover), s.capacity));
    Footer.PrintAccepted(f, |img|);
  }

  lemma PayloadNotEmpty(sources: seq<Source>, e: nat)
    requires SourcesOk(sources, e)
    ensures |Payload(sources, e, |sources|)| > 0
  {
    hide IsPath, FoldDistinct, Payload;
    OffsetStep(sources, e, e);
  }

  lemma ContentSize(sources: seq<Source>, e: nat, metadata: seq<byte>, cover: seq<byte>, capacity: nat)
    requires e < |sources| && PathsFit(sources)
    ensures var content := Content(sources, e, metadata, cover);
      && |content| == |Payload(sources, e, |sources|)| + |IndexOf(sources, e)| + |metadata| + |cover|
      && |content| <= |Immutable(content, capacity)| < U64_MAX + |content| + 4096
      && |IndexOf(sources, e)| >= 64
  {
    hide Payload, IndexOf;
  }

  /** The index of a container reads back as it was built. */
  lemma ContainerIndex(sources: seq<Source>, e: nat, metadata: seq<byte>, cover: seq<byte>, s: Options, img: seq<byte>)
    requires Written(sources, e, metadata, cover, s, img)
    ensures |img| >= 128 && Footer.Accepts(img[|img| - 128..], |img|)
    ensures var info := RidxReader.InfoOf(img);
      && info.payload == |Payload(sources, e, |sources|)| && info.metadata == |metadata| && info.cover == |cover|
      && info.region == s.capacity && info.immutable == |Immutable(Content(sources, e, metadata, cover), s.capacity)|
      && Ridx.HeaderAccepts(img, info) && Ridx.IndexSize(img, info.payload) == |IndexOf(sources, e)|
      && Ridx.StoredEntries(img, info.payload) == IndexEntries(sources, e, |sources|)
      && forall i :: 0 <= i < |sources| ==> Ridx.StoredPlausible(img, info.payload, i)
  {
    hide Payload, Region, Footer.Print, Sha256.Hash, Ridx.Up4096, IsPath, FoldDistinct, Footer.Accepts, Content,
      ZeroRange, Ridx.Index, Ridx.HeaderAccepts, Ridx.StoredPlausible, Immutable, Stands, Ridx.StoredEntry,
      Ridx.IndexSize;
    Parts(sources, e, metadata, cover, s, img);
    FooterReads(sources, e, metadata, cover, s, img);
    ContentSize(sources, e, metadata, cover, s.capacity);
    EntriesFit(sources, e);
    EntriesReadable(sources, e, |img|);
    IndexReads(img, RidxReader.InfoOf(img), IndexEntries(sources, e, |sources|));
  }

  lemma EntriesReadable(sources: seq<Source>, e: nat, limit: nat)
    requires SourcesOk(sources, e) && Typed(sources) && |Payload(sources, e, |sources|)| <= limit < U64
    ensures forall i :: 0 <= i < |sources| ==> EntryFits(IndexEntry(sources, e, i)) && IndexEntry(sources, e, i).flags < 4
  {
    hide Payload, FoldDistinct, IsPath, Crc.Crc32;
    forall i | 0 <= i < |sources|
      ensures EntryFits(IndexEntry(sources, e, i)) && IndexEntry(sources, e, i).flags < 4
    {
      OffsetStep(sources, e, i);
      PathThere(sources, e, i);
    }
  }

  lemma PathThere(sources: seq<Source>, e: nat, i: nat)
    requires SourcesOk(sources, e) && i < |sources|
    ensures 0 < |sources[i].path| <= Ridx.PATH_CAPACITY
  {
    if sources[i].path == [] {
      OuterSlash(sources[i].path);
    }
  }

  /** A written container is accepted whole. */
  lemma ContainerAccepted(sources: seq<Source>, e: nat, metadata: seq<byte>, cover: seq<byte>, s: Options, img: seq<byte>)
    requires Written(sources, e, metadata, cover, s, img)
    ensures |img| >= 128 && Footer.Accepts(img[|img| - 128..], |img|) && Ridx.Accepts(img, RidxReader.InfoOf(img))
    ensures RidxReader.Opens(img)
  {
    hide Payload, Region, Footer.Print, Sha256.Hash, IsPath, Footer.Accepts, Ridx.Index, IndexEntry,
      EntrypointAmong, Fold, Ridx.HeaderAccepts, Ridx.StoredPlausible, Stands, Ridx.StoredEntry, Ridx.IndexSize,
      Ridx.AllApart, Ridx.GapsZero, Ridx.EntryOk, FoldDistinct, Ridx.Entrypoints, Ridx.LayoutOk, Writer.Container,
      Content, Immutable, ZeroRange;
    ContainerIndex(sources, e, metadata, cover, s, img);
    var es, info := IndexEntries(sources, e, |sources|), RidxReader.InfoOf(img);
    Parts(sources, e, metadata, cover, s, img);
    forall i | 0 <= i < |es| ensures Ridx.EntryOk(es[i], info.payload) {
      IndexEntryOk(sources, e, i);
    }
    IndexPaths(sources, e);
    OneEntrypoint(sources, e, |sources|);
    IndexTiles(sources, e, img);
    SingleFile(sources, e);
    LayoutReads(sources, e, metadata, cover, s, img);
  }

  lemma LayoutReads(sources: seq<Source>, e: nat, metadata: seq<byte>, cover: seq<byte>, s: Options, img: seq<byte>)
    requires Written(sources, e, metadata, cover, s, img)
    ensures |img| >= 128 && Footer.Accepts(img[|img| - 128..], |img|) && Ridx.LayoutOk(img, RidxReader.InfoOf(img))
  {
    hide Payload, Region, Footer.Print, Sha256.Hash, IsPath, Footer.Accepts, EntrypointAmong, Fold, FoldDistinct,
      Content, Writer.Container, Ridx.HeaderAccepts, Ridx.StoredPlausible, Stands, Ridx.StoredEntries,
      Ridx.IndexSize, Ridx.Up4096, Immutable, ZeroRange, IndexOf, IndexEntries, SourcesOk, Typed, PathsFit,
      SettingsOk, Footer.Decode;
    ContainerIndex(sources, e, metadata, cover, s, img);
    Parts(sources, e, metadata, cover, s, img);
    ContentSize(sources, e, metadata, cover, s.capacity);
  }

  lemma IndexPaths(sources: seq<Source>, e: nat)
    requires e < |sources|
    ensures Ridx.PathsOf(IndexEntries(sources, e, |sources|)) == PathsOf(sources)
  {
    hide OffsetOf, Crc.Crc32;
  }

  lemma SingleFile(sources: seq<Source>, e: nat)
    requires e < |sources|
    ensures |sources| == 1 ==> var x := IndexEntry(sources, e, 0); x.offset == 0 && x.size == |Payload(sources, e, 1)|
  {
    hide Crc.Crc32;
    if |sources| == 1 {
      PayloadNone(sources, e);
      PayloadNext(sources, e, 0);
    }
  }

  /** Every file reads back byte for byte where the index says it lies, under its own name. */
  lemma FilesReadBack(sources: seq<Source>, e: nat, metadata: seq<byte>, cover: seq<byte>, s: Options, img: seq<byte>, i: nat)
    requires Written(sources, e, metadata, cover, s, img) && i < |sources|
    ensures |img| >= 128 && Footer.Accepts(img[|img| - 128..], |img|)
    ensures var es := Ridx.StoredEntries(img, RidxReader.InfoOf(img).payload);
      && |es| == |sources|
      && es[i].path == sources[i].path && es[i].flags == sources[i].flags && es[i].format == sources[i].format
      && es[i].crc == (if sources[i].flags / 2 % 2 == 1 then Crc.Crc32(sources[i].data) else 0)
      && es[i].End() <= |img| && img[es[i].offset..es[i].End()] == sources[i].data
  {
    hide Payload, IsPath, Footer.Accepts, Fold, Ridx.HeaderAccepts, Ridx.StoredPlausible, Ridx.StoredEntry,
      Ridx.IndexSize, FoldDistinct, Crc.Crc32, Immutable, Region, Writer.Container, ZeroRange, Content,
      EntrypointAmong;
    Parts(sources, e, metadata, cover, s, img);
    ContainerIndex(sources, e, metadata, cover, s, img);
    PayloadHolds(sources, e, i);
    PrefixStands(img, Payload(sources, e, |sources|), OffsetOf(sources, e, i), sources[i].data);
  }

  /** Reading a stretch of file i of an accepted container delivers that stretch of data. */
  ghost predicate Delivers(img: seq<byte>, i: nat, data: seq<byte>, offset: nat, size: nat)
    requires RidxReader.Opens(img)
  {
    var es := Ridx.StoredEntries(img, RidxReader.InfoOf(img).payload);
    && i < |es| && es[i].End() <= |img|
    && RidxReader.Window(img[es[i].offset..es[i].End()], offset, size) ==
       (if offset > |data| then RidxReader.OutOfBounds
        else RidxReader.Delivered(data[offset..Least(offset + size, |data|)]))
  }

  /** Reading any stretch of a file through the reader delivers that stretch of the source, shortened
      at its end. */
  lemma ReadsBack(sources: seq<Source>, e: nat, metadata: seq<byte>, cover: seq<byte>, s: Options, img: seq<byte>,
                  i: nat, offset: nat, size: nat)
    requires Written(sources, e, metadata, cover, s, img) && i < |sources|
    ensures RidxReader.Opens(img) && Delivers(img, i, sources[i].data, offset, size)
  {
    hide Written, Ridx.StoredEntries, RidxReader.InfoOf, Ridx.Accepts, Footer.Accepts;
    ContainerAccepted(sources, e, metadata, cover, s, img);
    FilesReadBack(sources, e, metadata, cover, s, img, i);
  }

  lemma PrefixStands(img: seq<byte>, front: seq<byte>, at: nat, b: seq<byte>)
    requires front <= img && Stands(front, at, b)
    ensures Stands(img, at, b)
  {
    assert img[..|front|] == front;
    SubSlice(img, 0, at, at + |b|, |front|);
  }

  /** Metadata and cover read back too, and the stored hash, if one was asked for, is the SHA-256 of
      everything before the mutable region. */
  lemma ExtrasReadBack(sources: seq<Source>, e: nat, metadata: seq<byte>, cover: seq<byte>, s: Options, img: seq<byte>)
    requires Written(sources, e, metadata, cover, s, img)
    ensures |img| >= 128 && Footer.Accepts(img[|img| - 128..], |img|)
    ensures var info := RidxReader.InfoOf(img); var at := info.payload + Ridx.IndexSize(img, info.payload);
      && info.metadata == |metadata| && Stands(img, at, metadata)
      && info.cover == |cover| && Stands(img, at + |metadata|, cover)
      && info.immutable <= |img| && (s.sha ==> info.hash == Sha256.Hash(img[..info.immutable]))
    ensures var info := RidxReader.InfoOf(img);
      && info.platform == s.platform && info.launch == s.launch
      && info.algorithm == (if s.sha then 1 else 0) && (!s.sha ==> info.hash == Zeros(32))
  {
    hide Payload, IsPath, Footer.Accepts, Fold, Ridx.HeaderAccepts, Ridx.StoredPlausible, Ridx.StoredEntries,
      Ridx.IndexSize, FoldDistinct, Crc.Crc32, Immutable, Region, Writer.Container, ZeroRange, Content,
      EntrypointAmong, Stands, Sha256.Hash, IndexEntries, IndexOf, SettingsOk, SourcesOk, Typed, RidxReader.InfoOf;
    Parts(sources, e, metadata, cover, s, img);
    ContainerIndex(sources, e, metadata, cover, s, img);
    HashReads(sources, e, metadata, cover, s, img);
    PrefixIs(Immutable(Content(sources, e, metadata, cover), s.capacity), img);
  }

  lemma HashReads(sources: seq<Source>, e: nat, metadata: seq<byte>, cover: seq<byte>, s: Options, img: seq<byte>)
    requires Written(sources, e, metadata, cover, s, img)
    ensures |img| >= 128 && Footer.Accepts(img[|img| - 128..], |img|)
    ensures var info := RidxReader.InfoOf(img);
      && (s.sha ==> info.hash == Sha256.Hash(Immutable(Content(sources, e, metadata, cover), s.capacity)))
      && info.platform == s.platform && info.launch == s.launch
      && info.algorithm == (if s.sha then 1 else 0) && (!s.sha ==> info.hash == Zeros(32))
  {
    hide Written, Footer.Accepts, Content, Immutable, Payload, Region, Sha256.Hash;
    FooterReads(sources, e, metadata, cover, s, img);
  }

  lemma PrefixIs(a: seq<byte>, b: seq<byte>)
    requires a <= b
    ensures b[..|a|] == a
  {
  }

  /** The blank region lies where the footer says. */
  lemma RegionPlace(sources: seq<Source>, e: nat, metadata: seq<byte>, cover: seq<byte>, s: Options, img: seq<byte>)
    requires Written(sources, e, metadata, cover, s, img) && s.capacity != 0
    ensures |img| >= 128 && Footer.Accepts(img[|img| - 128..], |img|)
    ensures var info := RidxReader.InfoOf(img); var r := Entries.Region(info.regionOffset, s.capacity, s.slots);
      && info.region == s.capacity && Objects.Holds(r, img) && s.slots < U32
      && img[r.base..r.base + r.size] == RegionHeader.Blank(s.slots, s.capacity)
  {
    hide Payload, IsPath, Footer.Accepts, Fold, FoldDistinct, Crc.Crc32, Writer.Container, ZeroRange, Content,
      EntrypointAmong, Stands, Sha256.Hash, RegionHeader.Blank, RidxReader.InfoOf, Footer.Print, FooterOf, SourcesOk;
    Parts(sources, e, metadata, cover, s, img);
    RegionOffset(sources, e, metadata, cover, s, img);
  }

  lemma RegionOffset(sources: seq<Source>, e: nat, metadata: seq<byte>, cover: seq<byte>, s: Options, img: seq<byte>)
    requires Written(sources, e, metadata, cover, s, img) && s.capacity != 0
    ensures |img| >= 128 && Footer.Accepts(img[|img| - 128..], |img|)
    ensures var info := RidxReader.InfoOf(img); info.region == s.capacity && info.regionOffset + s.capacity == |img| - 128
  {
    hide Written, Footer.Accepts, Content, Immutable, Payload, Region, Sha256.Hash;
    FooterReads(sources, e, metadata, cover, s, img);
  }

  /** The mutable region, if one was asked for, opens tidy and empty. */
  lemma RegionReady(sources: seq<Source>, e: nat, metadata: seq<byte>, cover: seq<byte>, s: Options, img: seq<byte>)
    requires Written(sources, e, metadata, cover, s, img) && s.capacity != 0
    ensures |img| >= 128 && Footer.Accepts(img[|img| - 128..], |img|)
    ensures var info := RidxReader.InfoOf(img); var r := Entries.Region(info.regionOffset, s.capacity, s.slots);
      && info.region == s.capacity && Store.Placed(info.regionOffset, info.region, |img|)
      && Store.RegionOf(img, info.regionOffset, info.region) == Some(r)
      && Objects.Holds(r, img) && Refinement.Tidy(r, img) && Objects.ViewOf(r, img) == map[]
  {
    hide Payload, IsPath, Footer.Accepts, Fold, Ridx.HeaderAccepts, Ridx.StoredPlausible, Ridx.StoredEntries,
      Ridx.IndexSize, FoldDistinct, Crc.Crc32, Writer.Container, ZeroRange, Content, EntrypointAmong, Stands,
      Sha256.Hash, RegionHeader.Blank, Refinement.Tidy, Objects.ViewOf, Store.RegionOf, Written, RidxReader.InfoOf;
    RegionPlace(sources, e, metadata, cover, s, img);
    Refinement.BlankIsEmpty(Entries.Region(RidxReader.InfoOf(img).regionOffset, s.capacity, s.slots), img);
  }
}
