/** The payload index of a container, and what an accepted file looks like: every byte accounted for,
    every payload byte in exactly one file or zero. */
module Ridx {
  import opened Bytes
  import opened Paths
  import opened Sorting
  import Crc
  import Footer

  const HEADER_SIZE: nat := 64
  const ENTRY_SIZE: nat := 512
  const PATH_CAPACITY: nat := 480

  const MAGIC: seq<byte> := [0x52, 0x49, 0x44, 0x58]

  /** One file of the payload. */
  datatype Entry = Entry(flags: nat, format: nat, path: seq<byte>, offset: nat, size: nat, crc: nat) {
    predicate IsEntrypoint() {
      flags % 2 == 1
    }

    predicate HasCrc() {
      flags / 2 % 2 == 1
    }

    function End(): nat {
      offset + size
    }
  }

  // ---------- printing ----------

  function Numbers(e: Entry): (b: seq<byte>)
    ensures |b| == 32
  {
    (Le(4, e.flags) + Le(2, e.format) + Le(2, |e.path|)) + (Le(8, e.offset) + Le(8, e.size)) + (Le(4, e.crc) + Zeros(4))
  }

  function PathField(path: seq<byte>): (b: seq<byte>)
    requires |path| <= PATH_CAPACITY
    ensures |b| == PATH_CAPACITY
  {
    path + Zeros(PATH_CAPACITY - |path|)
  }

  function EntryBytes(e: Entry): (b: seq<byte>)
    requires |e.path| <= PATH_CAPACITY
    ensures |b| == ENTRY_SIZE
  {
    Numbers(e) + PathField(e.path)
  }

  predicate PathsFit(es: seq<Entry>) {
    forall i :: 0 <= i < |es| ==> |es[i].path| <= PATH_CAPACITY
  }

  function EntriesBytes(es: seq<Entry>): (b: seq<byte>)
    requires PathsFit(es)
    ensures |b| == ENTRY_SIZE * |es|
  {
    if es == [] then [] else EntriesBytes(es[..|es| - 1]) + EntryBytes(es[|es| - 1])
  }

  function HeaderBytes(count: nat, sum: seq<byte>): (b: seq<byte>)
    requires |sum| == 4
    ensures |b| == HEADER_SIZE
  {
    (MAGIC + Le(2, 1) + Le(2, HEADER_SIZE)) + (Le(4, count) + Le(4, ENTRY_SIZE)) + (Zeros(4) + sum + Zeros(40))
  }

  /** The index with the given checksum field. */
  function IndexWith(es: seq<Entry>, sum: seq<byte>): (b: seq<byte>)
    requires PathsFit(es) && |sum| == 4
    ensures |b| == HEADER_SIZE + ENTRY_SIZE * |es|
  {
    HeaderBytes(|es|, sum) + EntriesBytes(es)
  }

  function Index(es: seq<Entry>): (b: seq<byte>)
    requires PathsFit(es)
    ensures |b| == HEADER_SIZE + ENTRY_SIZE * |es|
  {
    IndexWith(es, Le(4, Crc.Crc32(IndexWith(es, Zeros(4)))))
  }

  // ---------- what a file stores ----------

  /** How many entries the index at offset at announces. */
  function Count(img: seq<byte>, at: nat): nat {
    Field(img, at + 0x08, 4)
  }

  function EntryAt(at: nat, i: nat): nat {
    at + HEADER_SIZE + ENTRY_SIZE * i
  }

  function StoredEntry(img: seq<byte>, at: nat, i: nat): Entry {
    var base := EntryAt(at, i);
    Entry(Field(img, base, 4), Field(img, base + 0x04, 2), Slice(img, base + 0x20, Field(img, base + 0x06, 2)),
          Field(img, base + 0x08, 8), Field(img, base + 0x10, 8), Field(img, base + 0x18, 4))
  }

  function StoredEntries(img: seq<byte>, at: nat): (es: seq<Entry>)
    ensures |es| == Count(img, at)
    ensures forall i :: 0 <= i < |es| ==> es[i] == StoredEntry(img, at, i)
  {
    seq(Count(img, at), i requires 0 <= i < Count(img, at) => StoredEntry(img, at, i))
  }

  function IndexSize(img: seq<byte>, at: nat): nat {
    HEADER_SIZE + ENTRY_SIZE * Count(img, at)
  }

  // ---------- the checks ----------

  /** The header of the index, and the room its entries need. */
  predicate HeaderAccepts(img: seq<byte>, info: Footer.Info) {
    && info.payload + HEADER_SIZE <= info.immutable <= |img|
    && Slice(img, info.payload, 4) == MAGIC
    && Field(img, info.payload + 0x04, 2) == 1 && Field(img, info.payload + 0x06, 2) == HEADER_SIZE
    && Field(img, info.payload + 0x0c, 4) == ENTRY_SIZE && Field(img, info.payload + 0x10, 4) == 0
    && AllZero(Slice(img, info.payload + 0x18, 40))
    && Count(img, info.payload) > 0
    && info.payload + IndexSize(img, info.payload) <= info.immutable
    && Field(img, info.payload + 0x14, 4)
       == Crc.Crc32(Put(img[info.payload..info.payload + IndexSize(img, info.payload)], 0x14, Zeros(4)))
  }

  /** The fields of one stored entry, apart from its path. */
  predicate StoredPlausible(img: seq<byte>, at: nat, i: nat) {
    var base, e := EntryAt(at, i), StoredEntry(img, at, i);
    && e.flags < 4
    && Field(img, base + 0x1c, 4) == 0
    && 0 < Field(img, base + 0x06, 2) <= PATH_CAPACITY
    && AllZero(Slice(img, base + 0x20 + Field(img, base + 0x06, 2), PATH_CAPACITY - Field(img, base + 0x06, 2)))
  }

  /** What a file of a payload of the given size may be. */
  predicate EntryOk(e: Entry, payload: nat) {
    && IsPath(e.path)
    && (!e.HasCrc() ==> e.crc == 0)
    && e.End() <= payload
    && e.format != Footer.PROHIBITED
    && (e.IsEntrypoint() ==> e.offset == 0 && e.size != 0 && e.format != 0)
  }

  /** Two files do not share a byte. */
  predicate Apart(a: Range, b: Range) {
    a.end <= b.start || b.end <= a.start
  }

  predicate AllApart(rs: seq<Range>) {
    forall i, j :: 0 <= i < j < |rs| ==> Apart(rs[i], rs[j])
  }

  predicate Covers(r: Range, p: nat) {
    r.start <= p < r.end
  }

  predicate Covered(rs: seq<Range>, p: nat) {
    exists i :: 0 <= i < |rs| && Covers(rs[i], p)
  }

  /** Bytes of the payload that belong to no file are zero. */
  predicate GapsZero(img: seq<byte>, rs: seq<Range>, end: nat)
    requires end <= |img|
  {
    forall p :: 0 <= p < end ==> img[p] == 0 || Covered(rs, p)
  }

  /** The ranges of the files that are not empty, in order. */
  function Ranges(es: seq<Entry>): (rs: seq<Range>)
    ensures forall i :: 0 <= i < |rs| ==> rs[i].start < rs[i].end
  {
    if es == [] then []
    else
      var init, last := Ranges(es[..|es| - 1]), es[|es| - 1];
      if last.size != 0 then init + [Range(last.offset, last.End())] else init
  }

  function PathsOf(es: seq<Entry>): (paths: seq<seq<byte>>)
    ensures |paths| == |es| && forall i :: 0 <= i < |es| ==> paths[i] == es[i].path
  {
    seq(|es|, i requires 0 <= i < |es| => es[i].path)
  }

  function Entrypoints(es: seq<Entry>): nat {
    if es == [] then 0 else Entrypoints(es[..|es| - 1]) + (if es[|es| - 1].IsEntrypoint() then 1 else 0)
  }

  /** Round up to the next page. */
  function Up4096(v: nat): (u: nat)
    ensures u % 4096 == 0 && v <= u < v + 4096
  {
    (v + 4095) / 4096 * 4096
  }

  /** Where the immutable content ends, before padding. */
  function ContentEnd(img: seq<byte>, info: Footer.Info): nat {
    info.payload + IndexSize(img, info.payload) + info.metadata + info.cover
  }

  predicate LayoutOk(img: seq<byte>, info: Footer.Info) {
    var end := ContentEnd(img, info);
    && end <= info.immutable <= |img|
    && (if info.region != 0 then Up4096(end) == info.regionOffset == info.immutable && ZeroRange(img, end, info.regionOffset)
        else end == info.footerOffset)
  }

  /** The index of a file is acceptable, and so is what it says about the file. */
  predicate Accepts(img: seq<byte>, info: Footer.Info) {
    && HeaderAccepts(img, info)
    && (forall i :: 0 <= i < Count(img, info.payload) ==> StoredPlausible(img, info.payload, i))
    && var es := StoredEntries(img, info.payload);
    && (forall i :: 0 <= i < |es| ==> EntryOk(es[i], info.payload))
    && FoldDistinct(PathsOf(es))
    && Entrypoints(es) == 1
    && (|es| == 1 ==> es[0].offset == 0 && es[0].size == info.payload)
    && AllApart(Ranges(es)) && GapsZero(img, Ranges(es), info.payload)
    && LayoutOk(img, info)
  }

  // ---------- order and overlap ----------

  /** Order of ranges by start, then by end. */
  predicate RangeNotAfter(a: Range, b: Range) {
    a.start < b.start || (a.start == b.start && a.end <= b.end)
  }

  lemma RangeOrder()
    ensures IsOrder(RangeNotAfter)
  {
  }

  lemma {:induction false} TwiceCount<T>(s: seq<T>, i: nat, j: nat)
    requires i < j < |s| && s[i] == s[j]
    ensures multiset(s)[s[i]] >= 2
  {
    assert s == s[..j] + s[j..];
    assert s[..j][i] in multiset(s[..j]) && s[j..][0] in multiset(s[j..]);
  }

  lemma {:induction false} CountTwice<T>(s: seq<T>, x: T) returns (i: nat, j: nat)
    requires multiset(s)[x] >= 2
    ensures i < j < |s| && s[i] == s[j] == x
    decreases |s|
  {
    var n := |s| - 1;
    assert s == s[..n] + [s[n]];
    if s[n] == x {
      assert x in multiset(s[..n]);
      i :| 0 <= i < n && s[..n][i] == x;
      j := n;
    } else {
      i, j := CountTwice(s[..n], x);
    }
  }

  /** Being apart does not depend on the order of the ranges. */
  lemma ApartPermuted(a: seq<Range>, b: seq<Range>)
    requires multiset(a) == multiset(b) && AllApart(a)
    requires forall i :: 0 <= i < |a| ==> a[i].start < a[i].end
    ensures AllApart(b)
  {
    SameElements(a, b);
    forall i, j | 0 <= i < j < |b| ensures Apart(b[i], b[j]) {
      assert b[i] in a && b[j] in a;
      if b[i] == b[j] {
        TwiceCount(b, i, j);
        var k, l := CountTwice(a, b[i]);
        assert Apart(a[k], a[l]);
      } else {
        var k :| 0 <= k < |a| && a[k] == b[i];
        var l :| 0 <= l < |a| && a[l] == b[j];
        assert if k < l then Apart(a[k], a[l]) else Apart(a[l], a[k]);
      }
    }
  }

  lemma CoveredPermuted(a: seq<Range>, b: seq<Range>, p: nat)
    requires multiset(a) == multiset(b) && Covered(a, p)
    ensures Covered(b, p)
  {
    SameElements(a, b);
    var i :| 0 <= i < |a| && Covers(a[i], p);
    assert a[i] in b;
  }

  lemma GapsPermuted(img: seq<byte>, a: seq<Range>, b: seq<Range>, end: nat)
    requires multiset(a) == multiset(b) && end <= |img| && GapsZero(img, a, end)
    ensures GapsZero(img, b, end)
  {
    forall p | 0 <= p < end && img[p] != 0 ensures Covered(b, p) {
      CoveredPermuted(a, b, p);
    }
  }

  // ---------- the sweep ----------

  /** What the sweep has established about the first n ranges. */
  ghost predicate Swept(img: seq<byte>, rs: seq<Range>, n: nat, end: nat)
    requires n <= |rs| && end <= |img|
  {
    && AllApart(rs[..n])
    && (forall i :: 0 <= i < n ==> rs[i].end <= end)
    && (n > 0 ==> rs[n - 1].end == end) && (n == 0 ==> end == 0)
    && GapsZero(img, rs[..n], end)
  }

  lemma SweepOverlap(rs: seq<Range>, n: nat)
    requires 0 < n < |rs| && IsSorted(rs, RangeNotAfter) && rs[n].start < rs[n - 1].end && rs[n].start < rs[n].end
    ensures !AllApart(rs)
  {
    assert RangeNotAfter(rs[n - 1], rs[n]);
    assert !Apart(rs[n - 1], rs[n]);
  }

  /** A byte before the n-th range and after all earlier ones is in none. */
  lemma BetweenUncovered(rs: seq<Range>, n: nat, end: nat, p: nat)
    requires n <= |rs| && IsSorted(rs, RangeNotAfter) && end <= p && (n < |rs| ==> p < rs[n].start)
    requires forall i :: 0 <= i < n ==> rs[i].end <= end
    ensures !Covered(rs, p)
  {
    forall i | 0 <= i < |rs| ensures !Covers(rs[i], p) {
      if i > n {
        assert RangeNotAfter(rs[n], rs[i]);
      }
    }
  }

  lemma SweepGap(img: seq<byte>, rs: seq<Range>, n: nat, end: nat, next: nat, payload: nat)
    requires n <= |rs| && IsSorted(rs, RangeNotAfter) && end <= next <= payload <= |img|
    requires n < |rs| ==> next == rs[n].start
    requires forall i :: 0 <= i < n ==> rs[i].end <= end
    requires !ZeroRange(img, end, next)
    ensures !GapsZero(img, rs, payload)
  {
    var p :| 0 <= p < next - end && img[end..next][p] != 0;
    BetweenUncovered(rs, n, end, end + p);
    assert img[end + p] != 0;
  }

  lemma SweepStep(img: seq<byte>, rs: seq<Range>, n: nat, end: nat)
    requires n < |rs| && end <= rs[n].start < rs[n].end <= |img|
    requires Swept(img, rs, n, end) && ZeroRange(img, end, rs[n].start)
    ensures Swept(img, rs, n + 1, rs[n].end)
  {
    var before, after := rs[..n], rs[..n + 1];
    assert after == before + [rs[n]];
    forall i, j | 0 <= i < j < n + 1 ensures Apart(after[i], after[j]) {
      if j < n {
        assert Apart(before[i], before[j]);
      }
    }
    forall p | 0 <= p < rs[n].end ensures img[p] == 0 || Covered(after, p) {
      if p >= rs[n].start {
        assert Covers(after[n], p);
      } else if p >= end {
        assert img[end..rs[n].start][p - end] == 0;
      } else if Covered(before, p) {
        var i :| 0 <= i < n && Covers(before[i], p);
        assert Covers(after[i], p);
      }
    }
  }

  /** The sweep over the sorted ranges: no overlap, and zeros in every gap. */
  method Sweep(img: seq<byte>, rs: seq<Range>, payload: nat) returns (ok: bool)
    requires payload <= |img| && IsSorted(rs, RangeNotAfter)
    requires forall i :: 0 <= i < |rs| ==> rs[i].start < rs[i].end <= payload
    ensures ok == (AllApart(rs) && GapsZero(img, rs, payload))
  {
    hide IsSorted;
    var contentEnd: nat := 0;
    for position := 0 to |rs|
      invariant contentEnd <= payload && Swept(img, rs, position, contentEnd)
    {
      if rs[position].start < contentEnd {
        SweepOverlap(rs, position);
        return false;
      }
      ok := RangeIsZero(img, contentEnd, rs[position].start, 4096);
      if !ok {
        SweepGap(img, rs, position, contentEnd, rs[position].start, payload);
        return;
      }
      SweepStep(img, rs, position, contentEnd);
      contentEnd := rs[position].end;
    }
    assert rs[..|rs|] == rs;
    ok := RangeIsZero(img, contentEnd, payload, 4096);
    if !ok {
      SweepGap(img, rs, |rs|, contentEnd, payload, payload);
    } else {
      forall p | 0 <= p < payload ensures img[p] == 0 || Covered(rs, p) {
        if p >= contentEnd {
          assert img[contentEnd..payload][p - contentEnd] == 0;
        }
      }
    }
  }

  // ---------- damage ----------

  /** Damage to at most four consecutive bytes of an accepted index that spares its checksum and its
      count, which says how far the checksum reaches, is noticed. */
  lemma BurstRejected(img: seq<byte>, damaged: seq<byte>, info: Footer.Info, at: nat)
    requires HeaderAccepts(img, info) && Crc.DifferOnlyIn(img, damaged, at, 4)
    requires Count(damaged, info.payload) == Count(img, info.payload)
    requires var a, n := info.payload, IndexSize(img, info.payload);
      img[a..a + n] != damaged[a..a + n] && img[a + 0x14..a + 0x18] == damaged[a + 0x14..a + 0x18]
    ensures !HeaderAccepts(damaged, info)
  {
    hide Crc.Crc32, FromLe, AllZero, Put, Crc.DifferOnlyIn, Count, Slice;
    var a, n := info.payload, IndexSize(img, info.payload);
    Crc.SameSize(img, damaged, at);
    var s, t := img[a..a + n], damaged[a..a + n];
    SumInside(img, a, n);
    SumInside(damaged, a, n);
    Crc.BurstInside(img, damaged, at, a, n);
    Crc.SealBroken(s, t, if at >= a then at - a else 0, 0x14);
  }

  lemma SumInside(img: seq<byte>, a: nat, n: nat)
    requires HEADER_SIZE <= n && a + n <= |img|
    ensures img[a..a + n][0x14..0x18] == img[a + 0x14..a + 0x18] == Slice(img, a + 0x14, 4)
  {
    SubSlice(img, a, 0x14, 0x18, a + n);
  }
}
