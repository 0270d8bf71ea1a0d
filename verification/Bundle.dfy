/** The RMBL bundle: many small files in one mutable object. The layout of a bundle, field by field,
    and the fact that the layout leaves no byte undetermined. */
module Bundle {
  import opened Bytes
  import Crc

  const UNIT: nat := 64
  const INT64_MAX: nat := 0x7fff_ffff_ffff_ffff
  const PATH_CAPACITY: nat := 1024

  const SAVE: nat := 1
  const CHEAT: nat := 2

  const MAGIC: seq<byte> := [0x52, 0x4d, 0x42, 0x4c]

  /** One file of a bundle. */
  datatype File = File(path: seq<byte>, data: seq<byte>)

  /** The next multiple of 64. */
  function Up(v: nat): (u: nat)
    ensures u % 64 == 0 && v <= u < v + 64
  {
    (v + 63) / 64 * 64
  }

  lemma UpAlign(v: nat)
    ensures v <= U64_MAX - 63 ==> Align64(v) == Up(v)
    ensures v > U64_MAX - 63 ==> Align64(v) == U64_MAX
  {
  }

  // ---------- layout ----------

  /** Where the i-th path starts. */
  function PathAt(files: seq<File>, i: nat): nat
    requires i <= |files|
  {
    if i == 0 then UNIT + UNIT * |files| else PathAt(files, i - 1) + |files[i - 1].path|
  }

  /** Where the i-th file's data starts. */
  function DataAt(files: seq<File>, i: nat): nat
    requires i <= |files|
  {
    if i == 0 then Up(PathAt(files, |files|)) else Up(DataAt(files, i - 1) + |files[i - 1].data|)
  }

  function Total(files: seq<File>): nat {
    DataAt(files, |files|)
  }

  function EntryAt(i: nat): nat {
    UNIT + UNIT * i
  }

  lemma {:induction false} PathsOrdered(files: seq<File>, i: nat, j: nat)
    requires i <= j <= |files|
    ensures PathAt(files, i) <= PathAt(files, j)
    ensures i < j ==> PathAt(files, i) + |files[i].path| <= PathAt(files, j)
    decreases j
  {
    if i < j {
      PathsOrdered(files, i, j - 1);
    }
  }

  lemma {:induction false} DataOrdered(files: seq<File>, i: nat, j: nat)
    requires i <= j <= |files|
    ensures DataAt(files, i) <= DataAt(files, j) && DataAt(files, i) % 64 == 0
    ensures i < j ==> DataAt(files, i) + |files[i].data| <= DataAt(files, j)
    decreases j
  {
    if i < j {
      DataOrdered(files, i, j - 1);
    }
  }

  /** Every part of entry i lies where it should, in order and inside the bundle. */
  lemma PartsInside(files: seq<File>, i: nat)
    requires i < |files|
    ensures UNIT <= EntryAt(i) && EntryAt(i) + UNIT <= PathAt(files, 0) <= PathAt(files, i)
    ensures PathAt(files, i) + |files[i].path| == PathAt(files, i + 1) <= PathAt(files, |files|) <= DataAt(files, 0)
    ensures DataAt(files, 0) <= DataAt(files, i) && DataAt(files, i + 1) == Up(DataAt(files, i) + |files[i].data|) <= Total(files)
  {
    PathsOrdered(files, 0, i);
    PathsOrdered(files, i + 1, |files|);
    DataOrdered(files, 0, i);
    DataOrdered(files, i + 1, |files|);
    assert UNIT * (i + 1) <= UNIT * |files|;
  }

  lemma PartsBase(files: seq<File>)
    ensures UNIT <= PathAt(files, 0) <= PathAt(files, |files|) <= DataAt(files, 0) <= Total(files)
  {
    PathsOrdered(files, 0, |files|);
    DataOrdered(files, 0, |files|);
  }

  // ---------- header and entries ----------

  function Kind(ns: nat): (b: seq<byte>)
    ensures |b| == 16
  {
    MAGIC + Le(2, 1) + Le(2, UNIT) + Le(2, ns) + Le(2, 0) + Le(4, UNIT)
  }

  function Counts(count: nat): (b: seq<byte>)
    ensures |b| == 16
  {
    Le(4, count) + Zeros(4) + Le(8, UNIT)
  }

  function Places(paths: nat, data: nat, total: nat): (b: seq<byte>)
    ensures |b| == 24
  {
    Le(8, paths) + Le(8, data) + Le(8, total)
  }

  function HeaderBytes(ns: nat, count: nat, paths: nat, data: nat, total: nat, sum: seq<byte>): (b: seq<byte>)
    requires |sum| == 4
    ensures |b| == 64
  {
    Kind(ns) + Counts(count) + Places(paths, data, total) + (sum + Zeros(4))
  }

  /** The header with the given checksum field. */
  function HeaderWith(ns: nat, files: seq<File>, sum: seq<byte>): (b: seq<byte>)
    requires |sum| == 4
    ensures |b| == 64
  {
    HeaderBytes(ns, |files|, PathAt(files, 0), DataAt(files, 0), Total(files), sum)
  }

  function HeaderOf(ns: nat, files: seq<File>): (b: seq<byte>)
    ensures |b| == 64
  {
    HeaderWith(ns, files, Le(4, Crc.Crc32(HeaderWith(ns, files, Zeros(4)))))
  }

  function EntryBytes(pathAt: nat, pathSize: nat, dataAt: nat, dataSize: nat, crc: nat): (b: seq<byte>)
    ensures |b| == 64
  {
    (Le(8, pathAt) + Le(4, pathSize) + Zeros(4)) + (Le(8, dataAt) + Le(8, dataSize)) + (Le(4, crc) + Zeros(28))
  }

  function EntryOf(files: seq<File>, i: nat): (b: seq<byte>)
    requires i < |files|
    ensures |b| == 64
  {
    EntryBytes(PathAt(files, i), |files[i].path|, DataAt(files, i), |files[i].data|, Crc.Crc32(files[i].data))
  }

  // ---------- a bundle image ----------

  /** Entry, path, data and padding of the i-th file. */
  predicate HoldsFile(files: seq<File>, img: seq<byte>, i: nat)
    requires i < |files|
  {
    && Stands(img, EntryAt(i), EntryOf(files, i))
    && Stands(img, PathAt(files, i), files[i].path)
    && Stands(img, DataAt(files, i), files[i].data)
    && ZeroRange(img, DataAt(files, i) + |files[i].data|, DataAt(files, i + 1))
  }

  /** img is the bundle of these files, in this order, for this namespace. */
  predicate IsImage(ns: nat, files: seq<File>, img: seq<byte>) {
    && |img| == Total(files)
    && Stands(img, 0, HeaderOf(ns, files))
    && ZeroRange(img, PathAt(files, |files|), DataAt(files, 0))
    && forall i :: 0 <= i < |files| ==> HoldsFile(files, img, i)
  }

  lemma StandsSame(a: seq<byte>, b: seq<byte>, at: nat, c: seq<byte>, p: nat)
    requires Stands(a, at, c) && Stands(b, at, c) && at <= p < at + |c|
    ensures a[p] == b[p]
  {
    assert a[at..at + |c|][p - at] == b[at..at + |c|][p - at];
  }

  lemma ZeroSame(a: seq<byte>, b: seq<byte>, lo: nat, hi: nat, p: nat)
    requires ZeroRange(a, lo, hi) && ZeroRange(b, lo, hi) && lo <= p < hi
    ensures a[p] == b[p]
  {
    assert a[lo..hi][p - lo] == 0 && b[lo..hi][p - lo] == 0;
  }

  /** The path a position of the path table belongs to. */
  lemma {:induction false} FindPath(files: seq<File>, n: nat, p: nat) returns (i: nat)
    requires n <= |files| && PathAt(files, 0) <= p < PathAt(files, n)
    ensures i < n && PathAt(files, i) <= p < PathAt(files, i + 1)
  {
    if p >= PathAt(files, n - 1) {
      i := n - 1;
    } else {
      i := FindPath(files, n - 1, p);
    }
  }

  /** The file a position of the data area belongs to. */
  lemma {:induction false} FindData(files: seq<File>, n: nat, p: nat) returns (i: nat)
    requires n <= |files| && DataAt(files, 0) <= p < DataAt(files, n)
    ensures i < n && DataAt(files, i) <= p < DataAt(files, i + 1)
  {
    if p >= DataAt(files, n - 1) {
      i := n - 1;
    } else {
      i := FindData(files, n - 1, p);
    }
  }

  lemma FrontSame(ns: nat, files: seq<File>, a: seq<byte>, b: seq<byte>, p: nat)
    requires IsImage(ns, files, a) && IsImage(ns, files, b) && p < PathAt(files, |files|)
    ensures p < |a| && p < |b| && a[p] == b[p]
  {
    PartsBase(files);
    if p < UNIT {
      StandsSame(a, b, 0, HeaderOf(ns, files), p);
    } else if p < PathAt(files, 0) {
      var i := p / UNIT - 1;
      assert HoldsFile(files, a, i) && HoldsFile(files, b, i);
      StandsSame(a, b, EntryAt(i), EntryOf(files, i), p);
    } else {
      var i := FindPath(files, |files|, p);
      assert HoldsFile(files, a, i) && HoldsFile(files, b, i);
      StandsSame(a, b, PathAt(files, i), files[i].path, p);
    }
  }

  lemma BackSame(ns: nat, files: seq<File>, a: seq<byte>, b: seq<byte>, p: nat)
    requires IsImage(ns, files, a) && IsImage(ns, files, b) && DataAt(files, 0) <= p < Total(files)
    ensures a[p] == b[p]
  {
    hide HeaderOf, EntryOf, PathAt, Up;
    var i := FindData(files, |files|, p);
    assert HoldsFile(files, a, i) && HoldsFile(files, b, i);
    if p < DataAt(files, i) + |files[i].data| {
      StandsSame(a, b, DataAt(files, i), files[i].data, p);
    } else {
      ZeroSame(a, b, DataAt(files, i) + |files[i].data|, DataAt(files, i + 1), p);
    }
  }

  /** The layout leaves nothing open: the same files give the same bytes. */
  lemma ImageUnique(ns: nat, files: seq<File>, a: seq<byte>, b: seq<byte>)
    requires IsImage(ns, files, a) && IsImage(ns, files, b)
    ensures a == b
  {
    hide IsImage;
    assert |a| == |b| == Total(files) by { ImageSize(ns, files, a); ImageSize(ns, files, b); }
    forall p | 0 <= p < |a| ensures a[p] == b[p] {
      if p < PathAt(files, |files|) {
        FrontSame(ns, files, a, b, p);
      } else if p < DataAt(files, 0) {
        PaddingSame(ns, files, a, b, p);
      } else {
        BackSame(ns, files, a, b, p);
      }
    }
  }

  lemma ImageSize(ns: nat, files: seq<File>, a: seq<byte>)
    requires IsImage(ns, files, a)
    ensures |a| == Total(files)
  {
  }

  lemma PaddingSame(ns: nat, files: seq<File>, a: seq<byte>, b: seq<byte>, p: nat)
    requires IsImage(ns, files, a) && IsImage(ns, files, b) && PathAt(files, |files|) <= p < DataAt(files, 0)
    ensures p < |a| && p < |b| && a[p] == b[p]
  {
    ZeroSame(a, b, PathAt(files, |files|), DataAt(files, 0), p);
  }

  // ---------- reading the fields back ----------

  predicate EntryFields(e: seq<byte>, pathAt: nat, pathSize: nat, dataAt: nat, dataSize: nat, crc: nat)
    requires |e| == 64
  {
    && FromLe(e[0..8]) == pathAt && FromLe(e[8..12]) == pathSize && FromLe(e[12..16]) == 0
    && FromLe(e[16..24]) == dataAt && FromLe(e[24..32]) == dataSize
    && FromLe(e[32..36]) == crc && AllZero(e[36..64])
  }

  /** The fields of an entry determine it, and the other way round. */
  lemma EntryExactly(e: seq<byte>, pathAt: nat, pathSize: nat, dataAt: nat, dataSize: nat, crc: nat)
    requires |e| == 64 && pathAt < U64 && pathSize < U32 && dataAt < U64 && dataSize < U64 && crc < U32
    ensures e == EntryBytes(pathAt, pathSize, dataAt, dataSize, crc) <==> EntryFields(e, pathAt, pathSize, dataAt, dataSize, crc)
  {
    hide FromLe, Le, AllZero;
    LeExactly(e[0..8], 8, pathAt);
    LeExactly(e[8..12], 4, pathSize);
    ZeroField(e[12..16]);
    LeExactly(e[16..24], 8, dataAt);
    LeExactly(e[24..32], 8, dataSize);
    LeExactly(e[32..36], 4, crc);
    ZerosExactly(e[36..64]);
    EntryParts(e, Le(8, pathAt), Le(4, pathSize), Zeros(4), Le(8, dataAt), Le(8, dataSize), Le(4, crc), Zeros(28));
  }

  lemma EntryParts(e: seq<byte>, a: seq<byte>, b: seq<byte>, c: seq<byte>, d: seq<byte>, f: seq<byte>, g: seq<byte>, h: seq<byte>)
    requires |e| == 64 && |a| == 8 && |b| == 4 && |c| == 4 && |d| == 8 && |f| == 8 && |g| == 4 && |h| == 28
    ensures e == (a + b + c) + (d + f) + (g + h) <==>
      e[0..8] == a && e[8..12] == b && e[12..16] == c && e[16..24] == d && e[24..32] == f && e[32..36] == g && e[36..64] == h
  {
    if e == (a + b + c) + (d + f) + (g + h) {
      assert e[0..16] == a + b + c && e[16..32] == d + f && e[32..64] == g + h;
      SubSlice(e, 0, 0, 8, 16);
      SubSlice(e, 0, 8, 12, 16);
      SubSlice(e, 0, 12, 16, 16);
      SubSlice(e, 16, 0, 8, 32);
      SubSlice(e, 16, 8, 16, 32);
      SubSlice(e, 32, 0, 4, 64);
      SubSlice(e, 32, 4, 32, 64);
    } else {
      assert e == e[0..8] + e[8..12] + e[12..16] + (e[16..24] + e[24..32]) + (e[32..36] + e[36..64]);
    }
  }

  predicate HeaderFields(h: seq<byte>, ns: nat, count: nat, paths: nat, data: nat, total: nat, sum: seq<byte>)
    requires |h| == 64
  {
    && h[0..4] == MAGIC && FromLe(h[4..6]) == 1 && FromLe(h[6..8]) == UNIT && FromLe(h[8..10]) == ns
    && FromLe(h[10..12]) == 0 && FromLe(h[12..16]) == UNIT
    && FromLe(h[16..20]) == count && FromLe(h[20..24]) == 0 && FromLe(h[24..32]) == UNIT
    && FromLe(h[32..40]) == paths && FromLe(h[40..48]) == data && FromLe(h[48..56]) == total
    && h[56..60] == sum && AllZero(h[60..64])
  }

  lemma KindParts(h: seq<byte>, ns: nat)
    requires |h| == 64 && ns < U16
    ensures h[0..16] == Kind(ns) <==>
      h[0..4] == MAGIC && FromLe(h[4..6]) == 1 && FromLe(h[6..8]) == UNIT && FromLe(h[8..10]) == ns &&
      FromLe(h[10..12]) == 0 && FromLe(h[12..16]) == UNIT
  {
    hide FromLe, Le;
    LeExactly(h[4..6], 2, 1);
    LeExactly(h[6..8], 2, UNIT);
    LeExactly(h[8..10], 2, ns);
    LeExactly(h[10..12], 2, 0);
    LeExactly(h[12..16], 4, UNIT);
    KindPieces(h, MAGIC, Le(2, 1), Le(2, UNIT), Le(2, ns), Le(2, 0), Le(4, UNIT));
  }

  lemma KindPieces(h: seq<byte>, a: seq<byte>, b: seq<byte>, c: seq<byte>, d: seq<byte>, e: seq<byte>, f: seq<byte>)
    requires |h| == 64 && |a| == 4 && |b| == 2 && |c| == 2 && |d| == 2 && |e| == 2 && |f| == 4
    ensures h[0..16] == a + b + c + d + e + f <==>
      h[0..4] == a && h[4..6] == b && h[6..8] == c && h[8..10] == d && h[10..12] == e && h[12..16] == f
  {
    if h[0..16] == a + b + c + d + e + f {
      SubSlice(h, 0, 0, 4, 16);
      SubSlice(h, 0, 4, 6, 16);
      SubSlice(h, 0, 6, 8, 16);
      SubSlice(h, 0, 8, 10, 16);
      SubSlice(h, 0, 10, 12, 16);
      SubSlice(h, 0, 12, 16, 16);
    } else {
      assert h[0..16] == h[0..4] + h[4..6] + h[6..8] + h[8..10] + h[10..12] + h[12..16];
    }
  }

  lemma CountParts(h: seq<byte>, count: nat)
    requires |h| == 64 && count < U32
    ensures h[16..32] == Counts(count) <==>
      FromLe(h[16..20]) == count && FromLe(h[20..24]) == 0 && FromLe(h[24..32]) == UNIT
  {
    hide FromLe, Le;
    LeExactly(h[16..20], 4, count);
    ZeroField(h[20..24]);
    LeExactly(h[24..32], 8, UNIT);
    ThreePieces(h, 16, Le(4, count), Zeros(4), Le(8, UNIT));
  }

  lemma PlaceParts(h: seq<byte>, paths: nat, data: nat, total: nat)
    requires |h| == 64 && paths < U64 && data < U64 && total < U64
    ensures h[32..56] == Places(paths, data, total) <==>
      FromLe(h[32..40]) == paths && FromLe(h[40..48]) == data && FromLe(h[48..56]) == total
  {
    hide FromLe, Le;
    LeExactly(h[32..40], 8, paths);
    LeExactly(h[40..48], 8, data);
    LeExactly(h[48..56], 8, total);
    ThreePieces(h, 32, Le(8, paths), Le(8, data), Le(8, total));
  }

  /** The fields of a header determine it, and the other way round. */
  lemma HeaderExactly(h: seq<byte>, ns: nat, count: nat, paths: nat, data: nat, total: nat, sum: seq<byte>)
    requires |h| == 64 && |sum| == 4 && ns < U16 && count < U32 && paths < U64 && data < U64 && total < U64
    ensures h == HeaderBytes(ns, count, paths, data, total, sum) <==> HeaderFields(h, ns, count, paths, data, total, sum)
  {
    hide FromLe, Le, Kind, Counts, Places, AllZero;
    KindParts(h, ns);
    CountParts(h, count);
    PlaceParts(h, paths, data, total);
    ZerosExactly(h[60..64]);
    HeaderPieces(h, Kind(ns), Counts(count), Places(paths, data, total), sum, Zeros(4));
  }

  lemma HeaderPieces(h: seq<byte>, a: seq<byte>, b: seq<byte>, c: seq<byte>, d: seq<byte>, e: seq<byte>)
    requires |h| == 64 && |a| == 16 && |b| == 16 && |c| == 24 && |d| == 4 && |e| == 4
    ensures h == a + b + c + (d + e) <==>
      h[0..16] == a && h[16..32] == b && h[32..56] == c && h[56..60] == d && h[60..64] == e
  {
    if !(h == a + b + c + (d + e)) {
      assert h == h[0..16] + h[16..32] + h[32..56] + (h[56..60] + h[60..64]);
    }
  }
}
