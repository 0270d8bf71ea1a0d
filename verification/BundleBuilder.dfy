/** The builder of bundles: checks, sorting, placement, and the directory written in place. */
module BundleBuilder {
  import opened Bytes
  import opened Paths
  import opened Sorting
  import opened Bundle
  import opened BundleReader
  import opened BundleTheorems
  import opened BundleSource
  import Crc
  import Utf8

  datatype Failure = InvalidArgument | Refused | OutOfRange

  datatype Built = Failed(why: Failure) | Ready(source: Source)

  // ---------- order ----------

  predicate ByPath(a: File, b: File) {
    NotAfter(a.path, b.path)
  }

  lemma PathOrder()
    ensures IsOrder(ByPath)
  {
    forall a, b ensures ByPath(a, b) || ByPath(b, a) {
      BeforeTotal(a.path, b.path);
    }
    forall a, b, c | ByPath(a, b) && ByPath(b, c) ensures ByPath(a, c) {
      if a.path != b.path && b.path != c.path {
        BeforeTransitive(a.path, b.path, c.path);
      }
    }
  }

  function PathsOf(files: seq<File>): (paths: seq<seq<byte>>)
    ensures |paths| == |files| && forall i :: 0 <= i < |files| ==> paths[i] == files[i].path
  {
    seq(|files|, i requires 0 <= i < |files| => files[i].path)
  }

  lemma HeadSame(a: seq<File>, b: seq<File>)
    requires Ordered(PathsOf(a)) && IsSorted(b, ByPath) && multiset(a) == multiset(b) && a != [] && b != []
    ensures a[0] == b[0]
  {
    SameElements(a, b);
    assert a[0] in b && b[0] in a;
    var i :| 0 <= i < |b| && b[i] == a[0];
    var j :| 0 <= j < |a| && a[j] == b[0];
    assert NotAfter(b[0].path, a[0].path);
    BeforeTotal(a[0].path, b[0].path);
    if j > 0 {
      Ascending(PathsOf(a), 0, j);
    }
  }

  /** There is one strictly increasing arrangement of a list at most, and sorting finds it. */
  lemma {:induction false} SortedUnique(a: seq<File>, b: seq<File>)
    requires Ordered(PathsOf(a)) && IsSorted(b, ByPath) && multiset(a) == multiset(b)
    ensures a == b
    decreases |a|
  {
    SameElements(a, b);
    if a != [] {
      HeadSame(a, b);
      TailsAlike(a, b);
      OrderedTail(a);
      SortedTail(b);
      hide IsSorted, Ordered;
      SortedUnique(a[1..], b[1..]);
      assert a == [a[0]] + a[1..] && b == [b[0]] + b[1..];
    }
  }

  lemma TailsAlike(a: seq<File>, b: seq<File>)
    requires a != [] && b != [] && a[0] == b[0] && multiset(a) == multiset(b)
    ensures multiset(a[1..]) == multiset(b[1..])
  {
    assert a == [a[0]] + a[1..] && b == [b[0]] + b[1..];
    assert multiset(a[1..]) == multiset(a) - multiset{a[0]};
    assert multiset(b[1..]) == multiset(b) - multiset{b[0]};
  }

  lemma SortedTail(b: seq<File>)
    requires b != [] && IsSorted(b, ByPath)
    ensures IsSorted(b[1..], ByPath)
  {
  }

  lemma OrderedTail(a: seq<File>)
    requires Ordered(PathsOf(a)) && a != []
    ensures Ordered(PathsOf(a[1..]))
  {
    forall i | 0 < i < |a| - 1 ensures Before(PathsOf(a[1..])[i - 1], PathsOf(a[1..])[i]) {
      assert Before(PathsOf(a)[i], PathsOf(a)[i + 1]);
    }
  }

  /** Sorted names that stay distinct after folding increase strictly. */
  lemma SortedDistinct(files: seq<File>)
    requires IsSorted(files, ByPath) && FoldDistinct(PathsOf(files))
    ensures Ordered(PathsOf(files))
  {
    forall i | 0 < i < |files| ensures Before(PathsOf(files)[i - 1], PathsOf(files)[i]) {
      assert ByPath(files[i - 1], files[i]);
      assert Fold(PathsOf(files)[i - 1]) != Fold(PathsOf(files)[i]);
    }
  }

  // ---------- what can be built ----------

  lemma PathNotEmpty(path: seq<byte>)
    requires IsPath(path)
    ensures |path| > 0
  {
    if path == [] {
      OuterSlash(path);
    }
  }

  /** The canonical lists, in terms of the paths themselves. */
  lemma CanonicalMeans(lim: Limits, files: seq<File>)
    ensures Canonical(lim, files) <==>
      && |files| <= lim.maxEntries
      && (forall i :: 0 <= i < |files| ==> NameOk(files[i].path, lim.maxPath))
      && Ordered(PathsOf(files)) && FoldDistinct(PathsOf(files))
      && Total(files) <= lim.maxSize && Total(files) <= INT64_MAX
  {
    hide Total, Fold, Before;
    if forall i :: 0 <= i < |files| ==> NulFree(files[i].path) {
      assert Names(files) == PathsOf(files);
    }
    forall i | 0 <= i < |files| && NameOk(files[i].path, lim.maxPath) ensures |files[i].path| > 0 && NulFree(files[i].path) {
      PathNotEmpty(files[i].path);
    }
  }

  /** Some arrangement of the files is canonical. */
  ghost predicate Buildable(lim: Limits, provided: seq<File>) {
    exists files :: multiset(files) == multiset(provided) && Canonical(lim, files)
  }

  lemma BuildableSorted(lim: Limits, provided: seq<File>, sorted: seq<File>)
    requires IsSorted(sorted, ByPath) && multiset(sorted) == multiset(provided)
    ensures Buildable(lim, provided) <==> Canonical(lim, sorted)
  {
    hide Canonical;
    if files :| multiset(files) == multiset(provided) && Canonical(lim, files) {
      CanonicalMeans(lim, files);
      SortedUnique(files, sorted);
    }
  }

  lemma BadPathUnbuildable(lim: Limits, provided: seq<File>, i: nat)
    requires i < |provided| && !NameOk(provided[i].path, lim.maxPath)
    ensures !Buildable(lim, provided)
  {
    hide Canonical, NameOk;
    if files :| multiset(files) == multiset(provided) && Canonical(lim, files) {
      SameElements(files, provided);
      assert provided[i] in files;
      CanonicalMeans(lim, files);
    }
  }

  // ---------- placement ----------

  /** The path loop and the data loop: where everything goes, or why it cannot. */
  method PlacePaths(files: seq<File>) returns (end: Option<nat>)
    requires UNIT + UNIT * |files| <= U64_MAX
    ensures end.Some? ==> end.value == PathAt(files, |files|) <= U64_MAX
    ensures end.None? ==> PathAt(files, |files|) > U64_MAX
  {
    var pathOffset := UNIT + UNIT * |files|;
    for index := 0 to |files|
      invariant pathOffset == PathAt(files, index) <= U64_MAX
    {
      var pathSize := |files[index].path|;
      if pathSize > U64_MAX - pathOffset {
        PathsOrdered(files, index + 1, |files|);
        return None;
      }
      pathOffset := pathOffset + pathSize;
    }
    end := Some(pathOffset);
  }

  /** One step of the data loop: it overflows only in bundles beyond every limit. */
  lemma PlaceStep(files: seq<File>, i: nat)
    requires i < |files|
    ensures DataAt(files, i) + |files[i].data| > U64_MAX - 63 ==> Total(files) > INT64_MAX
    ensures DataAt(files, i) + |files[i].data| <= U64_MAX - 63 ==>
              Align64(DataAt(files, i) + |files[i].data|) == DataAt(files, i + 1) < U64_MAX
  {
    DataOrdered(files, i, |files|);
    UpAlign(DataAt(files, i) + |files[i].data|);
  }

  method PlaceData(files: seq<File>, start: nat) returns (size: Option<nat>, parts: seq<Part>)
    requires start == DataAt(files, 0) < U64_MAX
    ensures size.Some? ==> size.value == Total(files) && FilesIn(parts) == files
    ensures size.Some? ==> forall i :: 0 <= i < |files| ==> parts[i].at == DataAt(files, i)
    ensures size.None? ==> Total(files) > INT64_MAX
  {
    hide DataAt;
    var cursor := start;
    parts := [];
    for index := 0 to |files|
      invariant cursor == DataAt(files, index) < U64_MAX
      invariant |parts| == index
      invariant forall i :: 0 <= i < index ==> parts[i] == Part(files[i], DataAt(files, i))
    {
      parts := parts + [Part(files[index], cursor)];
      PlaceStep(files, index);
      if |files[index].data| > U64_MAX - cursor {
        return None, parts;
      }
      cursor := Align64(cursor + |files[index].data|);
      if cursor == U64_MAX {
        return None, parts;
      }
    }
    assert FilesIn(parts) == files;
    size := Some(cursor);
  }

  /** Everything between the uniqueness check and the allocation of the prefix. */
  method Place(files: seq<File>, lim: Limits) returns (why: Option<Failure>, size: nat, parts: seq<Part>)
    requires |files| < U32
    ensures why.None? <==> Total(files) <= lim.maxSize && Total(files) <= INT64_MAX
    ensures why.None? ==> size == Total(files) && FilesIn(parts) == files
    ensures why.None? ==> forall i :: 0 <= i < |files| ==> parts[i].at == DataAt(files, i)
  {
    hide DataAt, PathAt;
    size, parts := 0, [];
    PartsBase(files);
    LastCursor(files);
    FirstPath(files);
    if UNIT + UNIT * |files| > lim.maxSize {
      return Some(Refused), size, parts;
    }
    var end := PlacePaths(files);
    if end.None? {
      return Some(OutOfRange), size, parts;
    }
    UpAlign(end.value);
    if Align64(end.value) == U64_MAX {
      return Some(OutOfRange), size, parts;
    }
    var total: Option<nat>;
    total, parts := PlaceData(files, Align64(end.value));
    if total.None? {
      return Some(OutOfRange), size, parts;
    }
    size := total.value;
    why := if size > lim.maxSize || size > INT64_MAX then Some(Refused) else None;
  }

  lemma FirstPath(files: seq<File>)
    ensures PathAt(files, 0) == UNIT + UNIT * |files|
  {
  }

  // ---------- the prefix, written in place ----------

  /** The header fields, one by one, the checksum still zero. */
  method StoreHeader(a: array<byte>, ns: nat, count: nat, paths: nat, data: nat, total: nat)
    requires a.Length >= 64 && a[..] == Zeros(a.Length)
    modifies a
    ensures a[..] == Put(Zeros(a.Length), 0, HeaderBytes(ns, count, paths, data, total, Zeros(4)))
  {
    assert a[..] == Filled([], a.Length);
    StoreKind(a, ns);
    StoreCounts(a, ns, count);
    ghost var p := Kind(ns) + Counts(count);
    ghost var q := AppendLe(a, 0x20, 8, paths, p);
    q := AppendLe(a, 0x28, 8, data, q);
    q := AppendLe(a, 0x30, 8, total, q);
    HeaderFilled(ns, count, paths, data, total, a.Length);
  }

  method StoreKind(a: array<byte>, ns: nat)
    requires a.Length >= 64 && a[..] == Filled([], a.Length)
    modifies a
    ensures a[..] == Filled(Kind(ns), a.Length)
  {
    hide Le, Filled;
    PutAfter([], a.Length, MAGIC);
    Copy(a, 0, MAGIC);
    assert [] + MAGIC == MAGIC;
    ghost var p := AppendLe(a, 0x04, 2, 1, MAGIC);
    p := AppendLe(a, 0x06, 2, UNIT, p);
    p := AppendLe(a, 0x08, 2, ns, p);
    p := AppendLe(a, 0x0a, 2, 0, p);
    p := AppendLe(a, 0x0c, 4, UNIT, p);
  }

  method StoreCounts(a: array<byte>, ns: nat, count: nat)
    requires a.Length >= 64 && a[..] == Filled(Kind(ns), a.Length)
    modifies a
    ensures a[..] == Filled(Kind(ns) + Counts(count), a.Length)
  {
    hide Le, Filled, Kind;
    ghost var p := AppendLe(a, 0x10, 4, count, Kind(ns));
    PutNext(p, a.Length, 4, Le(8, UNIT));
    WriteLe(a, 0x18, 8, UNIT);
    Regroup(Kind(ns), Le(4, count), Zeros(4), Le(8, UNIT));
  }

  lemma HeaderFilled(ns: nat, count: nat, paths: nat, data: nat, total: nat, n: nat)
    requires n >= 64
    ensures Filled(Kind(ns) + Counts(count) + Le(8, paths) + Le(8, data) + Le(8, total), n)
         == Put(Zeros(n), 0, HeaderBytes(ns, count, paths, data, total, Zeros(4)))
  {
    hide Kind, Counts, Le;
    var a, b, c, d, e := Kind(ns), Counts(count), Le(8, paths), Le(8, data), Le(8, total);
    var front := a + b + c + d + e;
    Regroup(a + b, c, d, e);
    var h := HeaderBytes(ns, count, paths, data, total, Zeros(4));
    assert h == front + Zeros(8);
    assert Put(Zeros(n), 0, h) == h + Zeros(n - 64);
  }

  /** Five fields stored in 64 zero bytes make the entry. */
  lemma EntryStored(s: seq<byte>, at: nat, a: seq<byte>, b: seq<byte>, c: seq<byte>, d: seq<byte>, e: seq<byte>)
    requires ZeroRange(s, at, at + 64) && |a| == |c| == |d| == 8 && |b| == |e| == 4
    ensures Put(Put(Put(Put(Put(s, at, a), at + 8, b), at + 16, c), at + 24, d), at + 32, e)
         == Put(s, at, (a + b + Zeros(4)) + (c + d) + (e + Zeros(28)))
  {
    var x := Put(Put(Put(Put(Put(s, at, a), at + 8, b), at + 16, c), at + 24, d), at + 32, e);
    var f := (a + b + Zeros(4)) + (c + d) + (e + Zeros(28));
    forall p | 0 <= p < |s| ensures x[p] == Put(s, at, f)[p] {
      if at <= p < at + 64 {
        assert s[at..at + 64][p - at] == 0;
        EntryByte(a, b, c, d, e, p - at);
      }
    }
  }

  lemma EntryByte(a: seq<byte>, b: seq<byte>, c: seq<byte>, d: seq<byte>, e: seq<byte>, p: nat)
    requires |a| == |c| == |d| == 8 && |b| == |e| == 4 && p < 64
    ensures var f := (a + b + Zeros(4)) + (c + d) + (e + Zeros(28));
      f[p] == if p < 8 then a[p] else if p < 12 then b[p - 8] else if p < 16 then 0 else if p < 24 then c[p - 16]
              else if p < 32 then d[p - 24] else if p < 36 then e[p - 32] else 0
  {
  }

  /** One directory entry, field by field. */
  method StoreEntry(a: array<byte>, at: nat, pathAt: nat, pathSize: nat, dataAt: nat, dataSize: nat, crc: nat)
    requires at + 64 <= a.Length && ZeroRange(a[..], at, at + 64)
    modifies a
    ensures a[..] == Put(old(a[..]), at, EntryBytes(pathAt, pathSize, dataAt, dataSize, crc))
  {
    EntryStored(a[..], at, Le(8, pathAt), Le(4, pathSize), Le(8, dataAt), Le(8, dataSize), Le(4, crc));
    WriteLe(a, at, 8, pathAt);
    WriteLe(a, at + 0x08, 4, pathSize);
    WriteLe(a, at + 0x10, 8, dataAt);
    WriteLe(a, at + 0x18, 8, dataSize);
    WriteLe(a, at + 0x20, 4, crc);
  }

  /** Entry and path of the i-th file. */
  method DrawFile(a: array<byte>, ghost ns: nat, parts: seq<Part>, i: nat, pathOffset: nat, crc: nat)
    requires i < |parts| && a[..] == Drawn(ns, FilesIn(parts), i) && pathOffset == PathAt(FilesIn(parts), i)
    requires parts[i].at == DataAt(FilesIn(parts), i) && crc == Crc.Crc32(parts[i].file.data)
    modifies a
    ensures a[..] == Drawn(ns, FilesIn(parts), i + 1)
  {
    hide Drawn, DataAt, PathAt, EntryBytes, Put;
    ghost var files := FilesIn(parts);
    DrawnNext(ns, files, i);
    EntryFree(ns, files, i);
    var f := parts[i].file;
    StoreEntry(a, EntryAt(i), pathOffset, |f.path|, parts[i].at, |f.data|, crc);
    Copy(a, pathOffset, f.path);
  }

  lemma EntryFree(ns: nat, files: seq<File>, i: nat)
    requires i < |files|
    ensures ZeroRange(Drawn(ns, files, i), EntryAt(i), EntryAt(i) + 64)
  {
    hide Drawn, DataAt, PathAt, ZeroRange, EntryOf, HeaderWith, Stands;
    DrawnHolds(ns, files, i);
    PartsInside(files, i);
    ZeroPart(Drawn(ns, files, i), EntryAt(i), PathAt(files, 0), EntryAt(i), EntryAt(i) + 64);
  }

  /** The whole prefix: header, entries and paths, checksum last. */
  method DrawPrefix(ns: nat, parts: seq<Part>, size: nat, chunk: nat) returns (prefix: array<byte>)
    requires chunk > 0 && forall i :: 0 <= i < |parts| ==> parts[i].at == DataAt(FilesIn(parts), i)
    requires size == Total(FilesIn(parts))
    ensures fresh(prefix) && prefix[..] == Prefix(ns, FilesIn(parts))
  {
    hide Drawn, DataAt, PathAt, Put, HeaderBytes;
    ghost var files := FilesIn(parts);
    var prefixSize := if |parts| == 0 then size else parts[0].at;
    assert prefixSize == DataAt(files, 0);
    PartsBase(files);
    FirstPath(files);
    prefix := new byte[prefixSize](_ => 0);
    assert prefix[..] == Zeros(prefixSize);
    StoreHeader(prefix, ns, |parts|, UNIT + UNIT * |parts|, prefixSize, size);
    DrawnNone(ns, files);
    var pathOffset := UNIT + UNIT * |parts|;
    for index := 0 to |parts|
      invariant prefix[..] == Drawn(ns, files, index) && pathOffset == PathAt(files, index)
    {
      var crc := Crc.ChunkedCrc(parts[index].file.data, chunk);
      DrawFile(prefix, ns, parts, index, pathOffset, crc);
      PathStep(files, index);
      pathOffset := pathOffset + |parts[index].file.path|;
    }
    HeaderDrawn(ns, files);
    var register := Crc.UpdateLoop(Crc.ONES, prefix[..64]);
    WriteLe(prefix, 0x38, 4, Crc.Finish(register));
  }

  lemma DrawnNone(ns: nat, files: seq<File>)
    ensures DataAt(files, 0) >= 64
    ensures Drawn(ns, files, 0) == Put(Zeros(DataAt(files, 0)), 0, HeaderWith(ns, files, Zeros(4)))
  {
    PartsBase(files);
  }

  lemma PathStep(files: seq<File>, i: nat)
    requires i < |files|
    ensures PathAt(files, i + 1) == PathAt(files, i) + |files[i].path|
  {
  }

  lemma HeaderDrawn(ns: nat, files: seq<File>)
    ensures |Drawn(ns, files, |files|)| >= 64 && Drawn(ns, files, |files|)[..64] == HeaderWith(ns, files, Zeros(4))
  {
    hide Drawn, HeaderWith, DataAt, PathAt;
    DrawnHolds(ns, files, |files|);
  }

  // ---------- the builder ----------

  /** The path checks on what the caller provided. */
  method CheckPaths(provided: seq<File>, lim: Limits) returns (ok: bool)
    requires forall i :: 0 <= i < |provided| ==> NulFree(provided[i].path)
    ensures ok == forall i :: 0 <= i < |provided| ==> NameOk(provided[i].path, lim.maxPath)
  {
    for index := 0 to |provided|
      invariant forall i :: 0 <= i < index ==> NameOk(provided[i].path, lim.maxPath)
    {
      ok := PathValid(provided[index].path, lim.maxPath);
      if !ok {
        return;
      }
    }
    ok := true;
  }

  /** Builds a bundle: succeeds exactly when some arrangement of the files is canonical, and then
      stands for the bundle of that arrangement. */
  method BuildSource(provided: seq<File>, ns: nat, lim: Limits, chunk: nat) returns (built: Built)
    requires chunk > 0 && forall i :: 0 <= i < |provided| ==> NulFree(provided[i].path)
    requires |provided| <= lim.maxEntries < U32
    ensures built.Ready? <==> Buildable(lim, provided)
    ensures built.Ready? ==> var files := FilesIn(built.source.parts);
      multiset(files) == multiset(provided) && Canonical(lim, files) && Represents(ns, built.source)
  {
    hide Canonical, NameOk, Total, Prefix, DataAt;
    var ok := CheckPaths(provided, lim);
    if !ok {
      ghost var i :| 0 <= i < |provided| && !NameOk(provided[i].path, lim.maxPath);
      BadPathUnbuildable(lim, provided, i);
      return Failed(InvalidArgument);
    }
    PathOrder();
    var sorted := Sort(provided, ByPath);
    SortedReady(lim, provided, sorted);
    var unique := PathsPortableUnique(PathsOf(sorted));
    if !unique {
      return Failed(Refused);
    }
    var why, size, parts := Place(sorted, lim);
    if why.Some? {
      return Failed(why.value);
    }
    var prefix := DrawPrefix(ns, parts, size, chunk);
    built := Ready(Source(prefix[..], size, parts));
  }

  /** After sorting, only uniqueness and size are left to check. */
  lemma SortedReady(lim: Limits, provided: seq<File>, sorted: seq<File>)
    requires IsSorted(sorted, ByPath) && multiset(sorted) == multiset(provided) && |provided| <= lim.maxEntries
    requires forall i :: 0 <= i < |provided| ==> NameOk(provided[i].path, lim.maxPath) && NulFree(provided[i].path)
    ensures |sorted| == |provided| && forall i :: 0 <= i < |sorted| ==> NulFree(sorted[i].path)
    ensures Buildable(lim, provided) <==> Canonical(lim, sorted)
    ensures Canonical(lim, sorted) <==>
      FoldDistinct(PathsOf(sorted)) && Total(sorted) <= lim.maxSize && Total(sorted) <= INT64_MAX
  {
    hide Canonical, NameOk, Total, FoldDistinct, Ordered, IsSorted;
    SameElements(sorted, provided);
    forall i | 0 <= i < |sorted| ensures NulFree(sorted[i].path) && NameOk(sorted[i].path, lim.maxPath) {
      assert sorted[i] in provided;
    }
    BuildableSorted(lim, provided, sorted);
    CanonicalMeans(lim, sorted);
    if FoldDistinct(PathsOf(sorted)) {
      SortedDistinct(sorted);
    }
  }

  // ---------- building and opening are inverse ----------

  /** What is built opens under the same limits and stores exactly the files it was built from. */
  lemma RoundTrip(ns: nat, files: seq<File>, lim: Limits)
    requires lim.Ok() && ns < U16 && Canonical(lim, files)
    ensures Accepts(Flat(ns, files), ns, lim) && Files(Flat(ns, files)) == files
    ensures PathsOf(files) == seq(|files|, i requires 0 <= i < |files| => NameAt(Flat(ns, files), i))
    ensures Ordered(PathsOf(files))
  {
    hide Flat, Accepts, IsImage, Listable;
    FlatIsImage(ns, files);
    ImageAccepted(ns, files, Flat(ns, files), lim);
    CanonicalMeans(lim, files);
  }

  /** An accepted image whose paths hold no zero byte is byte for byte what building its files
      again gives. */
  lemma PrintAfterParse(img: seq<byte>, ns: nat, lim: Limits)
    requires lim.Ok() && ns < U16 && Accepts(img, ns, lim) && NulFreePaths(Files(img))
    ensures Canonical(lim, Files(img)) && Flat(ns, Files(img)) == img
  {
    hide Flat, Accepts, IsImage, Listable;
    AcceptedListable(img, ns, lim);
    AcceptedIsImage(img, ns, lim);
    ImageIsFlat(ns, Files(img), img);
  }

  /** The order in which the caller lists the files does not matter. */
  lemma OrderIrrelevant(lim: Limits, a: seq<File>, b: seq<File>)
    requires Canonical(lim, a) && Canonical(lim, b) && multiset(a) == multiset(b)
    ensures a == b
  {
    hide Canonical;
    CanonicalMeans(lim, a);
    CanonicalMeans(lim, b);
    forall i, j | 0 <= i < j < |b| ensures ByPath(b[i], b[j]) {
      Ascending(PathsOf(b), i, j);
    }
    SortedUnique(a, b);
  }

  /** A bundle whose only path is stored as "a", a zero byte, "b" opens, and is listed as "a". */
  lemma TruncatedName(ns: nat, data: seq<byte>, lim: Limits)
    requires lim.Ok() && ns < U16 && lim.maxPath >= 3
    requires Total([File([0x61, 0, 0x62], data)]) <= lim.maxSize && Total([File([0x61, 0, 0x62], data)]) <= INT64_MAX
    ensures var img := Flat(ns, [File([0x61, 0, 0x62], data)]);
      Accepts(img, ns, lim) && Count(img) == 1 && Listing(img)[0].path == [0x61] && Files(img)[0].path == [0x61, 0, 0x62]
  {
    hide Flat, Accepts, IsImage, Total, FileOf;
    var files := [File([0x61, 0, 0x62], data)];
    ShortNames();
    assert Names(files) == [CString([0x61, 0, 0x62])];
    FlatIsImage(ns, files);
    ImageAccepted(ns, files, Flat(ns, files), lim);
  }

  lemma ShortNames()
    ensures CString([0x61, 0, 0x62]) == [0x61] && IsPath([0x61])
  {
    assert [0x61, 0, 0x62][1..] == [0, 0x62];
    assert CString([0, 0x62]) == [];
    assert Components([0x61]) == [[0x61]] by {
      assert FirstSlash([0x61]) == 1;
    }
    assert [0x61][1..] == [];
    assert Utf8.StartsCharacter([0x61], 1);
  }

  // ---------- reading one file ----------

  datatype ReadResult = OutOfBounds | Bytes(bytes: seq<byte>)

  lemma HeaderOffset(img: seq<byte>, ns: nat, lim: Limits)
    requires HeaderAccepts(img, ns, lim)
    ensures DataOffset(img) <= |img|
  {
    hide Field, AllZero, Crc.Crc32, Put;
  }

  lemma DataStored(img: seq<byte>, ns: nat, lim: Limits, i: nat)
    requires Accepts(img, ns, lim) && i < Count(img)
    ensures DataCursor(img, i) + DataSize(img, i) <= |img|
    ensures Files(img)[i].data == img[DataCursor(img, i)..DataCursor(img, i) + DataSize(img, i)]
  {
    hide DataCursor, PathCursor, PathSize, DataSize, DataAccepts, ZeroRange, Field, HeaderAccepts, FoldDistinct,
      EntryPlausible, NameOk, Before, Fold, NameAt;
    assert EntryAccepts(img, i, lim);
    HeaderOffset(img, ns, lim);
    StoredSizes(img, i, lim);
  }

  /** Reads from a file of an open bundle, shortened at the end of the file. */
  method ReadEntryAt(img: seq<byte>, ghost ns: nat, ghost lim: Limits, infos: seq<Info>, index: nat, offset: nat, size: nat)
    returns (read: ReadResult)
    requires Accepts(img, ns, lim) && infos == Listing(img) && index < |infos|
    ensures var data := Files(img)[index].data;
      read == if offset > |data| then OutOfBounds
              else Bytes(data[offset..Least(offset + size, |data|)])
  {
    hide DataCursor, PathCursor, PathSize, DataSize, Accepts;
    var entry := infos[index];
    DataStored(img, ns, lim, index);
    if offset > entry.size {
      return OutOfBounds;
    }
    var count := if entry.size - offset > size then size else entry.size - offset;
    SubSlice(img, entry.at, offset, offset + count, entry.at + entry.size);
    read := Bytes(img[entry.at + offset..entry.at + offset + count]);
  }
}
