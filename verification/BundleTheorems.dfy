/** The opener accepts exactly the bundles of the lists it allows, and gives those lists back. */
module BundleTheorems {
  import opened Bytes
  import opened Paths
  import opened Sorting
  import opened Bundle
  import opened BundleReader
  import Crc

  // ---------- cursors and layout ----------

  /** The stored sizes of the first n entries are those of the files. */
  predicate SizesAgree(img: seq<byte>, files: seq<File>, n: nat)
    requires n <= |files|
  {
    && Count(img) == |files|
    && forall i :: 0 <= i < n ==> PathSize(img, i) == |files[i].path| && DataSize(img, i) == |files[i].data|
  }

  lemma {:induction false} PathCursorIs(img: seq<byte>, files: seq<File>, i: nat)
    requires i <= |files| && SizesAgree(img, files, i)
    ensures PathCursor(img, i) == PathAt(files, i)
  {
    if i != 0 {
      PathCursorIs(img, files, i - 1);
    }
  }

  /** While nothing saturates, the running data cursor is the layout's. */
  lemma {:induction false} DataCursorIs(img: seq<byte>, files: seq<File>, i: nat)
    requires i <= |files| && SizesAgree(img, files, i)
    requires DataOffset(img) == DataAt(files, 0)
    requires DataAt(files, i) <= INT64_MAX || forall j :: 0 < j <= i ==> DataCursor(img, j) <= INT64_MAX
    ensures DataCursor(img, i) == DataAt(files, i)
  {
    hide DataCursor, DataAt, DataSize, PathSize, DataOffset, Up, Align64;
    CursorStarts(img);
    if i != 0 {
      DataOrdered(files, i - 1, i);
      DataCursorIs(img, files, i - 1);
      CursorStep(img, i - 1);
      DataNext(files, i - 1);
      UpAlign(DataAt(files, i - 1) + |files[i - 1].data|);
    }
  }

  lemma DataNext(files: seq<File>, i: nat)
    requires i < |files|
    ensures DataAt(files, i + 1) == Up(DataAt(files, i) + |files[i].data|)
  {
  }

  // ---------- accepted images are bundles ----------

  lemma StoredSizes(img: seq<byte>, i: nat, lim: Limits)
    requires EntryPlausible(img, i, lim) && DataOffset(img) <= |img|
    ensures |FileOf(img, i).path| == PathSize(img, i) && |FileOf(img, i).data| == DataSize(img, i)
    ensures Stands(img, PathCursor(img, i), FileOf(img, i).path) && Stands(img, DataCursor(img, i), FileOf(img, i).data)
  {
    hide Field, PathCursor, DataCursor, PathSize, DataSize, AllZero;
  }

  lemma AllSizes(img: seq<byte>, ns: nat, lim: Limits)
    requires Accepts(img, ns, lim)
    ensures SizesAgree(img, Files(img), Count(img)) && DataOffset(img) <= |img| <= INT64_MAX
  {
    hide EntryPlausible, FoldDistinct, ZeroRange, DataAccepts, NameOk, Before, Fold, PathSize, DataSize, PathCursor,
      DataCursor;
    forall i | 0 <= i < Count(img)
      ensures PathSize(img, i) == |Files(img)[i].path| && DataSize(img, i) == |Files(img)[i].data|
    {
      assert EntryAccepts(img, i, lim);
      StoredSizes(img, i, lim);
    }
  }

  /** The whole layout of an accepted image follows from its sizes. */
  lemma LayoutFollows(img: seq<byte>, ns: nat, lim: Limits)
    requires Accepts(img, ns, lim)
    ensures forall i :: 0 <= i <= Count(img) ==> PathCursor(img, i) == PathAt(Files(img), i)
    ensures forall i :: 0 <= i <= Count(img) ==> DataCursor(img, i) == DataAt(Files(img), i)
    ensures Total(Files(img)) == |img|
  {
    hide EntryPlausible, FoldDistinct, ZeroRange, DataAccepts, NameOk, Before, Fold, PathSize, DataSize, Field;
    var files, n := Files(img), Count(img);
    AllSizes(img, ns, lim);
    forall i | 0 <= i <= n ensures PathCursor(img, i) == PathAt(files, i) {
      PathCursorIs(img, files, i);
    }
    UpAlign(PathAt(files, n));
    forall i | 0 <= i <= n ensures DataCursor(img, i) == DataAt(files, i) {
      forall j | 0 < j <= i ensures DataCursor(img, j) <= INT64_MAX {
        assert EntryAccepts(img, j - 1, lim);
      }
      DataCursorIs(img, files, i);
    }
  }

  lemma HeaderStands(img: seq<byte>, ns: nat, lim: Limits)
    requires HeaderAccepts(img, ns, lim) && lim.maxEntries < U32 && ns < U16
    requires PathAt(Files(img), 0) == UNIT + UNIT * Count(img) && DataAt(Files(img), 0) == DataOffset(img)
    requires Total(Files(img)) == |img|
    ensures Stands(img, 0, HeaderOf(ns, Files(img)))
  {
    hide FromLe, Le, HeaderBytes, Total, DataAt, PathAt;
    var h, files := img[0..64], Files(img);
    assert img[..64] == h;
    var sum := h[56..60];
    HeaderFieldsRead(img, ns, |files|, PathAt(files, 0), DataAt(files, 0), Total(files));
    HeaderExactly(h, ns, |files|, PathAt(files, 0), DataAt(files, 0), Total(files), sum);
    SumCleared(h, ns, |files|, PathAt(files, 0), DataAt(files, 0), Total(files), sum);
    LeExactly(sum, 4, Crc.Crc32(HeaderWith(ns, files, Zeros(4))));
  }

  /** The fields of a header, read at their offsets. */
  lemma HeaderFieldsRead(img: seq<byte>, ns: nat, count: nat, paths: nat, data: nat, total: nat)
    requires |img| >= 64
    ensures HeaderFields(img[0..64], ns, count, paths, data, total, img[0..64][56..60]) <==>
      img[0..4] == MAGIC && Field(img, 4, 2) == 1 && Field(img, 6, 2) == UNIT && Field(img, 8, 2) == ns &&
      Field(img, 10, 2) == 0 && Field(img, 12, 4) == UNIT && Count(img) == count && Field(img, 20, 4) == 0 &&
      Field(img, 24, 8) == UNIT && Field(img, 32, 8) == paths && DataOffset(img) == data &&
      Field(img, 48, 8) == total && AllZero(img[60..64])
    ensures Field(img, 56, 4) == FromLe(img[0..64][56..60])
  {
    hide FromLe, AllZero;
    ReadWithin(img, 0, 64, 0, 4);
    ReadWithin(img, 0, 64, 4, 2);
    ReadWithin(img, 0, 64, 6, 2);
    ReadWithin(img, 0, 64, 8, 2);
    ReadWithin(img, 0, 64, 10, 2);
    ReadWithin(img, 0, 64, 12, 4);
    ReadWithin(img, 0, 64, 16, 4);
    ReadWithin(img, 0, 64, 20, 4);
    ReadWithin(img, 0, 64, 24, 8);
    ReadWithin(img, 0, 64, 32, 8);
    ReadWithin(img, 0, 64, 40, 8);
    ReadWithin(img, 0, 64, 48, 8);
    ReadWithin(img, 0, 64, 56, 4);
    ReadWithin(img, 0, 64, 60, 4);
  }

  /** Clearing the checksum field of a header. */
  lemma SumCleared(h: seq<byte>, ns: nat, count: nat, paths: nat, data: nat, total: nat, sum: seq<byte>)
    requires |sum| == 4 && h == HeaderBytes(ns, count, paths, data, total, sum)
    ensures Put(h, 56, Zeros(4)) == HeaderBytes(ns, count, paths, data, total, Zeros(4))
  {
    var front := Kind(ns) + Counts(count) + Places(paths, data, total);
    assert h == front + (sum + Zeros(4)) && |front| == 56;
    assert Put(h, 56, Zeros(4)) == front + (Zeros(4) + Zeros(4));
  }

  /** The fields of entry i, read at their offsets. */
  lemma EntryFieldsRead(img: seq<byte>, i: nat, pathAt: nat, pathSize: nat, dataAt: nat, dataSize: nat, crc: nat)
    requires EntryAt(i) + 64 <= |img|
    ensures EntryFields(img[EntryAt(i)..EntryAt(i) + 64], pathAt, pathSize, dataAt, dataSize, crc) <==>
      Field(img, EntryAt(i), 8) == pathAt && PathSize(img, i) == pathSize && Field(img, EntryAt(i) + 0x0c, 4) == 0 &&
      Field(img, EntryAt(i) + 0x10, 8) == dataAt && DataSize(img, i) == dataSize &&
      Field(img, EntryAt(i) + 0x20, 4) == crc && AllZero(Slice(img, EntryAt(i) + 0x24, 28))
  {
    hide FromLe, AllZero;
    var base := EntryAt(i);
    ReadWithin(img, base, 64, 0, 8);
    ReadWithin(img, base, 64, 8, 4);
    ReadWithin(img, base, 64, 12, 4);
    ReadWithin(img, base, 64, 16, 8);
    ReadWithin(img, base, 64, 24, 8);
    ReadWithin(img, base, 64, 32, 4);
    ReadWithin(img, base, 64, 36, 28);
  }

  lemma FileStands(img: seq<byte>, i: nat, lim: Limits)
    requires EntryPlausible(img, i, lim) && DataAccepts(img, i) && DataOffset(img) <= |img| <= INT64_MAX
    requires i < Count(img) && lim.Ok() && EntryAt(i) + 64 <= |img|
    requires PathCursor(img, i) == PathAt(Files(img), i) && DataCursor(img, i) == DataAt(Files(img), i)
    requires DataCursor(img, i + 1) == DataAt(Files(img), i + 1)
    ensures HoldsFile(Files(img), img, i)
  {
    hide Field, PathSize, DataSize, PathCursor, DataCursor, PathAt, DataAt, EntryBytes, EntryFields;
    StoredSizes(img, i, lim);
    var f := FileOf(img, i);
    EntryFieldsRead(img, i, PathCursor(img, i), |f.path|, DataCursor(img, i), |f.data|, Crc.Crc32(f.data));
    EntryExactly(img[EntryAt(i)..EntryAt(i) + 64], PathCursor(img, i), |f.path|, DataCursor(img, i), |f.data|, Crc.Crc32(f.data));
  }

  lemma AcceptedListable(img: seq<byte>, ns: nat, lim: Limits)
    requires Accepts(img, ns, lim)
    ensures Listable(lim, Files(img))
  {
    hide FoldDistinct, ZeroRange, DataAccepts, NameOk, Before, Fold, PathSize, DataSize, Field, PathAt, DataAt,
      Total, IsImage, PathCursor, DataCursor;
    AllSizes(img, ns, lim);
    LayoutFollows(img, ns, lim);
    var files := Files(img);
    forall i | 0 <= i < |files|
      ensures 0 < |files[i].path| <= lim.maxPath && NameOk(Names(files)[i], lim.maxPath)
      ensures i > 0 ==> Before(Names(files)[i - 1], Names(files)[i])
    {
      assert EntryAccepts(img, i, lim);
    }
  }

  /** An accepted image is, byte for byte, the bundle of the files it stores. */
  lemma AcceptedIsImage(img: seq<byte>, ns: nat, lim: Limits)
    requires Accepts(img, ns, lim) && lim.Ok() && ns < U16
    ensures IsImage(ns, Files(img), img)
  {
    hide FoldDistinct, ZeroRange, DataAccepts, NameOk, Before, Fold, PathSize, DataSize, Field, EntryPlausible,
      HeaderOf, HoldsFile, PathAt, DataAt, PathCursor, DataCursor, Crc.Crc32, AllZero;
    LayoutFollows(img, ns, lim);
    CursorStarts(img);
    HeaderStands(img, ns, lim);
    forall i | 0 <= i < Count(img) ensures HoldsFile(Files(img), img, i) {
      assert EntryAccepts(img, i, lim) && DataAccepts(img, i);
      PartsInside(Files(img), i);
      PartsBase(Files(img));
      FileStands(img, i, lim);
    }
  }

  lemma CursorStarts(img: seq<byte>)
    ensures PathCursor(img, 0) == UNIT + UNIT * Count(img) && DataCursor(img, 0) == DataOffset(img)
  {
  }

  // ---------- bundles are accepted ----------

  /** What the header of a bundle says. */
  lemma HeaderSays(ns: nat, files: seq<File>, img: seq<byte>, lim: Limits)
    requires IsImage(ns, files, img) && lim.Ok() && Listable(lim, files) && ns < U16
    ensures HeaderAccepts(img, ns, lim) && Count(img) == |files| && DataOffset(img) == DataAt(files, 0)
  {
    hide FoldDistinct, ZeroRange, NameOk, Before, Fold, HoldsFile, FromLe, Le, HeaderBytes, Ordered, DataAt;
    PartsBase(files);
    var h := img[0..64];
    var crc := Crc.Crc32(HeaderWith(ns, files, Zeros(4)));
    var sum := Le(4, crc);
    HeaderExactly(h, ns, |files|, PathAt(files, 0), DataAt(files, 0), Total(files), sum);
    SumCleared(h, ns, |files|, PathAt(files, 0), DataAt(files, 0), Total(files), sum);
    HeaderFieldsRead(img, ns, |files|, PathAt(files, 0), DataAt(files, 0), Total(files));
    LeExactly(sum, 4, crc);
    DataOrdered(files, 0, 0);
    assert img[..64] == h;
  }

  /** What entry i of a bundle says. */
  lemma EntrySays(ns: nat, files: seq<File>, img: seq<byte>, lim: Limits, i: nat)
    requires IsImage(ns, files, img) && lim.Ok() && Listable(lim, files) && i < |files|
    ensures EntryAt(i) + 64 <= |img| && PathSize(img, i) == |files[i].path| && DataSize(img, i) == |files[i].data|
    ensures EntryFields(img[EntryAt(i)..EntryAt(i) + 64], PathAt(files, i), |files[i].path|, DataAt(files, i),
                        |files[i].data|, Crc.Crc32(files[i].data))
  {
    hide FoldDistinct, ZeroRange, NameOk, Before, Fold, EntryBytes, EntryFields, Ordered, DataAt, PathAt, HeaderOf,
      PathSize, DataSize, Field;
    assert HoldsFile(files, img, i);
    PartsInside(files, i);
    PartsBase(files);
    var crc := Crc.Crc32(files[i].data);
    EntryExactly(img[EntryAt(i)..EntryAt(i) + 64], PathAt(files, i), |files[i].path|, DataAt(files, i), |files[i].data|, crc);
    EntryFieldsRead(img, i, PathAt(files, i), |files[i].path|, DataAt(files, i), |files[i].data|, crc);
  }

  /** The cursors of a bundle are its layout. */
  lemma CursorsSay(ns: nat, files: seq<File>, img: seq<byte>, lim: Limits, i: nat)
    requires IsImage(ns, files, img) && lim.Ok() && Listable(lim, files) && i <= |files| && ns < U16
    ensures PathCursor(img, i) == PathAt(files, i) && DataCursor(img, i) == DataAt(files, i)
  {
    hide IsImage, Listable, EntryFields, EntryAt, PathSize, DataSize;
    HeaderSays(ns, files, img, lim);
    forall j | 0 <= j < |files| ensures PathSize(img, j) == |files[j].path| && DataSize(img, j) == |files[j].data| {
      EntrySays(ns, files, img, lim, j);
    }
    PathCursorIs(img, files, i);
    DataOrdered(files, i, |files|);
    assert Total(files) <= INT64_MAX by { ListableFits(lim, files); }
    DataCursorIs(img, files, i);
  }

  lemma ListableFits(lim: Limits, files: seq<File>)
    requires Listable(lim, files)
    ensures Total(files) <= INT64_MAX && Total(files) <= lim.maxSize && |files| <= lim.maxEntries
  {
  }

  lemma FileSays(ns: nat, files: seq<File>, img: seq<byte>, lim: Limits, i: nat)
    requires IsImage(ns, files, img) && lim.Ok() && Listable(lim, files) && i < |files| && ns < U16
    ensures FileOf(img, i) == files[i]
  {
    hide Listable, EntryFields, EntryAt, PathSize, DataSize, PathAt, DataAt, PathCursor, DataCursor, EntryOf,
      ZeroRange, HeaderOf;
    assert HoldsFile(files, img, i);
    EntrySays(ns, files, img, lim, i);
    CursorsSay(ns, files, img, lim, i);
  }

  /** A bundle stores the files it was made of. */
  lemma FilesSay(ns: nat, files: seq<File>, img: seq<byte>, lim: Limits)
    requires IsImage(ns, files, img) && lim.Ok() && Listable(lim, files) && ns < U16
    ensures Files(img) == files
  {
    hide Listable, IsImage, FileOf;
    HeaderSays(ns, files, img, lim);
    forall i | 0 <= i < |files| ensures FileOf(img, i) == files[i] {
      FileSays(ns, files, img, lim, i);
    }
  }

  lemma DataPasses(ns: nat, files: seq<File>, img: seq<byte>, lim: Limits, i: nat)
    requires IsImage(ns, files, img) && lim.Ok() && Listable(lim, files) && i < |files| && ns < U16
    ensures DataAccepts(img, i)
  {
    hide EntryAt, PathSize, DataSize, Field, PathAt, DataAt, PathCursor, DataCursor, EntryOf, HeaderOf, Listable,
      Crc.Crc32, FileOf, EntryFields, ZeroRange;
    assert HoldsFile(files, img, i);
    EntrySays(ns, files, img, lim, i);
    CursorsSay(ns, files, img, lim, i);
    CursorsSay(ns, files, img, lim, i + 1);
    FileSays(ns, files, img, lim, i);
    EntryFieldsRead(img, i, PathAt(files, i), |files[i].path|, DataAt(files, i), |files[i].data|, Crc.Crc32(files[i].data));
  }

  lemma EntryPasses(ns: nat, files: seq<File>, img: seq<byte>, lim: Limits, i: nat)
    requires IsImage(ns, files, img) && lim.Ok() && Listable(lim, files) && i < |files| && ns < U16
    ensures EntryPlausible(img, i, lim) && DataAccepts(img, i)
    ensures DataCursor(img, i + 1) <= |img|
  {
    hide EntryAt, PathSize, DataSize, Field, PathAt, DataAt, PathCursor, DataCursor, EntryOf, HeaderOf, NameOk,
      Ordered, FoldDistinct, Crc.Crc32, FileOf, AllZero, EntryFields, ZeroRange, DataAccepts;
    assert HoldsFile(files, img, i);
    EntrySays(ns, files, img, lim, i);
    CursorsSay(ns, files, img, lim, i);
    CursorsSay(ns, files, img, lim, i + 1);
    HeaderSays(ns, files, img, lim);
    PartsInside(files, i);
    DataPasses(ns, files, img, lim, i);
    EntryFieldsRead(img, i, PathAt(files, i), |files[i].path|, DataAt(files, i), |files[i].data|, Crc.Crc32(files[i].data));
  }

  /** Every bundle of a list the opener allows is accepted, and stores that list. */
  lemma ImageAccepted(ns: nat, files: seq<File>, img: seq<byte>, lim: Limits)
    requires IsImage(ns, files, img) && lim.Ok() && Listable(lim, files) && ns < U16
    ensures Accepts(img, ns, lim) && Files(img) == files
  {
    hide EntryPlausible, DataAccepts, HeaderAccepts, HoldsFile, HeaderOf, PathAt, DataAt, PathCursor, DataCursor,
      FileOf, Fold, Before, NameOk;
    FilesSay(ns, files, img, lim);
    HeaderSays(ns, files, img, lim);
    CursorsSay(ns, files, img, lim, |files|);
    PartsBase(files);
    UpAlign(PathAt(files, |files|));
    LastCursor(files);
    forall i | 0 <= i < |files| ensures EntryAccepts(img, i, lim) && DataAccepts(img, i) {
      EntryPasses(ns, files, img, lim, i);
      NamesPass(files, lim, i);
      assert NameAt(img, i) == Names(files)[i];
    }
  }

  lemma LastCursor(files: seq<File>)
    ensures DataAt(files, 0) == Up(PathAt(files, |files|))
  {
  }

  lemma NamesPass(files: seq<File>, lim: Limits, i: nat)
    requires Listable(lim, files) && i < |files|
    ensures NameOk(Names(files)[i], lim.maxPath)
    ensures i > 0 ==> Before(Names(files)[i - 1], Names(files)[i]) && Fold(Names(files)[i - 1]) != Fold(Names(files)[i])
  {
  }

  /** The opener accepts exactly the images of the lists it allows. */
  lemma AcceptsExactly(img: seq<byte>, ns: nat, lim: Limits)
    requires lim.Ok() && ns < U16
    ensures Accepts(img, ns, lim) <==> exists files :: Listable(lim, files) && IsImage(ns, files, img)
  {
    hide Accepts, Listable, IsImage;
    if Accepts(img, ns, lim) {
      AcceptedListable(img, ns, lim);
      AcceptedIsImage(img, ns, lim);
    }
    if files :| Listable(lim, files) && IsImage(ns, files, img) {
      ImageAccepted(ns, files, img, lim);
    }
  }

  // ---------- paths that contain a zero byte ----------

  predicate NulFreePaths(files: seq<File>) {
    forall i :: 0 <= i < |files| ==> NulFree(files[i].path)
  }

  /** The lists a builder is given: every path is itself a valid name. */
  predicate Canonical(lim: Limits, files: seq<File>) {
    NulFreePaths(files) && Listable(lim, files)
  }

  /** An accepted image is the bundle of a list of valid files exactly when no stored path holds a
      zero byte; otherwise the opener lists names other than the ones stored. */
  lemma CanonicalExactly(img: seq<byte>, ns: nat, lim: Limits)
    requires lim.Ok() && ns < U16 && Accepts(img, ns, lim)
    ensures (exists files :: Canonical(lim, files) && IsImage(ns, files, img)) <==> NulFreePaths(Files(img))
    ensures NulFreePaths(Files(img)) <==> forall i :: 0 <= i < Count(img) ==> Listing(img)[i].path == Files(img)[i].path
  {
    hide Accepts, Listable, IsImage;
    AcceptedListable(img, ns, lim);
    AcceptedIsImage(img, ns, lim);
    if files :| Canonical(lim, files) && IsImage(ns, files, img) {
      ImageAccepted(ns, files, img, lim);
    }
    forall i | 0 <= i < Count(img) ensures Listing(img)[i].path == CString(Files(img)[i].path) {
    }
  }
}
