/** Opening a bundle: the strict parser, and exactly which images it accepts. */
module BundleReader {
  import opened Bytes
  import opened Paths
  import opened Sorting
  import opened Bundle
  import Crc

  /** The limits a caller sets, defaults already filled in. */
  datatype Limits = Limits(maxEntries: nat, maxPath: nat, maxSize: nat) {
    predicate Ok() {
      0 < maxEntries < U32 && 0 < maxPath <= PATH_CAPACITY && UNIT <= maxSize
    }
  }

  // ---------- what an image stores, wherever it stores it ----------

  function Count(img: seq<byte>): nat {
    Field(img, 0x10, 4)
  }

  function DataOffset(img: seq<byte>): nat {
    Field(img, 0x28, 8)
  }

  function PathSize(img: seq<byte>, i: nat): nat {
    Field(img, EntryAt(i) + 0x08, 4)
  }

  function DataSize(img: seq<byte>, i: nat): nat {
    Field(img, EntryAt(i) + 0x18, 8)
  }

  function PathCursor(img: seq<byte>, i: nat): nat {
    if i == 0 then UNIT + UNIT * Count(img) else PathCursor(img, i - 1) + PathSize(img, i - 1)
  }

  function DataCursor(img: seq<byte>, i: nat): nat {
    if i == 0 then DataOffset(img) else Align64(DataCursor(img, i - 1) + DataSize(img, i - 1))
  }

  lemma CursorStep(img: seq<byte>, i: nat)
    ensures PathCursor(img, i + 1) == PathCursor(img, i) + PathSize(img, i)
    ensures DataCursor(img, i + 1) == Align64(DataCursor(img, i) + DataSize(img, i))
  {
  }

  function FileOf(img: seq<byte>, i: nat): File {
    File(Slice(img, PathCursor(img, i), PathSize(img, i)), Slice(img, DataCursor(img, i), DataSize(img, i)))
  }

  /** The files an image stores, with their paths as stored. */
  function Files(img: seq<byte>): (files: seq<File>)
    ensures |files| == Count(img)
    ensures forall i :: 0 <= i < |files| ==> files[i] == FileOf(img, i)
  {
    seq(Count(img), i requires 0 <= i < Count(img) => FileOf(img, i))
  }

  /** A stored path as the opener keeps it: a C string, which ends at the first zero byte. */
  function CString(s: seq<byte>): (c: seq<byte>)
    ensures NulFree(c) && |c| <= |s|
    ensures NulFree(s) ==> c == s
  {
    if s == [] || s[0] == 0 then [] else [s[0]] + CString(s[1..])
  }

  /** The first zero byte, or the end, is where a stored path ends. */
  lemma {:induction false} CStringEnds(s: seq<byte>, k: nat)
    requires k <= |s| && NulFree(s[..k]) && (k < |s| ==> s[k] == 0)
    ensures CString(s) == s[..k]
  {
    if k > 0 {
      assert s[..k][0] == s[0] && s[..k][1..] == s[1..][..k - 1];
      CStringEnds(s[1..], k - 1);
    }
  }

  function Names(files: seq<File>): (names: seq<seq<byte>>)
    ensures |names| == |files|
    ensures forall i :: 0 <= i < |files| ==> names[i] == CString(files[i].path)
  {
    seq(|files|, i requires 0 <= i < |files| => CString(files[i].path))
  }

  // ---------- which lists of files a bundle may hold ----------

  predicate NameOk(name: seq<byte>, maxPath: nat) {
    |name| <= maxPath && IsPath(name)
  }

  predicate Ordered(names: seq<seq<byte>>) {
    forall i :: 0 < i < |names| ==> Before(names[i - 1], names[i])
  }

  /** Strictly increasing names, between any two. */
  lemma {:induction false} Ascending(names: seq<seq<byte>>, i: nat, j: nat)
    requires Ordered(names) && i < j < |names|
    ensures Before(names[i], names[j])
    decreases j
  {
    if i + 1 < j {
      Ascending(names, i, j - 1);
      BeforeTransitive(names[i], names[j - 1], names[j]);
    }
  }

  /** The lists of files the opener lets through. */
  predicate Listable(lim: Limits, files: seq<File>) {
    && |files| <= lim.maxEntries
    && (forall i :: 0 <= i < |files| ==> 0 < |files[i].path| <= lim.maxPath && NameOk(Names(files)[i], lim.maxPath))
    && Ordered(Names(files)) && FoldDistinct(Names(files))
    && Total(files) <= lim.maxSize && Total(files) <= INT64_MAX
  }

  // ---------- the checks of the source ----------

  predicate HeaderAccepts(img: seq<byte>, ns: nat, lim: Limits) {
    && 64 <= |img| <= INT64_MAX && |img| <= lim.maxSize
    && img[0..4] == MAGIC && Field(img, 4, 2) == 1 && Field(img, 6, 2) == UNIT && Field(img, 8, 2) == ns
    && Field(img, 10, 2) == 0 && Field(img, 12, 4) == UNIT && Count(img) <= lim.maxEntries
    && Field(img, 20, 4) == 0 && Field(img, 24, 8) == UNIT
    && Field(img, 32, 8) == UNIT + UNIT * Count(img)
    && DataOffset(img) >= UNIT + UNIT * Count(img) && DataOffset(img) % 64 == 0
    && Field(img, 48, 8) == |img| && DataOffset(img) <= |img|
    && Field(img, 56, 4) == Crc.Crc32(Put(img[..64], 56, Zeros(4)))
    && AllZero(img[60..64])
  }

  /** The checks on entry i before its path is looked at. */
  predicate EntryPlausible(img: seq<byte>, i: nat, lim: Limits) {
    && Field(img, EntryAt(i), 8) == PathCursor(img, i)
    && 0 < PathSize(img, i) <= lim.maxPath
    && PathCursor(img, i) <= DataOffset(img) && PathSize(img, i) <= DataOffset(img) - PathCursor(img, i)
    && Field(img, EntryAt(i) + 0x0c, 4) == 0
    && Field(img, EntryAt(i) + 0x10, 8) == DataCursor(img, i)
    && DataCursor(img, i) <= |img| && DataSize(img, i) <= |img| - DataCursor(img, i)
    && AllZero(Slice(img, EntryAt(i) + 0x24, 28))
  }

  function NameAt(img: seq<byte>, i: nat): seq<byte> {
    CString(FileOf(img, i).path)
  }

  predicate EntryAccepts(img: seq<byte>, i: nat, lim: Limits) {
    && EntryPlausible(img, i, lim)
    && NameOk(NameAt(img, i), lim.maxPath)
    && (i > 0 ==> Before(NameAt(img, i - 1), NameAt(img, i)))
    && (i > 0 ==> Fold(NameAt(img, i - 1)) != Fold(NameAt(img, i)))
    && DataCursor(img, i + 1) <= |img|
  }

  predicate DataAccepts(img: seq<byte>, i: nat) {
    && Field(img, EntryAt(i) + 0x20, 4) == Crc.Crc32(FileOf(img, i).data)
    && ZeroRange(img, DataCursor(img, i) + DataSize(img, i), DataCursor(img, i + 1))
  }

  predicate Accepts(img: seq<byte>, ns: nat, lim: Limits) {
    && HeaderAccepts(img, ns, lim)
    && (forall i :: 0 <= i < Count(img) ==> EntryAccepts(img, i, lim))
    && FoldDistinct(Names(Files(img)))
    && Align64(PathCursor(img, Count(img))) == DataOffset(img)
    && DataCursor(img, Count(img)) == |img|
    && ZeroRange(img, PathCursor(img, Count(img)), DataOffset(img))
    && (forall i :: 0 <= i < Count(img) ==> DataAccepts(img, i))
  }

  // ---------- the opener ----------

  datatype Info = Info(path: seq<byte>, at: nat, size: nat, crc: nat)

  function InfoOf(img: seq<byte>, i: nat): Info {
    Info(NameAt(img, i), DataCursor(img, i), DataSize(img, i), Field(img, EntryAt(i) + 0x20, 4))
  }

  /** What a reader may list and read once the bundle is open. */
  function Listing(img: seq<byte>): (infos: seq<Info>)
    ensures |infos| == Count(img)
    ensures forall i :: 0 <= i < |infos| ==> infos[i] == InfoOf(img, i)
  {
    seq(Count(img), i requires 0 <= i < Count(img) => InfoOf(img, i))
  }

  /** The path check of the bundle: like a key, plus the caller's limit. */
  method PathValid(path: seq<byte>, maxPath: nat) returns (ok: bool)
    requires NulFree(path)
    ensures ok == NameOk(path, maxPath)
  {
    if |path| > maxPath {
      return false;
    }
    var separator: bool;
    ok, separator := PathIsValid(path);
  }

  /** One entry of the directory. */
  method ReadEntry(img: seq<byte>, i: nat, lim: Limits, pathCursor: nat, dataCursor: nat, previous: seq<byte>)
    returns (ok: bool, info: Info)
    requires DataOffset(img) <= |img| <= INT64_MAX
    requires pathCursor == PathCursor(img, i) && dataCursor == DataCursor(img, i)
    requires i > 0 ==> previous == NameAt(img, i - 1)
    ensures ok == EntryAccepts(img, i, lim)
    ensures ok ==> info == InfoOf(img, i)
  {
    hide Field, PathSize, DataSize, PathCursor, DataCursor, FileOf, CString, NameOk, Before, Fold, AllZero;
    info := InfoOf(img, i);
    if !EntryPlausible(img, i, lim) {
      return false, info;
    }
    CursorStep(img, i);
    ok := PathValid(info.path, lim.maxPath);
    if !ok {
      return;
    }
    if i != 0 {
      var order := PathCompareBytes(previous, info.path);
      var equal := AsciiFoldEqual(previous, info.path);
      if order >= 0 || equal {
        return false, info;
      }
    }
    var next := Align64(dataCursor + info.size);
    ok := next != U64_MAX && next <= |img|;
  }

  /** The directory loop. */
  method ReadEntries(img: seq<byte>, lim: Limits) returns (ok: bool, infos: seq<Info>, pathCursor: nat, dataCursor: nat)
    requires DataOffset(img) <= |img| <= INT64_MAX
    ensures ok == forall i :: 0 <= i < Count(img) ==> EntryAccepts(img, i, lim)
    ensures ok ==> infos == Listing(img)
    ensures ok ==> pathCursor == PathCursor(img, Count(img)) && dataCursor == DataCursor(img, Count(img))
  {
    hide Field, PathSize, DataSize, EntryAccepts, NameAt, DataOffset;
    infos, pathCursor, dataCursor := [], UNIT + UNIT * Count(img), DataOffset(img);
    for index := 0 to Count(img)
      invariant infos == Listing(img)[..index]
      invariant pathCursor == PathCursor(img, index) && dataCursor == DataCursor(img, index)
      invariant forall i :: 0 <= i < index ==> EntryAccepts(img, i, lim)
    {
      var info: Info;
      ok, info := ReadEntry(img, index, lim, pathCursor, dataCursor, if index == 0 then [] else infos[index - 1].path);
      if !ok {
        return;
      }
      infos := infos + [info];
      CursorStep(img, index);
      pathCursor := pathCursor + PathSize(img, index);
      dataCursor := Align64(info.at + info.size);
    }
    ok := true;
  }

  /** Checksum and padding of every file. */
  method CheckData(img: seq<byte>, infos: seq<Info>, lim: Limits, chunk: nat) returns (ok: bool)
    requires chunk > 0 && infos == Listing(img) && DataOffset(img) <= |img| <= INT64_MAX
    requires forall i :: 0 <= i < Count(img) ==> EntryAccepts(img, i, lim)
    ensures ok == forall i :: 0 <= i < Count(img) ==> DataAccepts(img, i)
  {
    hide EntryAccepts, DataAccepts;
    for index := 0 to |infos|
      invariant forall i :: 0 <= i < index ==> DataAccepts(img, i)
    {
      ok := CheckFile(img, infos[index], lim, index, chunk);
      if !ok {
        return;
      }
    }
    ok := true;
  }

  /** Checksum of one file, and the zeros up to the next. */
  method CheckFile(img: seq<byte>, info: Info, ghost lim: Limits, ghost index: nat, chunk: nat) returns (ok: bool)
    requires chunk > 0 && index < Count(img) && info == Listing(img)[index] && DataOffset(img) <= |img| <= INT64_MAX
    requires EntryAccepts(img, index, lim)
    ensures ok == DataAccepts(img, index)
  {
    hide Field, PathSize, DataSize, NameAt, NameOk, Fold, Before, PathCursor, DataCursor, AllZero, CString, Crc.Crc32;
    assert FileOf(img, index).data == img[info.at..info.at + info.size];
    CursorStep(img, index);
    var crc := Crc.ChunkedCrc(img[info.at..info.at + info.size], chunk);
    if crc != info.crc {
      return false;
    }
    AlignUp(info.at + info.size);
    ok := RangeIsZero(img, info.at + info.size, Align64(info.at + info.size), chunk);
  }

  lemma AlignUp(v: nat)
    ensures Align64(v) < U64_MAX || v <= U64_MAX ==> v <= Align64(v)
  {
  }

  /** The opener: header, directory, uniqueness, layout, then contents. */
  method OpenBundle(img: seq<byte>, ns: nat, lim: Limits, chunk: nat) returns (listing: Option<seq<Info>>)
    requires chunk > 0
    ensures listing == if lim.Ok() && ns in {SAVE, CHEAT} && Accepts(img, ns, lim) then Some(Listing(img)) else None
  {
    if !lim.Ok() || (ns != SAVE && ns != CHEAT) {
      return None;
    }
    if !HeaderAccepts(img, ns, lim) {
      return None;
    }
    var ok, infos, pathCursor, dataCursor := ReadEntries(img, lim);
    if !ok {
      return None;
    }
    assert Names(Files(img)) == seq(|infos|, i requires 0 <= i < |infos| => infos[i].path);
    var unique := PathsPortableUnique(seq(|infos|, i requires 0 <= i < |infos| => infos[i].path));
    if !unique || Align64(pathCursor) != DataOffset(img) || dataCursor != |img| {
      return None;
    }
    AlignUp(pathCursor);
    ok := RangeIsZero(img, pathCursor, DataOffset(img), chunk);
    if ok {
      ok := CheckData(img, infos, lim, chunk);
    }
    listing := if ok then Some(infos) else None;
  }
}
