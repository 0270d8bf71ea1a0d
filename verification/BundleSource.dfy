/** Building a bundle: the directory is laid out in memory, the files stay where they are, and the
    whole image is read lazily from both. */
module BundleSource {
  import opened Bytes
  import opened Bundle
  import Crc

  // ---------- the directory, drawn entry by entry ----------

  /** The prefix after the header fields and the first i entries have been stored. */
  function Drawn(ns: nat, files: seq<File>, i: nat): (b: seq<byte>)
    requires i <= |files|
    ensures |b| == DataAt(files, 0)
  {
    PartsBase(files);
    if i == 0 then Put(Zeros(DataAt(files, 0)), 0, HeaderWith(ns, files, Zeros(4)))
    else
      DrawnEntry(Drawn(ns, files, i - 1), files, i - 1)
  }

  /** One entry and its path stored. */
  function DrawnEntry(b: seq<byte>, files: seq<File>, i: nat): (r: seq<byte>)
    requires i < |files| && |b| == DataAt(files, 0)
    ensures |r| == |b|
  {
    PartsInside(files, i);
    Put(Put(b, EntryAt(i), EntryOf(files, i)), PathAt(files, i), files[i].path)
  }

  /** The complete prefix: header, entries, paths and padding. */
  function Prefix(ns: nat, files: seq<File>): (b: seq<byte>)
    ensures |b| == DataAt(files, 0)
  {
    PartsBase(files);
    Put(Drawn(ns, files, |files|), 56, Le(4, Crc.Crc32(HeaderWith(ns, files, Zeros(4)))))
  }

  /** The image once the first i files are laid over it. */
  function Laid(base: seq<byte>, files: seq<File>, i: nat): (img: seq<byte>)
    requires i <= |files| && |base| == Total(files)
    ensures |img| == Total(files)
  {
    if i == 0 then base
    else
      PartsInside(files, i - 1);
      Put(Laid(base, files, i - 1), DataAt(files, i - 1), files[i - 1].data)
  }

  function Base(ns: nat, files: seq<File>): (b: seq<byte>)
    ensures |b| == Total(files)
  {
    PartsBase(files);
    Prefix(ns, files) + Zeros(Total(files) - DataAt(files, 0))
  }

  /** The flat image the lazy reader stands for. */
  function Flat(ns: nat, files: seq<File>): (img: seq<byte>)
    ensures |img| == Total(files)
  {
    Laid(Base(ns, files), files, |files|)
  }

  // ---------- the flat image is a bundle ----------

  lemma StandsElsewhere(s: seq<byte>, at: nat, b: seq<byte>, o: nat, c: seq<byte>)
    requires at + |b| <= |s| && Stands(s, o, c) && (o + |c| <= at || at + |b| <= o)
    ensures Stands(Put(s, at, b), o, c)
  {
    FieldOfPut(s, at, b, o, |c|);
  }

  lemma StandsThere(s: seq<byte>, at: nat, b: seq<byte>)
    requires at + |b| <= |s|
    ensures Stands(Put(s, at, b), at, b)
  {
    FieldOfPut(s, at, b, at, |b|);
  }

  lemma ZeroElsewhere(s: seq<byte>, at: nat, b: seq<byte>, lo: nat, hi: nat)
    requires at + |b| <= |s| && ZeroRange(s, lo, hi) && (hi <= at || at + |b| <= lo)
    ensures ZeroRange(Put(s, at, b), lo, hi)
  {
    FieldOfPut(s, at, b, lo, hi - lo);
  }

  lemma ZeroPart(s: seq<byte>, lo: nat, hi: nat, a: nat, b: nat)
    requires ZeroRange(s, lo, hi) && lo <= a <= b <= hi
    ensures ZeroRange(s, a, b)
  {
    forall p | 0 <= p < b - a ensures s[a..b][p] == 0 {
      assert s[lo..hi][a + p - lo] == 0;
    }
  }

  /** What the prefix holds once i entries are drawn. */
  predicate DrawnWell(ns: nat, files: seq<File>, b: seq<byte>, i: nat)
    requires i <= |files|
  {
    && Stands(b, 0, HeaderWith(ns, files, Zeros(4)))
    && (forall j :: 0 <= j < i ==> Stands(b, EntryAt(j), EntryOf(files, j)) && Stands(b, PathAt(files, j), files[j].path))
    && ZeroRange(b, EntryAt(i), PathAt(files, 0))
    && ZeroRange(b, PathAt(files, |files|), DataAt(files, 0))
  }

  lemma DrawnStart(ns: nat, files: seq<File>)
    ensures DrawnWell(ns, files, Drawn(ns, files, 0), 0)
  {
    hide HeaderWith;
    PartsBase(files);
    var z := Zeros(DataAt(files, 0));
    StandsThere(z, 0, HeaderWith(ns, files, Zeros(4)));
    assert ZeroRange(z, 0, |z|);
    ZeroPart(z, 0, |z|, EntryAt(0), PathAt(files, 0));
    ZeroPart(z, 0, |z|, PathAt(files, |files|), DataAt(files, 0));
    ZeroElsewhere(z, 0, HeaderWith(ns, files, Zeros(4)), EntryAt(0), PathAt(files, 0));
    ZeroElsewhere(z, 0, HeaderWith(ns, files, Zeros(4)), PathAt(files, |files|), DataAt(files, 0));
  }

  lemma EntriesApart(j: nat, i: nat)
    requires j < i
    ensures EntryAt(j) + 64 <= EntryAt(i) && EntryAt(i) + 64 == EntryAt(i + 1)
  {
  }

  /** Entry and path i touch nothing drawn before. */
  lemma DrawnStep(ns: nat, files: seq<File>, b: seq<byte>, i: nat)
    requires i < |files| && |b| == DataAt(files, 0) && DrawnWell(ns, files, b, i)
    ensures EntryAt(i) + 64 <= |b| && PathAt(files, i) + |files[i].path| <= |b|
    ensures DrawnWell(ns, files, Put(Put(b, EntryAt(i), EntryOf(files, i)), PathAt(files, i), files[i].path), i + 1)
  {
    hide HeaderWith, EntryOf, Stands, ZeroRange, DataAt, PathAt;
    PartsInside(files, i);
    var e, p := EntryOf(files, i), files[i].path;
    var c := Put(b, EntryAt(i), e);
    var d := Put(c, PathAt(files, i), p);
    StandsElsewhere(b, EntryAt(i), e, 0, HeaderWith(ns, files, Zeros(4)));
    StandsElsewhere(c, PathAt(files, i), p, 0, HeaderWith(ns, files, Zeros(4)));
    StandsThere(b, EntryAt(i), e);
    StandsElsewhere(c, PathAt(files, i), p, EntryAt(i), e);
    StandsThere(c, PathAt(files, i), p);
    forall j | 0 <= j < i ensures Stands(d, EntryAt(j), EntryOf(files, j)) && Stands(d, PathAt(files, j), files[j].path) {
      EntriesApart(j, i);
      PathsOrdered(files, j, i);
      PartsInside(files, j);
      StandsElsewhere(b, EntryAt(i), e, EntryAt(j), EntryOf(files, j));
      StandsElsewhere(c, PathAt(files, i), p, EntryAt(j), EntryOf(files, j));
      StandsElsewhere(b, EntryAt(i), e, PathAt(files, j), files[j].path);
      StandsElsewhere(c, PathAt(files, i), p, PathAt(files, j), files[j].path);
    }
    ZeroPart(b, EntryAt(i), PathAt(files, 0), EntryAt(i + 1), PathAt(files, 0));
    ZeroElsewhere(b, EntryAt(i), e, EntryAt(i + 1), PathAt(files, 0));
    ZeroElsewhere(c, PathAt(files, i), p, EntryAt(i + 1), PathAt(files, 0));
    ZeroElsewhere(b, EntryAt(i), e, PathAt(files, |files|), DataAt(files, 0));
    ZeroElsewhere(c, PathAt(files, i), p, PathAt(files, |files|), DataAt(files, 0));
  }

  lemma DrawnNext(ns: nat, files: seq<File>, i: nat)
    requires i < |files|
    ensures EntryAt(i) + 64 <= DataAt(files, 0) && PathAt(files, i) + |files[i].path| <= DataAt(files, 0)
    ensures Drawn(ns, files, i + 1) == Put(Put(Drawn(ns, files, i), EntryAt(i), EntryOf(files, i)), PathAt(files, i), files[i].path)
  {
    hide EntryOf, DataAt, PathAt, HeaderWith, Put;
    PartsInside(files, i);
  }

  lemma {:induction false} DrawnHolds(ns: nat, files: seq<File>, i: nat)
    requires i <= |files|
    ensures DrawnWell(ns, files, Drawn(ns, files, i), i)
  {
    hide DrawnWell, EntryOf, DataAt, PathAt, Drawn;
    if i == 0 {
      DrawnStart(ns, files);
    } else {
      DrawnHolds(ns, files, i - 1);
      DrawnNext(ns, files, i - 1);
      DrawnStep(ns, files, Drawn(ns, files, i - 1), i - 1);
    }
  }

  /** Storing the checksum seals the header and disturbs nothing else. */
  predicate PrefixWell(ns: nat, files: seq<File>, b: seq<byte>) {
    && Stands(b, 0, HeaderOf(ns, files))
    && (forall j :: 0 <= j < |files| ==> Stands(b, EntryAt(j), EntryOf(files, j)) && Stands(b, PathAt(files, j), files[j].path))
    && ZeroRange(b, PathAt(files, |files|), DataAt(files, 0))
  }

  lemma Sealing(b: seq<byte>, ns: nat, files: seq<File>, sum: seq<byte>)
    requires Stands(b, 0, HeaderWith(ns, files, Zeros(4))) && |sum| == 4
    ensures |b| >= 64 && Stands(Put(b, 56, sum), 0, HeaderWith(ns, files, sum))
  {
    hide Kind, Counts, Places, PathAt, DataAt, Total;
    var front := Kind(ns) + Counts(|files|) + Places(PathAt(files, 0), DataAt(files, 0), Total(files));
    var h := HeaderWith(ns, files, Zeros(4));
    assert |front| == 56 && h == front + (Zeros(4) + Zeros(4));
    assert b[..64] == h;
    assert Put(b, 56, sum)[..64] == front + (sum + Zeros(4));
  }

  lemma PrefixHolds(ns: nat, files: seq<File>)
    ensures PrefixWell(ns, files, Prefix(ns, files))
  {
    hide HeaderWith, EntryOf, Stands, ZeroRange, DataAt, PathAt, Drawn;
    PartsBase(files);
    DrawnHolds(ns, files, |files|);
    var b, sum := Drawn(ns, files, |files|), Le(4, Crc.Crc32(HeaderWith(ns, files, Zeros(4))));
    Sealing(b, ns, files, sum);
    forall j | 0 <= j < |files|
      ensures Stands(Put(b, 56, sum), EntryAt(j), EntryOf(files, j)) && Stands(Put(b, 56, sum), PathAt(files, j), files[j].path)
    {
      PartsInside(files, j);
      StandsElsewhere(b, 56, sum, EntryAt(j), EntryOf(files, j));
      StandsElsewhere(b, 56, sum, PathAt(files, j), files[j].path);
    }
    ZeroElsewhere(b, 56, sum, PathAt(files, |files|), DataAt(files, 0));
  }

  // ---------- the files laid over it ----------

  /** What the image holds once i files are laid over the prefix. */
  predicate LaidWell(ns: nat, files: seq<File>, img: seq<byte>, i: nat)
    requires i <= |files|
  {
    && PrefixWell(ns, files, img)
    && (forall j :: 0 <= j < i ==> Stands(img, DataAt(files, j), files[j].data))
    && (forall j :: 0 <= j < i ==> ZeroRange(img, DataAt(files, j) + |files[j].data|, DataAt(files, j + 1)))
    && ZeroRange(img, DataAt(files, i), Total(files))
  }

  lemma LaidStart(ns: nat, files: seq<File>)
    ensures LaidWell(ns, files, Base(ns, files), 0)
  {
    hide HeaderOf, EntryOf, DataAt, PathAt, Prefix, Total;
    PartsBase(files);
    PrefixHolds(ns, files);
    var b, z := Prefix(ns, files), Base(ns, files);
    assert forall lo, hi :: 0 <= lo <= hi <= |b| ==> z[lo..hi] == b[lo..hi];
    forall j | 0 <= j < |files|
      ensures Stands(z, EntryAt(j), EntryOf(files, j)) && Stands(z, PathAt(files, j), files[j].path)
    {
      assert Stands(b, EntryAt(j), EntryOf(files, j)) && Stands(b, PathAt(files, j), files[j].path);
    }
  }

  lemma PrefixElsewhere(ns: nat, files: seq<File>, b: seq<byte>, at: nat, c: seq<byte>)
    requires PrefixWell(ns, files, b) && DataAt(files, 0) <= at && at + |c| <= |b|
    ensures PrefixWell(ns, files, Put(b, at, c))
  {
    hide HeaderOf, EntryOf, DataAt, PathAt, Stands, ZeroRange;
    PartsBase(files);
    StandsElsewhere(b, at, c, 0, HeaderOf(ns, files));
    forall j | 0 <= j < |files|
      ensures Stands(Put(b, at, c), EntryAt(j), EntryOf(files, j)) && Stands(Put(b, at, c), PathAt(files, j), files[j].path)
    {
      PartsInside(files, j);
      StandsElsewhere(b, at, c, EntryAt(j), EntryOf(files, j));
      StandsElsewhere(b, at, c, PathAt(files, j), files[j].path);
    }
    ZeroElsewhere(b, at, c, PathAt(files, |files|), DataAt(files, 0));
  }

  lemma LaidStep(ns: nat, files: seq<File>, b: seq<byte>, i: nat)
    requires i < |files| && |b| == Total(files) && LaidWell(ns, files, b, i)
    ensures DataAt(files, i) + |files[i].data| <= |b|
    ensures LaidWell(ns, files, Put(b, DataAt(files, i), files[i].data), i + 1)
  {
    hide PrefixWell, DataAt, PathAt, Stands, ZeroRange, Total;
    PartsInside(files, i);
    var at, c := DataAt(files, i), files[i].data;
    PrefixElsewhere(ns, files, b, at, c);
    forall j | 0 <= j < i
      ensures Stands(Put(b, at, c), DataAt(files, j), files[j].data)
      ensures ZeroRange(Put(b, at, c), DataAt(files, j) + |files[j].data|, DataAt(files, j + 1))
    {
      LaidBefore(files, b, i, j);
    }
    LaidHere(files, b, i);
  }

  /** Files laid earlier stay. */
  lemma LaidBefore(files: seq<File>, b: seq<byte>, i: nat, j: nat)
    requires j < i < |files| && |b| == Total(files)
    requires Stands(b, DataAt(files, j), files[j].data)
    requires ZeroRange(b, DataAt(files, j) + |files[j].data|, DataAt(files, j + 1))
    ensures DataAt(files, i) + |files[i].data| <= |b|
    ensures Stands(Put(b, DataAt(files, i), files[i].data), DataAt(files, j), files[j].data)
    ensures ZeroRange(Put(b, DataAt(files, i), files[i].data), DataAt(files, j) + |files[j].data|, DataAt(files, j + 1))
  {
    hide DataAt, PathAt, Stands, ZeroRange, Total;
    PartsInside(files, i);
    var at, c := DataAt(files, i), files[i].data;
    DataOrdered(files, j + 1, i);
    PartsInside(files, j);
    StandsElsewhere(b, at, c, DataAt(files, j), files[j].data);
    ZeroElsewhere(b, at, c, DataAt(files, j) + |files[j].data|, DataAt(files, j + 1));
  }

  /** The file laid now stands, with zeros up to the next and from there on. */
  lemma LaidHere(files: seq<File>, b: seq<byte>, i: nat)
    requires i < |files| && |b| == Total(files) && ZeroRange(b, DataAt(files, i), Total(files))
    ensures DataAt(files, i) + |files[i].data| <= |b|
    ensures Stands(Put(b, DataAt(files, i), files[i].data), DataAt(files, i), files[i].data)
    ensures ZeroRange(Put(b, DataAt(files, i), files[i].data), DataAt(files, i) + |files[i].data|, DataAt(files, i + 1))
    ensures ZeroRange(Put(b, DataAt(files, i), files[i].data), DataAt(files, i + 1), Total(files))
  {
    hide DataAt, PathAt, Stands, ZeroRange, Total;
    PartsInside(files, i);
    var at, c := DataAt(files, i), files[i].data;
    StandsThere(b, at, c);
    ZeroPart(b, at, Total(files), at + |c|, DataAt(files, i + 1));
    ZeroElsewhere(b, at, c, at + |c|, DataAt(files, i + 1));
    ZeroPart(b, at, Total(files), DataAt(files, i + 1), Total(files));
    ZeroElsewhere(b, at, c, DataAt(files, i + 1), Total(files));
  }

  lemma LaidNext(base: seq<byte>, files: seq<File>, i: nat)
    requires i < |files| && |base| == Total(files)
    ensures DataAt(files, i) + |files[i].data| <= |base|
    ensures Laid(base, files, i + 1) == Put(Laid(base, files, i), DataAt(files, i), files[i].data)
  {
    hide Put, DataAt;
    PartsInside(files, i);
  }

  lemma {:induction false} LaidHolds(ns: nat, files: seq<File>, i: nat)
    requires i <= |files|
    ensures LaidWell(ns, files, Laid(Base(ns, files), files, i), i)
  {
    hide LaidWell, DataAt, PathAt, Put, Base;
    if i == 0 {
      LaidStart(ns, files);
    } else {
      LaidHolds(ns, files, i - 1);
      LaidNext(Base(ns, files), files, i - 1);
      LaidStep(ns, files, Laid(Base(ns, files), files, i - 1), i - 1);
    }
  }

  /** The flat image is the bundle of the files. */
  lemma FlatIsImage(ns: nat, files: seq<File>)
    ensures IsImage(ns, files, Flat(ns, files))
  {
    hide Laid, DataAt, PathAt, Stands, ZeroRange, Base;
    LaidHolds(ns, files, |files|);
  }

  /** Any image of the files is the flat one. */
  lemma ImageIsFlat(ns: nat, files: seq<File>, img: seq<byte>)
    requires IsImage(ns, files, img)
    ensures img == Flat(ns, files)
  {
    hide IsImage, Flat;
    FlatIsImage(ns, files);
    ImageUnique(ns, files, img, Flat(ns, files));
  }

  // ---------- the lazy reader ----------

  /** A file with the place the builder gave it. */
  datatype Part = Part(file: File, at: nat)

  /** A built bundle: the prefix in memory, the files on disk. */
  datatype Source = Source(prefix: seq<byte>, size: nat, parts: seq<Part>)

  function FilesIn(parts: seq<Part>): (files: seq<File>)
    ensures |files| == |parts| && forall i :: 0 <= i < |parts| ==> files[i] == parts[i].file
  {
    seq(|parts|, i requires 0 <= i < |parts| => parts[i].file)
  }

  /** What the builder promises of its source. */
  predicate Represents(ns: nat, src: Source) {
    var files := FilesIn(src.parts);
    && src.prefix == Prefix(ns, files) && src.size == Total(files)
    && forall i :: 0 <= i < |files| ==> src.parts[i].at == DataAt(files, i)
  }

  /** A window of an image in which b has been stored at offset at: the overlap changes. */
  lemma WindowOfPut(s: seq<byte>, at: nat, b: seq<byte>, lo: nat, hi: nat)
    requires at + |b| <= |s| && lo <= hi <= |s| && Greatest(lo, at) < Least(hi, at + |b|)
    ensures var start, end := Greatest(lo, at), Least(hi, at + |b|);
      Put(s, at, b)[lo..hi] == Put(s[lo..hi], start - lo, b[start - at..end - at])
  {
    var start, end := Greatest(lo, at), Least(hi, at + |b|);
    var w := b[start - at..end - at];
    var x, y := Put(s, at, b)[lo..hi], Put(s[lo..hi], start - lo, w);
    forall p | 0 <= p < hi - lo ensures x[p] == y[p] {
      if start <= lo + p < end {
        assert w[lo + p - start] == b[lo + p - at];
      }
    }
  }

  lemma WindowApart(s: seq<byte>, at: nat, b: seq<byte>, lo: nat, hi: nat)
    requires at + |b| <= |s| && lo <= hi <= |s| && Greatest(lo, at) >= Least(hi, at + |b|)
    ensures Put(s, at, b)[lo..hi] == s[lo..hi]
  {
  }

  /** The prefix part of a window, over zeros. */
  lemma WindowOfBase(prefix: seq<byte>, size: nat, lo: nat, hi: nat)
    requires |prefix| <= size && lo <= hi <= size
    ensures var base := prefix + Zeros(size - |prefix|);
      var end := if hi < |prefix| then hi else |prefix|;
      base[lo..hi] == if lo < |prefix| then Put(Zeros(hi - lo), 0, prefix[lo..end]) else Zeros(hi - lo)
  {
  }

  /** Copies the part of one file that falls into the window. */
  method ReadPart(output: array<byte>, part: Part, lo: nat, hi: nat, ghost s: seq<byte>)
    requires lo <= hi <= |s| && output.Length == hi - lo && part.at + |part.file.data| <= |s|
    requires output[..] == s[lo..hi]
    modifies output
    ensures output[..] == Put(s, part.at, part.file.data)[lo..hi]
  {
    var b, at := part.file.data, part.at;
    if hi <= at || lo >= at + |b| {
      WindowApart(s, at, b, lo, hi);
      return;
    }
    var start, end := Greatest(lo, at), Least(hi, at + |b|);
    if start < end {
      WindowOfPut(s, at, b, lo, hi);
      Copy(output, start - lo, b[start - at..end - at]);
    } else {
      WindowApart(s, at, b, lo, hi);
    }
  }

  /** The part of the window the prefix covers; the rest stays zero. */
  method ReadPrefix(prefix: seq<byte>, lo: nat, hi: nat, ghost size: nat) returns (output: array<byte>)
    requires |prefix| <= size && lo <= hi <= size
    ensures fresh(output) && output[..] == (prefix + Zeros(size - |prefix|))[lo..hi]
  {
    WindowOfBase(prefix, size, lo, hi);
    output := new byte[hi - lo](_ => 0);
    assert output[..] == Zeros(hi - lo);
    if lo < |prefix| {
      Copy(output, 0, prefix[lo..Least(hi, |prefix|)]);
    }
  }

  /** How many bytes a read at offset delivers. */
  function Available(src: Source, offset: nat, size: nat): nat
    requires offset <= src.size
  {
    if src.size - offset > size then size else src.size - offset
  }

  /** Random access to the image without ever building it: the requested slice, shortened at the
      end of the bundle; None if the offset is beyond it. */
  method SourceReadAt(ghost ns: nat, src: Source, offset: nat, size: nat) returns (output: Option<array<byte>>)
    requires Represents(ns, src)
    ensures output.None? <==> offset > src.size
    ensures output.Some? ==> fresh(output.value)
    ensures output.Some? ==>
              output.value[..] == Flat(ns, FilesIn(src.parts))[offset..offset + Available(src, offset, size)]
  {
    hide Prefix, Total, DataAt, Put, Laid;
    ghost var files := FilesIn(src.parts);
    if offset > src.size {
      return None;
    }
    var end := offset + Available(src, offset, size);
    PartsBase(files);
    var buffer := ReadPrefix(src.prefix, offset, end, Total(files));
    ghost var base := Base(ns, files);
    LaidNone(base, files);
    for index := 0 to |src.parts|
      invariant buffer[..] == Laid(base, files, index)[offset..end]
    {
      LaidNext(base, files, index);
      ReadPart(buffer, src.parts[index], offset, end, Laid(base, files, index));
    }
    output := Some(buffer);
  }

  lemma LaidNone(base: seq<byte>, files: seq<File>)
    requires |base| == Total(files)
    ensures Laid(base, files, 0) == base
  {
  }
}
