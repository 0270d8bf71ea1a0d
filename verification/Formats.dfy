/** The stored structures in plain numbers and letters: which bytes the readers accept, field by field at
    literal offsets, whatever the constants of the other modules are called. */
module Formats {
  import opened Bytes
  import opened Paths
  import Bundle
  import BundleReader
  import Crc
  import Entries
  import Footer
  import Png
  import RegionHeader
  import Ridx
  import Utf8

  // ---------- names ----------

  predicate OrdinaryPart(c: seq<byte>) {
    c != [] && c != Letters(".") && c != Letters("..")
  }

  /** A name is valid UTF-8 without zero bytes and backslashes, in parts between slashes none of which
      is empty, one dot, or two dots. */
  lemma NameLetters(s: seq<byte>)
    ensures IsPath(s) <==>
      && (forall i :: 0 <= i < |Components(s)| ==> OrdinaryPart(Components(s)[i]))
      && Utf8.Valid(s) && 0 !in s && '\\' as int !in s
  {
    hide Components, Utf8.Valid;
    assert Letters(".") == [0x2e] && Letters("..") == [0x2e, 0x2e];
    assert forall c :: IsPlainComponent(c) <==> OrdinaryPart(c);
    assert NulFree(s) <==> 0 !in s;
    assert AllPlain(Components(s)) <==> forall i :: 0 <= i < |Components(s)| ==> OrdinaryPart(Components(s)[i]);
  }

  /** Parts with a slash between any two. */
  function Joined(parts: seq<seq<byte>>): seq<byte> {
    if |parts| == 0 then [] else if |parts| == 1 then parts[0] else parts[0] + ['/' as int] + Joined(parts[1..])
  }

  /** The components of a name are what stands between its slashes. */
  lemma {:induction false} ComponentsAre(s: seq<byte>)
    ensures Components(s) != [] && Joined(Components(s)) == s
    ensures forall i :: 0 <= i < |Components(s)| ==> '/' as int !in Components(s)[i]
    decreases |s|
  {
    var k := FirstSlash(s);
    if k == |s| {
      assert Components(s) == [s];
    } else {
      var rest := Components(s[k + 1..]);
      ComponentsAre(s[k + 1..]);
      var all := Components(s);
      assert all == [s[..k]] + rest && all[1..] == rest;
      assert s == s[..k] + [s[k]] + s[k + 1..];
      forall i | 0 <= i < |all| ensures '/' as int !in all[i] {
        if i > 0 {
          assert all[i] == rest[i - 1];
        }
      }
    }
  }

  // ---------- directory entries ----------

  /** A key of a namespace: at most 448 bytes, and a slash in the fourth namespace. */
  predicate KeyTable(ns: nat, key: seq<byte>) {
    1 <= ns <= 4 && 0 < |key| <= 448 && IsPath(key) && (ns == 4 ==> '/' as int in key)
  }

  predicate EntryTable(base: nat, size: nat, slots: nat, b: seq<byte>)
    requires |b| == 512
  {
    var keySize, offset, capacity, bytes := FromLe(b[0x0c..0x10]), FromLe(b[0x10..0x18]), FromLe(b[0x18..0x20]), FromLe(b[0x20..0x28]);
    && b[0..4] == Letters("MENT")
    && 1 <= FromLe(b[0x04..0x06]) <= 3 && FromLe(b[0x08..0x0c]) == 0
    && keySize <= 448 && KeyTable(FromLe(b[0x06..0x08]), b[0x40..0x40 + keySize])
    && offset >= 4096 + 512 * slots && offset % 64 == 0 && capacity != 0 && offset + capacity <= size
    && bytes <= capacity && (bytes == 0 ==> FromLe(b[0x38..0x3c]) == 0) && FromLe(b[0x28..0x30]) > 0
    && FromLe(b[0x3c..0x40]) == Crc.Crc32(b[..0x3c] + [0, 0, 0, 0] + b[0x40..])
    && forall i :: 0x40 + keySize <= i < 512 ==> b[i] == 0
  }

  lemma EntryAccepted(r: Entries.Region, b: seq<byte>)
    requires r.Valid() && |b| == 512
    ensures Entries.Accepts(r, b) <==> EntryTable(r.base, r.size, r.slots, b)
  {
    hide FromLe, Crc.Crc32, IsPath, AllZero, Put;
    FourLetters("MENT", [0x4d, 0x45, 0x4e, 0x54]);
    FromLeFits(b[0x28..0x30]);
    FromLeFits(b[0x30..0x38]);
    FromLeFits(b[0x38..0x3c]);
    Cleared(b, 0x3c);
    var keySize := FromLe(b[0x0c..0x10]);
    if keySize <= 448 {
      MiddleZero(b, 0x40 + keySize, 512);
    }
  }

  lemma FourLetters(s: string, b: seq<byte>)
    requires |s| == |b| == 4
    requires s[0] as int == b[0] && s[1] as int == b[1] && s[2] as int == b[2] && s[3] as int == b[3]
    ensures Letters(s) == b
  {
  }

  lemma Cleared(b: seq<byte>, at: nat)
    requires at + 4 <= |b|
    ensures Put(b, at, Zeros(4)) == b[..at] + [0, 0, 0, 0] + b[at + 4..]
  {
  }

  lemma RestZero(b: seq<byte>, from: nat)
    requires from <= |b|
    ensures AllZero(b[from..]) <==> forall i :: from <= i < |b| ==> b[i] == 0
  {
    if AllZero(b[from..]) {
      forall i | from <= i < |b| ensures b[i] == 0 {
        assert b[from..][i - from] == 0;
      }
    }
  }

  // ---------- the header of the mutable region ----------

  predicate RegionTable(size: nat, b: seq<byte>)
    requires |b| == 4096
  {
    var slots := FromLe(b[0x0c..0x10]);
    && b[0..4] == Letters("RMUT")
    && FromLe(b[0x04..0x06]) == 1 && FromLe(b[0x06..0x08]) == 4096 && FromLe(b[0x08..0x0c]) == 512
    && slots >= 8 && slots % 8 == 0
    && FromLe(b[0x10..0x18]) == 4096 && FromLe(b[0x18..0x20]) == 512 * slots
    && FromLe(b[0x20..0x28]) == 4096 + 512 * slots && FromLe(b[0x20..0x28]) % 4096 == 0
    && FromLe(b[0x20..0x28]) + FromLe(b[0x28..0x30]) == size && FromLe(b[0x28..0x30]) > 0
    && FromLe(b[0x30..0x34]) == 0
    && FromLe(b[0x34..0x38]) == Crc.Crc32(b[..0x34] + [0, 0, 0, 0] + b[0x38..])
    && forall i :: 0x38 <= i < 4096 ==> b[i] == 0
  }

  lemma RegionAccepted(b: seq<byte>, base: nat, size: nat)
    requires |b| == 4096
    ensures RegionHeader.Open(b, base, size).Some? <==> RegionTable(size, b)
    ensures RegionHeader.Open(b, base, size).Some? ==>
      RegionHeader.Open(b, base, size).value == Entries.Region(base, size, FromLe(b[0x0c..0x10]))
  {
    hide FromLe, Crc.Crc32;
    FourLetters("RMUT", [0x52, 0x4d, 0x55, 0x54]);
    Cleared(b, 0x34);
    RestZero(b, 0x38);
  }

  // ---------- the footer ----------

  predicate FooterTable(b: seq<byte>, fileSize: nat)
    requires |b| == 128
  {
    var payload, capacity, algorithm := FromLe(b[0x08..0x10]), FromLe(b[0x20..0x28]), FromLe(b[0x2c..0x30]);
    && b[0..4] == Letters("ROMX") && FromLe(b[0x04..0x08]) == 2
    && payload != 0 && (capacity == 0 || (capacity >= 12288 && capacity % 4096 == 0))
    && payload + 64 + capacity + 128 <= fileSize
    && FromLe(b[0x28..0x2a]) != 0xffff && FromLe(b[0x2a..0x2c]) != 0xffff
    && (algorithm == 1 || (algorithm == 0 && forall i :: 0x30 <= i < 0x50 ==> b[i] == 0))
    && FromLe(b[0x50..0x54]) == Crc.Crc32(b[..0x50] + [0, 0, 0, 0] + b[0x54..])
    && forall i :: 0x54 <= i < 128 ==> b[i] == 0
  }

  lemma FooterAccepted(b: seq<byte>, fileSize: nat)
    requires |b| == 128
    ensures Footer.Accepts(b, fileSize) <==> FooterTable(b, fileSize)
    ensures Footer.Accepts(b, fileSize) ==> var info := Footer.InfoOf(Footer.Decode(b), fileSize);
      && info.payload == FromLe(b[0x08..0x10]) && info.metadata == FromLe(b[0x10..0x18]) && info.cover == FromLe(b[0x18..0x20])
      && info.region == FromLe(b[0x20..0x28]) && info.platform == FromLe(b[0x28..0x2a]) && info.launch == FromLe(b[0x2a..0x2c])
      && info.algorithm == FromLe(b[0x2c..0x30]) && info.hash == b[0x30..0x50]
      && info.footerOffset == fileSize - 128 && info.immutable == fileSize - 128 - info.region
      && info.regionOffset == (if info.region == 0 then 0 else fileSize - 128 - info.region)
  {
    hide FromLe, Crc.Crc32;
    FourLetters("ROMX", [0x52, 0x4f, 0x4d, 0x58]);
    Cleared(b, 0x50);
    RestZero(b, 0x54);
    MiddleZero(b, 0x30, 0x50);
  }

  lemma MiddleZero(b: seq<byte>, lo: nat, hi: nat)
    requires lo <= hi <= |b|
    ensures AllZero(b[lo..hi]) <==> forall i :: lo <= i < hi ==> b[i] == 0
  {
    if AllZero(b[lo..hi]) {
      forall i | lo <= i < hi ensures b[i] == 0 {
        assert b[lo..hi][i - lo] == 0;
      }
    }
  }

  // ---------- the index ----------

  /** The header of the index at offset `at`, with room for its entries before `end`. */
  predicate IndexTable(img: seq<byte>, at: nat, end: nat) {
    at + 64 <= end <= |img| &&
    var count := FromLe(img[at + 0x08..at + 0x0c]);
    && img[at..at + 4] == Letters("RIDX") && FromLe(img[at + 0x04..at + 0x06]) == 1 && FromLe(img[at + 0x06..at + 0x08]) == 64
    && FromLe(img[at + 0x0c..at + 0x10]) == 512 && FromLe(img[at + 0x10..at + 0x14]) == 0
    && count > 0 && at + 64 + 512 * count <= end
    && FromLe(img[at + 0x14..at + 0x18])
       == Crc.Crc32(img[at..at + 0x14] + [0, 0, 0, 0] + img[at + 0x18..at + 64 + 512 * count])
    && forall i :: at + 0x18 <= i < at + 64 ==> img[i] == 0
  }

  lemma IndexAccepted(img: seq<byte>, info: Footer.Info)
    ensures Ridx.HeaderAccepts(img, info) <==> IndexTable(img, info.payload, info.immutable) && info.immutable <= |img|
    ensures Ridx.HeaderAccepts(img, info) ==>
      Ridx.IndexSize(img, info.payload) == 64 + 512 * FromLe(img[info.payload + 0x08..info.payload + 0x0c])
  {
    hide FromLe, Crc.Crc32, AllZero;
    var at := info.payload;
    FourLetters("RIDX", [0x52, 0x49, 0x44, 0x58]);
    if at + 64 <= info.immutable <= |img| {
      MiddleZero(img, at + 0x18, at + 64);
      var size := Ridx.IndexSize(img, at);
      if at + size <= info.immutable {
        ClearedInside(img, at, at + size, 0x14);
      }
    }
  }

  lemma ClearedInside(img: seq<byte>, lo: nat, hi: nat, at: nat)
    requires lo + at + 4 <= hi <= |img|
    ensures Put(img[lo..hi], at, Zeros(4)) == img[lo..lo + at] + [0, 0, 0, 0] + img[lo + at + 4..hi]
  {
  }

  /** Entry i of the index at offset `at`. */
  predicate IndexEntryTable(img: seq<byte>, at: nat, i: nat)
    requires at + 64 + 512 * i + 512 <= |img|
  {
    var base := at + 64 + 512 * i;
    var pathSize := FromLe(img[base + 0x06..base + 0x08]);
    && FromLe(img[base..base + 4]) < 4 && FromLe(img[base + 0x1c..base + 0x20]) == 0
    && 0 < pathSize <= 480
    && forall j :: base + 0x20 + pathSize <= j < base + 512 ==> img[j] == 0
  }

  lemma IndexEntryAccepted(img: seq<byte>, at: nat, i: nat)
    requires at + 64 + 512 * i + 512 <= |img|
    ensures Ridx.StoredPlausible(img, at, i) <==> IndexEntryTable(img, at, i)
    ensures var base := at + 64 + 512 * i; var e := Ridx.StoredEntry(img, at, i);
      && e.flags == FromLe(img[base..base + 0x04]) && e.format == FromLe(img[base + 0x04..base + 0x06])
      && e.offset == FromLe(img[base + 0x08..base + 0x10]) && e.size == FromLe(img[base + 0x10..base + 0x18])
      && e.crc == FromLe(img[base + 0x18..base + 0x1c])
      && (Ridx.StoredPlausible(img, at, i) ==> e.path == img[base + 0x20..base + 0x20 + FromLe(img[base + 0x06..base + 0x08])])
  {
    hide FromLe, AllZero, Field, Slice;
    var base := at + 64 + 512 * i;
    EntryFields(img, base);
    var pathSize := Field(img, base + 0x06, 2);
    if pathSize <= 480 {
      MiddleZero(img, base + 0x20 + pathSize, base + 512);
      SliceInside(img, base + 0x20, pathSize);
      SliceInside(img, base + 0x20 + pathSize, 480 - pathSize);
    }
  }

  lemma EntryFields(img: seq<byte>, base: nat)
    requires base + 512 <= |img|
    ensures Field(img, base, 4) == FromLe(img[base..base + 0x04])
    ensures Field(img, base + 0x04, 2) == FromLe(img[base + 0x04..base + 0x06])
    ensures Field(img, base + 0x06, 2) == FromLe(img[base + 0x06..base + 0x08])
    ensures Field(img, base + 0x08, 8) == FromLe(img[base + 0x08..base + 0x10])
    ensures Field(img, base + 0x10, 8) == FromLe(img[base + 0x10..base + 0x18])
    ensures Field(img, base + 0x18, 4) == FromLe(img[base + 0x18..base + 0x1c])
    ensures Field(img, base + 0x1c, 4) == FromLe(img[base + 0x1c..base + 0x20])
  {
    hide FromLe;
  }

  lemma SliceInside(img: seq<byte>, at: nat, size: nat)
    requires at + size <= |img|
    ensures Slice(img, at, size) == img[at..at + size]
  {
  }

  /** The rules for one file: bit 0 of the flags marks the entrypoint, bit 1 a checksum. */
  lemma FileRules(e: Ridx.Entry, payload: nat)
    ensures Ridx.EntryOk(e, payload) <==>
      && IsPath(e.path) && e.offset + e.size <= payload && e.format != 0xffff
      && (e.flags / 2 % 2 == 0 ==> e.crc == 0)
      && (e.flags % 2 == 1 ==> e.offset == 0 && e.size > 0 && e.format > 0)
  {
    hide IsPath;
  }

  // ---------- bundles ----------

  predicate BundleTable(img: seq<byte>, ns: nat, lim: BundleReader.Limits) {
    64 <= |img| <= 0x7fff_ffff_ffff_ffff && |img| <= lim.maxSize &&
    var count, data := FromLe(img[0x10..0x14]), FromLe(img[0x28..0x30]);
    && img[0..4] == Letters("RMBL")
    && FromLe(img[0x04..0x06]) == 1 && FromLe(img[0x06..0x08]) == 64 && FromLe(img[0x08..0x0a]) == ns
    && FromLe(img[0x0a..0x0c]) == 0 && FromLe(img[0x0c..0x10]) == 64
    && count <= lim.maxEntries && FromLe(img[0x14..0x18]) == 0 && FromLe(img[0x18..0x20]) == 64
    && FromLe(img[0x20..0x28]) == 64 + 64 * count
    && 64 + 64 * count <= data <= |img| && data % 64 == 0
    && FromLe(img[0x30..0x38]) == |img|
    && FromLe(img[0x38..0x3c]) == Crc.Crc32(img[..0x38] + [0, 0, 0, 0] + img[0x3c..0x40])
    && img[0x3c] == img[0x3d] == img[0x3e] == img[0x3f] == 0
  }

  lemma BundleAccepted(img: seq<byte>, ns: nat, lim: BundleReader.Limits)
    ensures BundleReader.HeaderAccepts(img, ns, lim) <==> BundleTable(img, ns, lim)
  {
    hide FromLe, Crc.Crc32, AllZero;
    FourLetters("RMBL", [0x52, 0x4d, 0x42, 0x4c]);
    if |img| >= 64 {
      ClearedInside(img, 0, 64, 0x38);
      assert img[0..64] == img[..64] && img[0..0x38] == img[..0x38];
      MiddleZero(img, 60, 64);
    }
  }

  /** The entry of file i of a bundle. */
  lemma BundleEntry(files: seq<Bundle.File>, img: seq<byte>, ns: nat, i: nat)
    requires Bundle.IsImage(ns, files, img) && i < |files| && |img| < U64 && |files[i].path| < U32
    ensures var base, p, d := 64 + 64 * i, Bundle.PathAt(files, i), Bundle.DataAt(files, i);
      && base + 64 <= |img|
      && FromLe(img[base..base + 0x08]) == p && FromLe(img[base + 0x08..base + 0x0c]) == |files[i].path|
      && FromLe(img[base + 0x10..base + 0x18]) == d && FromLe(img[base + 0x18..base + 0x20]) == |files[i].data|
      && FromLe(img[base + 0x20..base + 0x24]) == Crc.Crc32(files[i].data)
      && p + |files[i].path| <= |img| && img[p..p + |files[i].path|] == files[i].path
      && d % 64 == 0 && d + |files[i].data| <= |img| && img[d..d + |files[i].data|] == files[i].data
  {
    hide FromLe, Le, Crc.Crc32, Bundle.EntryBytes, Bundle.PathAt, Bundle.DataAt, Bundle.HeaderOf, ZeroRange;
    assert Bundle.HoldsFile(files, img, i);
    Bundle.PartsInside(files, i);
    Bundle.DataOrdered(files, i, i);
    var base := 64 + 64 * i;
    var e := img[base..base + 64];
    Bundle.EntryExactly(e, Bundle.PathAt(files, i), |files[i].path|, Bundle.DataAt(files, i), |files[i].data|,
                        Crc.Crc32(files[i].data));
    SubSlice(img, base, 0, 8, base + 64);
    SubSlice(img, base, 8, 12, base + 64);
    SubSlice(img, base, 16, 24, base + 64);
    SubSlice(img, base, 24, 32, base + 64);
    SubSlice(img, base, 32, 36, base + 64);
  }

  // ---------- PNG ----------

  /** The signature, the chunk types by name, and the longest chunk (sections 5.2 and 5.3 of the PNG
      specification). */
  lemma PngLetters()
    ensures Png.SIGNATURE == [0x89] + Letters("PNG") + [0x0d, 0x0a, 0x1a, 0x0a]
    ensures Png.IHDR == Letters("IHDR") && Png.PLTE == Letters("PLTE") && Png.IDAT == Letters("IDAT") && Png.IEND == Letters("IEND")
    ensures Png.MAX_LENGTH == 0x7fff_ffff
  {
  }
}
