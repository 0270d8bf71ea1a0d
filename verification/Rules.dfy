/** The rules callers and files must meet, each in plain numbers: which calls are refused before a region
    is looked at, what a writer may be asked for, and what a reader may rely on once a file is open. */
module Rules {
  import opened Bytes
  import opened Paths
  import opened Sorting
  import opened Entries
  import Bundle
  import BundleReader
  import Commits
  import Crc
  import Directory
  import Footer
  import Formats
  import Objects
  import Png
  import Protocol
  import RegionHeader
  import Ridx
  import RidxReader
  import Store
  import Writer

  // ---------- calls to the mutable region ----------

  /** A write call is refused for its arguments first, then for want of a region, then for its header;
      only then is its plan made. */
  lemma WriteRefusals(img: seq<byte>, base: nat, size: nat, q: Commits.Request, chunk: nat)
    requires Store.Placed(base, size, |img|)
    ensures var plan := Protocol.Decide(img, base, size, q, chunk);
      if !Formats.KeyTable(q.ns, q.key) || chunk < 1024 then plan == Commits.Reject(Commits.InvalidArgument)
      else if size == 0 then plan == Commits.Reject(Commits.MutableAbsent)
      else if !Formats.RegionTable(size, img[base..base + 4096]) then plan == Commits.Reject(Commits.MutableHeader)
      else var r := Region(base, size, FromLe(img[base + 0x0c..base + 0x10]));
        Objects.Holds(r, img) && plan == Commits.PlanWrite(r, Objects.Slots(r, img), q)
  {
    hide IsPath, Commits.PlanWrite, Formats.RegionTable, RegionHeader.Open, FromLe, Objects.Slots, Objects.Holds;
    if size != 0 {
      HeaderDecides(img, base, size);
    }
  }

  lemma HeaderDecides(img: seq<byte>, base: nat, size: nat)
    requires Store.Placed(base, size, |img|) && size != 0
    ensures Store.RegionOf(img, base, size).Some? <==> Formats.RegionTable(size, img[base..base + 4096])
    ensures Store.RegionOf(img, base, size).Some? ==>
      && Store.RegionOf(img, base, size).value == Region(base, size, FromLe(img[base + 0x0c..base + 0x10]))
      && Objects.Holds(Store.RegionOf(img, base, size).value, img)
  {
    hide Formats.RegionTable, RegionHeader.Open, FromLe, Objects.Holds;
    Formats.RegionAccepted(img[base..base + 4096], base, size);
    SubSlice(img, base, 0x0c, 0x10, base + 4096);
    if Store.RegionOf(img, base, size).Some? {
      Store.RegionHolds(img, base, size);
    }
  }

  /** A delete call is refused in the same order, and finally if nobody sees the name. */
  lemma DeleteRefusals(img: seq<byte>, base: nat, size: nat, ns: nat, key: seq<byte>)
    requires Store.Placed(base, size, |img|)
    ensures var plan := Protocol.DecideDelete(img, base, size, ns, key);
      if !Formats.KeyTable(ns, key) then plan == Commits.Reject(Commits.InvalidArgument)
      else if size == 0 then plan == Commits.Reject(Commits.MutableAbsent)
      else if !Formats.RegionTable(size, img[base..base + 4096]) then plan == Commits.Reject(Commits.MutableHeader)
      else var r := Region(base, size, FromLe(img[base + 0x0c..base + 0x10]));
        && Objects.Holds(r, img)
        && (Objects.Name(ns, Fold(key)) !in Objects.ViewOf(r, img) ==> plan == Commits.Reject(Commits.MutableEntry))
        && (Objects.Name(ns, Fold(key)) in Objects.ViewOf(r, img) ==>
              && plan.Commit? && plan.k < r.slots && Objects.Visible(Objects.Slots(r, img), plan.k)
              && Objects.NameOf(Objects.Slots(r, img)[plan.k].e) == Objects.Name(ns, Fold(key)))
  {
    hide IsPath, Formats.RegionTable, RegionHeader.Open, FromLe, Objects.Holds, Fold, Directory.Usable;
    if size != 0 {
      HeaderDecides(img, base, size);
    }
  }

  // ---------- what a container writer may be asked for ----------

  /** The settings of the writer: two types that are neither absent nor reserved, pieces of 1024 bytes at
      least, and a region, if any, exactly of a shape its reader opens; absent numbers become 8 slots and
      pieces of 65536 bytes. */
  lemma SettingsExactly(o: Writer.Options)
    ensures var s := Writer.Effective(o); Writer.SettingsOk(s) <==>
      && o.platform !in {0, 0xffff} && o.launch !in {0, 0xffff} && s.chunk >= 1024
      && (o.capacity != 0 ==>
            && s.slots >= 8 && s.slots % 8 == 0 && o.capacity % 4096 == 0 && 4096 + 512 * s.slots < o.capacity)
    ensures Writer.Effective(o).slots == (if o.slots == 0 then 8 else o.slots)
    ensures Writer.Effective(o).chunk == (if o.chunk == 0 then 65536 else o.chunk)
  {
  }

  lemma SettingsReopen(s: Writer.Options)
    requires Writer.OptionsTyped(s) && s.capacity % 4096 == 0 && s.capacity != 0
    requires s.platform !in {0, 0xffff} && s.launch !in {0, 0xffff} && s.chunk >= 1024
    ensures Writer.SettingsOk(s) <==>
      4096 + 512 * s.slots < s.capacity && RegionHeader.Plausible(RegionHeader.Describe(s.slots, s.capacity), s.capacity)
  {
  }

  /** One file to be packed: two flags, a name of at most 480 bytes, any type but the reserved one. */
  lemma SourceRules(s: Writer.Source)
    ensures Writer.SourceOk(s) <==> s.flags in {0, 1, 2, 3} && |s.path| <= 480 && IsPath(s.path) && s.format != 0xffff
    ensures s.flags < 4 ==> (s.IsEntrypoint() <==> s.flags in {1, 3}) && (s.HasCrc() <==> s.flags in {2, 3})
  {
    hide IsPath;
  }

  // ---------- what the reader of a container may rely on ----------

  /** The files of any container that opens. */
  lemma OpenedFiles(img: seq<byte>)
    requires RidxReader.Opens(img)
    ensures var info := RidxReader.InfoOf(img); var es := Ridx.StoredEntries(img, info.payload);
      && |es| > 0
      && (|es| == 1 ==> es[0].offset == 0 && es[0].size == info.payload)
      && (forall i :: 0 <= i < |es| ==>
            && es[i].flags < 4 && 0 < |es[i].path| <= 480 && IsPath(es[i].path) && es[i].format != 0xffff
            && es[i].offset + es[i].size <= info.payload && (es[i].flags < 2 ==> es[i].crc == 0))
      && (forall i, j :: 0 <= i < j < |es| ==> Fold(es[i].path) != Fold(es[j].path))
  {
    hide IsPath, Fold, Ridx.HeaderAccepts, Ridx.LayoutOk, Ridx.GapsZero, Ridx.Entrypoints, AllZero, Field, Footer.Accepts, Slice,
      RidxReader.InfoOf;
    var info := RidxReader.InfoOf(img);
    var es := Ridx.StoredEntries(img, info.payload);
    RidxReader.InfoAnnounced(img);
    SomeFile(img, info);
    forall i | 0 <= i < |es|
      ensures es[i].flags < 4 && 0 < |es[i].path| <= 480 && IsPath(es[i].path) && es[i].format != 0xffff
      ensures es[i].offset + es[i].size <= info.payload && (es[i].flags < 2 ==> es[i].crc == 0)
    {
      assert Ridx.StoredPlausible(img, info.payload, i) && Ridx.EntryOk(es[i], info.payload);
      PathStored(img, info.payload, i);
    }
    var paths := Ridx.PathsOf(es);
    forall i, j | 0 <= i < j < |es| ensures Fold(es[i].path) != Fold(es[j].path) {
      assert Fold(paths[i]) != Fold(paths[j]);
    }
  }

  lemma SomeFile(img: seq<byte>, info: Footer.Info)
    requires Ridx.HeaderAccepts(img, info)
    ensures Ridx.Count(img, info.payload) > 0 && info.payload < |img|
    ensures info.payload + Ridx.IndexSize(img, info.payload) <= |img|
  {
    hide Field, AllZero, Slice;
  }

  lemma PathStored(img: seq<byte>, at: nat, i: nat)
    requires Ridx.StoredPlausible(img, at, i) && Ridx.EntryAt(at, i) + 512 <= |img|
    ensures |Ridx.StoredEntry(img, at, i).path| == Field(img, Ridx.EntryAt(at, i) + 0x06, 2) <= 480
    ensures |Ridx.StoredEntry(img, at, i).path| > 0
  {
    hide Field, AllZero;
  }

  // ---------- what the reader of a bundle may rely on ----------

  /** The names an open bundle lists: each a name no longer than allowed, in strictly ascending order,
      no two alike but for the case of letters. */
  lemma ListedNames(img: seq<byte>, ns: nat, lim: BundleReader.Limits)
    requires BundleReader.Accepts(img, ns, lim)
    ensures var infos := BundleReader.Listing(img);
      && |infos| <= lim.maxEntries
      && (forall i :: 0 <= i < |infos| ==> IsPath(infos[i].path) && |infos[i].path| <= lim.maxPath)
      && (forall i, j :: 0 <= i < j < |infos| ==> Before(infos[i].path, infos[j].path))
      && (forall i, j :: 0 <= i < j < |infos| ==> Fold(infos[i].path) != Fold(infos[j].path))
  {
    hide IsPath, Fold, Before, BundleReader.HeaderAccepts, BundleReader.EntryPlausible, BundleReader.DataAccepts, BundleReader.CString,
      ZeroRange, Field;
    var infos := BundleReader.Listing(img);
    CountLimited(img, ns, lim);
    var names := BundleReader.Names(BundleReader.Files(img));
    forall i | 0 <= i < |infos| ensures infos[i].path == names[i] && IsPath(names[i]) && |names[i]| <= lim.maxPath
      ensures i > 0 ==> Before(names[i - 1], names[i])
    {
      assert BundleReader.EntryAccepts(img, i, lim);
    }
    forall i, j | 0 <= i < j < |infos| ensures Before(infos[i].path, infos[j].path) {
      BundleReader.Ascending(names, i, j);
    }
  }

  /** The lists of files a bundle may hold: few enough, under names that are valid up to their first zero
      byte, not too long, strictly ascending and different after folding, in an image not too large. */
  lemma ListRules(lim: BundleReader.Limits, files: seq<Bundle.File>)
    ensures BundleReader.Listable(lim, files) <==>
      && |files| <= lim.maxEntries && Bundle.Total(files) <= lim.maxSize && Bundle.Total(files) <= 0x7fff_ffff_ffff_ffff
      && (forall i :: 0 <= i < |files| ==> 0 < |files[i].path| <= lim.maxPath && IsPath(BundleReader.CString(files[i].path)))
      && (forall i :: 0 < i < |files| ==> Before(BundleReader.CString(files[i - 1].path), BundleReader.CString(files[i].path)))
      && (forall i, j :: 0 <= i < j < |files| ==>
            Fold(BundleReader.CString(files[i].path)) != Fold(BundleReader.CString(files[j].path)))
  {
    hide IsPath, Fold, Before, BundleReader.CString, Bundle.Total;
    var names := BundleReader.Names(files);
    assert forall i :: 0 <= i < |files| ==> names[i] == BundleReader.CString(files[i].path);
  }

  /** What an open bundle says about a file is true of the bytes stored there. */
  lemma ListedFiles(img: seq<byte>, ns: nat, lim: BundleReader.Limits, i: nat)
    requires BundleReader.Accepts(img, ns, lim) && i < |BundleReader.Listing(img)|
    ensures var info := BundleReader.Listing(img)[i];
      && info.at + info.size <= |img|
      && img[info.at..info.at + info.size] == BundleReader.Files(img)[i].data
      && info.crc == Crc.Crc32(img[info.at..info.at + info.size])
  {
    hide IsPath, Fold, Before, BundleReader.HeaderAccepts, BundleReader.CString, ZeroRange, Field, Crc.Crc32, FoldDistinct;
    assert BundleReader.EntryAccepts(img, i, lim) && BundleReader.DataAccepts(img, i);
  }

  lemma CountLimited(img: seq<byte>, ns: nat, lim: BundleReader.Limits)
    requires BundleReader.HeaderAccepts(img, ns, lim)
    ensures BundleReader.Count(img) <= lim.maxEntries
  {
    hide Field;
  }

  /** A bundle is opened for two namespaces, with limits a name and a size can be measured against. */
  lemma BundleCall(lim: BundleReader.Limits)
    ensures Bundle.SAVE == 1 && Bundle.CHEAT == 2
    ensures lim.Ok() <==> 0 < lim.maxEntries < 0x1_0000_0000 && 0 < lim.maxPath <= 1024 && lim.maxSize >= 64
  {
  }

  // ---------- covers ----------

  /** Colour types with the depths they come in (table 11.1 of the PNG specification). */
  const COLOURS: set<(int, int)> := {(0, 1), (0, 2), (0, 4), (0, 8), (0, 16), (2, 8), (2, 16), (3, 1), (3, 2), (3, 4), (3, 8),
                                     (4, 8), (4, 16), (6, 8), (6, 16)}

  /** What the header chunk of a cover may say. */
  lemma HeaderRules(d: seq<byte>, limit: nat)
    requires |d| == 13
    ensures Png.IhdrOk(d, limit) <==>
      && 1 <= FromBe(d[..4]) <= limit && 1 <= FromBe(d[4..8]) <= limit
      && (d[9], d[8]) in COLOURS && d[10] == 0 && d[11] == 0 && d[12] in {0, 1}
    ensures Png.IhdrOk(d, limit) ==> Png.Width(d) == FromBe(d[..4]) && Png.Height(d) == FromBe(d[4..8])
  {
    hide FromBe;
    assert d[0..4] == d[..4];
  }

  /** A palette has 1 to 256 colours of three bytes, and no grey image has one. */
  lemma PaletteRules(color: byte, size: nat)
    ensures Png.PaletteOk(color, size) <==> color !in {0, 4} && exists n :: 1 <= n <= 256 && size == 3 * n
  {
    if Png.PaletteOk(color, size) {
      assert size == 3 * (size / 3);
    }
  }

  /** A chunk type is four letters, the third a capital. */
  lemma TypeRules(kind: seq<byte>)
    ensures Png.KindOk(kind) <==>
      && |kind| == 4
      && (forall i :: 0 <= i < 4 ==> 'A' as int <= kind[i] <= 'Z' as int || 'a' as int <= kind[i] <= 'z' as int)
      && 'A' as int <= kind[2] <= 'Z' as int
  {
  }
}
