/** The container writer: checks its arguments, streams the files with the entrypoint first, and
    appends index, metadata, cover, an empty mutable region and the footer. */
module Writer {
  import opened Bytes
  import opened Paths
  import opened Sorting
  import Crc
  import Footer
  import RegionHeader
  import Ridx
  import Sha256

  /** One file to be packed. */
  datatype Source = Source(flags: nat, format: nat, path: seq<byte>, data: seq<byte>) {
    predicate IsEntrypoint() {
      flags % 2 == 1
    }

    predicate HasCrc() {
      flags / 2 % 2 == 1
    }
  }

  /** What the caller asks for; zero means the default where the source has one. */
  datatype Options = Options(platform: nat, launch: nat, capacity: nat, slots: nat, chunk: nat, sha: bool)

  const DEFAULT_SLOTS: nat := 8
  const DEFAULT_CHUNK: nat := 65536

  /** What the widths of the options guarantee. */
  predicate OptionsTyped(o: Options) {
    o.platform < U16 && o.launch < U16 && o.capacity < U64 && o.slots < U32
  }

  predicate SettingsOk(s: Options) {
    && s.platform != 0 && s.platform != Footer.PROHIBITED && s.launch != 0 && s.launch != Footer.PROHIBITED
    && s.chunk >= 1024
    && (s.capacity != 0 ==>
          && s.slots >= 8 && s.slots % 8 == 0 && s.capacity >= 12288 && s.capacity % 4096 == 0
          && 4096 + 512 * s.slots < s.capacity && (4096 + 512 * s.slots) % 4096 == 0)
  }

  function Effective(o: Options): Options {
    o.(slots := if o.slots == 0 then DEFAULT_SLOTS else o.slots, chunk := if o.chunk == 0 then DEFAULT_CHUNK else o.chunk)
  }

  /** The defaults, then the checks. */
  method LoadSettings(options: Options) returns (settings: Option<Options>)
    ensures settings == if SettingsOk(Effective(options)) then Some(Effective(options)) else None
  {
    var s := options;
    if s.slots == 0 {
      s := s.(slots := DEFAULT_SLOTS);
    }
    if s.chunk == 0 {
      s := s.(chunk := DEFAULT_CHUNK);
    }
    if s.platform == 0 || s.platform == Footer.PROHIBITED || s.launch == 0 || s.launch == Footer.PROHIBITED || s.chunk < 1024 {
      return None;
    }
    if s.capacity != 0 {
      if s.slots < 8 || s.slots % 8 != 0 || s.capacity < 12288 || s.capacity % 4096 != 0 {
        return None;
      }
      var dataOffset := 4096 + s.slots * 512;
      if dataOffset >= s.capacity || dataOffset % 4096 != 0 {
        return None;
      }
    }
    settings := Some(s);
  }

  // ---------- the files ----------

  predicate SourceOk(s: Source) {
    s.flags < 4 && |s.path| <= Ridx.PATH_CAPACITY && IsPath(s.path) && s.format != Footer.PROHIBITED
  }

  function PathsOf(sources: seq<Source>): (paths: seq<seq<byte>>)
    ensures |paths| == |sources| && forall i :: 0 <= i < |sources| ==> paths[i] == sources[i].path
  {
    seq(|sources|, i requires 0 <= i < |sources| => sources[i].path)
  }

  /** e is the one entrypoint among the first n files, and it has a type. */
  predicate EntrypointAmong(sources: seq<Source>, n: nat, e: nat)
    requires n <= |sources|
  {
    && e < n && sources[e].IsEntrypoint() && sources[e].format != 0
    && forall i :: 0 <= i < n && sources[i].IsEntrypoint() ==> i == e
  }

  predicate SourcesOk(sources: seq<Source>, e: nat) {
    && (forall i :: 0 <= i < |sources| ==> SourceOk(sources[i]))
    && FoldDistinct(PathsOf(sources))
    && EntrypointAmong(sources, |sources|, e) && sources[e].data != []
  }

  /** What the caller's types guarantee: paths are C strings, numbers fit their fields. */
  predicate Typed(sources: seq<Source>) {
    |sources| < U32 && forall i :: 0 <= i < |sources| ==>
      NulFree(sources[i].path) && sources[i].format < U16 && |sources[i].data| < U64
  }

  lemma OnePath(sources: seq<Source>, n: nat)
    requires n < |sources|
    ensures FoldDistinct(PathsOf(sources[..n + 1])) <==>
      FoldDistinct(PathsOf(sources[..n])) && forall i :: 0 <= i < n ==> Fold(sources[i].path) != Fold(sources[n].path)
  {
    hide FoldDistinct, Fold;
    assert PathsOf(sources[..n + 1]) == PathsOf(sources[..n]) + [sources[n].path];
    AppendDistinct(PathsOf(sources[..n]), sources[n].path);
  }

  lemma PathsPrefix(sources: seq<Source>, n: nat)
    requires n <= |sources|
    ensures FoldDistinct(PathsOf(sources)) ==> FoldDistinct(PathsOf(sources[..n]))
  {
    var all, some := PathsOf(sources), PathsOf(sources[..n]);
    if FoldDistinct(all) {
      forall i, j | 0 <= i < j < n ensures Fold(some[i]) != Fold(some[j]) {
        assert Fold(all[i]) != Fold(all[j]);
      }
    }
  }

  method CheckPath(path: seq<byte>) returns (ok: bool)
    requires NulFree(path)
    ensures ok == (|path| <= Ridx.PATH_CAPACITY && IsPath(path))
  {
    if |path| > Ridx.PATH_CAPACITY {
      return false;
    }
    var separator: bool;
    ok, separator := PathIsValid(path);
  }

  method Collides(sources: seq<Source>, index: nat) returns (collides: bool)
    requires index < |sources| && Typed(sources)
    ensures collides == exists i :: 0 <= i < index && Fold(sources[i].path) == Fold(sources[index].path)
  {
    for other := 0 to index
      invariant forall i :: 0 <= i < other ==> Fold(sources[i].path) != Fold(sources[index].path)
    {
      collides := AsciiFoldEqual(sources[index].path, sources[other].path);
      if collides {
        return;
      }
    }
    collides := false;
  }

  /** The checks on the files: the entrypoint, or None. */
  method CheckSources(sources: seq<Source>) returns (entrypoint: Option<nat>)
    requires Typed(sources)
    ensures entrypoint.Some? ==> SourcesOk(sources, entrypoint.value)
    ensures entrypoint.None? ==> forall e :: !SourcesOk(sources, e)
  {
    hide IsPath, Fold, FoldDistinct;
    entrypoint := None;
    assert FoldDistinct(PathsOf(sources[..0])) by {
      NothingCollides(sources);
    }
    for index := 0 to |sources|
      invariant forall i :: 0 <= i < index ==> SourceOk(sources[i])
      invariant FoldDistinct(PathsOf(sources[..index]))
      invariant entrypoint.Some? ==> EntrypointAmong(sources, index, entrypoint.value)
      invariant entrypoint.None? ==> forall i :: 0 <= i < index ==> !sources[i].IsEntrypoint()
    {
      var s := sources[index];
      var path := CheckPath(s.path);
      if s.flags >= 4 || !path || s.format == Footer.PROHIBITED {
        return None;
      }
      if s.IsEntrypoint() {
        if entrypoint.Some? || s.format == 0 {
          return None;
        }
        entrypoint := Some(index);
      }
      OnePath(sources, index);
      var collides := Collides(sources, index);
      if collides {
        PathsPrefix(sources, index + 1);
        return None;
      }
    }
    assert sources[..|sources|] == sources;
    if entrypoint.Some? && sources[entrypoint.value].data == [] {
      return None;
    }
  }

  lemma NothingCollides(sources: seq<Source>)
    ensures FoldDistinct(PathsOf(sources[..0]))
  {
  }

  // ---------- the order of the payload ----------

  /** The index of the k-th file written: the entrypoint first, the others in their order. */
  function Nth(e: nat, k: nat): nat {
    if k == 0 then e else if k <= e then k - 1 else k
  }

  /** When the i-th file is written. */
  function Rank(e: nat, i: nat): nat {
    if i == e then 0 else if i < e then i + 1 else i
  }

  /** The writing order is a permutation of the files. */
  lemma OrderIsPermutation(e: nat, n: nat, i: nat)
    requires e < n && i < n
    ensures Nth(e, i) < n && Rank(e, i) < n
    ensures Rank(e, Nth(e, i)) == i && Nth(e, Rank(e, i)) == i
  {
  }

  /** The payload after the first k files in writing order. */
  function Payload(sources: seq<Source>, e: nat, k: nat): (p: seq<byte>)
    requires e < |sources| && k <= |sources|
  {
    if k == 0 then [] else Payload(sources, e, k - 1) + sources[Nth(e, k - 1)].data
  }

  function OffsetOf(sources: seq<Source>, e: nat, i: nat): nat
    requires e < |sources| && i < |sources|
  {
    |Payload(sources, e, Rank(e, i))|
  }

  function IndexEntry(sources: seq<Source>, e: nat, i: nat): Ridx.Entry
    requires e < |sources| && i < |sources|
  {
    var s := sources[i];
    Ridx.Entry(s.flags, s.format, s.path, OffsetOf(sources, e, i), |s.data|, if s.HasCrc() then Crc.Crc32(s.data) else 0)
  }

  function IndexEntries(sources: seq<Source>, e: nat, n: nat): (es: seq<Ridx.Entry>)
    requires e < |sources| && n <= |sources|
    ensures |es| == n && forall i :: 0 <= i < n ==> es[i] == IndexEntry(sources, e, i)
  {
    seq(n, i requires 0 <= i < n => IndexEntry(sources, e, i))
  }

  predicate PathsFit(sources: seq<Source>) {
    forall i :: 0 <= i < |sources| ==> |sources[i].path| <= Ridx.PATH_CAPACITY
  }

  function IndexOf(sources: seq<Source>, e: nat): (b: seq<byte>)
    requires e < |sources| && PathsFit(sources)
    ensures |b| == Ridx.HEADER_SIZE + Ridx.ENTRY_SIZE * |sources|
  {
    Ridx.Index(IndexEntries(sources, e, |sources|))
  }

  // ---------- the whole container ----------

  /** Everything up to the cover. */
  function Content(sources: seq<Source>, e: nat, metadata: seq<byte>, cover: seq<byte>): seq<byte>
    requires e < |sources| && PathsFit(sources)
  {
    Payload(sources, e, |sources|) + IndexOf(sources, e) + metadata + cover
  }

  /** The immutable part: the content, padded to a page if a mutable region follows. */
  function Immutable(content: seq<byte>, capacity: nat): (b: seq<byte>)
    ensures |b| == if capacity == 0 then |content| else Ridx.Up4096(|content|)
  {
    if capacity == 0 then content else content + Zeros(Ridx.Up4096(|content|) - |content|)
  }

  function Region(s: Options): (b: seq<byte>)
    requires SettingsOk(s)
    ensures |b| == s.capacity
  {
    if s.capacity == 0 then [] else RegionHeader.Blank(s.slots, s.capacity)
  }

  function FooterOf(s: Options, payload: nat, metadata: nat, cover: nat, immutable: seq<byte>): (f: Footer.Footer)
    ensures |f.hash| == 32
  {
    Footer.Footer(payload, metadata, cover, s.capacity, s.platform, s.launch,
                  if s.sha then Footer.HASH_SHA256 else Footer.HASH_NONE, if s.sha then Sha256.Hash(immutable) else Zeros(32))
  }

  /** The container the writer promises for these arguments. */
  function Container(sources: seq<Source>, e: nat, metadata: seq<byte>, cover: seq<byte>, s: Options): seq<byte>
    requires e < |sources| && PathsFit(sources) && SettingsOk(s)
  {
    var immutable := Immutable(Content(sources, e, metadata, cover), s.capacity);
    immutable + Region(s) + Footer.Print(FooterOf(s, |Payload(sources, e, |sources|)|, |metadata|, |cover|, immutable))
  }

  // ---------- output ----------

  /** The file being written, and the hash of its immutable part. */
  class Output {
    var bytes: seq<byte>
    const sha: Sha256.Context
    const hashing: bool
    /** What has been hashed, or would have been. */
    ghost var immutable: seq<byte>

    ghost predicate Valid()
      reads this, sha, sha.block
    {
      hashing ==> sha.Represents(immutable)
    }

    constructor (hashing: bool)
      ensures Valid() && bytes == [] && immutable == [] && this.hashing == hashing
      ensures fresh(sha) && fresh(sha.block)
    {
      this.hashing := hashing;
      bytes, immutable := [], [];
      sha := new Sha256.Context();
    }

    method WriteAll(data: seq<byte>)
      requires Valid()
      modifies this`bytes
      ensures Valid() && bytes == old(bytes) + data
    {
      bytes := bytes + data;
    }

    method WriteImmutable(data: seq<byte>)
      requires Valid()
      modifies this, sha, sha.block
      ensures Valid() && bytes == old(bytes) + data && immutable == old(immutable) + data
    {
      bytes := bytes + data;
      if hashing {
        sha.Update(data, immutable);
      }
      immutable := immutable + data;
    }

    /** Copies one file in chunks, checksumming it if asked to. */
    method StreamEntry(data: seq<byte>, chunk: nat, wanted: bool) returns (crc: nat)
      requires Valid() && chunk > 0
      modifies this, sha, sha.block
      ensures Valid() && bytes == old(bytes) + data && immutable == old(immutable) + data
      ensures crc == if wanted then Crc.Crc32(data) else 0
    {
      hide Crc.Crc32, Crc.Update;
      var register, position := Crc.ONES, 0;
      Crc.RunningStarts(data);
      assert data[..0] == [];
      while position < |data|
        invariant 0 <= position <= |data| && Valid()
        invariant bytes == old(bytes) + data[..position] && immutable == old(immutable) + data[..position]
        invariant wanted ==> Crc.Running(register, data, position)
      {
        var count := if |data| - position > chunk then chunk else |data| - position;
        assert data[..position] + data[position..position + count] == data[..position + count];
        WriteImmutable(data[position..position + count]);
        if wanted {
          register := Crc.Advance(register, data, position, count);
        }
        position := position + count;
      }
      assert data[..|data|] == data;
      crc := 0;
      if wanted {
        crc := Crc.Close(register, data);
      }
    }

    /** Zeros, a page at a time. */
    method WriteZeroes(size: nat, immutablePart: bool)
      requires Valid()
      modifies this, sha, sha.block
      ensures Valid() && bytes == old(bytes) + Zeros(size)
      ensures immutable == if immutablePart then old(immutable) + Zeros(size) else old(immutable)
    {
      var written := 0;
      while written < size
        invariant 0 <= written <= size && Valid()
        invariant bytes == old(bytes) + Zeros(written)
        invariant immutable == if immutablePart then old(immutable) + Zeros(written) else old(immutable)
      {
        var count := if size - written > 4096 then 4096 else size - written;
        assert Zeros(written) + Zeros(count) == Zeros(written + count);
        if immutablePart {
          WriteImmutable(Zeros(count));
        } else {
          WriteAll(Zeros(count));
        }
        written := written + count;
      }
    }
  }

  // ---------- the index, written in place ----------

  /** What the writer remembers about a file it has written. */
  datatype State = State(offset: nat, crc: nat)

  /** The fields of one entry, in a buffer filled up to it. */
  method StoreNumbers(a: array<byte>, at: nat, s: Source, st: State, ghost prefix: seq<byte>, ghost e: Ridx.Entry)
    requires at == |prefix| && at + Ridx.ENTRY_SIZE <= a.Length && a[..] == Filled(prefix, a.Length)
    requires e == Ridx.Entry(s.flags, s.format, s.path, st.offset, |s.data|, if s.HasCrc() then st.crc else 0)
    modifies a
    ensures a[..] == Filled(prefix + Ridx.Numbers(e), a.Length)
  {
    hide Le, Filled;
    ghost var p := AppendLe(a, at, 4, s.flags, prefix);
    p := AppendLe(a, at + 0x04, 2, s.format, p);
    p := AppendLe(a, at + 0x06, 2, |s.path|, p);
    p := AppendLe(a, at + 0x08, 8, st.offset, p);
    p := AppendLe(a, at + 0x10, 8, |s.data|, p);
    if s.HasCrc() {
      p := AppendLe(a, at + 0x18, 4, st.crc, p);
    } else {
      LeZero(4);
      FilledMore(p, a.Length, 4);
      p := p + Le(4, 0);
    }
    FilledMore(p, a.Length, 4);
    NumbersAre(prefix, e);
  }

  lemma NumbersAre(prefix: seq<byte>, e: Ridx.Entry)
    ensures prefix + Le(4, e.flags) + Le(2, e.format) + Le(2, |e.path|) + Le(8, e.offset) + Le(8, e.size) + Le(4, e.crc) + Zeros(4)
         == prefix + Ridx.Numbers(e)
  {
    hide Le;
  }

  method StoreIndexEntry(a: array<byte>, at: nat, s: Source, st: State, ghost prefix: seq<byte>, ghost e: Ridx.Entry)
    requires at == |prefix| && at + Ridx.ENTRY_SIZE <= a.Length && a[..] == Filled(prefix, a.Length)
    requires |s.path| <= Ridx.PATH_CAPACITY
    requires e == Ridx.Entry(s.flags, s.format, s.path, st.offset, |s.data|, if s.HasCrc() then st.crc else 0)
    modifies a
    ensures a[..] == Filled(prefix + Ridx.EntryBytes(e), a.Length)
  {
    hide Ridx.Numbers, Filled;
    StoreNumbers(a, at, s, st, prefix, e);
    PutAfter(prefix + Ridx.Numbers(e), a.Length, s.path);
    Copy(a, at + 0x20, s.path);
    FilledMore(prefix + Ridx.Numbers(e) + s.path, a.Length, Ridx.PATH_CAPACITY - |s.path|);
    assert prefix + Ridx.Numbers(e) + s.path + Zeros(Ridx.PATH_CAPACITY - |s.path|) == prefix + Ridx.EntryBytes(e);
  }

  method StoreIndexHeader(a: array<byte>, count: nat)
    requires a.Length >= Ridx.HEADER_SIZE && a[..] == Filled([], a.Length)
    modifies a
    ensures a[..] == Filled(Ridx.HeaderBytes(count, Zeros(4)), a.Length)
  {
    hide Le, Filled;
    PutAfter([], a.Length, Ridx.MAGIC);
    Copy(a, 0, Ridx.MAGIC);
    assert [] + Ridx.MAGIC == Ridx.MAGIC;
    ghost var p := AppendLe(a, 0x04, 2, 1, Ridx.MAGIC);
    p := AppendLe(a, 0x06, 2, Ridx.HEADER_SIZE, p);
    p := AppendLe(a, 0x08, 4, count, p);
    p := AppendLe(a, 0x0c, 4, Ridx.ENTRY_SIZE, p);
    FilledMore(p, a.Length, 48);
    assert p + Zeros(48) == Ridx.HeaderBytes(count, Zeros(4));
  }

  /** The states say where each file went and what its checksum is. */
  predicate StatesAre(states: seq<State>, sources: seq<Source>, e: nat)
    requires e < |sources|
  {
    |states| == |sources| && forall i :: 0 <= i < |sources| ==>
      states[i] == State(OffsetOf(sources, e, i), if sources[i].HasCrc() then Crc.Crc32(sources[i].data) else 0)
  }

  method BuildIndex(sources: seq<Source>, states: seq<State>, ghost e: nat) returns (ridx: array<byte>)
    requires e < |sources| && PathsFit(sources) && StatesAre(states, sources, e)
    ensures fresh(ridx) && ridx[..] == IndexOf(sources, e)
  {
    hide Filled, Ridx.HeaderBytes, Ridx.EntriesBytes, IndexEntry, StatesAre, PathsFit, Crc.Crc32, Crc.Update,
      Crc.Finish;
    ghost var es := IndexEntries(sources, e, |sources|);
    EntriesFit(sources, e);
    ghost var head := Ridx.HeaderBytes(|sources|, Zeros(4));
    ridx := new byte[Ridx.HEADER_SIZE + Ridx.ENTRY_SIZE * |sources|](_ => 0);
    FilledNothing(ridx[..]);
    StoreIndexHeader(ridx, |sources|);
    EntriesNone(es, head);
    for index := 0 to |sources|
      invariant ridx[..] == Filled(head + Ridx.EntriesBytes(es[..index]), ridx.Length)
    {
      StoreNth(ridx, sources, states, e, index, es, head);
    }
    assert es[..|sources|] == es;
    FilledAll(head + Ridx.EntriesBytes(es));
    var register := Crc.UpdateLoop(Crc.ONES, ridx[..]);
    Crc.Finished(ridx[..]);
    IndexSealed(es, Zeros(4), Le(4, Crc.Finish(register)));
    WriteLe(ridx, 0x14, 4, Crc.Finish(register));
  }

  /** The i-th entry behind those before it. */
  method StoreNth(ridx: array<byte>, sources: seq<Source>, states: seq<State>, ghost e: nat, index: nat,
                  ghost es: seq<Ridx.Entry>, ghost head: seq<byte>)
    requires e < |sources| && index < |sources| && PathsFit(sources) && StatesAre(states, sources, e)
    requires es == IndexEntries(sources, e, |sources|) && Ridx.PathsFit(es) && |head| == Ridx.HEADER_SIZE
    requires ridx.Length == Ridx.HEADER_SIZE + Ridx.ENTRY_SIZE * |sources|
    requires ridx[..] == Filled(head + Ridx.EntriesBytes(es[..index]), ridx.Length)
    modifies ridx
    ensures ridx[..] == Filled(head + Ridx.EntriesBytes(es[..index + 1]), ridx.Length)
  {
    hide Filled, Ridx.EntriesBytes, IndexEntry, Ridx.EntryBytes, OffsetOf;
    SlotInIndex(index, |sources|);
    EntriesNext(es, index, head);
    EntryIs(sources, states, e, index);
    StoreIndexEntry(ridx, Ridx.HEADER_SIZE + Ridx.ENTRY_SIZE * index, sources[index], states[index],
                    head + Ridx.EntriesBytes(es[..index]), es[index]);
  }

  lemma EntriesFit(sources: seq<Source>, e: nat)
    requires e < |sources| && PathsFit(sources)
    ensures Ridx.PathsFit(IndexEntries(sources, e, |sources|))
  {
    hide OffsetOf, Crc.Crc32;
  }

  lemma FilledAll(s: seq<byte>)
    ensures Filled(s, |s|) == s
  {
  }

  lemma SlotInIndex(i: nat, n: nat)
    requires i < n
    ensures Ridx.ENTRY_SIZE * i + Ridx.ENTRY_SIZE <= Ridx.ENTRY_SIZE * n
  {
  }

  lemma EntriesNone(es: seq<Ridx.Entry>, head: seq<byte>)
    ensures Ridx.EntriesBytes(es[..0]) == [] && head + Ridx.EntriesBytes(es[..0]) == head
  {
  }

  lemma EntriesNext(es: seq<Ridx.Entry>, i: nat, head: seq<byte>)
    requires i < |es| && Ridx.PathsFit(es)
    ensures head + Ridx.EntriesBytes(es[..i + 1]) == head + Ridx.EntriesBytes(es[..i]) + Ridx.EntryBytes(es[i])
  {
    hide Ridx.EntryBytes;
    assert es[..i + 1][..i] == es[..i];
  }

  lemma EntryIs(sources: seq<Source>, states: seq<State>, e: nat, i: nat)
    requires e < |sources| && StatesAre(states, sources, e) && i < |sources|
    ensures var s := sources[i];
      IndexEntry(sources, e, i)
      == Ridx.Entry(s.flags, s.format, s.path, states[i].offset, |s.data|, if s.HasCrc() then states[i].crc else 0)
  {
    hide OffsetOf, Crc.Crc32;
  }

  /** Storing the checksum changes nothing else of the index. */
  lemma IndexSealed(es: seq<Ridx.Entry>, before: seq<byte>, sum: seq<byte>)
    requires Ridx.PathsFit(es) && |before| == |sum| == 4
    ensures Put(Ridx.IndexWith(es, before), 0x14, sum) == Ridx.IndexWith(es, sum)
  {
    hide Ridx.EntriesBytes, Le;
    var front := (Ridx.MAGIC + Le(2, 1) + Le(2, Ridx.HEADER_SIZE)) + (Le(4, |es|) + Le(4, Ridx.ENTRY_SIZE)) + Zeros(4);
    assert |front| == 20;
    assert Ridx.IndexWith(es, before) == front + before + (Zeros(40) + Ridx.EntriesBytes(es));
    assert Ridx.IndexWith(es, sum) == front + sum + (Zeros(40) + Ridx.EntriesBytes(es));
  }

  // ---------- the footer, written in place ----------

  method BuildFooter(f: Footer.Footer) returns (footer: array<byte>)
    requires |f.hash| == 32
    ensures fresh(footer) && footer[..] == Footer.Print(f)
  {
    hide Le, Filled, Footer.Sizes, Footer.Registry;
    footer := new byte[Footer.FOOTER_SIZE](_ => 0);
    FilledNothing(footer[..]);
    PutAfter([], 128, Footer.MAGIC);
    Copy(footer, 0, Footer.MAGIC);
    assert [] + Footer.MAGIC == Footer.MAGIC;
    ghost var p := AppendLe(footer, 0x04, 4, Footer.FORMAT_VERSION, Footer.MAGIC);
    StoreSizes(footer, f, p);
    StoreRegistry(footer, f, p + Footer.Sizes(f));
    ghost var q := p + Footer.Sizes(f) + Footer.Registry(f);
    PutAfter(q, 128, f.hash);
    Copy(footer, 0x30, f.hash);
    FilledMore(q + f.hash, 128, 48);
    FooterOpen(f);
    FilledAll(Footer.WithSum(f, Zeros(4)));
    var register := Crc.UpdateLoop(Crc.ONES, footer[..]);
    FooterSealed(f, Le(4, Crc.Finish(register)));
    WriteLe(footer, 0x50, 4, Crc.Finish(register));
  }

  method StoreSizes(a: array<byte>, f: Footer.Footer, ghost prefix: seq<byte>)
    requires a.Length == 128 && |prefix| == 8 && a[..] == Filled(prefix, 128)
    modifies a
    ensures a[..] == Filled(prefix + Footer.Sizes(f), 128)
  {
    hide Le, Filled;
    ghost var p := AppendLe(a, 0x08, 8, f.payload, prefix);
    p := AppendLe(a, 0x10, 8, f.metadata, p);
    p := AppendLe(a, 0x18, 8, f.cover, p);
    p := AppendLe(a, 0x20, 8, f.capacity, p);
    assert p == prefix + Footer.Sizes(f);
  }

  method StoreRegistry(a: array<byte>, f: Footer.Footer, ghost prefix: seq<byte>)
    requires a.Length == 128 && |prefix| == 40 && a[..] == Filled(prefix, 128)
    modifies a
    ensures a[..] == Filled(prefix + Footer.Registry(f), 128)
  {
    hide Le, Filled;
    ghost var p := AppendLe(a, 0x28, 2, f.platform, prefix);
    p := AppendLe(a, 0x2a, 2, f.launch, p);
    p := AppendLe(a, 0x2c, 4, f.algorithm, p);
    assert p == prefix + Footer.Registry(f);
  }

  lemma FooterOpen(f: Footer.Footer)
    requires |f.hash| == 32
    ensures Footer.MAGIC + Le(4, Footer.FORMAT_VERSION) + Footer.Sizes(f) + Footer.Registry(f) + f.hash + Zeros(48)
         == Footer.WithSum(f, Zeros(4))
  {
    hide Le, Footer.Sizes, Footer.Registry;
  }

  lemma FooterSealed(f: Footer.Footer, sum: seq<byte>)
    requires |f.hash| == 32 && |sum| == 4
    ensures Put(Footer.WithSum(f, Zeros(4)), 0x50, sum) == Footer.WithSum(f, sum)
  {
    hide Le, Footer.Sizes, Footer.Registry;
    var front := (Footer.MAGIC + Le(4, Footer.FORMAT_VERSION)) + Footer.Sizes(f) + (Footer.Registry(f) + f.hash);
    assert |front| == 80 && Footer.WithSum(f, Zeros(4)) == front + (Zeros(4) + Zeros(44));
    assert Footer.WithSum(f, sum) == front + (sum + Zeros(44));
  }

  // ---------- the writer ----------

  /** Streams the files in writing order, remembering offsets and checksums. */
  method StreamPayload(out: Output, sources: seq<Source>, e: nat, chunk: nat) returns (states: Option<seq<State>>)
    requires out.Valid() && out.bytes == [] && out.immutable == [] && e < |sources| && chunk > 0
    modifies out, out.sha, out.sha.block
    ensures out.Valid()
    ensures states.Some? <==> |Payload(sources, e, |sources|)| < U64
    ensures states.Some? ==> StatesAre(states.value, sources, e)
    ensures states.Some? ==> out.bytes == Payload(sources, e, |sources|) && out.immutable == out.bytes
  {
    hide Crc.Crc32, Payload, StatesUpTo, StatesAre;
    PayloadNone(sources, e);
    var found: seq<State> := seq(|sources|, _ => State(0, 0));
    var offset := 0;
    for index := 0 to |sources|
      invariant out.Valid() && out.bytes == Payload(sources, e, index) && out.immutable == out.bytes
      invariant offset == |out.bytes| < U64
      invariant |found| == |sources| && StatesUpTo(found, sources, e, index)
    {
      var current := if index == 0 then e else if index <= e then index - 1 else index;
      var crc := out.StreamEntry(sources[current].data, chunk, sources[current].HasCrc());
      PayloadNext(sources, e, index);
      OrderIsPermutation(e, |sources|, index);
      StatePlaced(found, sources, e, index, State(offset, crc));
      found := found[current := State(offset, crc)];
      PayloadGrows(sources, e, index + 1, |sources|);
      if |sources[current].data| > U64_MAX - offset {
        return None;
      }
      offset := offset + |sources[current].data|;
    }
    AllPlaced(found, sources, e);
    states := Some(found);
  }

  /** The states of the files written so far. */
  predicate StatesUpTo(found: seq<State>, sources: seq<Source>, e: nat, n: nat)
    requires e < |sources|
  {
    |found| == |sources| && forall i :: 0 <= i < |sources| && Rank(e, i) < n ==>
      found[i] == State(OffsetOf(sources, e, i), if sources[i].HasCrc() then Crc.Crc32(sources[i].data) else 0)
  }

  lemma StatePlaced(found: seq<State>, sources: seq<Source>, e: nat, n: nat, st: State)
    requires e < |sources| && n < |sources| && StatesUpTo(found, sources, e, n)
    requires st.offset == |Payload(sources, e, n)|
    requires var s := sources[Nth(e, n)]; st.crc == if s.HasCrc() then Crc.Crc32(s.data) else 0
    ensures StatesUpTo(found[Nth(e, n) := st], sources, e, n + 1)
  {
    hide Payload, Crc.Crc32;
    OrderIsPermutation(e, |sources|, n);
    forall i | 0 <= i < |sources| && Rank(e, i) == n ensures i == Nth(e, n) {
      OrderIsPermutation(e, |sources|, i);
    }
  }

  lemma AllPlaced(found: seq<State>, sources: seq<Source>, e: nat)
    requires e < |sources| && StatesUpTo(found, sources, e, |sources|)
    ensures StatesAre(found, sources, e)
  {
    hide OffsetOf, Crc.Crc32;
    forall i | 0 <= i < |sources| ensures Rank(e, i) < |sources| {
      OrderIsPermutation(e, |sources|, i);
    }
  }

  lemma PayloadNone(sources: seq<Source>, e: nat)
    requires e < |sources|
    ensures Payload(sources, e, 0) == []
    ensures StatesUpTo(seq(|sources|, _ => State(0, 0)), sources, e, 0)
  {
  }

  lemma PayloadNext(sources: seq<Source>, e: nat, k: nat)
    requires e < |sources| && k < |sources|
    ensures Payload(sources, e, k + 1) == Payload(sources, e, k) + sources[Nth(e, k)].data
  {
  }

  lemma {:induction false} PayloadGrows(sources: seq<Source>, e: nat, k: nat, l: nat)
    requires e < |sources| && k <= l <= |sources|
    ensures Payload(sources, e, k) <= Payload(sources, e, l)
    decreases l
  {
    if k < l {
      PayloadGrows(sources, e, k, l - 1);
    }
  }

  /** Index, metadata and cover after the payload. */
  method WriteContent(out: Output, sources: seq<Source>, e: nat, states: seq<State>, metadata: seq<byte>, cover: seq<byte>, chunk: nat)
    requires out.Valid() && e < |sources| && PathsFit(sources) && StatesAre(states, sources, e) && chunk > 0
    requires out.bytes == Payload(sources, e, |sources|) && out.immutable == out.bytes
    modifies out, out.sha, out.sha.block
    ensures out.Valid() && out.bytes == Content(sources, e, metadata, cover) && out.immutable == out.bytes
  {
    hide Payload, IndexOf;
    var ridx := BuildIndex(sources, states, e);
    out.WriteImmutable(ridx[..]);
    if metadata != [] {
      out.WriteImmutable(metadata);
    }
    if cover != [] {
      var crc := out.StreamEntry(cover, chunk, false);
    }
  }

  /** Padding and an empty mutable region, if one is wanted. */
  method WriteRegion(out: Output, s: Options, ghost content: seq<byte>)
    requires out.Valid() && SettingsOk(s) && out.bytes == content && out.immutable == content
    modifies out, out.sha, out.sha.block
    ensures out.Valid() && out.immutable == Immutable(content, s.capacity)
    ensures out.bytes == Immutable(content, s.capacity) + Region(s)
  {
    if s.capacity != 0 {
      out.WriteZeroes(Ridx.Up4096(|out.bytes|) - |out.bytes|, true);
      WriteBlank(out, s);
    } else {
      assert out.bytes == content + [];
    }
  }

  /** The blank region itself, which is not hashed. */
  method WriteBlank(out: Output, s: Options)
    requires out.Valid() && SettingsOk(s) && s.capacity != 0
    modifies out, out.sha, out.sha.block
    ensures out.Valid() && out.immutable == old(out.immutable) && out.bytes == old(out.bytes) + Region(s)
  {
    hide RegionHeader.Print;
    var header := RegionHeader.BuildHeader(s.slots, s.capacity);
    ghost var before := out.bytes;
    out.WriteAll(header[..]);
    out.WriteZeroes(s.capacity - 4096, false);
    assert out.bytes == before + Region(s);
  }

  lemma SourcesFit(sources: seq<Source>, e: nat)
    requires SourcesOk(sources, e)
    ensures PathsFit(sources) && e < |sources|
  {
    hide IsPath, FoldDistinct;
  }

  lemma EffectiveChunk(s: Options)
    requires SettingsOk(s)
    ensures s.chunk > 0
  {
  }

  /** The whole writer; metadata and cover are taken as already validated, empty meaning absent. */
  method WriteContainer(sources: seq<Source>, metadata: seq<byte>, cover: seq<byte>, options: Options)
    returns (written: Option<seq<byte>>, ghost e: nat)
    requires Typed(sources) && |metadata| < U64 && |cover| < U64
    ensures written.Some? ==> var s := Effective(options);
      SettingsOk(s) && SourcesOk(sources, e) && PathsFit(sources) && written.value == Container(sources, e, metadata, cover, s)
    ensures written.None? ==>
      !SettingsOk(Effective(options)) || (forall i :: !SourcesOk(sources, i)) ||
      exists i :: SourcesOk(sources, i) && |Payload(sources, i, |sources|)| >= U64
  {
    hide SettingsOk, SourcesOk, Payload, Content, Immutable, Region, Footer.Print;
    e := 0;
    var settings := LoadSettings(options);
    if settings.None? {
      return None, e;
    }
    var entrypoint := CheckSources(sources);
    if entrypoint.None? {
      return None, e;
    }
    e := entrypoint.value;
    SourcesFit(sources, e);
    var s := settings.value;
    EffectiveChunk(s);
    var out := new Output(s.sha);
    var states := StreamPayload(out, sources, entrypoint.value, s.chunk);
    if states.None? {
      return None, e;
    }
    var payloadSize := |out.bytes|;
    WriteContent(out, sources, entrypoint.value, states.value, metadata, cover, s.chunk);
    ghost var content := out.bytes;
    WriteRegion(out, s, content);
    var hash := Zeros(32);
    ghost var immutable := out.immutable;
    if s.sha {
      hash := out.sha.Finish(immutable);
    }
    var footer := BuildFooter(Footer.Footer(payloadSize, |metadata|, |cover|, s.capacity, s.platform, s.launch,
                                            if s.sha then Footer.HASH_SHA256 else Footer.HASH_NONE, hash));
    written := Some(out.bytes + footer[..]);
  }
}
