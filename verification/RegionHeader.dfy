/** The 4096-byte header of the mutable region: what the container writer emits and what the
    reader insists on. */
module RegionHeader {
  import opened Bytes
  import opened Entries
  import Crc

  datatype Header = Header(version: nat, headerSize: nat, entrySize: nat, slots: nat, directory: nat,
                           directorySize: nat, data: nat, dataSize: nat)

  const MAGIC: seq<byte> := [0x52, 0x4d, 0x55, 0x54]

  /** The header of a region with the given number of slots and size. */
  function Describe(slots: nat, size: nat): Header
    requires HEADER_SIZE + slots * ENTRY_SIZE <= size
  {
    var directorySize := slots * ENTRY_SIZE;
    var data := HEADER_SIZE + directorySize;
    Header(1, HEADER_SIZE, ENTRY_SIZE, slots, HEADER_SIZE, directorySize, data, size - data)
  }

  function Kind(h: Header): (b: seq<byte>)
    ensures |b| == 16
  {
    MAGIC + Le(2, h.version) + Le(2, h.headerSize) + Le(4, h.entrySize) + Le(4, h.slots)
  }

  function Geometry(h: Header): (b: seq<byte>)
    ensures |b| == 32
  {
    Le(8, h.directory) + Le(8, h.directorySize) + Le(8, h.data) + Le(8, h.dataSize)
  }

  function Tail(sum: seq<byte>): (b: seq<byte>)
    requires |sum| == 4
    ensures |b| == 4048
  {
    Zeros(4) + sum + Zeros(4040)
  }

  function WithSum(h: Header, sum: seq<byte>): (b: seq<byte>)
    requires |sum| == 4
    ensures |b| == HEADER_SIZE
  {
    Kind(h) + Geometry(h) + Tail(sum)
  }

  function Print(h: Header): (b: seq<byte>)
    ensures |b| == HEADER_SIZE
  {
    WithSum(h, Le(4, Crc.Crc32(WithSum(h, Zeros(4)))))
  }

  function Unsealed(b: seq<byte>): (r: seq<byte>)
    requires |b| == HEADER_SIZE
    ensures |r| == HEADER_SIZE
  {
    Put(b, 0x34, Zeros(4))
  }

  function Decode(b: seq<byte>): Header
    requires |b| == HEADER_SIZE
  {
    Header(FromLe(b[0x04..0x06]), FromLe(b[0x06..0x08]), FromLe(b[0x08..0x0c]), FromLe(b[0x0c..0x10]),
           FromLe(b[0x10..0x18]), FromLe(b[0x18..0x20]), FromLe(b[0x20..0x28]), FromLe(b[0x28..0x30]))
  }

  /** The numeric demands of the reader on a region of the given size. */
  predicate Plausible(h: Header, size: nat) {
    && h.version == 1
    && h.headerSize == 4096
    && h.entrySize == 512
    && h.slots >= 8 && h.slots % 8 == 0
    && h.directory == HEADER_SIZE
    && h.directorySize == h.slots * ENTRY_SIZE
    && h.data == HEADER_SIZE + h.directorySize
    && h.data % 4096 == 0
    && h.data < size
    && h.dataSize == size - h.data
  }

  /** The region a stored header announces; None is the reader's INVALID status. */
  function Open(b: seq<byte>, base: nat, size: nat): Option<Region>
    requires |b| == HEADER_SIZE
  {
    if && b[0..4] == MAGIC
       && Plausible(Decode(b), size)
       && FromLe(b[0x30..0x34]) == 0
       && FromLe(b[0x34..0x38]) == Crc.Crc32(Unsealed(b))
       && AllZero(b[0x38..HEADER_SIZE])
    then Some(Region(base, size, Decode(b).slots))
    else None
  }

  /** The bytes the writer emits for an empty region. */
  function Blank(slots: nat, size: nat): (b: seq<byte>)
    requires HEADER_SIZE + slots * ENTRY_SIZE <= size
    ensures |b| == size
  {
    Print(Describe(slots, size)) + Zeros(size - HEADER_SIZE)
  }

  // ---------- printing and opening are inverse ----------

  predicate HasFields(b: seq<byte>, h: Header, sum: seq<byte>) {
    && |b| == HEADER_SIZE
    && b[0..4] == MAGIC && b[4..6] == Le(2, h.version) && b[6..8] == Le(2, h.headerSize)
    && b[8..12] == Le(4, h.entrySize) && b[12..16] == Le(4, h.slots)
    && b[16..24] == Le(8, h.directory) && b[24..32] == Le(8, h.directorySize)
    && b[32..40] == Le(8, h.data) && b[40..48] == Le(8, h.dataSize)
    && b[48..52] == Zeros(4) && b[52..56] == sum && b[56..HEADER_SIZE] == Zeros(4040)
  }

  lemma PrintedGroups(h: Header, sum: seq<byte>, b: seq<byte>)
    requires |sum| == 4 && b == WithSum(h, sum)
    ensures b[0..16] == Kind(h) && b[16..48] == Geometry(h) && b[48..HEADER_SIZE] == Tail(sum)
  {
  }

  lemma PrintedFields(h: Header, sum: seq<byte>)
    requires |sum| == 4
    ensures HasFields(WithSum(h, sum), h, sum)
  {
    var b := WithSum(h, sum);
    PrintedGroups(h, sum, b);
    KindFields(h, b);
    GeometryFields(h, b);
    TailFields(sum, b);
  }

  lemma KindFields(h: Header, b: seq<byte>)
    requires |b| == HEADER_SIZE && b[0..16] == Kind(h)
    ensures b[0..4] == MAGIC && b[4..6] == Le(2, h.version) && b[6..8] == Le(2, h.headerSize)
    ensures b[8..12] == Le(4, h.entrySize) && b[12..16] == Le(4, h.slots)
  {
    SubSlice(b, 0, 0, 4, 16);
    SubSlice(b, 0, 4, 6, 16);
    SubSlice(b, 0, 6, 8, 16);
    SubSlice(b, 0, 8, 12, 16);
    SubSlice(b, 0, 12, 16, 16);
  }

  lemma GeometryFields(h: Header, b: seq<byte>)
    requires |b| == HEADER_SIZE && b[16..48] == Geometry(h)
    ensures b[16..24] == Le(8, h.directory) && b[24..32] == Le(8, h.directorySize)
    ensures b[32..40] == Le(8, h.data) && b[40..48] == Le(8, h.dataSize)
  {
    SubSlice(b, 16, 0, 8, 48);
    SubSlice(b, 16, 8, 16, 48);
    SubSlice(b, 16, 16, 24, 48);
    SubSlice(b, 16, 24, 32, 48);
  }

  lemma TailFields(sum: seq<byte>, b: seq<byte>)
    requires |b| == HEADER_SIZE && |sum| == 4 && b[48..HEADER_SIZE] == Tail(sum)
    ensures b[48..52] == Zeros(4) && b[52..56] == sum && b[56..HEADER_SIZE] == Zeros(4040)
  {
    SubSlice(b, 48, 0, 4, HEADER_SIZE);
    SubSlice(b, 48, 4, 8, HEADER_SIZE);
    SubSlice(b, 48, 8, 4048, HEADER_SIZE);
  }

  lemma FieldsDetermine(b: seq<byte>, h: Header, sum: seq<byte>)
    requires HasFields(b, h, sum) && |sum| == 4
    ensures b == WithSum(h, sum)
  {
    assert b[0..16] == Kind(h) by {
      assert b[0..16] == b[0..4] + b[4..6] + b[6..8] + b[8..12] + b[12..16];
    }
    assert b[16..48] == Geometry(h) by {
      assert b[16..48] == b[16..24] + b[24..32] + b[32..40] + b[40..48];
    }
    assert b[48..HEADER_SIZE] == Tail(sum) by {
      assert b[48..HEADER_SIZE] == b[48..52] + b[52..56] + b[56..HEADER_SIZE];
    }
    assert b == b[0..16] + b[16..48] + b[48..HEADER_SIZE];
  }

  lemma UnsealedBody(h: Header, sum: seq<byte>)
    requires |sum| == 4
    ensures Unsealed(WithSum(h, sum)) == WithSum(h, Zeros(4))
  {
    var a, b := Unsealed(WithSum(h, sum)), WithSum(h, Zeros(4));
    assert a[..52] == b[..52] && a[56..] == b[56..];
  }

  /** Every field fits its width. */
  predicate FitsWidths(h: Header) {
    && h.version < U16 && h.headerSize < U16 && h.entrySize < U32 && h.slots < U32
    && h.directory < U64 && h.directorySize < U64 && h.data < U64 && h.dataSize < U64
  }

  lemma FieldsDecode(b: seq<byte>, h: Header, sum: seq<byte>)
    requires HasFields(b, h, sum) && FitsWidths(h)
    ensures Decode(b) == h && FromLe(b[48..52]) == 0
  {
    LeFits(2, h.version);
    LeFits(2, h.headerSize);
    LeFits(4, h.entrySize);
    LeFits(4, h.slots);
    LeFits(8, h.directory);
    LeFits(8, h.directorySize);
    LeFits(8, h.data);
    LeFits(8, h.dataSize);
    LeZero(4);
    LeFits(4, 0);
  }

  lemma PlausibleOpens(h: Header, base: nat, size: nat)
    requires Plausible(h, size) && FitsWidths(h)
    ensures Open(Print(h), base, size) == Some(Region(base, size, h.slots))
  {
    var crc := Crc.Crc32(WithSum(h, Zeros(4)));
    PrintedFields(h, Le(4, crc));
    UnsealedBody(h, Le(4, crc));
    LeFits(4, crc);
    FieldsDecode(Print(h), h, Le(4, crc));
  }

  /** The header the writer emits opens as the region it was written for. */
  lemma PrintOpens(r: Region)
    requires r.Valid() && r.slots < U32
    ensures Open(Print(Describe(r.slots, r.size)), r.base, r.size) == Some(r)
  {
    PlausibleOpens(Describe(r.slots, r.size), r.base, r.size);
  }

  lemma DecodedFields(b: seq<byte>)
    requires |b| == HEADER_SIZE && b[0..4] == MAGIC
    requires FromLe(b[0x30..0x34]) == 0 && AllZero(b[0x38..HEADER_SIZE])
    ensures HasFields(b, Decode(b), b[52..56]) && FitsWidths(Decode(b))
  {
    FromLeFits(b[4..6]);
    FromLeFits(b[6..8]);
    FromLeFits(b[8..12]);
    FromLeFits(b[12..16]);
    FromLeFits(b[16..24]);
    FromLeFits(b[24..32]);
    FromLeFits(b[32..40]);
    FromLeFits(b[40..48]);
    FromLeFits(b[48..52]);
    LeZero(4);
  }

  /** A header that opens is byte for byte the one the writer emits for that geometry. */
  lemma OpenPrints(b: seq<byte>, base: nat, size: nat)
    requires |b| == HEADER_SIZE && base % 4096 == 0 && size % 4096 == 0 && base + size < U64
    requires Open(b, base, size).Some?
    ensures var r := Open(b, base, size).value;
      r.Valid() && r.slots < U32 && b == Print(Describe(r.slots, r.size))
  {
    var h, sum := Decode(b), b[52..56];
    DecodedFields(b);
    FieldsDetermine(b, h, sum);
    UnsealedBody(h, sum);
    FromLeFits(sum);
    assert h == Describe(h.slots, size);
  }

  // ---------- writing it ----------

  /** The header of an empty region, field by field in a zeroed buffer, checksum last. */
  method BuildHeader(slots: nat, size: nat) returns (header: array<byte>)
    requires HEADER_SIZE + slots * ENTRY_SIZE <= size
    ensures fresh(header) && header[..] == Print(Describe(slots, size))
  {
    hide Le, Filled;
    var h := Describe(slots, size);
    header := new byte[HEADER_SIZE](_ => 0);
    FilledNothing(header[..]);
    StoreKind(header, h);
    StoreGeometry(header, h);
    OpenBody(h);
    var register := Crc.UpdateLoop(Crc.ONES, header[..]);
    WriteLe(header, 0x34, 4, Crc.Finish(register));
    SealBody(h, Le(4, Crc.Crc32(WithSum(h, Zeros(4)))));
  }

  method StoreKind(header: array<byte>, h: Header)
    requires header.Length == HEADER_SIZE && header[..] == Filled([], HEADER_SIZE)
    modifies header
    ensures header[..] == Filled(Kind(h), HEADER_SIZE)
  {
    hide Le, Filled;
    PutAfter([], HEADER_SIZE, MAGIC);
    Copy(header, 0, MAGIC);
    assert [] + MAGIC == MAGIC;
    ghost var p := AppendLe(header, 0x04, 2, h.version, MAGIC);
    p := AppendLe(header, 0x06, 2, h.headerSize, p);
    p := AppendLe(header, 0x08, 4, h.entrySize, p);
    p := AppendLe(header, 0x0c, 4, h.slots, p);
  }

  method StoreGeometry(header: array<byte>, h: Header)
    requires header.Length == HEADER_SIZE && header[..] == Filled(Kind(h), HEADER_SIZE)
    modifies header
    ensures header[..] == Filled(Kind(h) + Geometry(h), HEADER_SIZE)
  {
    hide Le, Filled, Kind;
    ghost var p := AppendLe(header, 0x10, 8, h.directory, Kind(h));
    p := AppendLe(header, 0x18, 8, h.directorySize, p);
    p := AppendLe(header, 0x20, 8, h.data, p);
    p := AppendLe(header, 0x28, 8, h.dataSize, p);
    Regroup(Kind(h) + Le(8, h.directory), Le(8, h.directorySize), Le(8, h.data), Le(8, h.dataSize));
    Regroup(Kind(h), Le(8, h.directory), Le(8, h.directorySize), Le(8, h.data));
    assert Kind(h) + Geometry(h) == p;
  }

  lemma OpenBody(h: Header)
    ensures Filled(Kind(h) + Geometry(h), HEADER_SIZE) == WithSum(h, Zeros(4))
  {
    hide Kind, Geometry;
    assert Tail(Zeros(4)) == Zeros(4048);
  }

  lemma SealBody(h: Header, sum: seq<byte>)
    requires |sum| == 4
    ensures Put(WithSum(h, Zeros(4)), 0x34, sum) == WithSum(h, sum)
  {
    hide Kind, Geometry;
    var front := Kind(h) + Geometry(h);
    assert WithSum(h, Zeros(4)) == front + Tail(Zeros(4)) && |front| == 48;
    assert Put(front + Tail(Zeros(4)), 0x34, sum) == front + Tail(sum);
  }

  /** Damage to at most four consecutive bytes of an accepted header, its checksum apart, is noticed. */
  lemma BurstRejected(b: seq<byte>, damaged: seq<byte>, at: nat, base: nat, size: nat)
    requires |b| == HEADER_SIZE && Open(b, base, size).Some?
    requires Crc.DifferOnlyIn(b, damaged, at, 4) && b != damaged && b[0x34..0x38] == damaged[0x34..0x38]
    ensures Open(damaged, base, size) == None
  {
    hide Plausible, Decode, Crc.Crc32, FromLe, AllZero, Put, Crc.DifferOnlyIn;
    Crc.SealBroken(b, damaged, at, 0x34);
  }
}
