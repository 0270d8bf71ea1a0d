/** The 512-byte directory entry of the mutable region: its printer, its strict parser, and the
    proof that they are inverse to each other. */
module Entries {
  import opened Bytes
  import opened Paths
  import Crc

  const ENTRY_SIZE: nat := 512
  const HEADER_SIZE: nat := 4096
  const KEY_CAPACITY: nat := 448

  const ACTIVE: nat := 1
  const WRITING: nat := 2
  const DELETING: nat := 3

  const SAVE: nat := 1
  const PRIVATE: nat := 4

  /** A mutable region: absolute offset, size, and number of directory slots. */
  datatype Region = Region(base: nat, size: nat, slots: nat) {
    /** Where the data area starts, relative to the region. */
    function DataStart(): nat {
      HEADER_SIZE + slots * ENTRY_SIZE
    }

    /** What the footer, the index and the region header guarantee once they parse. */
    predicate Valid() {
      && base % 4096 == 0
      && size % 4096 == 0
      && slots >= 8 && slots % 8 == 0
      && DataStart() < size
      && base + size < U64
    }
  }

  datatype Entry = Entry(state: nat, ns: nat, key: seq<byte>, offset: nat, capacity: nat, size: nat,
                         generation: nat, modified: nat, crc: nat)

  datatype Slot = Free | Malformed | Occupied(e: Entry)

  const MAGIC: seq<byte> := [0x4d, 0x45, 0x4e, 0x54]

  predicate KeyOk(ns: nat, key: seq<byte>) {
    && 1 <= ns <= 4
    && 0 < |key| <= KEY_CAPACITY
    && IsPath(key)
    && (ns == PRIVATE ==> SLASH in key)
  }

  /** The entries a region may hold. */
  predicate EntryOk(r: Region, e: Entry) {
    && 1 <= e.state <= 3
    && KeyOk(e.ns, e.key)
    && e.offset >= r.DataStart() && e.offset % 64 == 0
    && e.capacity != 0 && e.offset + e.capacity <= r.size
    && e.size <= e.capacity
    && (e.size == 0 ==> e.crc == 0)
    && 0 < e.generation < U64
    && e.modified < U64
    && e.crc < U32
  }

  // ---------- printing ----------

  function Head(e: Entry): (b: seq<byte>)
    ensures |b| == 16
  {
    MAGIC + Le(2, e.state) + Le(2, e.ns) + Zeros(4) + Le(4, |e.key|)
  }

  function Extent(e: Entry): (b: seq<byte>)
    ensures |b| == 24
  {
    Le(8, e.offset) + Le(8, e.capacity) + Le(8, e.size)
  }

  /** Everything after the extent up to the key, with the given checksum field. */
  function Stamp(e: Entry, sum: seq<byte>): (b: seq<byte>)
    requires |sum| == 4
    ensures |b| == 24
  {
    Le(8, e.generation) + Le(8, e.modified) + Le(4, e.crc) + sum
  }

  function Name(e: Entry): (b: seq<byte>)
    requires |e.key| <= KEY_CAPACITY
    ensures |b| == KEY_CAPACITY
  {
    e.key + Zeros(KEY_CAPACITY - |e.key|)
  }

  function WithSum(e: Entry, sum: seq<byte>): (b: seq<byte>)
    requires |e.key| <= KEY_CAPACITY && |sum| == 4
    ensures |b| == ENTRY_SIZE
  {
    Head(e) + Extent(e) + Stamp(e, sum) + Name(e)
  }

  /** The entry with its checksum field still zero. */
  function Body(e: Entry): (b: seq<byte>)
    requires |e.key| <= KEY_CAPACITY
    ensures |b| == ENTRY_SIZE
  {
    WithSum(e, Zeros(4))
  }

  function Print(e: Entry): (b: seq<byte>)
    requires |e.key| <= KEY_CAPACITY
    ensures |b| == ENTRY_SIZE
  {
    WithSum(e, Le(4, Crc.Crc32(Body(e))))
  }

  /** What every field of an entry holds; the checksum field is sum. */
  predicate HasFields(b: seq<byte>, e: Entry, sum: seq<byte>) {
    && |b| == ENTRY_SIZE && |e.key| <= KEY_CAPACITY
    && b[0..4] == MAGIC
    && b[4..6] == Le(2, e.state)
    && b[6..8] == Le(2, e.ns)
    && b[8..12] == Zeros(4)
    && b[12..16] == Le(4, |e.key|)
    && b[16..24] == Le(8, e.offset)
    && b[24..32] == Le(8, e.capacity)
    && b[32..40] == Le(8, e.size)
    && b[40..48] == Le(8, e.generation)
    && b[48..56] == Le(8, e.modified)
    && b[56..60] == Le(4, e.crc)
    && b[60..64] == sum
    && b[64..64 + |e.key|] == e.key
    && b[64 + |e.key|..ENTRY_SIZE] == Zeros(KEY_CAPACITY - |e.key|)
  }

  /** The fields of a printed entry, read at their offsets. */
  lemma PrintedFields(e: Entry, sum: seq<byte>)
    requires |e.key| <= KEY_CAPACITY && |sum| == 4
    ensures HasFields(WithSum(e, sum), e, sum)
  {
    var b := WithSum(e, sum);
    PrintedGroups(e, sum, b);
    HeadFields(e, b);
    ExtentFields(e, b);
    StampFields(e, sum, b);
    NameFields(e, b);
  }

  lemma PrintedGroups(e: Entry, sum: seq<byte>, b: seq<byte>)
    requires |e.key| <= KEY_CAPACITY && |sum| == 4 && b == WithSum(e, sum)
    ensures b[0..16] == Head(e) && b[16..40] == Extent(e)
    ensures b[40..64] == Stamp(e, sum) && b[64..ENTRY_SIZE] == Name(e)
  {
  }

  lemma HeadFields(e: Entry, b: seq<byte>)
    requires |b| == ENTRY_SIZE && b[0..16] == Head(e)
    ensures b[0..4] == MAGIC && b[4..6] == Le(2, e.state) && b[6..8] == Le(2, e.ns)
    ensures b[8..12] == Zeros(4) && b[12..16] == Le(4, |e.key|)
  {
    var h := b[0..16];
    SubSlice(b, 0, 0, 4, 16);
    SubSlice(b, 0, 4, 6, 16);
    SubSlice(b, 0, 6, 8, 16);
    SubSlice(b, 0, 8, 12, 16);
    SubSlice(b, 0, 12, 16, 16);
  }

  lemma ExtentFields(e: Entry, b: seq<byte>)
    requires |b| == ENTRY_SIZE && b[16..40] == Extent(e)
    ensures b[16..24] == Le(8, e.offset) && b[24..32] == Le(8, e.capacity) && b[32..40] == Le(8, e.size)
  {
    var h := b[16..40];
    SubSlice(b, 16, 0, 8, 40);
    SubSlice(b, 16, 8, 16, 40);
    SubSlice(b, 16, 16, 24, 40);
  }

  lemma StampFields(e: Entry, sum: seq<byte>, b: seq<byte>)
    requires |b| == ENTRY_SIZE && |sum| == 4 && b[40..64] == Stamp(e, sum)
    ensures b[40..48] == Le(8, e.generation) && b[48..56] == Le(8, e.modified)
    ensures b[56..60] == Le(4, e.crc) && b[60..64] == sum
  {
    var h := b[40..64];
    SubSlice(b, 40, 0, 8, 64);
    SubSlice(b, 40, 8, 16, 64);
    SubSlice(b, 40, 16, 20, 64);
    SubSlice(b, 40, 20, 24, 64);
  }

  lemma NameFields(e: Entry, b: seq<byte>)
    requires |b| == ENTRY_SIZE && |e.key| <= KEY_CAPACITY && b[64..ENTRY_SIZE] == Name(e)
    ensures b[64..64 + |e.key|] == e.key
    ensures b[64 + |e.key|..ENTRY_SIZE] == Zeros(KEY_CAPACITY - |e.key|)
  {
    var h, k := b[64..ENTRY_SIZE], |e.key|;
    SubSlice(b, 64, 0, k, ENTRY_SIZE);
    SubSlice(b, 64, k, KEY_CAPACITY, ENTRY_SIZE);
  }

  /** The fields leave no byte of an entry undetermined. */
  lemma FieldsDetermine(b: seq<byte>, e: Entry, sum: seq<byte>)
    requires HasFields(b, e, sum) && |sum| == 4
    ensures b == WithSum(e, sum)
  {
    assert b[0..16] == b[0..4] + b[4..6] + b[6..8] + b[8..12] + b[12..16];
    assert b[16..40] == b[16..24] + b[24..32] + b[32..40];
    assert b[40..64] == b[40..48] + b[48..56] + b[56..60] + b[60..64];
    assert b[64..ENTRY_SIZE] == b[64..64 + |e.key|] + b[64 + |e.key|..ENTRY_SIZE];
    assert b == b[0..16] + b[16..40] + b[40..64] + b[64..ENTRY_SIZE];
  }

  // ---------- parsing ----------

  /** The entry with its checksum field cleared, as the checksum is defined on it. */
  function Unsealed(b: seq<byte>): (r: seq<byte>)
    requires |b| == ENTRY_SIZE
    ensures |r| == ENTRY_SIZE
  {
    Put(b, 0x3c, Zeros(4))
  }

  function KeySize(b: seq<byte>): nat
    requires |b| == ENTRY_SIZE
  {
    FromLe(b[0x0c..0x10])
  }

  function Decode(b: seq<byte>): Entry
    requires |b| == ENTRY_SIZE && KeySize(b) <= KEY_CAPACITY
  {
    Entry(FromLe(b[0x04..0x06]), FromLe(b[0x06..0x08]), b[0x40..0x40 + KeySize(b)],
          FromLe(b[0x10..0x18]), FromLe(b[0x18..0x20]), FromLe(b[0x20..0x28]),
          FromLe(b[0x28..0x30]), FromLe(b[0x30..0x38]), FromLe(b[0x38..0x3c]))
  }

  /** The acceptance test of one stored entry. */
  predicate Accepts(r: Region, b: seq<byte>)
    requires |b| == ENTRY_SIZE
  {
    && b[0..4] == MAGIC
    && FromLe(b[0x08..0x0c]) == 0
    && KeySize(b) <= KEY_CAPACITY
    && AllZero(b[0x40 + KeySize(b)..ENTRY_SIZE])
    && EntryOk(r, Decode(b))
    && FromLe(b[0x3c..0x40]) == Crc.Crc32(Unsealed(b))
  }

  /** One slot of the directory as the reader sees it. */
  function Parse(r: Region, b: seq<byte>): Slot
    requires |b| == ENTRY_SIZE
  {
    if AllZero(b) then Free
    else if Accepts(r, b) then Occupied(Decode(b))
    else Malformed
  }

  /** The numeric tests of the source on one stored entry, in its order. */
  predicate FieldsPlausible(r: Region, b: seq<byte>)
    requires r.Valid() && |b| == ENTRY_SIZE
  {
    var state, ns, keySize := FromLe(b[0x04..0x06]), FromLe(b[0x06..0x08]), KeySize(b);
    var offset, capacity := FromLe(b[0x10..0x18]), FromLe(b[0x18..0x20]);
    var size, generation, crc := FromLe(b[0x20..0x28]), FromLe(b[0x28..0x30]), FromLe(b[0x38..0x3c]);
    !(b[0..4] != MAGIC || state < ACTIVE || state > DELETING || ns < SAVE || ns > PRIVATE ||
      FromLe(b[0x08..0x0c]) != 0 || keySize == 0 || keySize > KEY_CAPACITY ||
      offset < r.DataStart() || offset % 64 != 0 || capacity == 0 || offset > r.size ||
      capacity > r.size - offset || size > capacity || (size == 0 && crc != 0) || generation == 0 ||
      !AllZero(b[0x40 + keySize..ENTRY_SIZE]))
  }

  lemma AcceptsSteps(r: Region, b: seq<byte>)
    requires r.Valid() && |b| == ENTRY_SIZE
    ensures Accepts(r, b) <==>
      && FieldsPlausible(r, b)
      && IsPath(b[0x40..0x40 + KeySize(b)])
      && (FromLe(b[0x06..0x08]) == PRIVATE ==> SLASH in b[0x40..0x40 + KeySize(b)])
      && FromLe(b[0x3c..0x40]) == Crc.Crc32(Unsealed(b))
  {
    hide Unsealed, Crc.Crc32, FromLe, IsPath, AllZero;
    FromLeFits(b[0x28..0x30]);
    FromLeFits(b[0x30..0x38]);
    FromLeFits(b[0x38..0x3c]);
  }

  /** The tests of the source, in its order: the fields one by one, then key, then checksum. */
  method ParseEntry(r: Region, stored: seq<byte>) returns (slot: Slot)
    requires r.Valid() && |stored| == ENTRY_SIZE
    ensures slot == Parse(r, stored)
  {
    AcceptsSteps(r, stored);
    if AllZero(stored) {
      return Free;
    }
    if !FieldsPlausible(r, stored) {
      return Malformed;
    }
    var key := stored[0x40..0x40 + KeySize(stored)];
    var ok, separator := PathIsValid(key);
    if !ok || (FromLe(stored[0x06..0x08]) == PRIVATE && !separator) {
      return Malformed;
    }
    var register := Crc.UpdateLoop(Crc.ONES, Unsealed(stored));
    if FromLe(stored[0x3c..0x40]) != Crc.Finish(register) {
      return Malformed;
    }
    slot := Occupied(Decode(stored));
  }

  // ---------- the two are inverse ----------

  /** Clearing the checksum field gives the body. */
  lemma UnsealedBody(e: Entry, sum: seq<byte>)
    requires |e.key| <= KEY_CAPACITY && |sum| == 4
    ensures Unsealed(WithSum(e, sum)) == Body(e)
  {
    var h, x, s, n := Head(e), Extent(e), Stamp(e, sum), Name(e);
    assert Stamp(e, sum) == Stamp(e, Zeros(4))[..20] + sum;
    assert Unsealed(WithSum(e, sum))[..60] == Body(e)[..60];
    assert Unsealed(WithSum(e, sum))[64..] == Body(e)[64..];
  }

  lemma FieldsDecode(r: Region, b: seq<byte>, e: Entry, sum: seq<byte>)
    requires HasFields(b, e, sum) && EntryOk(r, e) && r.Valid()
    ensures KeySize(b) == |e.key| && Decode(b) == e && FromLe(b[8..12]) == 0
  {
    LeZero(4);
    LeFits(2, e.state);
    LeFits(2, e.ns);
    LeFits(4, 0);
    LeFits(4, |e.key|);
    LeFits(8, e.offset);
    LeFits(8, e.capacity);
    LeFits(8, e.size);
    LeFits(8, e.generation);
    LeFits(8, e.modified);
    LeFits(4, e.crc);
  }

  /** A valid entry parses back to itself. */
  lemma PrintParse(r: Region, e: Entry)
    requires r.Valid() && EntryOk(r, e)
    ensures Parse(r, Print(e)) == Occupied(e)
  {
    hide WithSum, Body, Unsealed, Crc.Crc32, Decode, FromLe, Le, IsPath;
    var crc := Crc.Crc32(Body(e));
    var sum := Le(4, crc);
    PrintedFields(e, sum);
    UnsealedBody(e, sum);
    LeFits(4, crc);
    FieldsDecode(r, Print(e), e, sum);
    assert Print(e)[0..4][0] != 0;
  }

  /** An accepted slot is byte for byte the printed form of the entry it decodes to. */
  lemma ParsePrint(r: Region, b: seq<byte>)
    requires |b| == ENTRY_SIZE && Parse(r, b).Occupied?
    ensures EntryOk(r, Parse(r, b).e) && b == Print(Parse(r, b).e)
  {
    var e, sum := Decode(b), b[60..64];
    DecodedFields(b);
    FieldsDetermine(b, e, sum);
    UnsealedBody(e, sum);
    FromLeFits(sum);
  }

  lemma DecodedFields(b: seq<byte>)
    requires |b| == ENTRY_SIZE && KeySize(b) <= KEY_CAPACITY && b[0..4] == MAGIC
    requires FromLe(b[0x08..0x0c]) == 0 && AllZero(b[0x40 + KeySize(b)..ENTRY_SIZE])
    ensures HasFields(b, Decode(b), b[60..64])
  {
    hide Le, FromLe;
    LeZero(4);
    FromLeFits(b[4..6]);
    FromLeFits(b[6..8]);
    FromLeFits(b[8..12]);
    FromLeFits(b[12..16]);
    FromLeFits(b[16..24]);
    FromLeFits(b[24..32]);
    FromLeFits(b[32..40]);
    FromLeFits(b[40..48]);
    FromLeFits(b[48..56]);
    FromLeFits(b[56..60]);
  }

  /** The layout of a stored entry: every field at its offset, zeros between and behind, and the
      checksum of all of it with its own four bytes zeroed. */
  predicate Stores(b: seq<byte>, e: Entry)
    requires |e.key| <= 448
  {
    && |b| == 512 && b[0..4] == [0x4d, 0x45, 0x4e, 0x54]
    && FromLe(b[0x04..0x06]) == e.state && FromLe(b[0x06..0x08]) == e.ns
    && FromLe(b[0x08..0x0c]) == 0 && FromLe(b[0x0c..0x10]) == |e.key|
    && FromLe(b[0x10..0x18]) == e.offset && FromLe(b[0x18..0x20]) == e.capacity && FromLe(b[0x20..0x28]) == e.size
    && FromLe(b[0x28..0x30]) == e.generation && FromLe(b[0x30..0x38]) == e.modified && FromLe(b[0x38..0x3c]) == e.crc
    && FromLe(b[0x3c..0x40]) == Crc.Crc32(b[..0x3c] + Zeros(4) + b[0x40..])
    && b[0x40..0x40 + |e.key|] == e.key && AllZero(b[0x40 + |e.key|..])
  }

  /** A printed entry stores its fields, each truncated to its width. */
  lemma PrintStores(e: Entry)
    requires |e.key| <= KEY_CAPACITY
    ensures Stores(Print(e), Entry(e.state % 0x1_0000, e.ns % 0x1_0000, e.key, e.offset % U64, e.capacity % U64, e.size % U64,
                                   e.generation % U64, e.modified % U64, e.crc % U32))
  {
    hide WithSum, Le, FromLe, Crc.Crc32;
    var crc := Crc.Crc32(Body(e));
    var b, sum := Print(e), Le(4, crc);
    PrintedFields(e, sum);
    UnsealedBody(e, sum);
    assert b[..0x3c] + Zeros(4) + b[0x40..] == Unsealed(b);
    assert b[0x40 + |e.key|..] == b[0x40 + |e.key|..ENTRY_SIZE];
    Pow256Values();
    LeRoundTrip(2, e.state);
    LeRoundTrip(2, e.ns);
    LeRoundTrip(4, 0);
    LeRoundTrip(4, |e.key|);
    LeRoundTrip(8, e.offset);
    LeRoundTrip(8, e.capacity);
    LeRoundTrip(8, e.size);
    LeRoundTrip(8, e.generation);
    LeRoundTrip(8, e.modified);
    LeRoundTrip(4, e.crc);
    LeRoundTrip(4, crc);
    LeZero(4);
  }

  /** The printer of the source: fields stored one by one in a zeroed buffer, checksum last. */
  method BuildEntry(e: Entry) returns (stored: array<byte>)
    requires |e.key| <= KEY_CAPACITY
    ensures fresh(stored) && stored[..] == Print(e)
  {
    stored := new byte[ENTRY_SIZE](_ => 0);
    assert stored[..] == Filled([], ENTRY_SIZE);
    StoreHead(stored, e);
    StoreExtent(stored, e);
    StoreStamp(stored, e);
    StoreName(stored, e);
    ghost var body := stored[..];
    var register := Crc.UpdateLoop(Crc.ONES, stored[..]);
    WriteLe(stored, 0x3c, 4, Crc.Finish(register));
    SumOverBody(e, Le(4, Crc.Crc32(body)));
  }

  method StoreHead(stored: array<byte>, e: Entry)
    requires stored.Length == ENTRY_SIZE && stored[..] == Filled([], ENTRY_SIZE)
    modifies stored
    ensures stored[..] == Filled(Head(e), ENTRY_SIZE)
  {
    PutAfter([], ENTRY_SIZE, MAGIC);
    Copy(stored, 0, MAGIC);
    assert [] + MAGIC == MAGIC;
    ghost var p := AppendLe(stored, 0x04, 2, e.state, MAGIC);
    p := AppendLe(stored, 0x06, 2, e.ns, p);
    PutNext(p, ENTRY_SIZE, 4, Le(4, |e.key|));
    WriteLe(stored, 0x0c, 4, |e.key|);
  }

  method StoreExtent(stored: array<byte>, e: Entry)
    requires stored.Length == ENTRY_SIZE && stored[..] == Filled(Head(e), ENTRY_SIZE)
    modifies stored
    ensures stored[..] == Filled(Head(e) + Extent(e), ENTRY_SIZE)
  {
    ghost var p := AppendLe(stored, 0x10, 8, e.offset, Head(e));
    p := AppendLe(stored, 0x18, 8, e.capacity, p);
    p := AppendLe(stored, 0x20, 8, e.size, p);
    Regroup(Head(e), Le(8, e.offset), Le(8, e.capacity), Le(8, e.size));
  }

  function StampOpen(e: Entry): (b: seq<byte>)
    ensures |b| == 20
  {
    Le(8, e.generation) + Le(8, e.modified) + Le(4, e.crc)
  }

  method StoreStamp(stored: array<byte>, e: Entry)
    requires stored.Length == ENTRY_SIZE
    requires stored[..] == Filled(Head(e) + Extent(e), ENTRY_SIZE)
    modifies stored
    ensures stored[..] == Filled(Head(e) + Extent(e) + StampOpen(e), ENTRY_SIZE)
  {
    ghost var o := Head(e) + Extent(e);
    ghost var p := AppendLe(stored, 0x28, 8, e.generation, o);
    p := AppendLe(stored, 0x30, 8, e.modified, p);
    p := AppendLe(stored, 0x38, 4, e.crc, p);
    Regroup(o, Le(8, e.generation), Le(8, e.modified), Le(4, e.crc));
  }

  method StoreName(stored: array<byte>, e: Entry)
    requires stored.Length == ENTRY_SIZE && |e.key| <= KEY_CAPACITY
    requires stored[..] == Filled(Head(e) + Extent(e) + StampOpen(e), ENTRY_SIZE)
    modifies stored
    ensures stored[..] == Body(e)
  {
    ghost var o := Head(e) + Extent(e) + StampOpen(e);
    PutNext(o, ENTRY_SIZE, 4, e.key);
    Copy(stored, 0x40, e.key);
    assert o + Zeros(4) == Head(e) + Extent(e) + Stamp(e, Zeros(4));
    assert Filled(o + Zeros(4) + e.key, ENTRY_SIZE) == Body(e);
  }

  lemma SumOverBody(e: Entry, sum: seq<byte>)
    requires |e.key| <= KEY_CAPACITY && |sum| == 4
    ensures Put(Body(e), 0x3c, sum) == WithSum(e, sum)
  {
    UnsealedBody(e, sum);
    PrintedFields(e, sum);
    PutBack(WithSum(e, sum), 60, Zeros(4), sum);
  }

  // ---------- damage ----------

  /** A burst of up to four consecutive damaged bytes outside the checksum field is always
      noticed: the slot no longer parses. */
  lemma BurstRejected(r: Region, e: Entry, b: seq<byte>, at: nat)
    requires r.Valid() && EntryOk(r, e)
    requires Crc.DifferOnlyIn(Print(e), b, at, 4) && b != Print(e)
    requires b[60..64] == Print(e)[60..64]
    ensures Parse(r, b) == Malformed
  {
    hide Print, Accepts, Decode, Crc.Crc32, Put, FromLe, Le;
    var p := Print(e);
    PrintParse(r, e);
    Crc.SealBroken(p, b, at, 60);
    SealHolds(r, p);
    PrintNonZero(e);
    assert b[0] == p[0] || b[64] == p[64];
    assert !AllZero(b);
    if Parse(r, b).Occupied? {
      SealHolds(r, b);
    }
  }

  lemma PrintNonZero(e: Entry)
    requires 0 < |e.key| <= KEY_CAPACITY && NulFree(e.key)
    ensures Print(e)[0] != 0 && Print(e)[64] != 0
  {
    hide WithSum, Crc.Crc32, Body, Le;
    var p, sum := Print(e), Le(4, Crc.Crc32(Body(e)));
    PrintedFields(e, sum);
    assert p[0] == p[0..4][0] && p[64] == p[64..64 + |e.key|][0];
  }

  lemma SealHolds(r: Region, b: seq<byte>)
    requires |b| == ENTRY_SIZE && Parse(r, b).Occupied?
    ensures b[60..64] == Le(4, Crc.Crc32(Unsealed(b)))
    ensures FromLe(b[60..64]) == Crc.Crc32(Unsealed(b))
  {
    FromLeFits(b[60..64]);
  }

  /** Each byte of b comes from x or from y. */
  predicate MixOf(b: seq<byte>, x: seq<byte>, y: seq<byte>) {
    |b| == |x| == |y| && forall i :: 0 <= i < |b| ==> b[i] == x[i] || b[i] == y[i]
  }

  /** The state is the only byte outside the checksum field that a commit changes. */
  lemma CommitChanges(e: Entry, i: nat)
    requires |e.key| <= KEY_CAPACITY && i < ENTRY_SIZE && i != 4 && !(60 <= i < 64)
    ensures Print(e.(state := WRITING))[i] == Print(e.(state := ACTIVE))[i]
  {
    hide WithSum, Body, Crc.Crc32, Le, Head;
    var w, a := e.(state := WRITING), e.(state := ACTIVE);
    var sw, sa := Le(4, Crc.Crc32(Body(w))), Le(4, Crc.Crc32(Body(a)));
    PrintedGroups(w, sw, Print(w));
    PrintedGroups(a, sa, Print(a));
    if i < 16 {
      HeadChanges(e, i);
      assert Print(w)[i] == Print(w)[0..16][i] && Print(a)[i] == Print(a)[0..16][i];
    } else if i < 40 {
      assert Print(w)[i] == Print(w)[16..40][i - 16] && Print(a)[i] == Print(a)[16..40][i - 16];
    } else if i < 60 {
      assert Print(w)[i] == Print(w)[40..64][i - 40] && Print(a)[i] == Print(a)[40..64][i - 40];
    } else {
      assert Print(w)[i] == Print(w)[64..ENTRY_SIZE][i - 64] && Print(a)[i] == Print(a)[64..ENTRY_SIZE][i - 64];
    }
  }

  lemma HeadChanges(e: Entry, i: nat)
    requires |e.key| <= KEY_CAPACITY && i < 16 && i != 4
    ensures Head(e.(state := WRITING))[i] == Head(e.(state := ACTIVE))[i]
  {
    assert Le(2, WRITING) == [2] + Le(1, 0) && Le(2, ACTIVE) == [1] + Le(1, 0);
  }

  ghost predicate IsSealed(b: seq<byte>)
    requires |b| == ENTRY_SIZE
  {
    b[60..64] == Le(4, Crc.Crc32(Unsealed(b)))
  }

  /** A mix of two sealed entries that differ in one byte outside their seals, if itself sealed,
      is one of them. */
  lemma TornBytes(x: seq<byte>, y: seq<byte>, b: seq<byte>)
    requires |b| == ENTRY_SIZE && MixOf(b, x, y)
    requires IsSealed(x) && IsSealed(y) && IsSealed(b)
    requires forall i :: 0 <= i < ENTRY_SIZE && i != 4 && !(60 <= i < 64) ==> x[i] == y[i]
    ensures b == x || b == y
  {
    var z := if b[4] == x[4] then x else y;
    SameBody(b, z);
    SameSeal(b, z);
  }

  lemma SameBody(b: seq<byte>, z: seq<byte>)
    requires |b| == |z| == ENTRY_SIZE
    requires forall i :: 0 <= i < ENTRY_SIZE && !(60 <= i < 64) ==> b[i] == z[i]
    ensures Unsealed(b) == Unsealed(z)
  {
  }

  /** Even if the disk tears the final WRITING-to-ACTIVE rewrite inside the sector, whatever mix
      of old and new bytes still parses is one of the two entries whole. */
  lemma TornCommit(r: Region, e: Entry, b: seq<byte>)
    requires r.Valid() && EntryOk(r, e)
    requires MixOf(b, Print(e.(state := WRITING)), Print(e.(state := ACTIVE)))
    requires Parse(r, b).Occupied?
    ensures b == Print(e.(state := WRITING)) || b == Print(e.(state := ACTIVE))
  {
    hide Print, Accepts, Unsealed, Crc.Crc32, Le, FromLe, IsPath;
    PrintParse(r, e.(state := WRITING));
    PrintParse(r, e.(state := ACTIVE));
    forall i | 0 <= i < ENTRY_SIZE && i != 4 && !(60 <= i < 64)
      ensures Print(e.(state := WRITING))[i] == Print(e.(state := ACTIVE))[i]
    {
      CommitChanges(e, i);
    }
    SealHolds(r, Print(e.(state := WRITING)));
    SealHolds(r, Print(e.(state := ACTIVE)));
    SealHolds(r, b);
    TornBytes(Print(e.(state := WRITING)), Print(e.(state := ACTIVE)), b);
  }

  lemma SameSeal(b: seq<byte>, z: seq<byte>)
    requires |b| == |z| == ENTRY_SIZE && b[60..64] == z[60..64]
    requires forall i :: 0 <= i < ENTRY_SIZE && !(60 <= i < 64) ==> b[i] == z[i]
    ensures b == z
  {
    forall i | 60 <= i < 64 ensures b[i] == z[i] {
      assert b[60..64][i - 60] == z[60..64][i - 60];
    }
  }
}
