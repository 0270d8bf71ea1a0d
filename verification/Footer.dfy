/** The 128-byte footer of a container: its printer, the reader that lays the file out from it, and
    the proof that the two are inverse. */
module Footer {
  import opened Bytes
  import Crc

  const FOOTER_SIZE: nat := 128
  const RIDX_HEADER_SIZE: nat := 64
  const FORMAT_VERSION: nat := 2
  const HASH_NONE: nat := 0
  const HASH_SHA256: nat := 1
  const PROHIBITED: nat := 0xffff

  const MAGIC: seq<byte> := [0x52, 0x4f, 0x4d, 0x58]

  datatype Footer = Footer(payload: nat, metadata: nat, cover: nat, capacity: nat, platform: nat, launch: nat,
                           algorithm: nat, hash: seq<byte>)

  function Sizes(f: Footer): (b: seq<byte>)
    ensures |b| == 32
  {
    Le(8, f.payload) + Le(8, f.metadata) + (Le(8, f.cover) + Le(8, f.capacity))
  }

  function Registry(f: Footer): (b: seq<byte>)
    ensures |b| == 8
  {
    Le(2, f.platform) + Le(2, f.launch) + Le(4, f.algorithm)
  }

  function WithSum(f: Footer, sum: seq<byte>): (b: seq<byte>)
    requires |f.hash| == 32 && |sum| == 4
    ensures |b| == FOOTER_SIZE
  {
    (MAGIC + Le(4, FORMAT_VERSION)) + Sizes(f) + (Registry(f) + f.hash) + (sum + Zeros(44))
  }

  function Print(f: Footer): (b: seq<byte>)
    requires |f.hash| == 32
    ensures |b| == FOOTER_SIZE
  {
    WithSum(f, Le(4, Crc.Crc32(WithSum(f, Zeros(4)))))
  }

  predicate FitsWidths(f: Footer) {
    && f.payload < U64 && f.metadata < U64 && f.cover < U64 && f.capacity < U64
    && f.platform < U16 && f.launch < U16 && f.algorithm < U32 && |f.hash| == 32
  }

  // ---------- reading ----------

  function Decode(b: seq<byte>): (f: Footer)
    requires |b| == FOOTER_SIZE
    ensures |f.hash| == 32
  {
    Footer(FromLe(b[8..16]), FromLe(b[16..24]), FromLe(b[24..32]), FromLe(b[32..40]), FromLe(b[40..42]),
           FromLe(b[42..44]), FromLe(b[44..48]), b[48..80])
  }

  /** The parts of the file the footer announces. */
  datatype Info = Info(payload: nat, metadata: nat, cover: nat, regionOffset: nat, region: nat, immutable: nat,
                       footerOffset: nat, platform: nat, launch: nat, algorithm: nat, hash: seq<byte>)

  function InfoOf(f: Footer, fileSize: nat): Info
    requires fileSize >= FOOTER_SIZE + f.capacity
  {
    var end := fileSize - FOOTER_SIZE;
    Info(f.payload, f.metadata, f.cover, if f.capacity == 0 then 0 else end - f.capacity, f.capacity, end - f.capacity, end,
         f.platform, f.launch, f.algorithm, f.hash)
  }

  /** The demands on the numbers of a footer at the end of a file of the given size. */
  predicate Plausible(f: Footer, fileSize: nat) {
    && fileSize >= FOOTER_SIZE
    && f.payload != 0
    && (f.capacity != 0 ==> 12288 <= f.capacity && f.capacity % 4096 == 0)
    && f.payload + RIDX_HEADER_SIZE + f.capacity <= fileSize - FOOTER_SIZE
    && f.platform != PROHIBITED && f.launch != PROHIBITED
    && ((f.algorithm == HASH_NONE && AllZero(f.hash)) || f.algorithm == HASH_SHA256)
  }

  /** A footer the reader accepts. */
  predicate Accepts(b: seq<byte>, fileSize: nat)
    requires |b| == FOOTER_SIZE
  {
    && b[0..4] == MAGIC && FromLe(b[4..8]) == FORMAT_VERSION
    && FromLe(b[80..84]) == Crc.Crc32(Put(b, 80, Zeros(4)))
    && AllZero(b[84..128])
    && Plausible(Decode(b), fileSize)
  }

  datatype Result = Parsed(info: Info) | Truncated | InvalidFooter | OutOfRange

  /** The reader's checks, in its order, filling in the layout as it goes. */
  method ParseFooter(footer: seq<byte>, fileSize: nat) returns (r: Result)
    requires |footer| == FOOTER_SIZE
    ensures r.Parsed? <==> Accepts(footer, fileSize)
    ensures r.Parsed? ==> r.info == InfoOf(Decode(footer), fileSize)
    ensures r.Truncated? <==> fileSize < FOOTER_SIZE
  {
    hide FromLe, AllZero, Put, Crc.Crc32, Crc.Update, Crc.Finish;
    if fileSize < FOOTER_SIZE {
      return Truncated;
    }
    var footerOffset := fileSize - FOOTER_SIZE;
    if footer[0..4] != MAGIC || FromLe(footer[4..8]) != FORMAT_VERSION {
      return InvalidFooter;
    }
    var register := Crc.UpdateLoop(Crc.ONES, Put(footer, 80, Zeros(4)));
    Crc.Finished(Put(footer, 80, Zeros(4)));
    if Crc.Finish(register) != FromLe(footer[80..84]) || !AllZero(footer[84..128]) {
      return InvalidFooter;
    }
    var info := Info(FromLe(footer[8..16]), FromLe(footer[16..24]), FromLe(footer[24..32]), 0, 0, footerOffset, footerOffset,
                     FromLe(footer[40..42]), FromLe(footer[42..44]), FromLe(footer[44..48]), footer[48..80]);
    var capacity := FromLe(footer[32..40]);
    if info.payload == 0 || info.payload > footerOffset || footerOffset - info.payload < RIDX_HEADER_SIZE {
      return OutOfRange;
    }
    if capacity != 0 {
      if capacity < 12288 || capacity % 4096 != 0 || capacity > footerOffset {
        return OutOfRange;
      }
      info := info.(regionOffset := footerOffset - capacity, region := capacity, immutable := footerOffset - capacity);
    }
    if info.payload > info.immutable || info.immutable - info.payload < RIDX_HEADER_SIZE {
      return OutOfRange;
    }
    if info.platform == PROHIBITED || info.launch == PROHIBITED {
      return InvalidFooter;
    }
    if info.algorithm == HASH_NONE {
      if !AllZero(info.hash) {
        return InvalidFooter;
      }
    } else if info.algorithm != HASH_SHA256 {
      return InvalidFooter;
    }
    r := Parsed(info);
  }

  // ---------- printing and reading are inverse ----------

  predicate Fields(b: seq<byte>, f: Footer, sum: seq<byte>)
    requires |b| == FOOTER_SIZE
  {
    && b[0..4] == MAGIC && FromLe(b[4..8]) == FORMAT_VERSION
    && Decode(b) == f && b[80..84] == sum && AllZero(b[84..128])
  }

  lemma TwoPieces(b: seq<byte>, at: nat, x: seq<byte>, y: seq<byte>)
    requires at + |x| + |y| <= |b|
    ensures b[at..at + |x| + |y|] == x + y <==> b[at..at + |x|] == x && b[at + |x|..at + |x| + |y|] == y
  {
    StandsSplit(b, at, x, y);
  }

  lemma SizesExactly(b: seq<byte>, f: Footer)
    requires |b| == FOOTER_SIZE && FitsWidths(f)
    ensures b[8..40] == Sizes(f) <==> FromLe(b[8..16]) == f.payload && FromLe(b[16..24]) == f.metadata &&
                                      FromLe(b[24..32]) == f.cover && FromLe(b[32..40]) == f.capacity
  {
    hide FromLe, Le;
    LeExactly(b[8..16], 8, f.payload);
    LeExactly(b[16..24], 8, f.metadata);
    LeExactly(b[24..32], 8, f.cover);
    LeExactly(b[32..40], 8, f.capacity);
    TwoPieces(b, 8, Le(8, f.payload), Le(8, f.metadata));
    TwoPieces(b, 24, Le(8, f.cover), Le(8, f.capacity));
    TwoPieces(b, 8, Le(8, f.payload) + Le(8, f.metadata), Le(8, f.cover) + Le(8, f.capacity));
  }

  lemma RegistryExactly(b: seq<byte>, f: Footer)
    requires |b| == FOOTER_SIZE && FitsWidths(f)
    ensures b[40..80] == Registry(f) + f.hash <==>
      FromLe(b[40..42]) == f.platform && FromLe(b[42..44]) == f.launch && FromLe(b[44..48]) == f.algorithm && b[48..80] == f.hash
  {
    hide FromLe, Le;
    LeExactly(b[40..42], 2, f.platform);
    LeExactly(b[42..44], 2, f.launch);
    LeExactly(b[44..48], 4, f.algorithm);
    ThreePieces(b, 40, Le(2, f.platform), Le(2, f.launch), Le(4, f.algorithm));
    TwoPieces(b, 40, Registry(f), f.hash);
  }

  lemma EndsExactly(b: seq<byte>, sum: seq<byte>)
    requires |b| == FOOTER_SIZE && |sum| == 4
    ensures b[0..8] == MAGIC + Le(4, FORMAT_VERSION) <==> b[0..4] == MAGIC && FromLe(b[4..8]) == FORMAT_VERSION
    ensures b[80..128] == sum + Zeros(44) <==> b[80..84] == sum && AllZero(b[84..128])
  {
    hide FromLe, Le;
    LeExactly(b[4..8], 4, FORMAT_VERSION);
    ZerosExactly(b[84..128]);
    TwoPieces(b, 0, MAGIC, Le(4, FORMAT_VERSION));
    TwoPieces(b, 80, sum, Zeros(44));
  }

  lemma Assembled(b: seq<byte>, a: seq<byte>, c: seq<byte>, d: seq<byte>, e: seq<byte>)
    requires |b| == FOOTER_SIZE && |a| == 8 && |c| == 32 && |d| == 40 && |e| == 48
    ensures b == a + c + d + e <==> b[0..8] == a && b[8..40] == c && b[40..80] == d && b[80..128] == e
  {
    if !(b == a + c + d + e) {
      assert b == b[0..8] + b[8..40] + b[40..80] + b[80..128];
    }
  }

  /** The fields of a footer determine it, and the other way round. */
  lemma FooterExactly(b: seq<byte>, f: Footer, sum: seq<byte>)
    requires |b| == FOOTER_SIZE && |sum| == 4 && FitsWidths(f)
    ensures b == WithSum(f, sum) <==> Fields(b, f, sum)
  {
    hide FromLe, Le, Sizes, Registry, AllZero;
    SizesExactly(b, f);
    RegistryExactly(b, f);
    EndsExactly(b, sum);
    Assembled(b, MAGIC + Le(4, FORMAT_VERSION), Sizes(f), Registry(f) + f.hash, sum + Zeros(44));
  }

  lemma SumCleared(f: Footer, sum: seq<byte>)
    requires |f.hash| == 32 && |sum| == 4
    ensures Put(WithSum(f, sum), 80, Zeros(4)) == WithSum(f, Zeros(4))
  {
    hide Sizes, Registry, Le;
    var front := (MAGIC + Le(4, FORMAT_VERSION)) + Sizes(f) + (Registry(f) + f.hash);
    assert WithSum(f, sum) == front + (sum + Zeros(44)) && |front| == 80;
    assert Put(front + (sum + Zeros(44)), 80, Zeros(4)) == front + (Zeros(4) + Zeros(44));
  }

  /** A printed footer with plausible numbers is accepted, and says what it was printed from. */
  lemma PrintAccepted(f: Footer, fileSize: nat)
    requires FitsWidths(f) && Plausible(f, fileSize)
    ensures Accepts(Print(f), fileSize) && Decode(Print(f)) == f
  {
    hide WithSum, AllZero, FromLe;
    var crc := Crc.Crc32(WithSum(f, Zeros(4)));
    var sum := Le(4, crc);
    FooterExactly(Print(f), f, sum);
    SumCleared(f, sum);
    LeExactly(sum, 4, crc);
  }

  lemma DecodeFits(b: seq<byte>)
    requires |b| == FOOTER_SIZE
    ensures FitsWidths(Decode(b))
  {
    FromLeFits(b[8..16]);
    FromLeFits(b[16..24]);
    FromLeFits(b[24..32]);
    FromLeFits(b[32..40]);
    FromLeFits(b[40..42]);
    FromLeFits(b[42..44]);
    FromLeFits(b[44..48]);
  }

  /** An accepted footer is byte for byte the print of what it says. */
  lemma AcceptedPrints(b: seq<byte>, fileSize: nat)
    requires |b| == FOOTER_SIZE && Accepts(b, fileSize)
    ensures b == Print(Decode(b))
  {
    hide WithSum, AllZero, FromLe;
    var f, sum := Decode(b), b[80..84];
    DecodeFits(b);
    FooterExactly(b, f, sum);
    SumCleared(f, sum);
    LeExactly(sum, 4, Crc.Crc32(WithSum(f, Zeros(4))));
  }

  /** Damage to at most four consecutive bytes of an accepted footer, its checksum apart, is noticed. */
  lemma BurstRejected(b: seq<byte>, damaged: seq<byte>, at: nat, fileSize: nat)
    requires |b| == FOOTER_SIZE && Accepts(b, fileSize)
    requires Crc.DifferOnlyIn(b, damaged, at, 4) && b != damaged && b[80..84] == damaged[80..84]
    ensures !Accepts(damaged, fileSize)
  {
    hide Plausible, Decode, Crc.Crc32, FromLe, AllZero, Put;
    Crc.SealBroken(b, damaged, at, 80);
  }
}
