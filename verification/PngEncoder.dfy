/** The PNG encoder for RGBA images, which stores rows unfiltered in uncompressed blocks, and the
    decoder that shows nothing is lost. */
module PngEncoder {
  import opened Bytes
  import opened Png
  import opened PngLanguage
  import Crc

  const BLOCK: nat := 65535
  const ADLER_BASE: nat := 65521

  // ---------- rows ----------

  /** The first y rows of k bytes each, every one behind filter byte 0. */
  function Rows(rgba: seq<byte>, k: nat, y: nat): (r: seq<byte>)
    requires y * k <= |rgba|
    ensures |r| == y * (1 + k)
  {
    if y == 0 then []
    else
      RowFits(k, y);
      Rows(rgba, k, y - 1) + ([0] + rgba[(y - 1) * k..y * k])
  }

  lemma RowFits(k: nat, y: nat)
    requires y > 0
    ensures 0 <= (y - 1) * k && y * k == (y - 1) * k + k && y * (1 + k) == (y - 1) * (1 + k) + 1 + k
  {
  }

  /** Undoes filter byte 0 in each of y rows; other filters are not understood. */
  function Unfilter(raw: seq<byte>, k: nat, y: nat): Option<seq<byte>>
    requires y * (1 + k) <= |raw|
  {
    if y == 0 then Some([])
    else
      RowFits(k, y);
      RowInside(k, y);
      var before := Unfilter(raw, k, y - 1);
      if before.None? || raw[(y - 1) * (1 + k)] != 0 then None
      else Some(before.value + raw[(y - 1) * (1 + k) + 1..y * (1 + k)])
  }

  lemma RowInside(k: nat, y: nat)
    requires y > 0
    ensures 0 <= (y - 1) * (1 + k) < y * (1 + k)
  {
    RowFits(k, y);
  }

  lemma {:induction false} UnfilterRows(rgba: seq<byte>, k: nat, y: nat, tail: seq<byte>)
    requires y * k <= |rgba|
    ensures |Rows(rgba, k, y) + tail| >= y * (1 + k)
    ensures Unfilter(Rows(rgba, k, y) + tail, k, y) == Some(rgba[..y * k])
    decreases y
  {
    if y > 0 {
      RowFits(k, y);
      UnfilterRows(rgba, k, y - 1, [0] + rgba[(y - 1) * k..y * k] + tail);
      UnfilterRow(rgba, k, y, tail);
    }
  }

  lemma UnfilterRow(rgba: seq<byte>, k: nat, y: nat, tail: seq<byte>)
    requires 0 < y && 0 <= (y - 1) * k <= y * k <= |rgba|
    requires var raw := Rows(rgba, k, y - 1) + ([0] + rgba[(y - 1) * k..y * k] + tail);
      |raw| >= (y - 1) * (1 + k) && Unfilter(raw, k, y - 1) == Some(rgba[..(y - 1) * k])
    ensures |Rows(rgba, k, y) + tail| >= y * (1 + k)
    ensures Unfilter(Rows(rgba, k, y) + tail, k, y) == Some(rgba[..y * k])
  {
    RowFits(k, y);
    RowInside(k, y);
    var front := Rows(rgba, k, y - 1);
    RowThere(front, rgba, tail, (y - 1) * k, y * k);
    assert Rows(rgba, k, y) == front + ([0] + rgba[(y - 1) * k..y * k]);
    hide Unfilter, Rows;
    UnfilterNext(front + ([0] + rgba[(y - 1) * k..y * k] + tail), k, y, rgba[..(y - 1) * k], rgba[(y - 1) * k..y * k]);
  }

  lemma UnfilterNext(raw: seq<byte>, k: nat, y: nat, before: seq<byte>, pixels: seq<byte>)
    requires 0 < y && 0 <= (y - 1) * (1 + k) < y * (1 + k) <= |raw|
    requires Unfilter(raw, k, y - 1) == Some(before) && raw[(y - 1) * (1 + k)] == 0
    requires raw[(y - 1) * (1 + k) + 1..y * (1 + k)] == pixels
    ensures Unfilter(raw, k, y) == Some(before + pixels)
  {
  }

  /** One row behind its filter byte, between the rows before it and what follows. */
  lemma RowThere(front: seq<byte>, rgba: seq<byte>, tail: seq<byte>, p: nat, q: nat)
    requires p <= q <= |rgba|
    ensures var raw := front + ([0] + rgba[p..q] + tail);
      && raw == front + ([0] + rgba[p..q]) + tail
      && raw[|front|] == 0 && raw[|front| + 1..|front| + 1 + (q - p)] == rgba[p..q]
    ensures rgba[..p] + rgba[p..q] == rgba[..q]
  {
  }

  // ---------- stored blocks ----------

  function Block(last: bool, data: seq<byte>): (b: seq<byte>)
    requires |data| <= BLOCK
    ensures |b| == 5 + |data|
  {
    [if last then 1 else 0] + (Le(2, |data|) + (Le(2, BLOCK - |data|) + data))
  }

  function Blocks(s: seq<byte>): seq<byte>
    decreases |s|
  {
    if s == [] then []
    else if |s| <= BLOCK then Block(true, s)
    else Block(false, s[..BLOCK]) + Blocks(s[BLOCK..])
  }

  lemma {:induction false} BlocksSize(s: seq<byte>)
    ensures |Blocks(s)| == |s| + (|s| + 65534) / 65535 * 5
    decreases |s|
  {
    if |s| > BLOCK {
      BlocksSize(s[BLOCK..]);
      OneBlockLess(|s|);
    }
  }

  lemma OneBlockLess(n: nat)
    requires n > BLOCK
    ensures (n + 65534) / 65535 == (n - BLOCK + 65534) / 65535 + 1
  {
  }

  /** Undoes stored blocks (section 3.2.4 of RFC 1951); the last block must end the data. */
  function Inflate(b: seq<byte>): Option<seq<byte>>
    decreases |b|
  {
    if |b| < 5 || b[0] / 2 % 4 != 0 then None
    else
      var size := FromLe(b[1..3]);
      if FromLe(b[3..5]) != 0xffff - size || 5 + size > |b| then None
      else if b[0] % 2 == 1 then (if 5 + size == |b| then Some(b[5..]) else None)
      else
        var rest := Inflate(b[5 + size..]);
        if rest.None? then None else Some(b[5..5 + size] + rest.value)
  }

  lemma BlockFields(last: bool, data: seq<byte>, rest: seq<byte>)
    requires |data| <= BLOCK
    ensures var b := Block(last, data) + rest;
      && |b| >= 5 && b[0] == (if last then 1 else 0)
      && FromLe(b[1..3]) == |data| && FromLe(b[3..5]) == 0xffff - |data|
      && b[5..5 + |data|] == data && b[5 + |data|..] == rest
  {
    hide Le, FromLe;
    var b := Block(last, data) + rest;
    Pow256Values();
    LeFits(2, |data|);
    LeFits(2, BLOCK - |data|);
    assert b[1..3] == Le(2, |data|) && b[3..5] == Le(2, BLOCK - |data|);
  }

  /** Undoing the blocks gives the data back. */
  lemma {:induction false} InflateBlocks(s: seq<byte>)
    requires s != []
    ensures Inflate(Blocks(s)) == Some(s)
    decreases |s|
  {
    hide Block;
    if |s| <= BLOCK {
      BlockFields(true, s, []);
      assert Block(true, s) + [] == Blocks(s);
      InflateLast(Blocks(s), s);
    } else {
      BlockFields(false, s[..BLOCK], Blocks(s[BLOCK..]));
      InflateBlocks(s[BLOCK..]);
      assert s[..BLOCK] + s[BLOCK..] == s;
    }
  }

  lemma InflateLast(b: seq<byte>, s: seq<byte>)
    requires |b| == 5 + |s| && b[0] == 1 && FromLe(b[1..3]) == |s| && FromLe(b[3..5]) == 0xffff - |s| && b[5..5 + |s|] == s
    ensures Inflate(b) == Some(s)
  {
    hide FromLe;
    assert b[5..] == b[5..5 + |s|];
  }

  // ---------- the container ----------

  /** The two sums of the Adler-32 checksum. */
  function Sums(s: seq<byte>): (ab: (nat, nat))
    ensures ab.0 < ADLER_BASE && ab.1 < ADLER_BASE
  {
    if s == [] then (1, 0)
    else
      var before := Sums(s[..|s| - 1]);
      var a := (before.0 + s[|s| - 1]) % ADLER_BASE;
      (a, (before.1 + a) % ADLER_BASE)
  }

  function Adler(s: seq<byte>): (v: nat)
    ensures v < U32
  {
    Sums(s).1 * 0x1_0000 + Sums(s).0
  }

  /** The plain sum of the bytes, and the sum with each byte counted once for itself and once for
      every byte behind it. */
  function ByteSum(s: seq<byte>): nat {
    if s == [] then 0 else ByteSum(s[..|s| - 1]) + s[|s| - 1]
  }

  function WeightedSum(s: seq<byte>): nat {
    if s == [] then 0 else s[0] * |s| + WeightedSum(s[1..])
  }

  lemma {:induction false} WeightedMore(s: seq<byte>, b: byte)
    ensures WeightedSum(s + [b]) == WeightedSum(s) + ByteSum(s + [b])
    decreases |s|
  {
    if s == [] {
      assert ([] + [b])[1..] == [] && ([] + [b])[..0] == [];
    } else {
      assert (s + [b])[1..] == s[1..] + [b] && (s + [b])[0] == s[0];
      WeightedMore(s[1..], b);
      SumHead(s + [b]);
      Distribute(s[0], |s|);
    }
  }

  lemma Distribute(b: nat, n: nat)
    ensures b * (n + 1) == b * n + b
  {
  }

  lemma {:induction false} SumHead(s: seq<byte>)
    requires s != []
    ensures ByteSum(s) == s[0] + ByteSum(s[1..])
    decreases |s|
  {
    if |s| == 1 {
      assert s[..0] == [] && s[1..] == [];
    } else {
      SumHead(s[..|s| - 1]);
      assert s[..|s| - 1][1..] == s[1..][..|s| - 2];
    }
  }

  /** The Adler-32 sums in closed form (RFC 1950, section 8): one plus all bytes, and the length plus
      each byte times its distance from the end, both modulo 65521. */
  lemma {:induction false} SumsClosed(s: seq<byte>)
    ensures Sums(s).0 == (1 + ByteSum(s)) % 65521
    ensures Sums(s).1 == (|s| + WeightedSum(s)) % 65521
    ensures Adler(s) == (|s| + WeightedSum(s)) % 65521 * 0x1_0000 + (1 + ByteSum(s)) % 65521
    decreases |s|
  {
    hide Sums, ByteSum, WeightedSum;
    if s == [] {
      SumsOfNothing();
    } else {
      var n := |s| - 1;
      SumsClosed(s[..n]);
      SumsLast(s);
      ModAdds(1 + ByteSum(s[..n]), s[n]);
      ModAdds(n + WeightedSum(s[..n]), Sums(s).0);
      ModAdds(1 + ByteSum(s), n + WeightedSum(s[..n]));
    }
  }

  lemma {:induction false} SumsLast(s: seq<byte>)
    requires s != []
    ensures var n := |s| - 1;
      && ByteSum(s) == ByteSum(s[..n]) + s[n] && WeightedSum(s) == WeightedSum(s[..n]) + ByteSum(s)
      && Sums(s).0 == (Sums(s[..n]).0 + s[n]) % 65521 && Sums(s).1 == (Sums(s[..n]).1 + Sums(s).0) % 65521
  {
    hide Sums, ByteSum, WeightedSum;
    var n := |s| - 1;
    SumsUnfold(s);
    WeightedMore(s[..n], s[n]);
    assert s == s[..n] + [s[n]];
  }

  lemma SumsOfNothing()
    ensures Sums([]) == (1, 0) && ByteSum([]) == 0 && WeightedSum([]) == 0
  {
  }

  lemma {:induction false} SumsUnfold(s: seq<byte>)
    requires s != []
    ensures ByteSum(s) == ByteSum(s[..|s| - 1]) + s[|s| - 1]
    ensures Sums(s).0 == (Sums(s[..|s| - 1]).0 + s[|s| - 1]) % 65521
    ensures Sums(s).1 == (Sums(s[..|s| - 1]).1 + Sums(s).0) % 65521
  {
  }

  lemma ModAdds(a: nat, b: nat)
    ensures (a % 65521 + b) % 65521 == (a + b) % 65521
  {
  }

  function Zlib(raw: seq<byte>): seq<byte> {
    [0x78, 0x01] + (Blocks(raw) + Be(4, Adler(raw)))
  }

  /** Undoes Zlib, checking its header and its checksum (RFC 1950, section 2.2). */
  function Unzlib(z: seq<byte>): Option<seq<byte>> {
    if |z| < 6 || z[0] % 16 != 8 || FromBe(z[..2]) % 31 != 0 || z[1] / 0x20 % 2 != 0 then None
    else
      var raw := Inflate(z[2..|z| - 4]);
      if raw.None? || FromBe(z[|z| - 4..]) != Adler(raw.value) then None else raw
  }

  lemma ZlibHeader()
    ensures FromBe([0x78, 0x01]) % 31 == 0
  {
    assert [0x78, 0x01][..1] == [0x78] && [0x78][..0] == [];
  }

  lemma UnzlibZlib(raw: seq<byte>)
    requires raw != []
    ensures Unzlib(Zlib(raw)) == Some(raw)
  {
    hide Blocks, Inflate, Sums, FromBe, Be;
    var z := Zlib(raw);
    InflateBlocks(raw);
    Pow256Values();
    BeExactly(Be(4, Adler(raw)), 4, Adler(raw));
    assert z[..2] == [0x78, 0x01];
    ZlibHeader();
    assert z[2..|z| - 4] == Blocks(raw) && z[|z| - 4..] == Be(4, Adler(raw));
  }

  // ---------- the image ----------

  function Header(width: nat, height: nat): (d: seq<byte>)
    ensures |d| == 13
  {
    Be(4, width) + (Be(4, height) + [8, 6, 0, 0, 0])
  }

  function ImageChunks(rgba: seq<byte>, width: nat, height: nat): (cs: seq<Chunk>)
    requires |rgba| == height * (4 * width)
    ensures |cs| == 3
  {
    [Chunk(IHDR, Header(width, height)), Chunk(IDAT, Zlib(Rows(rgba, 4 * width, height))), Chunk(IEND, [])]
  }

  function Image(rgba: seq<byte>, width: nat, height: nat): seq<byte>
    requires |rgba| == height * (4 * width)
  {
    SIGNATURE + Texts(ImageChunks(rgba, width, height))
  }

  /** All the image data of a file. */
  function ImageData(cs: seq<Chunk>): seq<byte> {
    if cs == [] then []
    else (if cs[0].kind == IDAT then cs[0].data else []) + ImageData(cs[1..])
  }

  /** The pixels of an 8-bit RGBA cover stored without filters or compression. */
  function Pixels(cover: seq<byte>): Option<seq<byte>> {
    PixelsOf(Chunks(cover, 8))
  }

  function PixelsOf(cs: seq<Chunk>): Option<seq<byte>> {
    if cs == [] || |cs[0].data| != 13 || cs[0].data[8..] != [8, 6, 0, 0, 0] then None
    else
      var raw := Unzlib(ImageData(cs));
      var k, y := 4 * Width(cs[0].data), Height(cs[0].data);
      if raw.None? || |raw.value| != y * (1 + k) then None else Unfilter(raw.value, k, y)
  }

  lemma HeaderFields(width: nat, height: nat)
    requires width < U32 && height < U32
    ensures var d := Header(width, height);
      Width(d) == width && Height(d) == height && d[8..] == [8, 6, 0, 0, 0]
  {
    hide Be, FromBe;
    var d := Header(width, height);
    Pow256Values();
    BeExactly(d[0..4], 4, width);
    BeExactly(d[4..8], 4, height);
    assert d[0..4] == Be(4, width) && d[4..8] == Be(4, height);
  }

  /** The three chunks are a legal cover. */
  lemma ImageLegal(rgba: seq<byte>, width: nat, height: nat, limit: nat)
    requires |rgba| == height * (4 * width) && 0 < width <= limit && 0 < height <= limit && width < U32 && height < U32
    requires |Zlib(Rows(rgba, 4 * width, height))| <= MAX_LENGTH
    ensures AllOk(ImageChunks(rgba, width, height)) && Legal(ImageChunks(rgba, width, height), limit)
  {
    hide Zlib, Rows, Header, Width, Height;
    HeaderFields(width, height);
    KindsDiffer();
    KindsOk();
    var cs := ImageChunks(rgba, width, height);
    var d := cs[0].data;
    assert d[8] == d[8..][0] && d[9] == d[8..][1] && d[10] == d[8..][2] && d[11] == d[8..][3] && d[12] == d[8..][4];
    assert cs[1].kind == IDAT;
  }

  lemma KindsOk()
    ensures KindOk(IHDR) && KindOk(IDAT) && KindOk(IEND)
  {
  }

  /** Every encoded image is accepted with its own dimensions. */
  lemma EncodedAccepted(rgba: seq<byte>, width: nat, height: nat, maxSize: nat, limit: nat)
    requires |rgba| == height * (4 * width) && 0 < width <= limit && 0 < height <= limit && width < U32 && height < U32
    requires |Zlib(Rows(rgba, 4 * width, height))| <= MAX_LENGTH && |Image(rgba, width, height)| <= maxSize
    ensures VerdictOf(Image(rgba, width, height), maxSize, limit) == Valid(width, height)
    ensures Chunks(Image(rgba, width, height), 8) == ImageChunks(rgba, width, height)
  {
    hide Zlib, Rows, Header, Width, Height, AllOk, Legal, Chunks, Texts;
    ImageLegal(rgba, width, height, limit);
    HeaderFields(width, height);
    ReadsAs(Image(rgba, width, height), maxSize, limit, ImageChunks(rgba, width, height));
  }

  /** The encoder stores the length of the image chunk in 32 bits; the validator takes 31: of all
      images the length field can express, exactly these are accepted. */
  lemma AcceptedExactly(rgba: seq<byte>, width: nat, height: nat, maxSize: nat, limit: nat)
    requires |rgba| == height * (4 * width) && width < U32 && height < U32
    requires |Zlib(Rows(rgba, 4 * width, height))| < U32
    ensures VerdictOf(Image(rgba, width, height), maxSize, limit).Valid? <==>
      && 0 < width <= limit && 0 < height <= limit
      && |Zlib(Rows(rgba, 4 * width, height))| <= MAX_LENGTH && |Image(rgba, width, height)| <= maxSize
  {
    hide Zlib, Rows, Header, Read, Texts, IhdrOk;
    var img, z := Image(rgba, width, height), Zlib(Rows(rgba, 4 * width, height));
    var st := Read(img, 8, START, limit);
    if 0 < width <= limit && 0 < height <= limit && |z| <= MAX_LENGTH {
      if |img| <= maxSize {
        EncodedAccepted(rgba, width, height, maxSize, limit);
      }
    } else if st.Some? {
      HeaderRead(rgba, width, height, limit);
      ImageRefused(rgba, width, height, limit);
    }
  }

  /** The first chunk is the header, and decides about the dimensions. */
  lemma HeaderRead(rgba: seq<byte>, width: nat, height: nat, limit: nat)
    requires |rgba| == height * (4 * width) && width < U32 && height < U32
    ensures ReadChunk(Image(rgba, width, height), 8) == Some(Chunk(IHDR, Header(width, height)))
    ensures var d := Header(width, height); IhdrOk(d, limit) <==> 0 < width <= limit && 0 < height <= limit
  {
    hide Zlib, Rows, Header, Width, Height, Text, Stands;
    KindsOk();
    HeaderFields(width, height);
    var d := Header(width, height);
    assert d[8] == d[8..][0] && d[9] == d[8..][1] && d[10] == d[8..][2] && d[11] == d[8..][3] && d[12] == d[8..][4];
    ChunksStand(rgba, width, height);
    ChunkExact(Image(rgba, width, height), 8, Chunk(IHDR, d));
  }

  /** Where the first two chunks stand. */
  lemma ChunksStand(rgba: seq<byte>, width: nat, height: nat)
    requires |rgba| == height * (4 * width)
    ensures var img, a, b := Image(rgba, width, height), ImageChunks(rgba, width, height)[0], ImageChunks(rgba, width, height)[1];
      && |Text(a)| == 25 && Stands(img, 8, Text(a)) && Stands(img, 33, Text(b))
  {
    hide Zlib, Rows, Header, Text;
    var cs := ImageChunks(rgba, width, height);
    var a, b, rest := cs[0], cs[1], Texts(cs[2..]);
    ChunkSize(IHDR, cs[0].data);
    assert cs[1..][0] == cs[1] && cs[1..][1..] == cs[2..];
    assert Texts(cs) == Text(a) + (Text(b) + rest);
    var img := Image(rgba, width, height);
    assert img == SIGNATURE + (Text(a) + (Text(b) + rest));
    assert Stands(img, 0, SIGNATURE + (Text(a) + (Text(b) + rest)));
    StandsSplit(img, 0, SIGNATURE, Text(a) + (Text(b) + rest));
    StandsSplit(img, 8, Text(a), Text(b) + rest);
    StandsSplit(img, 33, Text(b), rest);
  }

  /** Wrong dimensions end the reading at the first chunk, too long an image at the second. */
  lemma ImageRefused(rgba: seq<byte>, width: nat, height: nat, limit: nat)
    requires |rgba| == height * (4 * width) && width < U32 && height < U32
    requires |Zlib(Rows(rgba, 4 * width, height))| < U32
    requires !(0 < width <= limit && 0 < height <= limit) || |Zlib(Rows(rgba, 4 * width, height))| > MAX_LENGTH
    ensures Read(Image(rgba, width, height), 8, START, limit).None?
  {
    hide Zlib, Rows, Header, IhdrOk, Read, ReadChunk, Width, Height, Image;
    var img := Image(rgba, width, height);
    HeaderRead(rgba, width, height, limit);
    ReadNext(img, 8, START, limit);
    if 0 < width <= limit && 0 < height <= limit {
      TooLong(rgba, width, height);
      ReadNext(img, 33, Step(START, Chunk(IHDR, Header(width, height)), limit).value, limit);
    }
  }

  lemma TooLong(rgba: seq<byte>, width: nat, height: nat)
    requires |rgba| == height * (4 * width) && MAX_LENGTH < |Zlib(Rows(rgba, 4 * width, height))| < U32
    ensures ReadChunk(Image(rgba, width, height), 33).None?
  {
    hide Zlib, Rows, Header, Be, FromBe, Crc.Crc32, KindOk, Image;
    var img, c := Image(rgba, width, height), ImageChunks(rgba, width, height)[1];
    ChunksStand(rgba, width, height);
    StandsSplit(img, 33, Be(4, |c.data|), c.kind + (c.data + Be(4, Crc.Crc32(c.kind + c.data))));
    Pow256Values();
    BeExactly(img[33..37], 4, |c.data|);
  }

  /** And its pixels can be recovered from it. */
  lemma EncodedInvertible(rgba: seq<byte>, width: nat, height: nat)
    requires |rgba| == height * (4 * width) && 0 < width < U32 && 0 < height < U32
    requires |Zlib(Rows(rgba, 4 * width, height))| <= MAX_LENGTH
    ensures Pixels(Image(rgba, width, height)) == Some(rgba)
  {
    hide Zlib, PixelsOf, Rows, Chunks, Texts, ImageChunks;
    EncodedAccepted(rgba, width, height, |Image(rgba, width, height)|, U32);
    ChunksPixels(rgba, width, height);
  }

  lemma ChunksPixels(rgba: seq<byte>, width: nat, height: nat)
    requires |rgba| == height * (4 * width) && width < U32 && 0 < height < U32
    ensures PixelsOf(ImageChunks(rgba, width, height)) == Some(rgba)
  {
    hide Zlib, Unzlib, Unfilter, Rows, Header, Width, Height, ImageData;
    HeaderFields(width, height);
    var k := 4 * width;
    var raw := Rows(rgba, k, height);
    OneImageData(ImageChunks(rgba, width, height));
    RowInside(k, height);
    UnzlibZlib(raw);
    UnfilterRows(rgba, k, height, []);
    assert raw + [] == raw && rgba[..height * k] == rgba;
  }

  lemma OneImageData(cs: seq<Chunk>)
    requires |cs| == 3 && cs[0].kind == IHDR && cs[1].kind == IDAT && cs[2].kind == IEND
    ensures ImageData(cs) == cs[1].data
  {
    KindsDiffer();
    var t := cs[1..];
    assert t[1..] == [cs[2]] && [cs[2]][1..] == [];
    assert ImageData([cs[2]]) == [] + ImageData([]);
    assert ImageData(t) == cs[1].data + ImageData(t[1..]);
  }

  // ---------- the encoder ----------

  method AdlerLoop(data: seq<byte>) returns (sum: nat)
    ensures sum == Adler(data)
  {
    var a, b := 1, 0;
    assert data[..0] == [];
    for index := 0 to |data|
      invariant (a, b) == Sums(data[..index])
    {
      assert data[..index + 1][..index] == data[..index];
      a := (a + data[index]) % ADLER_BASE;
      b := (b + a) % ADLER_BASE;
    }
    assert data[..|data|] == data;
    sum := b * 0x1_0000 + a;
  }

  /** Stores a number below 2^32, most significant byte first. */
  method WriteBe(a: array<byte>, at: nat, value: nat)
    requires at + 4 <= a.Length
    modifies a
    ensures a[..] == Put(old(a[..]), at, Be(4, value))
  {
    BeFour(value);
    a[at] := value / 0x100_0000 % 256;
    a[at + 1] := value / 0x1_0000 % 256;
    a[at + 2] := value / 0x100 % 256;
    a[at + 3] := value % 256;
  }

  lemma BeFour(v: nat)
    ensures Be(4, v) == [v / 0x100_0000 % 256, v / 0x1_0000 % 256, v / 0x100 % 256, v % 256]
  {
    var x, y, z := v / 256, v / 256 / 256, v / 256 / 256 / 256;
    assert x / 256 == v / 0x1_0000 && y / 256 == v / 0x100_0000;
    assert Be(1, z) == [z % 256];
    assert Be(2, y) == Be(1, z) + [y % 256];
    assert Be(3, x) == Be(2, y) + [x % 256];
    assert Be(4, v) == Be(3, x) + [v % 256];
  }

  /** Goes on writing behind what was written so far. */
  method CopyOn(output: array<byte>, at: nat, b: seq<byte>, ghost before: seq<byte>, ghost start: nat, ghost done: seq<byte>)
    requires |before| == output.Length && at == start + |done| && at + |b| <= output.Length
    requires output[..] == Put(before, start, done)
    modifies output
    ensures output[..] == Put(before, start, done + b)
  {
    hide Put;
    PutPut(before, start, done, b);
    if |b| != 0 {
      Copy(output, at, b);
    } else {
      assert done + b == done && Put(Put(before, start, done), at, b) == Put(before, start, done) by {
        PutNothing(Put(before, start, done), at, b);
      }
    }
  }

  lemma PutNothing(s: seq<byte>, at: nat, b: seq<byte>)
    requires at <= |s| && b == []
    ensures Put(s, at, b) == s
  {
  }

  /** Stores a whole chunk; the data may already lie where it belongs. */
  method PngChunk(output: array<byte>, at: nat, kind: seq<byte>, data: seq<byte>)
    requires |kind| == 4 && at + 12 + |data| <= output.Length
    modifies output
    ensures output[..] == Put(old(output[..]), at, Text(Chunk(kind, data)))
  {
    hide Crc.Crc32, Be, Put, Text, Crc.Update, Crc.Finish;
    ghost var before := output[..];
    WriteBe(output, at, |data|);
    CopyOn(output, at + 4, kind, before, at, Be(4, |data|));
    CopyOn(output, at + 8, data, before, at, Be(4, |data|) + kind);
    Front(before, at, |data|, kind, data);
    var crc := Checksum(output, at + 4, 4 + |data|, kind + data);
    SealOn(output, at + 8 + |data|, crc, before, at, Be(4, |data|) + (kind + data));
    Whole(Chunk(kind, data));
  }

  lemma Front(s: seq<byte>, at: nat, n: nat, kind: seq<byte>, data: seq<byte>)
    requires at + 4 + |kind| + |data| <= |s|
    ensures Be(4, n) + kind + data == Be(4, n) + (kind + data)
    ensures Put(s, at, Be(4, n) + kind + data)[at + 4..at + 4 + |kind| + |data|] == kind + data
  {
    hide Be;
    Written(s, at, Be(4, n), kind + data);
  }

  method Checksum(output: array<byte>, at: nat, n: nat, ghost covered: seq<byte>) returns (crc: nat)
    requires at + n <= output.Length && output[..][at..at + n] == covered
    ensures crc == Crc.Crc32(covered)
  {
    hide Crc.Crc32, Crc.Update, Crc.Finish;
    var register := Crc.UpdateLoop(Crc.ONES, output[..][at..at + n]);
    Crc.Finished(covered);
    crc := Crc.Finish(register);
  }

  method SealOn(output: array<byte>, at: nat, value: nat, ghost before: seq<byte>, ghost start: nat, ghost done: seq<byte>)
    requires |before| == output.Length && at == start + |done| && at + 4 <= output.Length
    requires output[..] == Put(before, start, done)
    modifies output
    ensures output[..] == Put(before, start, done + Be(4, value))
  {
    hide Put, Be;
    PutPut(before, start, done, Be(4, value));
    WriteBe(output, at, value);
  }

  lemma Whole(c: Chunk)
    ensures Be(4, |c.data|) + (c.kind + c.data) + Be(4, Crc.Crc32(c.kind + c.data)) == Text(c)
  {
    hide Crc.Crc32, Be;
  }

  /** What was written second is found behind what was written first. */
  lemma Written(s: seq<byte>, at: nat, a: seq<byte>, b: seq<byte>)
    requires at + |a| + |b| <= |s|
    ensures Put(s, at, a + b)[at + |a|..at + |a| + |b|] == b
  {
  }

  /** Copies the rows, each behind a zero byte. */
  method FilterRows(rgba: seq<byte>, width: nat, height: nat) returns (raw: array<byte>)
    requires |rgba| == height * (4 * width)
    ensures fresh(raw) && raw[..] == Rows(rgba, 4 * width, height)
  {
    hide Rows, Put, Filled;
    var k := 4 * width;
    var row := 1 + k;
    raw := new byte[height * row](_ => 0);
    FilledNothing(raw[..]);
    RowsNone(rgba, k);
    for y := 0 to height
      invariant y * row <= height * row && y * k <= height * k
      invariant raw[..] == Filled(Rows(rgba, k, y), height * row)
    {
      FilterRow(raw, rgba, k, y, height);
      RowsNext(rgba, k, y, height);
    }
    FilledAll(Rows(rgba, k, height));
  }

  method FilterRow(raw: array<byte>, rgba: seq<byte>, k: nat, y: nat, height: nat)
    requires y < height && |rgba| == height * k && raw.Length == height * (1 + k)
    requires y * k <= |rgba| && y * (1 + k) <= raw.Length && raw[..] == Filled(Rows(rgba, k, y), raw.Length)
    modifies raw
    ensures (y + 1) * k <= |rgba| && (y + 1) * (1 + k) <= raw.Length
    ensures raw[..] == Filled(Rows(rgba, k, y + 1), raw.Length)
  {
    hide Rows, Put, Filled;
    RowsNext(rgba, k, y, height);
    CopyRow(raw, y * (1 + k), rgba[y * k..(y + 1) * k], Rows(rgba, k, y));
  }

  method CopyRow(raw: array<byte>, at: nat, pixels: seq<byte>, ghost before: seq<byte>)
    requires |before| == at && at + 1 + |pixels| <= raw.Length && raw[..] == Filled(before, raw.Length)
    modifies raw
    ensures raw[..] == Filled(before + [0] + pixels, raw.Length)
  {
    hide Put, Filled;
    SetIsPut(raw[..], at, 0);
    raw[at] := 0;
    PutAfter(before, raw.Length, [0]);
    Copy(raw, at + 1, pixels);
    PutAfter(before + [0], raw.Length, pixels);
  }

  lemma SetIsPut(s: seq<byte>, at: nat, b: byte)
    requires at < |s|
    ensures s[at := b] == Put(s, at, [b])
  {
  }

  lemma FilledAll(s: seq<byte>)
    ensures Filled(s, |s|) == s
  {
  }

  lemma RowsNone(rgba: seq<byte>, k: nat)
    ensures Rows(rgba, k, 0) == []
  {
  }

  lemma RowsNext(rgba: seq<byte>, k: nat, y: nat, height: nat)
    requires y < height && |rgba| == height * k
    ensures (y + 1) * k <= height * k && (y + 1) * (1 + k) <= height * (1 + k)
    ensures y * k <= (y + 1) * k == y * k + k && (y + 1) * (1 + k) == y * (1 + k) + 1 + k
    ensures Rows(rgba, k, y + 1) == Rows(rgba, k, y) + [0] + rgba[y * k..(y + 1) * k]
  {
    hide Filled;
    RowFits(k, y + 1);
    Monotone(k, y + 1, height);
    Monotone(1 + k, y + 1, height);
  }

  lemma Monotone(k: nat, a: nat, b: nat)
    requires a <= b
    ensures a * k <= b * k
  {
  }

  /** Stores one block behind what has been written. */
  method StoreBlock(png: array<byte>, at: nat, last: bool, data: seq<byte>, ghost prefix: seq<byte>)
    requires |data| <= BLOCK && |prefix| == at && at + 5 + |data| <= png.Length && png[..] == Filled(prefix, png.Length)
    modifies png
    ensures png[..] == Filled(prefix + Block(last, data), png.Length)
  {
    hide Put, Filled, Block, Le;
    ghost var before := png[..];
    var count := |data|;
    png[at] := if last then 1 else 0;
    png[at + 1] := count % 256;
    png[at + 2] := count / 256;
    png[at + 3] := 255 - count % 256;
    png[at + 4] := 255 - count / 256;
    FiveBytes(before, png[..], at, last, count);
    PutAfter(prefix, png.Length, BlockHead(last, count));
    HeadAndData(last, data);
    Copy(png, at + 5, data);
    PutAfter(prefix + BlockHead(last, count), png.Length, data);
    assert prefix + BlockHead(last, count) + data == prefix + (BlockHead(last, count) + data);
  }

  function BlockHead(last: bool, count: nat): (h: seq<byte>)
    requires count <= BLOCK
    ensures |h| == 5
  {
    [if last then 1 else 0, count % 256, count / 256, 255 - count % 256, 255 - count / 256]
  }

  lemma HeadAndData(last: bool, data: seq<byte>)
    requires |data| <= BLOCK
    ensures BlockHead(last, |data|) + data == Block(last, data)
  {
    LeTwo(|data|);
    LeTwo(BLOCK - |data|);
  }

  lemma LeTwo(v: nat)
    requires v <= BLOCK
    ensures Le(2, v) == [v % 256, v / 256]
  {
    assert Le(1, v / 256) == [v / 256] + Le(0, 0);
  }

  lemma FiveBytes(s: seq<byte>, t: seq<byte>, at: nat, last: bool, count: nat)
    requires count <= BLOCK && at + 5 <= |s|
    requires t == s[at := if last then 1 else 0][at + 1 := count % 256][at + 2 := count / 256]
                   [at + 3 := 255 - count % 256][at + 4 := 255 - count / 256]
    ensures t == Put(s, at, BlockHead(last, count))
  {
  }

  /** The block that is next in line. */
  lemma BlocksNext(raw: seq<byte>, source: nat, count: nat)
    requires source < |raw| && count == (if |raw| - source > BLOCK then BLOCK else |raw| - source)
    ensures Blocks(raw[source..]) == Block(source + count == |raw|, raw[source..source + count]) + Blocks(raw[source + count..])
  {
    hide Block;
    var rest := raw[source..];
    assert rest[..count] == raw[source..source + count] && rest[count..] == raw[source + count..];
    if |rest| <= BLOCK {
      assert rest[..count] == rest && raw[source + count..] == [];
      assert Blocks(rest) + [] == Blocks(rest);
    }
  }

  lemma NoBlocks(raw: seq<byte>)
    ensures raw[|raw|..] == [] && Blocks([]) == []
  {
  }

  /** Stores data in blocks of at most 65535 bytes. */
  method StoreBlocks(png: array<byte>, at: nat, raw: seq<byte>, ghost prefix: seq<byte>) returns (end: nat)
    requires |prefix| == at && at + |Blocks(raw)| <= png.Length && png[..] == Filled(prefix, png.Length)
    modifies png
    ensures end == at + |Blocks(raw)| && png[..] == Filled(prefix + Blocks(raw), png.Length)
  {
    hide Filled, Blocks, Block;
    var source: nat := 0;
    end := at;
    ghost var done := [];
    assert raw[0..] == raw && prefix + done == prefix;
    while source < |raw|
      invariant source <= |raw| && done + Blocks(raw[source..]) == Blocks(raw) && end == at + |done|
      invariant png[..] == Filled(prefix + done, png.Length)
    {
      var count := if |raw| - source > BLOCK then BLOCK else |raw| - source;
      var last := source + count == |raw|;
      BlocksNext(raw, source, count);
      StoreBlock(png, end, last, raw[source..source + count], prefix + done);
      ghost var block := Block(last, raw[source..source + count]);
      assert prefix + done + block == prefix + (done + block);
      assert done + (block + Blocks(raw[source + count..])) == done + block + Blocks(raw[source + count..]);
      done := done + block;
      end := end + 5 + count;
      source := source + count;
    }
    NoBlocks(raw);
    assert done + [] == done;
  }

  /** Overwrites everything behind a prefix. */
  lemma Overlay(p: seq<byte>, x: seq<byte>, t: seq<byte>, n: nat)
    requires |x| <= |t| && |p| + |t| <= n
    ensures Put(Filled(p + x, n), |p|, t) == Filled(p + t, n)
  {
  }

  /** The header chunk's data. */
  method BuildHeader(width: nat, height: nat) returns (d: seq<byte>)
    ensures d == Header(width, height)
  {
    var ihdr := new byte[13](_ => 0);
    WriteBe(ihdr, 0, width);
    WriteBe(ihdr, 4, height);
    ihdr[8], ihdr[9] := 8, 6;
    d := ihdr[..];
  }

  /** The compressed stream, laid out from offset 41 on where the image chunk's data goes. */
  method StoreZlib(png: array<byte>, raw: seq<byte>, ghost front: seq<byte>) returns (end: nat)
    requires |front| == 33 && 41 + |Zlib(raw)| <= png.Length && png[..] == Filled(front, png.Length)
    modifies png
    ensures end == 41 + |Zlib(raw)| && png[..] == Filled(front + (Zeros(8) + Zlib(raw)), png.Length)
  {
    hide Filled, Blocks, Adler, Be, Put;
    var magic: seq<byte> := [0x78, 0x01];
    Copy(png, 41, magic);
    PutNext(front, png.Length, 8, magic);
    end := StoreBlocks(png, 43, raw, front + Zeros(8) + magic);
    var sum := AdlerLoop(raw);
    WriteBe(png, end, sum);
    PutAfter(front + Zeros(8) + magic + Blocks(raw), png.Length, Be(4, Adler(raw)));
    end := end + 4;
    Joined(front + Zeros(8), magic, Blocks(raw), Be(4, Adler(raw)));
    assert front + Zeros(8) + Zlib(raw) == front + (Zeros(8) + Zlib(raw));
  }

  lemma Joined(a: seq<byte>, b: seq<byte>, c: seq<byte>, d: seq<byte>)
    ensures a + b + c + d == a + (b + (c + d))
  {
  }

  /** What comes before the image chunk. */
  function Opening(width: nat, height: nat): seq<byte> {
    SIGNATURE + Text(Chunk(IHDR, Header(width, height)))
  }

  method StoreOpening(png: array<byte>, width: nat, height: nat)
    requires png.Length >= 33 && png[..] == Filled([], png.Length)
    modifies png
    ensures |Opening(width, height)| == 33 && png[..] == Filled(Opening(width, height), png.Length)
  {
    hide Filled, Text, Put, Header;
    Copy(png, 0, SIGNATURE);
    PutAfter([], png.Length, SIGNATURE);
    var ihdr := BuildHeader(width, height);
    ChunkSize(IHDR, ihdr);
    PngChunk(png, 8, IHDR, ihdr);
    assert [] + SIGNATURE == SIGNATURE;
    PutAfter(SIGNATURE, png.Length, Text(Chunk(IHDR, ihdr)));
  }

  /** Lays out the stream and closes the image chunk around it. */
  method StoreImage(png: array<byte>, raw: seq<byte>, ghost front: seq<byte>) returns (end: nat)
    requires |front| == 33 && 45 + |Zlib(raw)| <= png.Length && png[..] == Filled(front, png.Length)
    modifies png
    ensures end == 45 + |Zlib(raw)| && |Text(Chunk(IDAT, Zlib(raw)))| == 12 + |Zlib(raw)|
    ensures png[..] == Filled(front + Text(Chunk(IDAT, Zlib(raw))), png.Length)
  {
    hide Filled, Text, Put, Zlib;
    ghost var z := Zlib(raw);
    end := StoreZlib(png, raw, front);
    Stored(front, z, png.Length);
    ChunkSize(IDAT, z);
    PngChunk(png, 33, IDAT, png[..][41..end]);
    Overlay(front, Zeros(8) + z, Text(Chunk(IDAT, z)), png.Length);
    end := end + 4;
  }

  /** Puts the three chunks around the filtered rows, into a buffer of exactly the computed size. */
  method Assemble(raw: seq<byte>, width: nat, height: nat) returns (png: array<byte>)
    ensures fresh(png) && png.Length == 63 + |raw| + (|raw| + 65534) / 65535 * 5
    ensures png[..] == Opening(width, height) + Text(Chunk(IDAT, Zlib(raw))) + Text(Chunk(IEND, []))
  {
    hide Filled, Text, Put, Zlib, Opening;
    var blocks := (|raw| + 65534) / 65535;
    var zsize := 2 + |raw| + blocks * 5 + 4;
    var total := 8 + 25 + 12 + zsize + 12;
    ZlibSize(raw);
    png := new byte[total](_ => 0);
    FilledNothing(png[..]);
    StoreOpening(png, width, height);
    ghost var front := Opening(width, height);
    var end := StoreImage(png, raw, front);
    ghost var image := Text(Chunk(IDAT, Zlib(raw)));
    ChunkSize(IEND, []);
    PngChunk(png, end, IEND, []);
    PutAfter(front + image, total, Text(Chunk(IEND, [])));
    FilledAll(front + image + Text(Chunk(IEND, [])));
  }

  /** Encodes an RGBA image. */
  method Encode(rgba: seq<byte>, width: nat, height: nat) returns (png: array<byte>)
    requires |rgba| == height * (4 * width)
    ensures fresh(png) && png[..] == Image(rgba, width, height)
    ensures png.Length == 63 + height * (1 + 4 * width) + (height * (1 + 4 * width) + 65534) / 65535 * 5
  {
    hide Rows, Text, Zlib, Opening, Image;
    var raw := FilterRows(rgba, width, height);
    ThreeTexts(rgba, width, height);
    png := Assemble(raw[..], width, height);
  }

  lemma ChunkSize(kind: seq<byte>, data: seq<byte>)
    requires |kind| == 4
    ensures |Text(Chunk(kind, data))| == 12 + |data|
  {
    hide Text;
  }

  lemma ZlibSize(raw: seq<byte>)
    ensures |Zlib(raw)| == 6 + |raw| + (|raw| + 65534) / 65535 * 5
  {
    hide Blocks;
    BlocksSize(raw);
  }

  lemma Stored(front: seq<byte>, z: seq<byte>, n: nat)
    requires |front| == 33 && 41 + |z| <= n
    ensures Filled(front + (Zeros(8) + z), n)[41..41 + |z|] == z
  {
  }

  lemma ThreeTexts(rgba: seq<byte>, width: nat, height: nat)
    requires |rgba| == height * (4 * width)
    ensures Image(rgba, width, height) ==
      Opening(width, height) + Text(Chunk(IDAT, Zlib(Rows(rgba, 4 * width, height)))) + Text(Chunk(IEND, []))
  {
    hide Text, Header, Zlib, Rows;
    var cs := ImageChunks(rgba, width, height);
    assert cs[1..][0] == cs[1] && cs[1..][1..] == [cs[2]] && [cs[2]][1..] == [];
    assert Texts([cs[2]]) == Text(cs[2]) + Texts([]);
    assert Texts(cs[1..]) == Text(cs[1]) + Texts(cs[1..][1..]);
    assert Texts(cs) == Text(cs[0]) + Texts(cs[1..]);
  }
}
