/** PNG covers: the validator that goes through a file chunk by chunk, and exactly what it accepts. */
module Png {
  import opened Bytes
  import Crc

  const SIGNATURE: seq<byte> := [0x89, 0x50, 0x4e, 0x47, 0x0d, 0x0a, 0x1a, 0x0a]
  const IHDR: seq<byte> := [0x49, 0x48, 0x44, 0x52]
  const PLTE: seq<byte> := [0x50, 0x4c, 0x54, 0x45]
  const IDAT: seq<byte> := [0x49, 0x44, 0x41, 0x54]
  const IEND: seq<byte> := [0x49, 0x45, 0x4e, 0x44]
  const MAX_LENGTH: nat := 0x7fff_ffff

  // ---------- chunks ----------

  datatype Chunk = Chunk(kind: seq<byte>, data: seq<byte>)

  predicate IsUpper(b: byte) {
    0x41 <= b <= 0x5a
  }

  predicate IsLetter(b: byte) {
    IsUpper(b) || 0x61 <= b <= 0x7a
  }

  predicate KindOk(kind: seq<byte>) {
    |kind| == 4 && (forall i :: 0 <= i < 4 ==> IsLetter(kind[i])) && IsUpper(kind[2])
  }

  predicate ChunkOk(c: Chunk) {
    KindOk(c.kind) && |c.data| <= MAX_LENGTH
  }

  /** A chunk as stored: length, type, data, checksum over type and data. */
  function Text(c: Chunk): (t: seq<byte>)
    ensures |t| == 8 + |c.kind| + |c.data|
  {
    Be(4, |c.data|) + (c.kind + (c.data + Be(4, Crc.Crc32(c.kind + c.data))))
  }

  function Texts(cs: seq<Chunk>): seq<byte> {
    if cs == [] then [] else Text(cs[0]) + Texts(cs[1..])
  }

  /** The chunk at offset p, if it is intact. */
  function ReadChunk(b: seq<byte>, p: nat): (c: Option<Chunk>)
    ensures c.Some? ==> |c.value.kind| == 4 && p + 12 + |c.value.data| <= |b|
  {
    if p + 12 > |b| then None
    else
      var length := FromBe(b[p..p + 4]);
      if length > MAX_LENGTH || length > |b| - p - 12 then None
      else
        var c := Chunk(b[p + 4..p + 8], b[p + 8..p + 8 + length]);
        if !KindOk(c.kind) || Crc.Crc32(c.kind + c.data) != FromBe(b[p + 8 + length..p + 12 + length]) then None
        else Some(c)
  }

  /** Reading finds a chunk exactly where a sound one stands. */
  lemma ChunkExact(b: seq<byte>, p: nat, c: Chunk)
    ensures ReadChunk(b, p) == Some(c) <==> ChunkOk(c) && Stands(b, p, Text(c))
  {
    hide Crc.Crc32, Be, FromBe, Stands;
    if ReadChunk(b, p).Some? {
      ChunkStands(b, p);
    }
    if ChunkOk(c) && Stands(b, p, Text(c)) {
      ChunkFound(b, p, c);
    }
  }

  /** A chunk stands where its four parts stand one behind the other. */
  lemma ChunkPieces(b: seq<byte>, p: nat, c: Chunk)
    requires |c.kind| == 4
    ensures var q := p + 8 + |c.data|;
      Stands(b, p, Text(c)) <==>
        && q + 4 <= |b|
        && b[p..p + 4] == Be(4, |c.data|) && b[p + 4..p + 8] == c.kind && b[p + 8..q] == c.data
        && b[q..q + 4] == Be(4, Crc.Crc32(c.kind + c.data))
  {
    hide Crc.Crc32, Be;
    var seal := Be(4, Crc.Crc32(c.kind + c.data));
    StandsSplit(b, p, Be(4, |c.data|), c.kind + (c.data + seal));
    StandsSplit(b, p + 4, c.kind, c.data + seal);
    StandsSplit(b, p + 8, c.data, seal);
  }

  lemma ChunkStands(b: seq<byte>, p: nat)
    requires ReadChunk(b, p).Some?
    ensures ChunkOk(ReadChunk(b, p).value) && Stands(b, p, Text(ReadChunk(b, p).value))
  {
    hide Crc.Crc32, Be, FromBe, KindOk, Text, Stands;
    var c := ReadChunk(b, p).value;
    var q := p + 8 + |c.data|;
    Pow256Values();
    BeExactly(b[p..p + 4], 4, |c.data|);
    BeExactly(b[q..q + 4], 4, Crc.Crc32(c.kind + c.data));
    ChunkPieces(b, p, c);
  }

  lemma ChunkFound(b: seq<byte>, p: nat, c: Chunk)
    requires ChunkOk(c) && Stands(b, p, Text(c))
    ensures ReadChunk(b, p) == Some(c)
  {
    hide Crc.Crc32, Be, FromBe, KindOk, Text, Stands;
    var q := p + 8 + |c.data|;
    Pow256Values();
    KindSize(c.kind);
    ChunkPieces(b, p, c);
    BeExactly(b[p..p + 4], 4, |c.data|);
    BeExactly(b[q..q + 4], 4, Crc.Crc32(c.kind + c.data));
  }

  lemma KindSize(kind: seq<byte>)
    requires KindOk(kind)
    ensures |kind| == 4
  {
  }

  // ---------- the state machine ----------

  predicate DepthOk(color: byte, depth: byte) {
    if color == 0 then depth in [1, 2, 4, 8, 16]
    else if color == 3 then depth in [1, 2, 4, 8]
    else (color == 2 || color == 4 || color == 6) && (depth == 8 || depth == 16)
  }

  function Width(d: seq<byte>): nat
    requires |d| == 13
  {
    FromBe(d[0..4])
  }

  function Height(d: seq<byte>): nat
    requires |d| == 13
  {
    FromBe(d[4..8])
  }

  predicate IhdrOk(d: seq<byte>, limit: nat)
    requires |d| == 13
  {
    && 0 < Width(d) <= limit && 0 < Height(d) <= limit
    && d[10] == 0 && d[11] == 0 && d[12] <= 1 && DepthOk(d[9], d[8])
  }

  datatype State = State(first: bool, idat: bool, ended: bool, plte: bool, iend: bool, color: byte, width: nat, height: nat)

  const START := State(true, false, false, false, false, 0, 0, 0)

  predicate PaletteOk(color: byte, size: nat) {
    color != 0 && color != 4 && size != 0 && size % 3 == 0 && size <= 768
  }

  /** What one chunk does to the state; None is a rejection. */
  function Step(st: State, c: Chunk, limit: nat): Option<State>
    requires |c.kind| == 4
  {
    if st.first then
      if c.kind == IHDR && |c.data| == 13 && IhdrOk(c.data, limit)
      then Some(st.(first := false, color := c.data[9], width := Width(c.data), height := Height(c.data))) else None
    else if IsUpper(c.kind[0]) && c.kind != PLTE && c.kind != IDAT && c.kind != IEND then None
    else if c.kind == PLTE then
      if st.plte || st.idat || !PaletteOk(st.color, |c.data|) then None else Some(st.(plte := true))
    else if c.kind == IDAT then
      if st.ended then None else Some(st.(idat := true))
    else if c.kind == IEND then
      if c.data != [] || !st.idat || (st.color == 3 && !st.plte) then None else Some(st.(iend := true))
    else if st.idat then Some(st.(ended := true))
    else Some(st)
  }

  /** Going through the file from offset p on. */
  function Read(b: seq<byte>, p: nat, st: State, limit: nat): Option<State>
    decreases |b| - p
  {
    var c := ReadChunk(b, p);
    if c.None? then None
    else
      var next := Step(st, c.value, limit);
      var q := p + 12 + |c.value.data|;
      if next.None? then None
      else if next.value.iend then (if q == |b| then next else None)
      else Read(b, q, next.value, limit)
  }

  datatype Verdict = Absent | TooLarge | Malformed | Valid(width: nat, height: nat)

  function VerdictOf(cover: seq<byte>, maxSize: nat, limit: nat): Verdict {
    if cover == [] then Absent
    else if |cover| > maxSize then TooLarge
    else if |cover| < 8 || cover[..8] != SIGNATURE then Malformed
    else
      var st := Read(cover, 8, START, limit);
      if st.None? then Malformed else Valid(st.value.width, st.value.height)
  }

  // ---------- the validator ----------

  /** One chunk of the loop: header, checksum read in pieces, then the rules of order. */
  method CheckChunk(cover: seq<byte>, position: nat, first: bool, chunk: nat) returns (c: Option<Chunk>)
    requires chunk > 0
    ensures c == if ReadChunk(cover, position).Some? && first
                    && !(ReadChunk(cover, position).value.kind == IHDR && |ReadChunk(cover, position).value.data| == 13)
                 then None else ReadChunk(cover, position)
  {
    hide Crc.Crc32, FromBe, KindOk, Crc.Running;
    if |cover| < position + 12 {
      return None;
    }
    var length := FromBe(cover[position..position + 4]);
    var kind := cover[position + 4..position + 8];
    var kindOk := IsChunkType(kind);
    if length > MAX_LENGTH || length > |cover| - position - 12 || !kindOk {
      return None;
    }
    if first && (length != 13 || kind != IHDR) {
      return None;
    }
    var data := cover[position + 8..position + 8 + length];
    var all := kind + data;
    Crc.RunningStarts(all);
    assert all[0..4] == kind;
    var register := Crc.Advance(Crc.ONES, all, 0, 4);
    var at := 0;
    while at < length
      invariant at <= length && Crc.Running(register, all, 4 + at)
    {
      var count := if length - at > chunk then chunk else length - at;
      register := Crc.Advance(register, all, 4 + at, count);
      at := at + count;
    }
    var crc := Crc.Close(register, all);
    if crc != FromBe(cover[position + 8 + length..position + 12 + length]) {
      return None;
    }
    c := Some(Chunk(kind, data));
  }

  method IsChunkType(kind: seq<byte>) returns (ok: bool)
    requires |kind| == 4
    ensures ok == KindOk(kind)
  {
    for index := 0 to 4
      invariant forall i :: 0 <= i < index ==> IsLetter(kind[i])
    {
      if !(0x41 <= kind[index] <= 0x5a || 0x61 <= kind[index] <= 0x7a) {
        return false;
      }
    }
    ok := kind[2] / 0x20 % 2 == 0;
  }

  method CheckHeader(d: seq<byte>, limit: nat) returns (ok: bool, width: nat, height: nat, color: byte)
    requires |d| == 13
    ensures ok == IhdrOk(d, limit) && width == Width(d) && height == Height(d) && color == d[9]
  {
    hide FromBe;
    width, height, color := FromBe(d[0..4]), FromBe(d[4..8]), d[9];
    if width == 0 || height == 0 || width > limit || height > limit || d[10] != 0 || d[11] != 0 || d[12] > 1 {
      return false, width, height, color;
    }
    var depth := d[8];
    ok := match color
      case 0 => depth == 1 || depth == 2 || depth == 4 || depth == 8 || depth == 16
      case 2 => depth == 8 || depth == 16
      case 3 => depth == 1 || depth == 2 || depth == 4 || depth == 8
      case 4 => depth == 8 || depth == 16
      case 6 => depth == 8 || depth == 16
      case _ => false;
  }

  /** Validates a cover. */
  method Validate(cover: seq<byte>, maxSize: nat, limit: nat, chunk: nat) returns (v: Verdict)
    requires chunk > 0
    ensures v == VerdictOf(cover, maxSize, limit)
  {
    hide IhdrOk, ReadChunk, Width, Height, PaletteOk, Read;
    if cover == [] {
      return Absent;
    }
    if |cover| > maxSize {
      return TooLarge;
    }
    if |cover| < 8 || cover[..8] != SIGNATURE {
      return Malformed;
    }
    var position: nat := 8;
    var first, idat, ended, plte, iend := true, false, false, false, false;
    var color: byte, width: nat, height: nat := 0, 0, 0;
    while position < |cover|
      invariant position <= |cover|
      invariant Read(cover, 8, START, limit)
             == Read(cover, position, State(first, idat, ended, plte, false, color, width, height), limit)
    {
      ReadNext(cover, position, State(first, idat, ended, plte, false, color, width, height), limit);
      var c := CheckChunk(cover, position, first, chunk);
      if c.None? {
        return Malformed;
      }
      var kind, data := c.value.kind, c.value.data;
      if !first && kind[0] / 0x20 % 2 == 0 && kind != PLTE && kind != IDAT && kind != IEND {
        FirstLetter(cover, position);
        return Malformed;
      }
      FirstLetter(cover, position);
      if first {
        var ok: bool;
        ok, width, height, color := CheckHeader(data, limit);
        if !ok {
          return Malformed;
        }
        first := false;
      } else if kind == PLTE {
        if plte || idat || color == 0 || color == 4 || |data| == 0 || |data| % 3 != 0 || |data| > 768 {
          IsPalette(color, |data|);
          return Malformed;
        }
        IsPalette(color, |data|);
        plte := true;
      } else if kind == IDAT {
        if ended {
          return Malformed;
        }
        idat := true;
      } else if kind == IEND {
        if |data| != 0 || !idat || (color == 3 && !plte) {
          return Malformed;
        }
        iend := true;
      } else if idat {
        ended := true;
      }
      position := position + 12 + |data|;
      if iend {
        break;
      }
    }
    NothingLeft(cover, position, State(first, idat, ended, plte, false, color, width, height), limit);
    v := if !iend || position != |cover| then Malformed else Valid(width, height);
  }

  lemma ReadNext(b: seq<byte>, p: nat, st: State, limit: nat)
    ensures ReadChunk(b, p).None? ==> Read(b, p, st, limit).None?
    ensures ReadChunk(b, p).Some? ==>
      var c := ReadChunk(b, p).value; var next := Step(st, c, limit); var q := p + 12 + |c.data|;
      (Read(b, p, st, limit) == if next.None? then None
                                else if next.value.iend then (if q == |b| then next else None)
                                else Read(b, q, next.value, limit))
  {
    hide ReadChunk, Step;
  }

  lemma NothingLeft(b: seq<byte>, p: nat, st: State, limit: nat)
    ensures p >= |b| ==> Read(b, p, st, limit).None?
  {
  }

  lemma FirstLetter(b: seq<byte>, p: nat)
    requires ReadChunk(b, p).Some?
    ensures |ReadChunk(b, p).value.kind| == 4
    ensures IsUpper(ReadChunk(b, p).value.kind[0]) <==> ReadChunk(b, p).value.kind[0] / 0x20 % 2 == 0
    ensures p + 12 + |ReadChunk(b, p).value.data| <= |b|
  {
    hide Crc.Crc32, FromBe;
    var kind := ReadChunk(b, p).value.kind;
    assert IsLetter(kind[0]);
  }

  lemma IsPalette(color: byte, size: nat)
    ensures PaletteOk(color, size) <==> !(color == 0 || color == 4 || size == 0 || size % 3 != 0 || size > 768)
  {
  }
}
