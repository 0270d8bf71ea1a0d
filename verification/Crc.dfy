/** The reflected CRC-32 that guards every header, directory entry and object. The 32-bit
    register is kept as its bits, least significant first. */
module Crc {
  import opened Bytes

  type Register = r: seq<bool> | |r| == 32 witness Clear(32)

  /** The low n bits of v, least significant first. */
  function NatBits(v: nat, n: nat): (r: seq<bool>)
    ensures |r| == n
  {
    if n == 0 then [] else [v % 2 == 1] + NatBits(v / 2, n - 1)
  }

  function BitsNat(b: seq<bool>): nat {
    if b == [] then 0 else (if b[0] then 1 else 0) + 2 * BitsNat(b[1..])
  }

  function Clear(n: nat): (r: seq<bool>)
    ensures |r| == n
  {
    seq(n, _ => false)
  }

  function Ones(n: nat): (r: seq<bool>)
    ensures |r| == n
  {
    seq(n, _ => true)
  }

  const ONES: Register := Ones(32)
  /** The exponents below 32 of the generator x^32 + x^26 + x^23 + ... + x + 1. */
  predicate IsExponent(k: int) {
    k in {0, 1, 2, 4, 5, 7, 8, 10, 11, 12, 16, 22, 23, 26}
  }

  /** The generator with its coefficients reversed: the constant 0xedb88320. */
  function Generator(): (r: seq<bool>)
    ensures |r| == 32 && r[31]
  {
    seq(32, i => IsExponent(31 - i))
  }

  const POLY: Register := Generator()

  function Xor(a: Register, b: Register): Register {
    seq(32, i requires 0 <= i < 32 => a[i] != b[i])
  }

  /** A logical right shift by n. */
  function ShiftRight(a: Register, n: nat): Register
    requires n <= 32
  {
    a[n..] + Clear(n)
  }

  /** One shift of the register: the bit shifted out decides whether the polynomial is added. */
  function Step(c: Register): Register {
    if c[0] then Xor(ShiftRight(c, 1), POLY) else ShiftRight(c, 1)
  }

  function Steps(c: Register, n: nat): Register
    decreases n
  {
    if n == 0 then c else Steps(Step(c), n - 1)
  }

  /** The bits of a byte string of at most four bytes, padded to a register. */
  function Word(s: seq<byte>): Register
    requires |s| <= 4
  {
    ByteBits(s) + Clear(32 - 8 * |s|)
  }

  function ByteBits(s: seq<byte>): (r: seq<bool>)
    ensures |r| == 8 * |s|
  {
    if s == [] then [] else NatBits(s[0], 8) + ByteBits(s[1..])
  }

  function Feed(c: Register, b: byte): Register {
    Steps(Xor(c, Word([b])), 8)
  }

  function Update(c: Register, s: seq<byte>): Register
    decreases |s|
  {
    if s == [] then c else Update(Feed(c, s[0]), s[1..])
  }

  function Finish(c: Register): nat {
    BitsNat(Xor(c, ONES))
  }

  function Crc32(s: seq<byte>): (r: nat)
    ensures r < U32
  {
    BitsNatBound(Xor(Update(ONES, s), ONES));
    Pow2Values();
    Finish(Update(ONES, s))
  }

  /** The inner loop: eight shifts, the polynomial selected by a mask. */
  method StepLoop(start: Register) returns (crc: Register)
    ensures crc == Steps(start, 8)
  {
    crc := start;
    for bit := 0 to 8
      invariant Steps(crc, 8 - bit) == Steps(start, 8)
    {
      var mask: Register := if crc[0] then ONES else Clear(32);
      MaskedStep(crc, mask);
      crc := Xor(ShiftRight(crc, 1), And(POLY, mask));
    }
  }

  /** The register loop, one byte at a time. */
  method UpdateLoop(start: Register, data: seq<byte>) returns (crc: Register)
    ensures crc == Update(start, data)
  {
    crc := start;
    for index := 0 to |data|
      invariant Update(crc, data[index..]) == Update(start, data)
    {
      UpdateHead(crc, data, index);
      crc := StepLoop(Xor(crc, Word([data[index]])));
    }
  }

  lemma UpdateHead(c: Register, data: seq<byte>, index: nat)
    requires index < |data|
    ensures Update(c, data[index..]) == Update(Feed(c, data[index]), data[index + 1..])
  {
    assert data[index..][1..] == data[index + 1..];
  }

  function And(a: Register, b: Register): Register {
    seq(32, i requires 0 <= i < 32 => a[i] && b[i])
  }

  lemma MaskedStep(c: Register, mask: Register)
    requires mask == if c[0] then ONES else Clear(32)
    ensures Xor(ShiftRight(c, 1), And(POLY, mask)) == Step(c)
  {
    assert And(POLY, mask) == if c[0] then POLY else Clear(32);
    assert Xor(ShiftRight(c, 1), Clear(32)) == ShiftRight(c, 1);
  }

  // ---------- numbers and bits ----------

  function Pow2(n: nat): (p: nat)
    ensures p > 0
  {
    if n == 0 then 1 else 2 * Pow2(n - 1)
  }

  lemma Pow2Values()
    ensures Pow2(8) == 256 && Pow2(32) == U32
  {
    assert Pow2(8) == 16 * Pow2(4);
    assert Pow2(16) == 256 * Pow2(8) by { assert Pow2(16) == 16 * Pow2(12); assert Pow2(12) == 16 * Pow2(8); }
    assert Pow2(24) == 256 * Pow2(16) by { assert Pow2(24) == 16 * Pow2(20); assert Pow2(20) == 16 * Pow2(16); }
    assert Pow2(32) == 256 * Pow2(24) by { assert Pow2(32) == 16 * Pow2(28); assert Pow2(28) == 16 * Pow2(24); }
  }

  lemma {:induction false} BitsNatBound(b: seq<bool>)
    ensures BitsNat(b) < Pow2(|b|)
  {
    if b != [] {
      BitsNatBound(b[1..]);
    }
  }

  lemma {:induction false} BitsNatInjective(a: seq<bool>, b: seq<bool>)
    requires |a| == |b| && BitsNat(a) == BitsNat(b)
    ensures a == b
  {
    if a != [] {
      BitsNatInjective(a[1..], b[1..]);
      assert a == [a[0]] + a[1..] && b == [b[0]] + b[1..];
    }
  }

  lemma {:induction false} NatBitsInjective(v: nat, w: nat, n: nat)
    requires v < Pow2(n) && w < Pow2(n) && NatBits(v, n) == NatBits(w, n)
    ensures v == w
  {
    if n != 0 {
      assert NatBits(v, n)[0] == NatBits(w, n)[0];
      assert NatBits(v, n)[1..] == NatBits(v / 2, n - 1) && NatBits(w, n)[1..] == NatBits(w / 2, n - 1);
      NatBitsInjective(v / 2, w / 2, n - 1);
    }
  }

  lemma {:induction false} ByteBitsInjective(a: seq<byte>, b: seq<byte>)
    requires |a| == |b| && ByteBits(a) == ByteBits(b)
    ensures a == b
  {
    if a != [] {
      assert ByteBits(a)[..8] == NatBits(a[0], 8) && ByteBits(a)[8..] == ByteBits(a[1..]);
      assert ByteBits(b)[..8] == NatBits(b[0], 8) && ByteBits(b)[8..] == ByteBits(b[1..]);
      Pow2Values();
      NatBitsInjective(a[0], b[0], 8);
      ByteBitsInjective(a[1..], b[1..]);
      assert a == [a[0]] + a[1..] && b == [b[0]] + b[1..];
    }
  }

  function Bit(b: bool): nat {
    if b then 1 else 0
  }

  lemma NibbleAt(b: seq<bool>, i: nat)
    requires i + 4 <= |b|
    ensures BitsNat(b[i..]) == Bit(b[i]) + 2 * Bit(b[i + 1]) + 4 * Bit(b[i + 2]) + 8 * Bit(b[i + 3]) + 16 * BitsNat(b[i + 4..])
  {
    BitAt(b, i);
    BitAt(b, i + 1);
    BitAt(b, i + 2);
    BitAt(b, i + 3);
  }

  lemma BitAt(b: seq<bool>, i: nat)
    requires i < |b|
    ensures BitsNat(b[i..]) == Bit(b[i]) + 2 * BitsNat(b[i + 1..])
  {
    assert b[i..][1..] == b[i + 1..];
  }

  /** The nibbles of the generator, from the low end: 0 2 3 8 8 b d e. */
  lemma GeneratorNibbles(i: nat, n: nat)
    requires (i, n) in [(0, 0), (4, 2), (8, 3), (12, 8), (16, 8), (20, 0xb), (24, 0xd), (28, 0xe)]
    ensures BitsNat(POLY[i..]) == n + 16 * BitsNat(POLY[i + 4..])
  {
    NibbleAt(POLY, i);
    assert POLY[i] == IsExponent(31 - i) && POLY[i + 1] == IsExponent(30 - i);
    assert POLY[i + 2] == IsExponent(29 - i) && POLY[i + 3] == IsExponent(28 - i);
  }

  /** The generator is the constant the source folds in. */
  lemma GeneratorConstant()
    ensures BitsNat(POLY) == 0xedb8_8320
  {
    GeneratorNibbles(0, 0);
    GeneratorNibbles(4, 2);
    GeneratorNibbles(8, 3);
    GeneratorNibbles(12, 8);
    GeneratorNibbles(16, 8);
    GeneratorNibbles(20, 0xb);
    GeneratorNibbles(24, 0xd);
    GeneratorNibbles(28, 0xe);
    assert POLY[32..] == [] && POLY[0..] == POLY;
  }

  // ---------- composition ----------

  /** Feeding two pieces one after the other is feeding their concatenation. */
  lemma {:induction false} UpdateConcat(c: Register, a: seq<byte>, b: seq<byte>)
    ensures Update(c, a + b) == Update(Update(c, a), b)
    decreases |a|
  {
    if a == [] {
      assert a + b == b;
    } else {
      assert (a + b)[1..] == a[1..] + b;
      UpdateConcat(Feed(c, a[0]), a[1..], b);
    }
  }

  /** Reading on by count bytes. */
  lemma UpdatePrefix(s: seq<byte>, position: nat, count: nat)
    requires position + count <= |s|
    ensures Update(Update(ONES, s[..position]), s[position..position + count]) == Update(ONES, s[..position + count])
  {
    UpdateConcat(ONES, s[..position], s[position..position + count]);
    assert s[..position] + s[position..position + count] == s[..position + count];
  }

  /** The register of a checksum in progress after the first position bytes. */
  predicate Running(register: Register, s: seq<byte>, position: nat) {
    position <= |s| && register == Update(ONES, s[..position])
  }

  lemma RunningStarts(s: seq<byte>)
    ensures Running(ONES, s, 0)
  {
  }

  /** Feeds the next count bytes to a checksum in progress. */
  method Advance(register: Register, s: seq<byte>, position: nat, count: nat) returns (next: Register)
    requires Running(register, s, position) && position + count <= |s|
    ensures Running(next, s, position + count)
  {
    UpdatePrefix(s, position, count);
    next := UpdateLoop(register, s[position..position + count]);
  }

  method Close(register: Register, s: seq<byte>) returns (crc: nat)
    requires Running(register, s, |s|)
    ensures crc == Crc32(s)
  {
    assert s[..|s|] == s;
    crc := Finish(register);
  }

  /** Checksums the bytes of an object or of a source in chunks. */
  method ChunkedCrc(bytes: seq<byte>, chunk: nat) returns (crc: nat)
    requires chunk > 0
    ensures crc == Crc32(bytes)
  {
    var register, position := ONES, 0;
    while position < |bytes|
      invariant Running(register, bytes, position)
    {
      var count := if |bytes| - position > chunk then chunk else |bytes| - position;
      register := Advance(register, bytes, position, count);
      position := position + count;
    }
    crc := Close(register, bytes);
  }

  lemma EmptyCrc()
    ensures Crc32([]) == 0
  {
    assert Xor(ONES, ONES) == Clear(32);
    ClearIsZero(32);
  }

  lemma {:induction false} ClearIsZero(n: nat)
    ensures BitsNat(Clear(n)) == 0
  {
    if n != 0 {
      ClearIsZero(n - 1);
      assert Clear(n)[1..] == Clear(n - 1);
    }
  }

  // ---------- each step is a bijection ----------

  /** The inverse of Step: the top bit tells which branch was taken. */
  function Unstep(c: Register): Register {
    if c[31] then [true] + Xor(c, POLY)[..31] else [false] + c[..31]
  }

  /** A step loses no information: it is a bijection of the register. */
  lemma StepBijective(c: Register)
    ensures Unstep(Step(c)) == c
    ensures Step(Unstep(c)) == c
  {
    assert Unstep(Step(c)) == c;
    var u := Unstep(c);
    if c[31] {
      assert ShiftRight(u, 1) == Xor(c, POLY)[..31] + [false];
      assert Step(u) == c;
    } else {
      assert Step(u) == c;
    }
  }

  lemma {:induction false} StepsInjective(a: Register, b: Register, n: nat)
    requires Steps(a, n) == Steps(b, n)
    ensures a == b
    decreases n
  {
    if n != 0 {
      StepsInjective(Step(a), Step(b), n - 1);
      StepBijective(a);
      StepBijective(b);
    }
  }

  lemma XorCancel(a: Register, b: Register, x: Register)
    requires Xor(a, x) == Xor(b, x)
    ensures a == b
  {
    forall i | 0 <= i < 32 ensures a[i] == b[i] {
      assert Xor(a, x)[i] == Xor(b, x)[i];
    }
  }

  lemma XorCommutes(a: Register, b: Register)
    ensures Xor(a, b) == Xor(b, a)
  {
  }

  /** Over the same bytes, different registers stay different: a change is never absorbed later. */
  lemma {:induction false} UpdateInjective(a: Register, b: Register, s: seq<byte>)
    requires Update(a, s) == Update(b, s)
    ensures a == b
    decreases |s|
  {
    if s != [] {
      UpdateInjective(Feed(a, s[0]), Feed(b, s[0]), s[1..]);
      StepsInjective(Xor(a, Word([s[0]])), Xor(b, Word([s[0]])), 8);
      XorCancel(a, b, Word([s[0]]));
    }
  }

  // ---------- bursts ----------

  lemma StepLinear(x: Register, y: Register)
    requires !y[0]
    ensures Step(Xor(x, y)) == Xor(Step(x), ShiftRight(y, 1))
  {
    var a, b := ShiftRight(x, 1), ShiftRight(y, 1);
    assert Xor(x, y)[0] == x[0];
    assert ShiftRight(Xor(x, y), 1) == Xor(a, b);
    assert Xor(Xor(a, b), POLY) == Xor(Xor(a, POLY), b);
  }

  /** A register whose low bits are clear passes through that many steps linearly. */
  lemma {:induction false} StepsLinear(x: Register, y: Register, n: nat)
    requires n <= 32 && forall i :: 0 <= i < n ==> !y[i]
    ensures Steps(Xor(x, y), n) == Xor(Steps(x, n), ShiftRight(y, n))
    decreases n
  {
    if n == 0 {
      assert ShiftRight(y, 0) == y;
    } else {
      var z := ShiftRight(y, 1);
      StepLinear(x, y);
      StepsLinear(Step(x), z, n - 1);
      assert ShiftRight(z, n - 1) == ShiftRight(y, n);
    }
  }

  lemma {:induction false} StepsAdd(c: Register, m: nat, n: nat)
    ensures Steps(c, m + n) == Steps(Steps(c, m), n)
    decreases m
  {
    if m != 0 {
      StepsAdd(Step(c), m - 1, n);
    }
  }

  /** The first byte of a word fills the low bits, the others follow eight bits up. */
  lemma WordSplit(c: Register, s: seq<byte>, rest: Register)
    requires 0 < |s| <= 4 && rest == Clear(8) + Word(s)[8..]
    ensures Xor(c, Word(s)) == Xor(Xor(c, Word([s[0]])), rest)
    ensures ShiftRight(rest, 8) == Word(s[1..])
  {
    var low, head := Word([s[0]]), NatBits(s[0], 8);
    assert ByteBits([s[0]]) == head by { assert [s[0]][1..] == []; }
    assert ByteBits(s) == head + ByteBits(s[1..]);
    forall i | 0 <= i < 32
      ensures Word(s)[i] == (low[i] != rest[i])
    {
    }
    assert Xor(c, Word(s)) == Xor(Xor(c, low), rest);
    assert Word(s)[8..] == ByteBits(s[1..]) + Clear(32 - 8 * |s|);
  }

  lemma FeedWord(c: Register, s: seq<byte>)
    requires 0 < |s| <= 4
    ensures Steps(Xor(c, Word(s)), 8) == Xor(Feed(c, s[0]), Word(s[1..]))
  {
    var rest: Register := Clear(8) + Word(s)[8..];
    WordSplit(c, s, rest);
    StepsLinear(Xor(c, Word([s[0]])), rest, 8);
  }

  lemma WordStep(c: Register, s: seq<byte>)
    requires 0 < |s| <= 4
    ensures Steps(Xor(c, Word(s)), 8 * |s|) == Steps(Xor(Feed(c, s[0]), Word(s[1..])), 8 * |s[1..]|)
  {
    FeedWord(c, s);
    StepsAdd(Xor(c, Word(s)), 8, 8 * |s| - 8);
  }

  lemma XorClear(c: Register)
    ensures Xor(c, Word([])) == c
  {
  }

  /** Feeding up to four bytes one by one is absorbing them as one word and shifting. */
  lemma {:induction false} UpdateWord(c: Register, s: seq<byte>)
    requires |s| <= 4
    ensures Update(c, s) == Steps(Xor(c, Word(s)), 8 * |s|)
    decreases |s|
  {
    if s == [] {
      XorClear(c);
    } else {
      UpdateWord(Feed(c, s[0]), s[1..]);
      WordStep(c, s);
    }
  }

  lemma ShortInjective(c: Register, a: seq<byte>, b: seq<byte>)
    requires |a| == |b| <= 4 && Update(c, a) == Update(c, b)
    ensures a == b
  {
    UpdateWord(c, a);
    UpdateWord(c, b);
    StepsInjective(Xor(c, Word(a)), Xor(c, Word(b)), 8 * |a|);
    XorCommutes(c, Word(a));
    XorCommutes(c, Word(b));
    XorCancel(Word(a), Word(b), c);
    assert ByteBits(a) == Word(a)[..8 * |a|] && ByteBits(b) == Word(b)[..8 * |a|];
    ByteBitsInjective(a, b);
  }

  /** s and t agree everywhere except possibly inside the window of width bytes at offset at. */
  predicate DifferOnlyIn(s: seq<byte>, t: seq<byte>, at: nat, width: nat) {
    |s| == |t| && forall i :: 0 <= i < |s| && !(at <= i < at + width) ==> s[i] == t[i]
  }

  lemma Crc32Injective(s: seq<byte>, t: seq<byte>)
    requires Crc32(s) == Crc32(t)
    ensures Update(ONES, s) == Update(ONES, t)
  {
    var u, v := Update(ONES, s), Update(ONES, t);
    BitsNatInjective(Xor(u, ONES), Xor(v, ONES));
    XorCancel(u, v, ONES);
  }

  lemma BurstPieces(head: seq<byte>, a: seq<byte>, b: seq<byte>, tail: seq<byte>)
    requires |a| == |b| <= 4 && a != b
    ensures Crc32(head + a + tail) != Crc32(head + b + tail)
  {
    if Crc32(head + a + tail) == Crc32(head + b + tail) {
      Crc32Injective(head + a + tail, head + b + tail);
      UpdatePieces(head, a, tail);
      UpdatePieces(head, b, tail);
      var c := Update(ONES, head);
      UpdateInjective(Update(c, a), Update(c, b), tail);
      ShortInjective(c, a, b);
    }
  }

  lemma UpdatePieces(head: seq<byte>, a: seq<byte>, tail: seq<byte>)
    ensures Update(ONES, head + a + tail) == Update(Update(Update(ONES, head), a), tail)
  {
    UpdateConcat(ONES, head + a, tail);
    UpdateConcat(ONES, head, a);
  }

  /** Any change confined to four consecutive bytes changes the checksum. */
  lemma BurstDetected(s: seq<byte>, t: seq<byte>, at: nat)
    requires DifferOnlyIn(s, t, at, 4) && s != t
    ensures Crc32(s) != Crc32(t)
  {
    var lo := if at < |s| then at else |s|;
    var hi := if at + 4 < |s| then at + 4 else |s|;
    assert s == s[..lo] + s[lo..hi] + s[hi..];
    assert t == s[..lo] + t[lo..hi] + s[hi..];
    BurstPieces(s[..lo], s[lo..hi], t[lo..hi], s[hi..]);
  }

  /** A structure that carries the checksum of itself with the checksum's own four bytes zeroed:
      a burst outside those bytes never leaves both versions in order. */
  lemma SealBroken(s: seq<byte>, t: seq<byte>, at: nat, sumAt: nat)
    requires DifferOnlyIn(s, t, at, 4) && s != t && sumAt + 4 <= |s| && s[sumAt..sumAt + 4] == t[sumAt..sumAt + 4]
    ensures Crc32(Put(s, sumAt, Zeros(4))) != Crc32(Put(t, sumAt, Zeros(4)))
  {
    var u, v := Put(s, sumAt, Zeros(4)), Put(t, sumAt, Zeros(4));
    PutBack(s, sumAt, Zeros(4), s[sumAt..sumAt + 4]);
    PutBack(t, sumAt, Zeros(4), s[sumAt..sumAt + 4]);
    BurstDetected(u, v, at);
  }

  lemma SameSize(s: seq<byte>, t: seq<byte>, at: nat)
    requires DifferOnlyIn(s, t, at, 4)
    ensures |s| == |t|
  {
  }

  lemma BurstInside(s: seq<byte>, t: seq<byte>, at: nat, a: nat, n: nat)
    requires DifferOnlyIn(s, t, at, 4) && a + n <= |s|
    ensures DifferOnlyIn(s[a..a + n], t[a..a + n], if at >= a then at - a else 0, 4)
  {
  }

  lemma Finished(s: seq<byte>)
    ensures Finish(Update(ONES, s)) == Crc32(s)
  {
  }
}
