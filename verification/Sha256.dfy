/** Streaming SHA-256 (FIPS 180-4): however a message is cut into updates, the digest is that of the
    padded message. Words are numbers below 2^32. */
module Sha256 {
  import opened Bytes
  import Crc

  type word = w: int | 0 <= w < 0x1_0000_0000

  // ---------- word operations ----------

  function Bits(w: word): (r: Crc.Register) {
    Crc.NatBits(w, 32)
  }

  function Number(b: Crc.Register): word {
    Crc.BitsNatBound(b);
    Crc.Pow2Values();
    Crc.BitsNat(b)
  }

  function RotateRight(w: word, n: nat): word
    requires n <= 32
  {
    Number(Bits(w)[n..] + Bits(w)[..n])
  }

  function ShiftRight(w: word, n: nat): word
    requires n <= 32
  {
    Number(Crc.ShiftRight(Bits(w), n))
  }

  function Xor(a: word, b: word): word {
    Number(Crc.Xor(Bits(a), Bits(b)))
  }

  function And(a: word, b: word): word {
    Number(Crc.And(Bits(a), Bits(b)))
  }

  function Not(a: word): word {
    Xor(a, 0xffff_ffff)
  }

  function Add(a: word, b: word): word {
    (a + b) % 0x1_0000_0000
  }

  /** The functions of section 4.1.2. */
  function Choice(e: word, f: word, g: word): word {
    Xor(And(e, f), And(Not(e), g))
  }

  function Majority(a: word, b: word, c: word): word {
    Xor(Xor(And(a, b), And(a, c)), And(b, c))
  }

  function Three(w: word, p: nat, q: nat, r: nat): word
    requires p <= 32 && q <= 32 && r <= 32
  {
    Xor(Xor(RotateRight(w, p), RotateRight(w, q)), RotateRight(w, r))
  }

  function TwoAndShift(w: word, p: nat, q: nat, r: nat): word
    requires p <= 32 && q <= 32 && r <= 32
  {
    Xor(Xor(RotateRight(w, p), RotateRight(w, q)), ShiftRight(w, r))
  }

  /** The round constants, eight to a row. */
  const ROW_0: seq<word> := [
    0x428a_2f98, 0x7137_4491, 0xb5c0_fbcf, 0xe9b5_dba5, 0x3956_c25b, 0x59f1_11f1, 0x923f_82a4, 0xab1c_5ed5]
  const ROW_1: seq<word> := [
    0xd807_aa98, 0x1283_5b01, 0x2431_85be, 0x550c_7dc3, 0x72be_5d74, 0x80de_b1fe, 0x9bdc_06a7, 0xc19b_f174]
  const ROW_2: seq<word> := [
    0xe49b_69c1, 0xefbe_4786, 0x0fc1_9dc6, 0x240c_a1cc, 0x2de9_2c6f, 0x4a74_84aa, 0x5cb0_a9dc, 0x76f9_88da]
  const ROW_3: seq<word> := [
    0x983e_5152, 0xa831_c66d, 0xb003_27c8, 0xbf59_7fc7, 0xc6e0_0bf3, 0xd5a7_9147, 0x06ca_6351, 0x1429_2967]
  const ROW_4: seq<word> := [
    0x27b7_0a85, 0x2e1b_2138, 0x4d2c_6dfc, 0x5338_0d13, 0x650a_7354, 0x766a_0abb, 0x81c2_c92e, 0x9272_2c85]
  const ROW_5: seq<word> := [
    0xa2bf_e8a1, 0xa81a_664b, 0xc24b_8b70, 0xc76c_51a3, 0xd192_e819, 0xd699_0624, 0xf40e_3585, 0x106a_a070]
  const ROW_6: seq<word> := [
    0x19a4_c116, 0x1e37_6c08, 0x2748_774c, 0x34b0_bcb5, 0x391c_0cb3, 0x4ed8_aa4a, 0x5b9c_ca4f, 0x682e_6ff3]
  const ROW_7: seq<word> := [
    0x748f_82ee, 0x78a5_636f, 0x84c8_7814, 0x8cc7_0208, 0x90be_fffa, 0xa450_6ceb, 0xbef9_a3f7, 0xc671_78f2]

  const K: seq<word> := ROW_0 + ROW_1 + ROW_2 + ROW_3 + ROW_4 + ROW_5 + ROW_6 + ROW_7

  const INITIAL: seq<word> := [
    0x6a09_e667, 0xbb67_ae85, 0x3c6e_f372, 0xa54f_f53a, 0x510e_527f, 0x9b05_688c, 0x1f83_d9ab, 0x5be0_cd19]

  // ---------- one block ----------

  /** The i-th word of a block, most significant byte first. */
  function WordAt(block: seq<byte>, i: nat): word
    requires |block| == 64 && i < 16
  {
    var a: int, b: int, c: int, d: int := block[4 * i], block[4 * i + 1], block[4 * i + 2], block[4 * i + 3];
    a * 0x100_0000 + b * 0x1_0000 + c * 0x100 + d
  }

  /** The message schedule (section 6.2.2, step 1). */
  function Schedule(block: seq<byte>, n: nat): (ws: seq<word>)
    requires |block| == 64 && n <= 64
    ensures |ws| == n
  {
    if n == 0 then []
    else if n <= 16 then Schedule(block, n - 1) + [WordAt(block, n - 1)]
    else Schedule(block, n - 1) + [NextWord(Schedule(block, n - 1))]
  }

  function NextWord(ws: seq<word>): word
    requires |ws| >= 16
  {
    var i := |ws|;
    var s0, s1 := TwoAndShift(ws[i - 15], 7, 18, 3), TwoAndShift(ws[i - 2], 17, 19, 10);
    Add(Add(Add(ws[i - 16], s0), ws[i - 7]), s1)
  }

  /** The eight working variables. */
  datatype Working = Working(a: word, b: word, c: word, d: word, e: word, f: word, g: word, h: word)

  function Round(v: Working, k: word, w: word): Working {
    var temp1 := Add(Add(Add(Add(v.h, Three(v.e, 6, 11, 25)), Choice(v.e, v.f, v.g)), k), w);
    var temp2 := Add(Three(v.a, 2, 13, 22), Majority(v.a, v.b, v.c));
    Working(Add(temp1, temp2), v.a, v.b, v.c, Add(v.d, temp1), v.e, v.f, v.g)
  }

  function Rounds(v: Working, ws: seq<word>, n: nat): Working
    requires |ws| == 64 && n <= 64
  {
    if n == 0 then v else Round(Rounds(v, ws, n - 1), K[n - 1], ws[n - 1])
  }

  function Load(state: seq<word>): Working
    requires |state| == 8
  {
    Working(state[0], state[1], state[2], state[3], state[4], state[5], state[6], state[7])
  }

  function Mix(state: seq<word>, v: Working): (r: seq<word>)
    requires |state| == 8
    ensures |r| == 8
  {
    [Add(state[0], v.a), Add(state[1], v.b), Add(state[2], v.c), Add(state[3], v.d),
     Add(state[4], v.e), Add(state[5], v.f), Add(state[6], v.g), Add(state[7], v.h)]
  }

  function Compress(state: seq<word>, block: seq<byte>): (r: seq<word>)
    requires |state| == 8 && |block| == 64
    ensures |r| == 8
  {
    Mix(state, Rounds(Load(state), Schedule(block, 64), 64))
  }

  // ---------- messages ----------

  /** The state after all whole blocks of a message. */
  function Absorb(state: seq<word>, m: seq<byte>): (r: seq<word>)
    requires |state| == 8
    ensures |r| == 8
    decreases |m|
  {
    if |m| < 64 then state else Absorb(Compress(state, m[..64]), m[64..])
  }

  /** How many bytes of a message of this length lie beyond its last whole block. */
  function Rem(n: nat): (r: nat)
    ensures r < 64 && r <= n
  {
    n % 64
  }

  /** The padding of section 5.1.1: a one bit, zeros, the length in bits. */
  function Pad(m: seq<byte>): (p: seq<byte>) {
    m + [0x80] + Zeros(Fill(|m|)) + Be(8, 8 * |m|)
  }

  /** The zeros that complete the last block. */
  function Fill(n: nat): (k: nat)
    ensures k < 64
  {
    (119 - Rem(n)) % 64
  }

  /** The padded message is a whole number of blocks, and no shorter padding would do. */
  lemma PadAligned(m: seq<byte>)
    ensures |Pad(m)| % 64 == 0 && |m| + 9 <= |Pad(m)| < |m| + 9 + 64
  {
    Aligns(|m|);
  }

  lemma Aligns(n: nat)
    ensures (n + 9 + Fill(n)) % 64 == 0
  {
    var q := n / 64;
    assert n == 64 * q + Rem(n);
    if Rem(n) <= 55 {
      assert Fill(n) == 55 - Rem(n);
      assert n + 9 + Fill(n) == 64 * (q + 1);
    } else {
      assert n + 9 + Fill(n) == 64 * (q + 2);
    }
  }

  function DigestOf(state: seq<word>): (d: seq<byte>)
    requires |state| == 8
    ensures |d| == 32
  {
    Be(4, state[0]) + Be(4, state[1]) + Be(4, state[2]) + Be(4, state[3]) +
    Be(4, state[4]) + Be(4, state[5]) + Be(4, state[6]) + Be(4, state[7])
  }

  /** The SHA-256 of a message. */
  function Hash(m: seq<byte>): (d: seq<byte>)
    ensures |d| == 32
  {
    DigestOf(Absorb(INITIAL, Pad(m)))
  }

  /** Whole blocks first, the rest afterwards. */
  lemma {:induction false} AbsorbJoin(state: seq<word>, a: seq<byte>, b: seq<byte>)
    requires |state| == 8 && Rem(|a|) == 0
    ensures Absorb(state, a + b) == Absorb(Absorb(state, a), b)
    decreases |a|
  {
    hide Compress;
    if a == [] {
      assert a + b == b;
    } else {
      assert (a + b)[..64] == a[..64] && (a + b)[64..] == a[64..] + b;
      AbsorbJoin(Compress(state, a[..64]), a[64..], b);
    }
  }

  lemma AbsorbBlock(state: seq<word>, block: seq<byte>)
    requires |state| == 8 && |block| == 64
    ensures Absorb(state, block) == Compress(state, block)
  {
    hide Compress;
    assert block[..64] == block && block[64..] == [];
  }

  /** The bytes of a message beyond its last whole block. */
  function Tail(m: seq<byte>): (t: seq<byte>)
    ensures |t| == Rem(|m|)
  {
    m[|m| - Rem(|m|)..]
  }

  /** The whole blocks of a message. */
  function Whole(m: seq<byte>): (w: seq<byte>)
    ensures Rem(|w|) == 0 && |w| + Rem(|m|) == |m|
  {
    m[..|m| - Rem(|m|)]
  }

  /** Less than a block beyond whole blocks changes nothing yet. */
  lemma Waits(w: seq<byte>, t: seq<byte>)
    requires Rem(|w|) == 0 && |t| < 64
    ensures Absorb(INITIAL, w + t) == Absorb(INITIAL, w) && Whole(w + t) == w && Tail(w + t) == t
  {
    hide Absorb, Rem;
    AbsorbJoin(INITIAL, w, t);
    AbsorbShort(Absorb(INITIAL, w), t);
    Remainder(|w|, |t|);
    assert (w + t)[..|w|] == w && (w + t)[|w|..] == t;
  }

  lemma Remainder(a: nat, b: nat)
    requires Rem(a) == 0 && b < 64
    ensures Rem(a + b) == b
  {
  }

  lemma NextBlock(n: nat)
    requires Rem(n) == 0
    ensures Rem(n + 64) == 0
  {
  }

  lemma AbsorbShort(state: seq<word>, t: seq<byte>)
    requires |state| == 8 && |t| < 64
    ensures Absorb(state, t) == state
  {
  }

  lemma Splits(m: seq<byte>)
    ensures Whole(m) + Tail(m) == m && Absorb(INITIAL, m) == Absorb(INITIAL, Whole(m))
  {
    hide Absorb, Rem;
    assert Whole(m) + Tail(m) == m;
    Waits(Whole(m), Tail(m));
  }

  lemma Append(a: seq<byte>, b: seq<byte>, c: seq<byte>)
    ensures a + b + c == a + (b + c)
  {
  }

  /** Bytes that do not fill the block only wait in it. */
  lemma TailGrows(m: seq<byte>, d: seq<byte>)
    requires |Tail(m)| + |d| < 64
    ensures Tail(m + d) == Tail(m) + d && Absorb(INITIAL, m + d) == Absorb(INITIAL, m)
  {
    hide Absorb, Whole, Tail, Rem;
    Splits(m);
    Append(Whole(m), Tail(m), d);
    Waits(Whole(m), Tail(m) + d);
  }

  /** Bytes that fill the block complete one more whole block. */
  lemma TailFills(m: seq<byte>, d: seq<byte>)
    requires |Tail(m)| + |d| == 64
    ensures Tail(m + d) == [] && Absorb(INITIAL, m + d) == Compress(Absorb(INITIAL, m), Tail(m) + d)
  {
    hide Absorb, Whole, Tail, Compress, Rem;
    Splits(m);
    Append(Whole(m), Tail(m), d);
    var w := Whole(m) + (Tail(m) + d);
    AbsorbJoin(INITIAL, Whole(m), Tail(m) + d);
    AbsorbBlock(Absorb(INITIAL, Whole(m)), Tail(m) + d);
    NextBlock(|Whole(m)|);
    Waits(w, []);
    assert w + [] == w;
  }

  lemma FillIs(n: nat)
    ensures Fill(n) == if Rem(n) <= 55 then 55 - Rem(n) else 119 - Rem(n)
  {
  }

  /** Only the low n bytes of a number are stored. */
  lemma {:induction false} BeWraps(n: nat, v: nat, k: nat)
    ensures Be(n, v + k * Pow256(n)) == Be(n, v)
    decreases n
  {
    if n != 0 {
      var p := Pow256(n - 1);
      assert k * Pow256(n) == 256 * (k * p) by {
        assert Pow256(n) == 256 * p;
      }
      Low(v, k * p);
      BeWraps(n - 1, v / 256, k);
    }
  }

  lemma Low(v: nat, q: nat)
    ensures (v + 256 * q) % 256 == v % 256 && (v + 256 * q) / 256 == v / 256 + q
  {
  }

  /** The length field, computed in 64-bit arithmetic, is the length in bits as far as eight bytes
      can hold it. */
  lemma LengthField(n: nat)
    ensures Be(8, n % U64 * 8 % U64) == Be(8, 8 * n)
  {
    var a := n % U64 * 8 % U64;
    var k := (8 * n - a) / U64;
    assert (8 * n - a) % U64 == 0 by {
      assert 8 * n == n / U64 * 8 * U64 + n % U64 * 8;
      assert n % U64 * 8 == n % U64 * 8 / U64 * U64 + a;
    }
    Pow256Values();
    BeWraps(8, a, k);
  }

  /** The last block, when the padding fits into it. */
  lemma PadOne(m: seq<byte>)
    requires |Tail(m)| <= 55
    ensures var last := Tail(m) + ([0x80] + Zeros(55 - |Tail(m)|) + Be(8, 8 * |m|));
      |last| == 64 && Absorb(INITIAL, Pad(m)) == Compress(Absorb(INITIAL, m), last)
  {
    hide Absorb, Tail, Compress, Be, Rem, Fill;
    var rest := [0x80] + Zeros(55 - |Tail(m)|) + Be(8, 8 * |m|);
    FillIs(|m|);
    assert Pad(m) == m + rest;
    TailFills(m, rest);
  }

  /** The last two blocks, when it does not. */
  lemma PadTwo(m: seq<byte>)
    requires |Tail(m)| > 55
    ensures var first := Tail(m) + ([0x80] + Zeros(63 - |Tail(m)|)); var second := Zeros(56) + Be(8, 8 * |m|);
      |first| == |second| == 64 && Absorb(INITIAL, Pad(m)) == Compress(Compress(Absorb(INITIAL, m), first), second)
  {
    hide Absorb, Tail, Compress, Be, Rem, Fill;
    var a := [0x80] + Zeros(63 - |Tail(m)|);
    var second := Zeros(56) + Be(8, 8 * |m|);
    FillIs(|m|);
    assert Zeros(119 - |Tail(m)|) == Zeros(63 - |Tail(m)|) + Zeros(56);
    assert Pad(m) == (m + a) + second;
    TailFills(m, a);
    TailFills(m + a, second);
    assert Tail(m + a) + second == second;
  }

  // ---------- the streaming context ----------

  class Context {
    var state: seq<word>
    const block: array<byte>
    var blockSize: nat
    var totalSize: nat

    /** State and block hold this message. */
    ghost predicate Holds(m: seq<byte>)
      reads this, block
    {
      && block.Length == 64 && |state| == 8
      && state == Absorb(INITIAL, m)
      && blockSize == Rem(|m|) && block[..blockSize] == Tail(m)
    }

    /** The context stands for the message fed to it so far. */
    ghost predicate Represents(m: seq<byte>)
      reads this, block
    {
      Holds(m) && totalSize == |m| % U64
    }

    constructor ()
      ensures fresh(block) && Represents([])
    {
      state := INITIAL;
      block := new byte[64](_ => 0);
      blockSize, totalSize := 0, 0;
    }

    /** One block into the state. */
    method Transform(data: seq<byte>)
      requires |state| == 8 && |data| == 64
      modifies this`state
      ensures state == Compress(old(state), data)
    {
      var words: seq<word> := [];
      for index := 0 to 16
        invariant words == Schedule(data, index)
      {
        words := words + [WordAt(data, index)];
      }
      for index := 16 to 64
        invariant words == Schedule(data, index)
      {
        words := words + [NextWord(words)];
      }
      var v := Load(state);
      for index := 0 to 64
        invariant v == Rounds(Load(state), words, index)
      {
        v := Round(v, K[index], words[index]);
      }
      state := Mix(state, v);
    }

    /** Copies bytes into the block and transforms it when it is full. */
    method Feed(data: seq<byte>, ghost m: seq<byte>)
      requires Holds(m) && Rem(|m|) + |data| <= 64
      modifies this`state, this`blockSize, block
      ensures Holds(m + data)
    {
      hide Absorb, Compress, Tail, Rem;
      Copy(block, blockSize, data);
      assert block[..blockSize + |data|] == Tail(m) + data;
      blockSize := blockSize + |data|;
      if blockSize == 64 {
        TailFills(m, data);
        assert block[..] == Tail(m) + data;
        Transform(block[..]);
        blockSize := 0;
      } else {
        TailGrows(m, data);
      }
    }

    /** Feeds data, however it is cut. */
    method Update(data: seq<byte>, ghost m: seq<byte>)
      requires Represents(m)
      modifies this, block
      ensures Represents(m + data)
    {
      hide Absorb, Tail, Rem;
      totalSize := (totalSize + |data|) % U64;
      var position := 0;
      assert m + data[..0] == m;
      while position < |data|
        invariant 0 <= position <= |data| && Holds(m + data[..position])
        invariant totalSize == (|m| + |data|) % U64
      {
        var count := if 64 - blockSize > |data| - position then |data| - position else 64 - blockSize;
        assert (m + data[..position]) + data[position..position + count] == m + data[..position + count];
        Feed(data[position..position + count], m + data[..position]);
        position := position + count;
      }
      assert data[..|data|] == data;
    }

    /** Zeros from blockSize up to end. */
    method ZeroTo(end: nat)
      requires block.Length == 64 && blockSize <= end <= 64
      modifies block
      ensures block[..end] == old(block[..blockSize]) + Zeros(end - blockSize)
    {
      ghost var before := block[..];
      var n := end - blockSize;
      Copy(block, blockSize, Zeros(n));
      assert block[..end] == before[..blockSize] + Zeros(n);
    }

    /** The end mark, and the block before the last when the length does not fit behind the mark. */
    method Mark(ghost m: seq<byte>)
      requires Holds(m)
      modifies this`state, this`blockSize, block
      ensures |state| == 8 && blockSize <= 56
      ensures |Tail(m)| <= 55 ==> block[..blockSize] == Tail(m) + [0x80] && state == old(state)
      ensures |Tail(m)| > 55 ==>
        blockSize == 0 && |Tail(m)| < 64 && state == Compress(old(state), Tail(m) + ([0x80] + Zeros(63 - |Tail(m)|)))
    {
      hide Absorb, Tail, Compress, Rem;
      ghost var t := Tail(m);
      block[blockSize] := 0x80;
      blockSize := blockSize + 1;
      assert block[..blockSize] == t + [0x80];
      if blockSize > 56 {
        ZeroTo(64);
        assert block[..] == t + ([0x80] + Zeros(63 - |t|));
        Transform(block[..]);
        blockSize := 0;
      }
    }

    /** The last block: what is in it, zeros and the length. */
    method Close(bitSize: nat) returns (ghost last: seq<byte>)
      requires block.Length == 64 && |state| == 8 && blockSize <= 56
      modifies this`state, block
      ensures last == old(block[..blockSize]) + Zeros(56 - blockSize) + Be(8, bitSize)
      ensures |last| == 64 && state == Compress(old(state), last)
    {
      hide Compress, Be;
      ZeroTo(56);
      Copy(block, 56, Be(8, bitSize));
      last := block[..];
      Transform(block[..]);
    }

    /** Pads the message and returns its digest. */
    method Finish(ghost m: seq<byte>) returns (digest: seq<byte>)
      requires Represents(m)
      modifies this, block
      ensures digest == Hash(m)
    {
      hide Absorb, Tail, Be, Compress, Rem;
      var bitSize := totalSize * 8 % U64;
      LengthField(|m|);
      ghost var t := Tail(m);
      Mark(m);
      ghost var last := Close(bitSize);
      if |t| <= 55 {
        PadOne(m);
        assert last == t + ([0x80] + Zeros(55 - |t|) + Be(8, bitSize));
      } else {
        PadTwo(m);
        assert last == Zeros(56) + Be(8, bitSize);
      }
      digest := DigestOf(state);
    }
  }
}
