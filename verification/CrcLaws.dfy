/** The checksum measured from outside: the same computation on plain numbers, and the one residue
    that every message followed by its own checksum leaves behind. */
module CrcLaws {
  import opened Bytes
  import opened Crc

  // ---------- the computation on numbers ----------

  /** Exclusive or of the low n binary digits. */
  function XorOf(a: nat, b: nat, n: nat): nat {
    if n == 0 then 0 else (a % 2 + b % 2) % 2 + 2 * XorOf(a / 2, b / 2, n - 1)
  }

  /** One shift: an odd register has the generator folded in. */
  function Shifted(c: nat): nat {
    if c % 2 == 1 then XorOf(c / 2, 0xedb8_8320, 32) else c / 2
  }

  function ShiftedBy(c: nat, n: nat): nat
    decreases n
  {
    if n == 0 then c else ShiftedBy(Shifted(c), n - 1)
  }

  /** The register after a message. */
  function Fed(c: nat, s: seq<byte>): nat
    decreases |s|
  {
    if s == [] then c else Fed(ShiftedBy(XorOf(c, s[0], 32), 8), s[1..])
  }

  /** CRC-32 with initial register and final complement 0xffffffff. */
  function Reference(s: seq<byte>): nat {
    XorOf(Fed(0xffff_ffff, s), 0xffff_ffff, 32)
  }

  lemma {:induction false} NatBitsAt(v: nat, n: nat, i: nat)
    requires i < n
    ensures i == 0 ==> NatBits(v, n)[0] == (v % 2 == 1)
    ensures i > 0 ==> NatBits(v, n)[i] == NatBits(v / 2, n - 1)[i - 1]
  {
  }

  lemma {:induction false} XorBits(a: nat, b: nat, n: nat)
    ensures forall i :: 0 <= i < n ==> NatBits(XorOf(a, b, n), n)[i] == (NatBits(a, n)[i] != NatBits(b, n)[i])
  {
    if n > 0 {
      XorBits(a / 2, b / 2, n - 1);
      var x := XorOf(a, b, n);
      assert x % 2 == (a % 2 + b % 2) % 2 && x / 2 == XorOf(a / 2, b / 2, n - 1);
      forall i | 0 <= i < n ensures NatBits(x, n)[i] == (NatBits(a, n)[i] != NatBits(b, n)[i]) {
        NatBitsAt(x, n, i);
        NatBitsAt(a, n, i);
        NatBitsAt(b, n, i);
      }
    }
  }

  lemma XorIs(a: nat, b: nat)
    ensures Xor(NatBits(a, 32), NatBits(b, 32)) == NatBits(XorOf(a, b, 32), 32)
  {
    hide NatBits, XorOf;
    XorBits(a, b, 32);
  }

  lemma {:induction false} XorBound(a: nat, b: nat, n: nat)
    ensures XorOf(a, b, n) < Pow2(n)
  {
    if n > 0 {
      XorBound(a / 2, b / 2, n - 1);
    }
  }

  lemma {:induction false} BitsBack(b: seq<bool>)
    ensures NatBits(BitsNat(b), |b|) == b
  {
    if b != [] {
      BitsBack(b[1..]);
      assert b == [b[0]] + b[1..];
    }
  }

  lemma {:induction false} NatBack(v: nat, n: nat)
    requires v < Pow2(n)
    ensures BitsNat(NatBits(v, n)) == v
  {
    if n > 0 {
      NatBack(v / 2, n - 1);
      assert NatBits(v, n)[1..] == NatBits(v / 2, n - 1);
    }
  }

  lemma {:induction false} NatBitsMore(v: nat, n: nat, m: nat)
    requires n <= m && v < Pow2(n)
    ensures NatBits(v, m) == NatBits(v, n) + Clear(m - n)
    decreases m
  {
    if n > 0 {
      NatBitsMore(v / 2, n - 1, m - 1);
    } else if m > 0 {
      NatBitsMore(0, 0, m - 1);
      assert Clear(m) == [false] + Clear(m - 1);
    }
  }

  lemma ShiftIs(v: nat)
    requires v < U32
    ensures ShiftRight(NatBits(v, 32), 1) == NatBits(v / 2, 32)
  {
    hide NatBits;
    Pow2Values();
    assert v / 2 < Pow2(31) by {
      assert Pow2(32) == 2 * Pow2(31);
    }
    NatBitsMore(v / 2, 31, 32);
    BitsTail(v);
  }

  lemma BitsTail(v: nat)
    ensures NatBits(v, 32)[1..] == NatBits(v / 2, 31)
  {
  }

  lemma StepIs(v: nat)
    requires v < U32
    ensures Step(NatBits(v, 32)) == NatBits(Shifted(v), 32) && Shifted(v) < U32
  {
    hide NatBits, Xor, ShiftRight, XorOf, BitsNat;
    ShiftIs(v);
    FirstBit(v);
    GeneratorConstant();
    BitsBack(POLY);
    XorIs(v / 2, 0xedb8_8320);
    XorBound(v / 2, 0xedb8_8320, 32);
    Pow2Values();
  }

  lemma FirstBit(v: nat)
    ensures NatBits(v, 32)[0] == (v % 2 == 1)
  {
  }

  lemma {:induction false} StepsAre(v: nat, n: nat)
    requires v < U32
    ensures Steps(NatBits(v, 32), n) == NatBits(ShiftedBy(v, n), 32) && ShiftedBy(v, n) < U32
    decreases n
  {
    hide NatBits, Step, Shifted;
    if n > 0 {
      StepIs(v);
      StepsAre(Shifted(v), n - 1);
    }
  }

  lemma WordIs(b: byte)
    ensures Word([b]) == NatBits(b, 32)
  {
    Pow2Values();
    NatBitsMore(b, 8, 32);
    assert ByteBits([b]) == NatBits(b, 8) by {
      assert [b][1..] == [];
    }
  }

  lemma {:induction false} FedIs(v: nat, s: seq<byte>)
    requires v < U32
    ensures Update(NatBits(v, 32), s) == NatBits(Fed(v, s), 32) && Fed(v, s) < U32
    decreases |s|
  {
    hide NatBits, Steps, Xor, Word, XorOf, ShiftedBy;
    if s != [] {
      WordIs(s[0]);
      XorIs(v, s[0]);
      XorBound(v, s[0], 32);
      Pow2Values();
      StepsAre(XorOf(v, s[0], 32), 8);
      FedIs(ShiftedBy(XorOf(v, s[0], 32), 8), s[1..]);
    }
  }

  lemma {:induction false} OnesAre(n: nat)
    ensures BitsNat(Ones(n)) + 1 == Pow2(n)
  {
    if n > 0 {
      OnesAre(n - 1);
      assert Ones(n)[1..] == Ones(n - 1);
    }
  }

  lemma AllOnes()
    ensures ONES == NatBits(0xffff_ffff, 32)
  {
    hide NatBits, BitsNat;
    Pow2Values();
    OnesAre(32);
    BitsBack(Ones(32));
  }

  /** The checksum is the one of the reference. */
  lemma CrcIs(s: seq<byte>)
    ensures Crc32(s) == Reference(s)
  {
    hide NatBits, BitsNat, Update, Fed, XorOf, Xor;
    AllOnes();
    FedIs(0xffff_ffff, s);
    XorIs(Fed(0xffff_ffff, s), 0xffff_ffff);
    XorBound(Fed(0xffff_ffff, s), 0xffff_ffff, 32);
    Pow2Values();
    NatBack(Reference(s), 32);
  }

  // ---------- the residue ----------

  lemma XorTwice(c: Register, x: Register)
    ensures Xor(c, Xor(c, x)) == x
  {
  }

  /** Whatever the message, appending its own checksum leaves the register in one and the same state. */
  lemma Residue(s: seq<byte>)
    ensures Update(ONES, s + Le(4, Crc32(s))) == Steps(ONES, 32)
  {
    hide Le, Steps, Update, Word, Xor;
    var c, sum := Update(ONES, s), Le(4, Crc32(s));
    UpdateConcat(ONES, s, sum);
    UpdateWord(c, sum);
    SumWord(s);
    XorTwice(c, ONES);
  }

  lemma SumWord(s: seq<byte>)
    ensures Word(Le(4, Crc32(s))) == Xor(Update(ONES, s), ONES)
  {
    hide Le, Update, Xor, NatBits, BitsNat;
    var x := Xor(Update(ONES, s), ONES);
    LeBits(4, Crc32(s));
    BitsBack(x);
  }

  lemma {:induction false} NatBitsSplit(v: nat, p: nat, q: nat, r: nat, m: nat, n: nat)
    requires p == Pow2(m) && v == q * p + r && r < p
    ensures NatBits(v, m + n) == NatBits(r, m) + NatBits(q, n)
    decreases m
  {
    if m > 0 {
      var h := Pow2(m - 1);
      Halves(v, h, q, r);
      NatBitsSplit(v / 2, h, q, r / 2, m - 1, n);
    } else {
      assert q * p == q;
    }
  }

  lemma Halves(v: nat, h: nat, q: nat, r: nat)
    requires v == q * (2 * h) + r && r < 2 * h
    ensures v / 2 == q * h + r / 2 && v % 2 == r % 2
  {
    assert q * (2 * h) == 2 * (q * h);
  }

  /** The bits of a stored number are its bits. */
  lemma {:induction false} LeBits(n: nat, v: nat)
    ensures ByteBits(Le(n, v)) == NatBits(v, 8 * n)
    decreases n
  {
    if n > 0 {
      LeBits(n - 1, v / 256);
      Pow2Values();
      NatBitsSplit(v, 256, v / 256, v % 256, 8, 8 * n - 8);
      assert Le(n, v)[1..] == Le(n - 1, v / 256);
    }
  }
}
