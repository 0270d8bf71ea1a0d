/** SHA-256 measured against FIPS 180-4: every operation bit by bit, the schedule, the rounds and the
    digest as relations between numbers. */
module Sha256Laws {
  import opened Bytes
  import opened Sha256
  import Crc
  import CrcLaws

  // ---------- bits of words ----------

  /** Bit i of a number, counted from the least significant. */
  predicate HasBit(w: nat, i: nat) {
    w / Crc.Pow2(i) % 2 == 1
  }

  lemma HalfThen(v: nat, p: nat)
    requires p > 0
    ensures v / 2 / p == v / (2 * p)
  {
    var q := v / 2 / p;
    assert v / 2 == q * p + v / 2 % p;
    assert v == 2 * (q * p + v / 2 % p) + v % 2;
    var rest := 2 * (v / 2 % p) + v % 2;
    assert 2 * (q * p) == q * (2 * p);
    QuotientIs(v, 2 * p, q, rest);
  }

  lemma {:induction false} BitsAt(v: nat, n: nat, i: nat)
    requires i < n
    ensures Crc.NatBits(v, n)[i] == HasBit(v, i)
  {
    if i > 0 {
      BitsAt(v / 2, n - 1, i - 1);
      HalfThen(v, Crc.Pow2(i - 1));
    }
  }

  /** The number of a register has the register's bits. */
  lemma NumberBit(b: Crc.Register, i: nat)
    requires i < 32
    ensures HasBit(Number(b), i) == b[i]
  {
    BitsAt(Number(b), 32, i);
    CrcLaws.BitsBack(b);
  }

  lemma WordBit(w: word, i: nat)
    requires i < 32
    ensures Bits(w)[i] == HasBit(w, i)
  {
    BitsAt(w, 32, i);
  }

  /** Words with the same bits are the same. */
  lemma SameBits(a: word, b: word)
    requires forall i :: 0 <= i < 32 ==> HasBit(a, i) == HasBit(b, i)
    ensures a == b
  {
    hide HasBit;
    forall i | 0 <= i < 32 ensures Bits(a)[i] == Bits(b)[i] {
      WordBit(a, i);
      WordBit(b, i);
    }
    assert Bits(a) == Bits(b);
    Crc.Pow2Values();
    Crc.NatBitsInjective(a, b, 32);
  }

  // ---------- operations bit by bit ----------

  lemma XorBit(a: word, b: word, i: nat)
    requires i < 32
    ensures HasBit(Xor(a, b), i) == (HasBit(a, i) != HasBit(b, i))
  {
    hide HasBit, Number, Bits;
    NumberBit(Crc.Xor(Bits(a), Bits(b)), i);
    WordBit(a, i);
    WordBit(b, i);
  }

  lemma AndBit(a: word, b: word, i: nat)
    requires i < 32
    ensures HasBit(And(a, b), i) == (HasBit(a, i) && HasBit(b, i))
  {
    hide HasBit, Number, Bits;
    NumberBit(Crc.And(Bits(a), Bits(b)), i);
    WordBit(a, i);
    WordBit(b, i);
  }

  lemma NotBit(a: word, i: nat)
    requires i < 32
    ensures HasBit(Not(a), i) == !HasBit(a, i)
  {
    hide HasBit, Number, Bits;
    XorBit(a, 0xffff_ffff, i);
    Crc.Pow2Values();
    CrcLaws.OnesAre(32);
    CrcLaws.BitsBack(Crc.Ones(32));
    BitsAt(0xffff_ffff, 32, i);
  }

  /** Rotating by n moves bit i + n, counted round, to place i. */
  lemma RotateBit(w: word, n: nat, i: nat)
    requires n <= 32 && i < 32
    ensures HasBit(RotateRight(w, n), i) == HasBit(w, (i + n) % 32)
  {
    hide HasBit, Number, Bits;
    NumberBit(Bits(w)[n..] + Bits(w)[..n], i);
    WordBit(w, (i + n) % 32);
  }

  /** Shifting by n moves bit i + n to place i and clears the rest. */
  lemma ShiftBit(w: word, n: nat, i: nat)
    requires n <= 32 && i < 32
    ensures HasBit(ShiftRight(w, n), i) == (i + n < 32 && HasBit(w, i + n))
  {
    hide HasBit, Number, Bits;
    NumberBit(Crc.ShiftRight(Bits(w), n), i);
    if i + n < 32 {
      WordBit(w, i + n);
    }
  }

  // ---------- the functions of section 4.1.2 ----------

  /** f where e is set, g elsewhere. */
  ghost predicate IsChoice(r: word, e: word, f: word, g: word) {
    forall i :: 0 <= i < 32 ==> HasBit(r, i) == if HasBit(e, i) then HasBit(f, i) else HasBit(g, i)
  }

  /** The value that two of the three share. */
  ghost predicate IsMajority(r: word, a: word, b: word, c: word) {
    forall i :: 0 <= i < 32 ==> HasBit(r, i) == if HasBit(a, i) == HasBit(b, i) then HasBit(a, i) else HasBit(c, i)
  }

  /** Odd parity of three bits of w. */
  ghost predicate IsThree(r: word, w: word, p: nat, q: nat, s: nat) {
    forall i :: 0 <= i < 32 ==>
      HasBit(r, i) == ((HasBit(w, (i + p) % 32) != HasBit(w, (i + q) % 32)) != HasBit(w, (i + s) % 32))
  }

  /** The same, the third bit not counted round. */
  ghost predicate IsTwoAndShift(r: word, w: word, p: nat, q: nat, s: nat) {
    forall i :: 0 <= i < 32 ==>
      HasBit(r, i) == ((HasBit(w, (i + p) % 32) != HasBit(w, (i + q) % 32)) != (i + s < 32 && HasBit(w, i + s)))
  }

  lemma ChoiceIs(e: word, f: word, g: word)
    ensures IsChoice(Choice(e, f, g), e, f, g)
  {
    hide HasBit, Xor, And, Not;
    forall i | 0 <= i < 32
      ensures HasBit(Choice(e, f, g), i) == if HasBit(e, i) then HasBit(f, i) else HasBit(g, i)
    {
      AndBit(e, f, i);
      NotBit(e, i);
      AndBit(Not(e), g, i);
      XorBit(And(e, f), And(Not(e), g), i);
    }
  }

  lemma MajorityIs(a: word, b: word, c: word)
    ensures IsMajority(Majority(a, b, c), a, b, c)
  {
    hide HasBit, Xor, And;
    forall i | 0 <= i < 32
      ensures HasBit(Majority(a, b, c), i) == if HasBit(a, i) == HasBit(b, i) then HasBit(a, i) else HasBit(c, i)
    {
      AndBit(a, b, i);
      AndBit(a, c, i);
      AndBit(b, c, i);
      XorBit(And(a, b), And(a, c), i);
      XorBit(Xor(And(a, b), And(a, c)), And(b, c), i);
    }
  }

  lemma ThreeIs(w: word, p: nat, q: nat, s: nat)
    requires p <= 32 && q <= 32 && s <= 32
    ensures IsThree(Three(w, p, q, s), w, p, q, s)
  {
    hide HasBit, Xor, RotateRight;
    forall i | 0 <= i < 32
      ensures HasBit(Three(w, p, q, s), i) == ((HasBit(w, (i + p) % 32) != HasBit(w, (i + q) % 32)) != HasBit(w, (i + s) % 32))
    {
      RotateBit(w, p, i);
      RotateBit(w, q, i);
      RotateBit(w, s, i);
      XorBit(RotateRight(w, p), RotateRight(w, q), i);
      XorBit(Xor(RotateRight(w, p), RotateRight(w, q)), RotateRight(w, s), i);
    }
  }

  lemma TwoAndShiftIs(w: word, p: nat, q: nat, s: nat)
    requires p <= 32 && q <= 32 && s <= 32
    ensures IsTwoAndShift(TwoAndShift(w, p, q, s), w, p, q, s)
  {
    hide HasBit, Xor, RotateRight, ShiftRight;
    forall i | 0 <= i < 32
      ensures HasBit(TwoAndShift(w, p, q, s), i) ==
        ((HasBit(w, (i + p) % 32) != HasBit(w, (i + q) % 32)) != (i + s < 32 && HasBit(w, i + s)))
    {
      RotateBit(w, p, i);
      RotateBit(w, q, i);
      ShiftBit(w, s, i);
      XorBit(RotateRight(w, p), RotateRight(w, q), i);
      XorBit(Xor(RotateRight(w, p), RotateRight(w, q)), ShiftRight(w, s), i);
    }
  }

  // ---------- the schedule and the rounds of section 6.2.2 ----------

  const TWO_32: int := 0x1_0000_0000

  /** The four bytes of a block from offset at, most significant first. */
  function WordOf(block: seq<byte>, at: nat): int
    requires at + 4 <= |block|
  {
    block[at] as int * 0x100_0000 + block[at + 1] as int * 0x1_0000 + block[at + 2] as int * 0x100 + block[at + 3] as int
  }

  /** Word t of a schedule is the sum of four earlier ones, two of them scrambled. */
  ghost predicate IsWord(ws: seq<word>, t: nat)
    requires 16 <= t < |ws|
  {
    exists s0: word, s1: word :: IsSum(ws, t, s0, s1)
  }

  ghost predicate IsSum(ws: seq<word>, t: nat, s0: word, s1: word)
    requires 16 <= t < |ws|
  {
    && IsTwoAndShift(s0, ws[t - 15], 7, 18, 3) && IsTwoAndShift(s1, ws[t - 2], 17, 19, 10)
    && ws[t] == (s1 + ws[t - 7] + s0 + ws[t - 16]) % TWO_32
  }

  ghost predicate IsSchedule(block: seq<byte>, ws: seq<word>) {
    && |block| == 64 && |ws| == 64
    && (forall t :: 0 <= t < 16 ==> ws[t] == WordOf(block, 4 * t))
    && forall t :: 16 <= t < 64 ==> IsWord(ws, t)
  }

  /** One round: two variables are sums, the other six move on by one place. */
  ghost predicate IsRound(v: Working, k: word, w: word, next: Working) {
    && (exists s1: word, choice: word, s0: word, majority: word :: AreSums(v, k, w, next, s1, choice, s0, majority))
    && next.b == v.a && next.c == v.b && next.d == v.c
    && next.f == v.e && next.g == v.f && next.h == v.g
  }

  ghost predicate AreSums(v: Working, k: word, w: word, next: Working, s1: word, choice: word, s0: word, majority: word) {
    && IsThree(s1, v.e, 6, 11, 25) && IsChoice(choice, v.e, v.f, v.g)
    && IsThree(s0, v.a, 2, 13, 22) && IsMajority(majority, v.a, v.b, v.c)
    && next.e == (v.d + v.h + s1 + choice + k + w) % TWO_32
    && next.a == (v.h + s1 + choice + k + w + s0 + majority) % TWO_32
  }

  lemma Plus(t: word, b: word, sum: nat)
    requires t == sum % TWO_32
    ensures Add(t, b) == (sum + b) % TWO_32
  {
  }

  lemma Small(w: word)
    ensures w == w % TWO_32
  {
  }

  lemma AddCommutes(a: word, b: word)
    ensures Add(a, b) == Add(b, a)
  {
  }

  lemma AddMoves(t: word, a: word, b: word)
    ensures Add(t, Add(a, b)) == Add(Add(t, a), b)
  {
    AddIs(a, b);
    AddIs(t, a);
    hide Add;
    AddCommutes(t, Add(a, b));
    Plus(Add(a, b), t, a + b);
    Plus(Add(t, a), b, t + a);
  }

  lemma AddIs(a: word, b: word)
    ensures Add(a, b) == (a + b) % TWO_32
  {
  }

  lemma RoundIs(v: Working, k: word, w: word)
    ensures IsRound(v, k, w, Round(v, k, w))
  {
    hide Three, Choice, Majority, IsThree, IsChoice, IsMajority, Add;
    var s1, choice, s0, majority := Three(v.e, 6, 11, 25), Choice(v.e, v.f, v.g), Three(v.a, 2, 13, 22), Majority(v.a, v.b, v.c);
    ThreeIs(v.e, 6, 11, 25);
    ChoiceIs(v.e, v.f, v.g);
    ThreeIs(v.a, 2, 13, 22);
    MajorityIs(v.a, v.b, v.c);
    var sum := v.h + s1 + choice + k + w;
    Small(v.h);
    Plus(v.h, s1, v.h);
    Plus(Add(v.h, s1), choice, v.h + s1);
    Plus(Add(Add(v.h, s1), choice), k, v.h + s1 + choice);
    Plus(Add(Add(Add(v.h, s1), choice), k), w, v.h + s1 + choice + k);
    var t := Add(Add(Add(Add(v.h, s1), choice), k), w);
    AddCommutes(v.d, t);
    Plus(t, v.d, sum);
    AddMoves(t, s0, majority);
    Plus(t, s0, sum);
    Plus(Add(t, s0), majority, sum + s0);
    assert AreSums(v, k, w, Round(v, k, w), s1, choice, s0, majority);
  }

  lemma NextWordIs(ws: seq<word>, next: seq<word>)
    requires |ws| >= 16 && next == ws + [NextWord(ws)]
    ensures IsWord(next, |ws|)
  {
    hide TwoAndShift, IsTwoAndShift;
    var i := |ws|;
    var s0, s1 := TwoAndShift(ws[i - 15], 7, 18, 3), TwoAndShift(ws[i - 2], 17, 19, 10);
    TwoAndShiftIs(ws[i - 15], 7, 18, 3);
    TwoAndShiftIs(ws[i - 2], 17, 19, 10);
    AddIs(ws[i - 16], s0);
    hide Add;
    var sum: int := s0;
    sum := sum + ws[i - 16];
    Plus(Add(ws[i - 16], s0), ws[i - 7], sum);
    Plus(Add(Add(ws[i - 16], s0), ws[i - 7]), s1, sum + ws[i - 7]);
    assert next[i - 15] == ws[i - 15] && next[i - 2] == ws[i - 2];
    assert IsSum(next, i, s0, s1);
  }

  lemma {:induction false} ScheduleIs(block: seq<byte>, n: nat)
    requires |block| == 64 && n <= 64
    ensures forall t :: 0 <= t < n && t < 16 ==> Schedule(block, n)[t] == WordOf(block, 4 * t)
    ensures forall t :: 16 <= t < n ==> IsWord(Schedule(block, n), t)
    decreases n
  {
    if n > 0 {
      hide NextWord, IsWord;
      ScheduleIs(block, n - 1);
      var before, after := Schedule(block, n - 1), Schedule(block, n);
      if n > 16 {
        NextWordIs(before, after);
      }
      forall t | 16 <= t < n - 1 ensures IsWord(after, t) {
        WordStays(before, after, t);
      }
    }
  }

  lemma WordStays(ws: seq<word>, more: seq<word>, t: nat)
    requires 16 <= t < |ws| && ws <= more && IsWord(ws, t)
    ensures IsWord(more, t)
  {
    hide IsTwoAndShift;
    var s0: word, s1: word :| IsSum(ws, t, s0, s1);
    assert more[t] == ws[t] && more[t - 2] == ws[t - 2] && more[t - 7] == ws[t - 7];
    assert more[t - 15] == ws[t - 15] && more[t - 16] == ws[t - 16];
    assert IsSum(more, t, s0, s1);
  }

  /** The hash computation of one block: a schedule, 64 rounds from the state, and their result added to
      the state word by word. */
  ghost predicate IsCompression(state: seq<word>, block: seq<byte>, out: seq<word>) {
    |state| == |out| == 8 && |block| == 64 &&
    exists ws: seq<word>, vs: seq<Working> :: Compresses(state, block, ws, vs, out)
  }

  ghost predicate Compresses(state: seq<word>, block: seq<byte>, ws: seq<word>, vs: seq<Working>, out: seq<word>)
    requires |state| == |out| == 8
  {
    && IsSchedule(block, ws) && |vs| == 65 && |K| == 64
    && vs[0] == Working(state[0], state[1], state[2], state[3], state[4], state[5], state[6], state[7])
    && (forall t :: 0 <= t < 64 ==> IsRound(vs[t], K[t], ws[t], vs[t + 1]))
    && out[0] == (state[0] + vs[64].a) % TWO_32 && out[1] == (state[1] + vs[64].b) % TWO_32
    && out[2] == (state[2] + vs[64].c) % TWO_32 && out[3] == (state[3] + vs[64].d) % TWO_32
    && out[4] == (state[4] + vs[64].e) % TWO_32 && out[5] == (state[5] + vs[64].f) % TWO_32
    && out[6] == (state[6] + vs[64].g) % TWO_32 && out[7] == (state[7] + vs[64].h) % TWO_32
  }

  /** The working variables before each of the first n rounds and after the last of them. */
  function Trail(v: Working, ws: seq<word>, n: nat): (vs: seq<Working>)
    requires |ws| == 64 && n <= 64
    ensures |vs| == n + 1 && forall t :: 0 <= t <= n ==> vs[t] == Rounds(v, ws, t)
  {
    seq(n + 1, t requires 0 <= t <= n => Rounds(v, ws, t))
  }

  lemma RoundStep(v: Working, ws: seq<word>, t: nat)
    requires |ws| == 64 && t < 64
    ensures IsRound(Rounds(v, ws, t), K[t], ws[t], Rounds(v, ws, t + 1))
  {
    hide IsRound, Round;
    RoundIs(Rounds(v, ws, t), K[t], ws[t]);
  }

  /** The compression of a block is the one of the standard. */
  lemma CompressIs(state: seq<word>, block: seq<byte>)
    requires |state| == 8 && |block| == 64
    ensures IsCompression(state, block, Compress(state, block))
  {
    hide IsRound, Rounds, Schedule, IsWord;
    var ws := Schedule(block, 64);
    var vs := Trail(Load(state), ws, 64);
    ScheduleIs(block, 64);
    StartsAt(Load(state), ws);
    forall t | 0 <= t < 64 ensures IsRound(vs[t], K[t], ws[t], vs[t + 1]) {
      RoundStep(Load(state), ws, t);
    }
    MixIs(state, vs[64]);
    assert Compresses(state, block, ws, vs, Compress(state, block));
  }

  lemma StartsAt(v: Working, ws: seq<word>)
    requires |ws| == 64
    ensures Rounds(v, ws, 0) == v
  {
  }

  lemma MixIs(state: seq<word>, v: Working)
    requires |state| == 8
    ensures var out := Mix(state, v);
      && out[0] == (state[0] + v.a) % TWO_32 && out[1] == (state[1] + v.b) % TWO_32
      && out[2] == (state[2] + v.c) % TWO_32 && out[3] == (state[3] + v.d) % TWO_32
      && out[4] == (state[4] + v.e) % TWO_32 && out[5] == (state[5] + v.f) % TWO_32
      && out[6] == (state[6] + v.g) % TWO_32 && out[7] == (state[7] + v.h) % TWO_32
  {
  }

  // ---------- the relations leave no choice ----------

  lemma ChoiceOnly(r: word, e: word, f: word, g: word)
    requires IsChoice(r, e, f, g)
    ensures r == Choice(e, f, g)
  {
    hide HasBit, Choice;
    ChoiceIs(e, f, g);
    SameBits(r, Choice(e, f, g));
  }

  lemma MajorityOnly(r: word, a: word, b: word, c: word)
    requires IsMajority(r, a, b, c)
    ensures r == Majority(a, b, c)
  {
    hide HasBit, Majority;
    MajorityIs(a, b, c);
    SameBits(r, Majority(a, b, c));
  }

  lemma ThreeOnly(r: word, w: word, p: nat, q: nat, s: nat)
    requires p <= 32 && q <= 32 && s <= 32 && IsThree(r, w, p, q, s)
    ensures r == Three(w, p, q, s)
  {
    hide HasBit, Three;
    ThreeIs(w, p, q, s);
    SameBits(r, Three(w, p, q, s));
  }

  lemma TwoAndShiftOnly(r: word, w: word, p: nat, q: nat, s: nat)
    requires p <= 32 && q <= 32 && s <= 32 && IsTwoAndShift(r, w, p, q, s)
    ensures r == TwoAndShift(w, p, q, s)
  {
    hide HasBit, TwoAndShift;
    TwoAndShiftIs(w, p, q, s);
    SameBits(r, TwoAndShift(w, p, q, s));
  }

  lemma SumsOnly(v: Working, k: word, w: word, next: Working, s1: word, choice: word, s0: word, majority: word)
    requires AreSums(v, k, w, next, s1, choice, s0, majority)
    ensures s1 == Three(v.e, 6, 11, 25) && choice == Choice(v.e, v.f, v.g)
    ensures s0 == Three(v.a, 2, 13, 22) && majority == Majority(v.a, v.b, v.c)
  {
    hide IsThree, IsChoice, IsMajority, Three, Choice, Majority;
    ThreeOnly(s1, v.e, 6, 11, 25);
    ChoiceOnly(choice, v.e, v.f, v.g);
    ThreeOnly(s0, v.a, 2, 13, 22);
    MajorityOnly(majority, v.a, v.b, v.c);
  }

  lemma RoundOnly(v: Working, k: word, w: word, next: Working)
    requires IsRound(v, k, w, next)
    ensures next == Round(v, k, w)
  {
    hide AreSums, Round;
    RoundIs(v, k, w);
    var s1: word, choice: word, s0: word, majority: word :| AreSums(v, k, w, next, s1, choice, s0, majority);
    var t1: word, c: word, t0: word, m: word :| AreSums(v, k, w, Round(v, k, w), t1, c, t0, m);
    SumsOnly(v, k, w, next, s1, choice, s0, majority);
    SumsOnly(v, k, w, Round(v, k, w), t1, c, t0, m);
    SameSums(v, k, w, next, Round(v, k, w), s1, choice, s0, majority);
  }

  lemma SameSums(v: Working, k: word, w: word, a: Working, b: Working, s1: word, choice: word, s0: word, majority: word)
    requires AreSums(v, k, w, a, s1, choice, s0, majority) && AreSums(v, k, w, b, s1, choice, s0, majority)
    ensures a.a == b.a && a.e == b.e
  {
  }

  lemma WordOnly(ws: seq<word>, t: nat)
    requires 16 <= t < |ws| && IsWord(ws, t)
    ensures ws[t] == NextWord(ws[..t])
  {
    hide NextWord, TwoAndShift, IsTwoAndShift;
    var more := ws[..t] + [NextWord(ws[..t])];
    NextWordIs(ws[..t], more);
    var s0: word, s1: word :| IsSum(ws, t, s0, s1);
    var r0: word, r1: word :| IsSum(more, t, r0, r1);
    TwoAndShiftOnly(s0, ws[t - 15], 7, 18, 3);
    TwoAndShiftOnly(s1, ws[t - 2], 17, 19, 10);
    TwoAndShiftOnly(r0, ws[t - 15], 7, 18, 3);
    TwoAndShiftOnly(r1, ws[t - 2], 17, 19, 10);
  }

  lemma {:induction false} ScheduleOnly(block: seq<byte>, ws: seq<word>, n: nat)
    requires IsSchedule(block, ws) && n <= 64
    ensures ws[..n] == Schedule(block, n)
    decreases n
  {
    hide NextWord, IsWord;
    if n > 0 {
      ScheduleOnly(block, ws, n - 1);
      assert ws[..n] == ws[..n - 1] + [ws[n - 1]];
      if n > 16 {
        WordOnly(ws, n - 1);
      }
    }
  }

  lemma {:induction false} RoundsOnly(v: Working, ws: seq<word>, vs: seq<Working>, n: nat)
    requires |ws| == 64 && |vs| == 65 && |K| == 64 && n <= 64 && vs[0] == v
    requires forall t :: 0 <= t < 64 ==> IsRound(vs[t], K[t], ws[t], vs[t + 1])
    ensures vs[n] == Rounds(v, ws, n)
    decreases n
  {
    hide IsRound, Round;
    if n > 0 {
      RoundsOnly(v, ws, vs, n - 1);
      RoundOnly(vs[n - 1], K[n - 1], ws[n - 1], vs[n]);
    }
  }

  /** The compression of a block is the one of the standard, and no other. */
  lemma CompressExactly(state: seq<word>, block: seq<byte>, out: seq<word>)
    requires |state| == 8 && |block| == 64
    ensures IsCompression(state, block, out) <==> out == Compress(state, block)
  {
    hide Compresses, Compress;
    CompressIs(state, block);
    if IsCompression(state, block, out) {
      var ws: seq<word>, vs: seq<Working> :| Compresses(state, block, ws, vs, out);
      CompressOnly(state, block, ws, vs, out);
    }
  }

  lemma CompressOnly(state: seq<word>, block: seq<byte>, ws: seq<word>, vs: seq<Working>, out: seq<word>)
    requires |state| == |out| == 8 && |block| == 64 && Compresses(state, block, ws, vs, out)
    ensures out == Compress(state, block)
  {
    hide IsRound, IsSchedule, Schedule, Rounds, Mix;
    ScheduleWhole(block, ws);
    RoundsOnly(Load(state), ws, vs, 64);
    MixIs(state, vs[64]);
    EightSame(out, Mix(state, vs[64]));
  }

  lemma ScheduleWhole(block: seq<byte>, ws: seq<word>)
    requires IsSchedule(block, ws)
    ensures |ws| == 64 && ws == Schedule(block, 64)
  {
    hide IsWord, Schedule;
    ScheduleOnly(block, ws, 64);
    assert ws[..64] == ws;
  }

  lemma EightSame(a: seq<word>, b: seq<word>)
    requires |a| == |b| == 8
    requires a[0] == b[0] && a[1] == b[1] && a[2] == b[2] && a[3] == b[3]
    requires a[4] == b[4] && a[5] == b[5] && a[6] == b[6] && a[7] == b[7]
    ensures a == b
  {
  }

  // ---------- the digest of a message ----------

  /** p is m padded as section 5.1.1 demands, in whole blocks and no more of them than needed. */
  ghost predicate IsPadded(m: seq<byte>, p: seq<byte>) {
    && |p| % 64 == 0 && |m| + 9 <= |p| < |m| + 9 + 64
    && p[..|m|] == m && p[|m|] == 0x80
    && (forall i :: |m| < i < |p| - 8 ==> p[i] == 0)
    && FromBe(p[|p| - 8..]) == 8 * |m| % U64
  }

  /** The states before each block and after the last. */
  ghost predicate IsChain(p: seq<byte>, states: seq<seq<word>>) {
    && |p| == 64 * (|states| - 1) && |states| > 0 && states[0] == INITIAL
    && forall j :: 0 <= j < |states| - 1 ==> IsCompression(states[j], p[64 * j..64 * j + 64], states[j + 1])
  }

  /** d is the SHA-256 of m. */
  ghost predicate IsDigest(m: seq<byte>, d: seq<byte>) {
    exists p: seq<byte>, states: seq<seq<word>> :: IsPadded(m, p) && IsChain(p, states) && IsStored(states[|states| - 1], d)
  }

  /** Eight words, most significant byte first. */
  predicate IsStored(state: seq<word>, d: seq<byte>) {
    |state| == 8 && |d| == 32 && forall j :: 0 <= j < 8 ==> FromBe(d[4 * j..4 * j + 4]) == state[j]
  }

  lemma PadIs(m: seq<byte>)
    ensures IsPadded(m, Pad(m))
  {
    hide Be, FromBe, Fill;
    PadAligned(m);
    var p, field := Pad(m), Be(8, 8 * |m|);
    assert p[|p| - 8..] == field;
    BeRead(8, 8 * |m|);
    Pow256Values();
  }

  lemma DigestIs(state: seq<word>)
    requires |state| == 8
    ensures IsStored(state, DigestOf(state))
  {
    hide Be, FromBe;
    var d := DigestOf(state);
    Pow256Values();
    forall j | 0 <= j < 8 ensures FromBe(d[4 * j..4 * j + 4]) == state[j] {
      assert d[4 * j..4 * j + 4] == Be(4, state[j]);
      BeRead(4, state[j]);
    }
  }

  /** The states along the blocks of a padded message. */
  function States(p: seq<byte>, n: nat): (states: seq<seq<word>>)
    requires 64 * n <= |p|
    ensures |states| == n + 1 && forall j :: 0 <= j <= n ==> states[j] == Absorb(INITIAL, p[..64 * j])
  {
    seq(n + 1, j requires 0 <= j <= n => Absorb(INITIAL, p[..64 * j]))
  }

  lemma OneBlock(p: seq<byte>, j: nat)
    requires 64 * j + 64 <= |p|
    ensures IsCompression(Absorb(INITIAL, p[..64 * j]), p[64 * j..64 * j + 64], Absorb(INITIAL, p[..64 * (j + 1)]))
  {
    hide Absorb, Compress, IsCompression, Rem;
    var state, block := Absorb(INITIAL, p[..64 * j]), p[64 * j..64 * j + 64];
    WholeBlocks(j);
    assert p[..64 * j] + block == p[..64 * (j + 1)];
    AbsorbJoin(INITIAL, p[..64 * j], block);
    AbsorbBlock(state, block);
    CompressIs(state, block);
  }

  lemma WholeBlocks(j: nat)
    ensures Rem(64 * j) == 0
  {
  }

  lemma PadFront(m: seq<byte>, p: seq<byte>, q: seq<byte>)
    requires IsPadded(m, p) && IsPadded(m, q)
    ensures |p| == |q| && p[..|p| - 8] == q[..|q| - 8]
  {
    hide Be, FromBe;
    assert |p| == |q|;
    forall i | 0 <= i < |p| - 8 ensures p[i] == q[i] {
      if i < |m| {
        assert p[i] == p[..|m|][i] && q[i] == q[..|m|][i];
      }
    }
  }

  lemma PadLength(m: seq<byte>, p: seq<byte>, q: seq<byte>)
    requires IsPadded(m, p) && IsPadded(m, q)
    ensures p[|p| - 8..] == q[|q| - 8..]
  {
    hide Be, FromBe;
    Pow256Values();
    BeExactly(p[|p| - 8..], 8, 8 * |m| % U64);
    BeExactly(q[|q| - 8..], 8, 8 * |m| % U64);
  }

  lemma PadOnly(m: seq<byte>, p: seq<byte>)
    requires IsPadded(m, p)
    ensures p == Pad(m)
  {
    hide IsPadded;
    PadAligned(m);
    PadIs(m);
    PadFront(m, p, Pad(m));
    PadLength(m, p, Pad(m));
    LongEnough(m, p);
    assert p == p[..|p| - 8] + p[|p| - 8..] && Pad(m) == Pad(m)[..|p| - 8] + Pad(m)[|p| - 8..];
  }

  lemma LongEnough(m: seq<byte>, p: seq<byte>)
    requires IsPadded(m, p)
    ensures |p| >= 8
  {
  }

  lemma {:induction false} ChainOnly(p: seq<byte>, states: seq<seq<word>>, n: nat)
    requires IsChain(p, states) && n < |states|
    ensures states[n] == Absorb(INITIAL, p[..64 * n])
    decreases n
  {
    hide Absorb, Compress, IsCompression, Rem;
    if n == 0 {
      assert p[..0] == [];
      AbsorbShort(INITIAL, []);
    } else {
      ChainOnly(p, states, n - 1);
      var block := p[64 * (n - 1)..64 * (n - 1) + 64];
      OneBlock(p, n - 1);
      CompressExactly(states[n - 1], block, states[n]);
      CompressExactly(states[n - 1], block, Absorb(INITIAL, p[..64 * n]));
    }
  }

  lemma StoredOnly(state: seq<word>, d: seq<byte>)
    requires IsStored(state, d)
    ensures d == DigestOf(state)
  {
    hide Be, FromBe;
    Pow256Values();
    DigestIs(state);
    var e := DigestOf(state);
    forall i | 0 <= i < 32 ensures d[i] == e[i] {
      var j := i / 4;
      BeExactly(d[4 * j..4 * j + 4], 4, state[j]);
      BeExactly(e[4 * j..4 * j + 4], 4, state[j]);
      assert d[i] == d[4 * j..4 * j + 4][i - 4 * j] && e[i] == e[4 * j..4 * j + 4][i - 4 * j];
    }
  }

  /** What the context computes is the SHA-256 of the standard, and nothing else is. */
  lemma HashExactly(m: seq<byte>, d: seq<byte>)
    ensures IsDigest(m, d) <==> d == Hash(m)
  {
    hide Absorb, IsCompression, Pad, IsPadded, DigestOf, IsStored;
    HashIs(m);
    if IsDigest(m, d) {
      var p: seq<byte>, states: seq<seq<word>> :| IsPadded(m, p) && IsChain(p, states) && IsStored(states[|states| - 1], d);
      ChainSize(p, states);
      PadOnly(m, p);
      ChainOnly(p, states, |states| - 1);
      assert p[..|p|] == p;
      StoredOnly(states[|states| - 1], d);
    }
  }

  lemma ChainSize(p: seq<byte>, states: seq<seq<word>>)
    requires IsChain(p, states)
    ensures |p| == 64 * (|states| - 1) && |states| > 0
  {
  }

  lemma HashIs(m: seq<byte>)
    ensures IsDigest(m, Hash(m))
  {
    hide Absorb, IsCompression, Pad, IsPadded, DigestOf, IsStored;
    var p := Pad(m);
    PadAligned(m);
    var n := |p| / 64;
    var states := States(p, n);
    assert p[..64 * 0] == [] && p[..64 * n] == p;
    AbsorbShort(INITIAL, []);
    forall j | 0 <= j < n ensures IsCompression(states[j], p[64 * j..64 * j + 64], states[j + 1]) {
      OneBlock(p, j);
    }
    PadIs(m);
    DigestIs(states[n]);
    assert IsPadded(m, p) && IsChain(p, states) && IsStored(states[|states| - 1], Hash(m));
  }
}
