/** The constants of SHA-256: the round constants and the initial state are the first 32 bits of the
    fractional parts of cube and square roots of the first primes (FIPS 180-4, sections 4.2.2 and 5.3.3). */
module Sha256Constants {
  import opened Bytes
  import opened Sha256

  const TWO_32: int := 0x1_0000_0000

  // ---------- the first 64 primes ----------

  const PRIMES_0: seq<nat> := [2, 3, 5, 7, 11, 13, 17, 19]
  const PRIMES_1: seq<nat> := [23, 29, 31, 37, 41, 43, 47, 53]
  const PRIMES_2: seq<nat> := [59, 61, 67, 71, 73, 79, 83, 89]
  const PRIMES_3: seq<nat> := [97, 101, 103, 107, 109, 113, 127, 131]
  const PRIMES_4: seq<nat> := [137, 139, 149, 151, 157, 163, 167, 173]
  const PRIMES_5: seq<nat> := [179, 181, 191, 193, 197, 199, 211, 223]
  const PRIMES_6: seq<nat> := [227, 229, 233, 239, 241, 251, 257, 263]
  const PRIMES_7: seq<nat> := [269, 271, 277, 281, 283, 293, 307, 311]

  const PRIMES: seq<nat> :=
    PRIMES_0 + PRIMES_1 + PRIMES_2 + PRIMES_3 + PRIMES_4 + PRIMES_5 + PRIMES_6 + PRIMES_7

  /** Eight rows of eight, read row by row. */
  lemma RowOf<T>(rows: seq<seq<T>>, i: nat)
    requires |rows| == 8 && (forall g :: 0 <= g < 8 ==> |rows[g]| == 8) && i < 64
    ensures (rows[0] + rows[1] + rows[2] + rows[3] + rows[4] + rows[5] + rows[6] + rows[7])[i] == rows[i / 8][i % 8]
  {
    var g := i / 8;
    assert i == 8 * g + i % 8;
    if g < 4 {
      if g < 2 {
      } else {
      }
    }
  }

  predicate Divides(d: nat, n: nat)
    requires d > 0
  {
    n % d == 0
  }

  ghost predicate IsPrime(n: nat) {
    n >= 2 && forall d :: 2 <= d < n ==> !Divides(d, n)
  }

  /** q is the next prime after p. */
  ghost predicate NextPrime(p: nat, q: nat) {
    p < q && IsPrime(q) && forall n :: p < n < q ==> !IsPrime(n)
  }

  /** Below 18 * 18 trial division needs seven divisors. */
  predicate NoSmallFactor(n: nat) {
    && (n > 2 ==> n % 2 != 0) && (n > 3 ==> n % 3 != 0) && (n > 5 ==> n % 5 != 0) && (n > 7 ==> n % 7 != 0)
    && (n > 11 ==> n % 11 != 0) && (n > 13 ==> n % 13 != 0) && (n > 17 ==> n % 17 != 0)
  }

  lemma Multiple(n: nat, q: nat, m: nat)
    requires q > 0 && n == q * m
    ensures n % q == 0
  {
    QuotientIs(n, q, m, 0);
  }

  lemma SmallDivisor(n: nat, d: nat, k: nat)
    requires 2 <= d <= 17 && d < n && n == k * d
    ensures !NoSmallFactor(n)
  {
    if d % 2 == 0 {
      var h := d / 2;
      assert n == 2 * (k * h);
      Multiple(n, 2, k * h);
    } else if d == 9 || d == 15 {
      var h := d / 3;
      assert n == 3 * (k * h);
      Multiple(n, 3, k * h);
    } else {
      Multiple(n, d, k);
    }
  }

  lemma TrialDivision(n: nat)
    requires 2 <= n < 324
    ensures IsPrime(n) <==> NoSmallFactor(n)
  {
    if NoSmallFactor(n) {
      forall d | 2 <= d < n ensures !Divides(d, n) {
        if Divides(d, n) {
          var k := n / d;
          assert n == k * d;
          if d <= 17 {
            SmallDivisor(n, d, k);
          } else {
            CofactorSmall(n, d, k);
            SmallDivisor(n, k, d);
          }
        }
      }
    } else {
      assert exists d :: 2 <= d < n && Divides(d, n) by {
        assert Divides(2, n) || Divides(3, n) || Divides(5, n) || Divides(7, n) || Divides(11, n) || Divides(13, n) || Divides(17, n);
      }
    }
  }

  lemma ProductGrows(a: nat, b: nat)
    requires a >= 18 && b >= 18
    ensures a * b >= 324
  {
    assert a * b >= 18 * b;
  }

  lemma CofactorSmall(n: nat, d: nat, k: nat)
    requires n == k * d && 18 <= d < n < 324
    ensures 2 <= k <= 17 && k < n
  {
    if k >= 18 {
      ProductGrows(k, d);
    }
    assert k >= 2;
  }

  /** None of the numbers from n up to q survives the sieve. */
  predicate SievedOut(n: nat, q: nat)
    decreases q - n
  {
    n >= q || (!NoSmallFactor(n) && SievedOut(n + 1, q))
  }

  lemma {:induction false} Sieved(n: nat, q: nat, m: nat)
    requires SievedOut(n, q) && n <= m < q
    ensures !NoSmallFactor(m)
    decreases q - n
  {
    if n < m {
      Sieved(n + 1, q, m);
    }
  }

  lemma Gap(p: nat, next: nat, q: nat)
    requires 2 <= p < q < 324 && next == p + 1 && NoSmallFactor(q) && SievedOut(next, q)
    ensures NextPrime(p, q)
  {
    hide NoSmallFactor, IsPrime, SievedOut;
    TrialDivision(q);
    forall n | p < n < q ensures !IsPrime(n) {
      Sieved(next, q, n);
      TrialDivision(n);
    }
  }

  lemma Gaps0()
    ensures forall j :: 0 <= j < 7 ==> NextPrime(PRIMES_0[j], PRIMES_0[j + 1])
    ensures NextPrime(19, 23)
  {
    hide NextPrime;
    Gap(2, 3, 3);
    Gap(3, 4, 5);
    Gap(5, 6, 7);
    Gap(7, 8, 11);
    Gap(11, 12, 13);
    Gap(13, 14, 17);
    Gap(17, 18, 19);
    Gap(19, 20, 23);
  }

  lemma Gaps1()
    ensures forall j :: 0 <= j < 7 ==> NextPrime(PRIMES_1[j], PRIMES_1[j + 1])
    ensures NextPrime(53, 59)
  {
    hide NextPrime;
    Gap(23, 24, 29);
    Gap(29, 30, 31);
    Gap(31, 32, 37);
    Gap(37, 38, 41);
    Gap(41, 42, 43);
    Gap(43, 44, 47);
    Gap(47, 48, 53);
    Gap(53, 54, 59);
  }

  lemma Gaps2()
    ensures forall j :: 0 <= j < 7 ==> NextPrime(PRIMES_2[j], PRIMES_2[j + 1])
    ensures NextPrime(89, 97)
  {
    hide NextPrime;
    Gap(59, 60, 61);
    Gap(61, 62, 67);
    Gap(67, 68, 71);
    Gap(71, 72, 73);
    Gap(73, 74, 79);
    Gap(79, 80, 83);
    Gap(83, 84, 89);
    Gap(89, 90, 97);
  }

  lemma Gaps3()
    ensures forall j :: 0 <= j < 7 ==> NextPrime(PRIMES_3[j], PRIMES_3[j + 1])
    ensures NextPrime(131, 137)
  {
    hide NextPrime;
    Gap(97, 98, 101);
    Gap(101, 102, 103);
    Gap(103, 104, 107);
    Gap(107, 108, 109);
    Gap(109, 110, 113);
    Gap(113, 114, 127);
    Gap(127, 128, 131);
    Gap(131, 132, 137);
  }

  lemma Gaps4()
    ensures forall j :: 0 <= j < 7 ==> NextPrime(PRIMES_4[j], PRIMES_4[j + 1])
    ensures NextPrime(173, 179)
  {
    hide NextPrime;
    Gap(137, 138, 139);
    Gap(139, 140, 149);
    Gap(149, 150, 151);
    Gap(151, 152, 157);
    Gap(157, 158, 163);
    Gap(163, 164, 167);
    Gap(167, 168, 173);
    Gap(173, 174, 179);
  }

  lemma Gaps5()
    ensures forall j :: 0 <= j < 7 ==> NextPrime(PRIMES_5[j], PRIMES_5[j + 1])
    ensures NextPrime(223, 227)
  {
    hide NextPrime;
    Gap(179, 180, 181);
    Gap(181, 182, 191);
    Gap(191, 192, 193);
    Gap(193, 194, 197);
    Gap(197, 198, 199);
    Gap(199, 200, 211);
    Gap(211, 212, 223);
    Gap(223, 224, 227);
  }

  lemma Gaps6()
    ensures forall j :: 0 <= j < 7 ==> NextPrime(PRIMES_6[j], PRIMES_6[j + 1])
    ensures NextPrime(263, 269)
  {
    hide NextPrime;
    Gap(227, 228, 229);
    Gap(229, 230, 233);
    Gap(233, 234, 239);
    Gap(239, 240, 241);
    Gap(241, 242, 251);
    Gap(251, 252, 257);
    Gap(257, 258, 263);
    Gap(263, 264, 269);
  }

  lemma Gaps7()
    ensures forall j :: 0 <= j < 7 ==> NextPrime(PRIMES_7[j], PRIMES_7[j + 1])
  {
    hide NextPrime;
    Gap(269, 270, 271);
    Gap(271, 272, 277);
    Gap(277, 278, 281);
    Gap(281, 282, 283);
    Gap(283, 284, 293);
    Gap(293, 294, 307);
    Gap(307, 308, 311);
  }

  /** The list starts with the first prime, and each is followed by the next. */
  lemma PrimesAre()
    ensures |PRIMES| == 64 && PRIMES[0] == 2 && IsPrime(2)
    ensures forall i :: 0 <= i < 63 ==> NextPrime(PRIMES[i], PRIMES[i + 1])
  {
    hide NextPrime;
    Gaps0();
    Gaps1();
    Gaps2();
    Gaps3();
    Gaps4();
    Gaps5();
    Gaps6();
    Gaps7();
    var rows := [PRIMES_0, PRIMES_1, PRIMES_2, PRIMES_3, PRIMES_4, PRIMES_5, PRIMES_6, PRIMES_7];
    RowOf(rows, 0);
    forall i | 0 <= i < 63 ensures NextPrime(PRIMES[i], PRIMES[i + 1]) {
      RowOf(rows, i);
      RowOf(rows, i + 1);
      NextInRows(rows, i);
    }
  }

  lemma NextInRows(rows: seq<seq<nat>>, i: nat)
    requires |rows| == 8 && (forall g :: 0 <= g < 8 ==> |rows[g]| == 8) && i < 63
    requires forall g, j :: 0 <= g < 8 && 0 <= j < 7 ==> NextPrime(rows[g][j], rows[g][j + 1])
    requires forall g :: 0 <= g < 7 ==> NextPrime(rows[g][7], rows[g + 1][0])
    ensures NextPrime(rows[i / 8][i % 8], rows[(i + 1) / 8][(i + 1) % 8])
  {
    hide NextPrime;
    var g, j := i / 8, i % 8;
    assert i == 8 * g + j;
    if j < 7 {
      assert (i + 1) / 8 == g && (i + 1) % 8 == j + 1;
    } else {
      assert (i + 1) / 8 == g + 1 && (i + 1) % 8 == 0;
    }
  }

  // ---------- roots ----------

  /** k is the first 32 bits of the fractional part of the cube root of p. */
  ghost predicate CubeBits(k: word, p: nat) {
    exists whole: nat :: CubeBetween(whole * TWO_32 + k, p)
  }

  predicate CubeBetween(root: int, p: nat) {
    root * root * root <= p * TWO_32 * TWO_32 * TWO_32 < (root + 1) * (root + 1) * (root + 1)
  }

  /** k is the first 32 bits of the fractional part of the square root of p. */
  ghost predicate SquareBits(k: word, p: nat) {
    exists whole: nat :: SquareBetween(whole * TWO_32 + k, p)
  }

  predicate SquareBetween(root: int, p: nat) {
    root * root <= p * TWO_32 * TWO_32 < (root + 1) * (root + 1)
  }

  lemma Cube(k: word, p: nat, whole: nat)
    requires CubeBetween(whole * TWO_32 + k, p)
    ensures CubeBits(k, p)
  {
  }

  lemma Square(k: word, p: nat, whole: nat)
    requires SquareBetween(whole * TWO_32 + k, p)
    ensures SquareBits(k, p)
  {
  }

  lemma Cubes0()
    ensures forall j :: 0 <= j < 8 ==> CubeBits(ROW_0[j], PRIMES_0[j])
  {
    hide CubeBits;
    Cube(0x428a_2f98, 2, 1);
    Cube(0x7137_4491, 3, 1);
    Cube(0xb5c0_fbcf, 5, 1);
    Cube(0xe9b5_dba5, 7, 1);
    Cube(0x3956_c25b, 11, 2);
    Cube(0x59f1_11f1, 13, 2);
    Cube(0x923f_82a4, 17, 2);
    Cube(0xab1c_5ed5, 19, 2);
  }

  lemma Cubes1()
    ensures forall j :: 0 <= j < 8 ==> CubeBits(ROW_1[j], PRIMES_1[j])
  {
    hide CubeBits;
    Cube(0xd807_aa98, 23, 2);
    Cube(0x1283_5b01, 29, 3);
    Cube(0x2431_85be, 31, 3);
    Cube(0x550c_7dc3, 37, 3);
    Cube(0x72be_5d74, 41, 3);
    Cube(0x80de_b1fe, 43, 3);
    Cube(0x9bdc_06a7, 47, 3);
    Cube(0xc19b_f174, 53, 3);
  }

  lemma Cubes2()
    ensures forall j :: 0 <= j < 8 ==> CubeBits(ROW_2[j], PRIMES_2[j])
  {
    hide CubeBits;
    Cube(0xe49b_69c1, 59, 3);
    Cube(0xefbe_4786, 61, 3);
    Cube(0x0fc1_9dc6, 67, 4);
    Cube(0x240c_a1cc, 71, 4);
    Cube(0x2de9_2c6f, 73, 4);
    Cube(0x4a74_84aa, 79, 4);
    Cube(0x5cb0_a9dc, 83, 4);
    Cube(0x76f9_88da, 89, 4);
  }

  lemma Cubes3()
    ensures forall j :: 0 <= j < 8 ==> CubeBits(ROW_3[j], PRIMES_3[j])
  {
    hide CubeBits;
    Cube(0x983e_5152, 97, 4);
    Cube(0xa831_c66d, 101, 4);
    Cube(0xb003_27c8, 103, 4);
    Cube(0xbf59_7fc7, 107, 4);
    Cube(0xc6e0_0bf3, 109, 4);
    Cube(0xd5a7_9147, 113, 4);
    Cube(0x06ca_6351, 127, 5);
    Cube(0x1429_2967, 131, 5);
  }

  lemma Cubes4()
    ensures forall j :: 0 <= j < 8 ==> CubeBits(ROW_4[j], PRIMES_4[j])
  {
    hide CubeBits;
    Cube(0x27b7_0a85, 137, 5);
    Cube(0x2e1b_2138, 139, 5);
    Cube(0x4d2c_6dfc, 149, 5);
    Cube(0x5338_0d13, 151, 5);
    Cube(0x650a_7354, 157, 5);
    Cube(0x766a_0abb, 163, 5);
    Cube(0x81c2_c92e, 167, 5);
    Cube(0x9272_2c85, 173, 5);
  }

  lemma Cubes5()
    ensures forall j :: 0 <= j < 8 ==> CubeBits(ROW_5[j], PRIMES_5[j])
  {
    hide CubeBits;
    Cube(0xa2bf_e8a1, 179, 5);
    Cube(0xa81a_664b, 181, 5);
    Cube(0xc24b_8b70, 191, 5);
    Cube(0xc76c_51a3, 193, 5);
    Cube(0xd192_e819, 197, 5);
    Cube(0xd699_0624, 199, 5);
    Cube(0xf40e_3585, 211, 5);
    Cube(0x106a_a070, 223, 6);
  }

  lemma Cubes6()
    ensures forall j :: 0 <= j < 8 ==> CubeBits(ROW_6[j], PRIMES_6[j])
  {
    hide CubeBits;
    Cube(0x19a4_c116, 227, 6);
    Cube(0x1e37_6c08, 229, 6);
    Cube(0x2748_774c, 233, 6);
    Cube(0x34b0_bcb5, 239, 6);
    Cube(0x391c_0cb3, 241, 6);
    Cube(0x4ed8_aa4a, 251, 6);
    Cube(0x5b9c_ca4f, 257, 6);
    Cube(0x682e_6ff3, 263, 6);
  }

  lemma Cubes7()
    ensures forall j :: 0 <= j < 8 ==> CubeBits(ROW_7[j], PRIMES_7[j])
  {
    hide CubeBits;
    Cube(0x748f_82ee, 269, 6);
    Cube(0x78a5_636f, 271, 6);
    Cube(0x84c8_7814, 277, 6);
    Cube(0x8cc7_0208, 281, 6);
    Cube(0x90be_fffa, 283, 6);
    Cube(0xa450_6ceb, 293, 6);
    Cube(0xbef9_a3f7, 307, 6);
    Cube(0xc671_78f2, 311, 6);
  }

  lemma Squares()
    ensures forall i :: 0 <= i < 8 ==> SquareBits(INITIAL[i], PRIMES_0[i])
  {
    hide SquareBits;
    Square(0x6a09_e667, 2, 1);
    Square(0xbb67_ae85, 3, 1);
    Square(0x3c6e_f372, 5, 2);
    Square(0xa54f_f53a, 7, 2);
    Square(0x510e_527f, 11, 3);
    Square(0x9b05_688c, 13, 3);
    Square(0x1f83_d9ab, 17, 4);
    Square(0x5be0_cd19, 19, 4);
  }

  /** The 64 round constants and the eight words of the initial state. */
  lemma ConstantsAre()
    ensures |K| == 64 && forall i :: 0 <= i < 64 ==> CubeBits(K[i], PRIMES[i])
    ensures |INITIAL| == 8 && forall i :: 0 <= i < 8 ==> SquareBits(INITIAL[i], PRIMES[i])
  {
    hide CubeBits, SquareBits;
    Cubes0();
    Cubes1();
    Cubes2();
    Cubes3();
    Cubes4();
    Cubes5();
    Cubes6();
    Cubes7();
    Squares();
    var rows := [ROW_0, ROW_1, ROW_2, ROW_3, ROW_4, ROW_5, ROW_6, ROW_7];
    var primes := [PRIMES_0, PRIMES_1, PRIMES_2, PRIMES_3, PRIMES_4, PRIMES_5, PRIMES_6, PRIMES_7];
    forall i | 0 <= i < 64 ensures CubeBits(K[i], PRIMES[i]) {
      RowOf(rows, i);
      RowOf(primes, i);
    }
    forall i | 0 <= i < 8 ensures SquareBits(INITIAL[i], PRIMES[i]) {
      RowOf(primes, i);
    }
  }
}
