/** Bytes, fixed-width little-endian numbers, positioned writes and 64-byte alignment: the
    vocabulary every on-disk structure of the container is written in. */
module Bytes {
  type byte = b: int | 0 <= b < 256

  const U16: nat := 0x1_0000
  const U32: nat := 0x1_0000_0000
  const U64: nat := 0x1_0000_0000_0000_0000
  const U64_MAX: nat := 0xffff_ffff_ffff_ffff

  datatype Option<T> = None | Some(value: T)

  /** The bytes or positions from start up to end. */
  datatype Range = Range(start: nat, end: nat)

  function Zeros(n: nat): (r: seq<byte>)
    ensures |r| == n && forall i :: 0 <= i < n ==> r[i] == 0
  {
    seq(n, _ => 0)
  }

  predicate AllZero(s: seq<byte>) {
    forall i :: 0 <= i < |s| ==> s[i] == 0
  }

  // ---------- little-endian numbers ----------

  function Pow256(n: nat): (p: nat)
    ensures p > 0
  {
    if n == 0 then 1 else 256 * Pow256(n - 1)
  }

  lemma Pow256Values()
    ensures Pow256(2) == U16 && Pow256(4) == U32 && Pow256(8) == U64
  {
    assert Pow256(2) == 256 * Pow256(1);
    assert Pow256(4) == 256 * (256 * Pow256(2));
    assert Pow256(8) == 256 * (256 * (256 * (256 * Pow256(4))));
  }

  /** The low n bytes of v, least significant first. */
  function Le(n: nat, v: nat): (r: seq<byte>)
    ensures |r| == n
  {
    if n == 0 then [] else [v % 256] + Le(n - 1, v / 256)
  }

  function FromLe(s: seq<byte>): nat {
    if s == [] then 0 else s[0] + 256 * FromLe(s[1..])
  }

  lemma {:induction false} FromLeBound(s: seq<byte>)
    ensures FromLe(s) < Pow256(|s|)
  {
    if s != [] {
      FromLeBound(s[1..]);
    }
  }

  /** Writing a number and reading it back gives the number truncated to the field's width. */
  lemma {:induction false} LeRoundTrip(n: nat, v: nat)
    ensures FromLe(Le(n, v)) == v % Pow256(n)
  {
    if n != 0 {
      LeRoundTrip(n - 1, v / 256);
      assert Le(n, v)[1..] == Le(n - 1, v / 256);
      SplitRemainder(v, Pow256(n - 1));
    }
  }

  /** A remainder by 256 p is a byte and a remainder by p. */
  lemma SplitRemainder(v: nat, p: nat)
    requires p > 0
    ensures v % (256 * p) == v % 256 + 256 * (v / 256 % p)
  {
    var q := v / 256;
    assert q == q / p * p + q % p;
    Reassociate(q / p, p);
    QuotientIs(v, 256 * p, q / p, v % 256 + 256 * (q % p));
  }

  /** Byte i is digit i to the base 256. */
  lemma {:induction false} LeDigit(n: nat, v: nat, i: nat)
    requires i < n
    ensures Le(n, v)[i] == v / Pow256(i) % 256
    decreases n
  {
    if i > 0 {
      LeDigit(n - 1, v / 256, i - 1);
      QuotientOf(v, Pow256(i - 1));
    }
  }

  lemma QuotientOf(v: nat, p: nat)
    requires p > 0
    ensures v / 256 / p == v / (256 * p)
  {
    var q := v / 256;
    assert q == q / p * p + q % p;
    Reassociate(q / p, p);
    QuotientIs(v, 256 * p, q / p, v % 256 + 256 * (q % p));
  }

  lemma Reassociate(a: nat, p: nat)
    ensures 256 * (a * p) == a * (256 * p)
  {
  }

  lemma ProductNext(a: nat, d: nat)
    ensures (a + 1) * d == a * d + d
  {
  }

  lemma ProductsApart(a: nat, b: nat, d: nat)
    requires a < b
    ensures a * d + d <= b * d
    decreases b
  {
    if b > a + 1 {
      ProductsApart(a, b - 1, d);
    }
    ProductNext(b - 1, d);
  }

  /** Quotient and remainder are unique. */
  lemma QuotientIs(n: nat, d: nat, q: nat, r: nat)
    requires d > 0 && r < d && n == q * d + r
    ensures n / d == q && n % d == r
  {
    var a, m := n / d, n % d;
    assert n == a * d + m;
    if a < q {
      ProductsApart(a, q, d);
    } else if a > q {
      ProductsApart(q, a, d);
    }
  }

  /** Reading a field and writing it back gives the field's own bytes. */
  lemma {:induction false} LeCanonical(s: seq<byte>)
    ensures Le(|s|, FromLe(s)) == s
  {
    if s != [] {
      LeCanonical(s[1..]);
      assert FromLe(s) % 256 == s[0] && FromLe(s) / 256 == FromLe(s[1..]);
    }
  }

  /** The widths the formats use: 2, 4 and 8 bytes. */
  lemma LeFits(n: nat, v: nat)
    requires (n == 2 && v < U16) || (n == 4 && v < U32) || (n == 8 && v < U64)
    ensures FromLe(Le(n, v)) == v
  {
    hide Le, FromLe, Pow256;
    Pow256Values();
    LeRoundTrip(n, v);
  }

  lemma FromLeFits(s: seq<byte>)
    ensures |s| == 2 ==> FromLe(s) < U16
    ensures |s| == 4 ==> FromLe(s) < U32
    ensures |s| == 8 ==> FromLe(s) < U64
    ensures Le(|s|, FromLe(s)) == s
  {
    Pow256Values();
    FromLeBound(s);
    LeCanonical(s);
  }

  lemma LeZero(n: nat)
    ensures Le(n, 0) == Zeros(n)
  {
    if n != 0 {
      LeZero(n - 1);
    }
  }

  /** A field read as a number, and the same field as bytes. */
  lemma LeExactly(s: seq<byte>, n: nat, v: nat)
    requires |s| == n && ((n == 2 && v < U16) || (n == 4 && v < U32) || (n == 8 && v < U64))
    ensures s == Le(n, v) <==> FromLe(s) == v
  {
    FromLeFits(s);
    LeFits(n, v);
  }

  lemma ZerosExactly(s: seq<byte>)
    ensures s == Zeros(|s|) <==> AllZero(s)
  {
  }

  lemma ZeroField(s: seq<byte>)
    requires |s| == 4
    ensures s == Zeros(4) <==> FromLe(s) == 0
  {
    LeExactly(s, 4, 0);
    LeZero(4);
  }

  // ---------- positioned writes ----------

  /** The contents of a file after b is written at offset at. */
  function Put(s: seq<byte>, at: nat, b: seq<byte>): (r: seq<byte>)
    requires at + |b| <= |s|
    ensures |r| == |s|
    ensures forall i :: 0 <= i < |s| ==> r[i] == if at <= i < at + |b| then b[i - at] else s[i]
  {
    s[..at] + b + s[at + |b|..]
  }

  /** The bytes just written read back; disjoint ranges are untouched. */
  lemma FieldOfPut(s: seq<byte>, at: nat, b: seq<byte>, o: nat, n: nat)
    requires at + |b| <= |s| && o + n <= |s|
    ensures o == at && n == |b| ==> Put(s, at, b)[o..o + n] == b
    ensures o + n <= at || at + |b| <= o ==> Put(s, at, b)[o..o + n] == s[o..o + n]
  {
  }

  lemma SubSlice<T>(s: seq<T>, at: nat, lo: nat, hi: nat, end: nat)
    requires at <= end <= |s| && lo <= hi <= end - at
    ensures s[at..end][lo..hi] == s[at + lo..at + hi]
  {
    var t := s[at..end];
    forall i | 0 <= i < hi - lo ensures t[lo..hi][i] == s[at + lo..at + hi][i] {
      assert t[lo..hi][i] == t[lo + i] == s[at + lo + i];
    }
  }

  // ---------- reading ----------

  /** The end of the overlap of [lo, hi) with a range that ends at e. */
  function Least(hi: nat, e: nat): nat {
    if hi < e then hi else e
  }

  function Greatest(lo: nat, at: nat): nat {
    if lo > at then lo else at
  }

  /** n bytes at an offset; nothing if they are not all there. */
  function Slice(img: seq<byte>, at: nat, n: nat): (s: seq<byte>)
    ensures at + n <= |img| ==> |s| == n
  {
    if at + n <= |img| then img[at..at + n] else []
  }

  /** A little-endian number at an offset. */
  function Field(img: seq<byte>, at: nat, n: nat): nat {
    FromLe(Slice(img, at, n))
  }

  /** Only zeros from lo up to hi. */
  predicate ZeroRange(img: seq<byte>, lo: nat, hi: nat) {
    lo <= hi <= |img| && AllZero(img[lo..hi])
  }

  /** Whether a range holds only zeros, chunk by chunk. */
  method RangeIsZero(img: seq<byte>, lo: nat, hi: nat, chunk: nat) returns (ok: bool)
    requires chunk > 0 && lo <= hi <= |img|
    ensures ok == ZeroRange(img, lo, hi)
  {
    var offset, size := lo, hi - lo;
    while size != 0
      invariant lo <= offset <= hi && offset + size == hi
      invariant forall p :: lo <= p < offset ==> img[p] == 0
      decreases size
    {
      var count := if size > chunk then chunk else size;
      if !AllZero(img[offset..offset + count]) {
        NotZero(img, lo, hi, offset, offset + count);
        return false;
      }
      assert forall p :: offset <= p < offset + count ==> img[p] == img[offset..offset + count][p - offset];
      offset, size := offset + count, size - count;
    }
    ok := true;
  }

  lemma NotZero(img: seq<byte>, lo: nat, hi: nat, a: nat, b: nat)
    requires lo <= a <= b <= hi <= |img| && !AllZero(img[a..b])
    ensures !AllZero(img[lo..hi])
  {
    var p :| 0 <= p < b - a && img[a..b][p] != 0;
    assert img[lo..hi][a + p - lo] != 0;
  }

  /** b stands at offset at. */
  predicate Stands(img: seq<byte>, at: nat, b: seq<byte>) {
    at + |b| <= |img| && img[at..at + |b|] == b
  }

  lemma StandsSplit(img: seq<byte>, at: nat, a: seq<byte>, b: seq<byte>)
    ensures Stands(img, at, a + b) <==> Stands(img, at, a) && Stands(img, at + |a|, b)
  {
    if at + |a| + |b| <= |img| {
      var t := img[at..at + |a| + |b|];
      assert t == img[at..at + |a|] + img[at + |a|..at + |a| + |b|];
      assert |img[at..at + |a|]| == |a|;
      if t == a + b {
        assert img[at..at + |a|] == t[..|a|] == a;
        assert img[at + |a|..at + |a| + |b|] == t[|a|..] == b;
      }
    }
  }

  /** Reading a field out of the image or out of the size bytes at base it lies in is the same. */
  lemma ReadWithin(img: seq<byte>, base: nat, size: nat, at: nat, n: nat)
    requires base + size <= |img| && at + n <= size
    ensures Slice(img, base + at, n) == img[base..base + size][at..at + n]
  {
    SubSlice(img, base, at, at + n, base + size);
  }

  lemma ThreePieces<T>(h: seq<T>, at: nat, a: seq<T>, b: seq<T>, c: seq<T>)
    requires at + |a| + |b| + |c| <= |h|
    ensures h[at..at + |a| + |b| + |c|] == a + b + c <==>
      h[at..at + |a|] == a && h[at + |a|..at + |a| + |b|] == b && h[at + |a| + |b|..at + |a| + |b| + |c|] == c
  {
    var i, j := at + |a|, at + |a| + |b|;
    var end := j + |c|;
    TwoPieces(h, at, j, end, a + b, c);
    TwoPieces(h, at, i, j, a, b);
  }

  lemma TwoPieces<T>(h: seq<T>, at: nat, mid: nat, end: nat, a: seq<T>, b: seq<T>)
    requires end <= |h| && mid == at + |a| && end == mid + |b|
    ensures h[at..end] == a + b <==> h[at..mid] == a && h[mid..end] == b
  {
    if h[at..end] == a + b {
      SubSlice(h, at, 0, |a|, end);
      SubSlice(h, at, |a|, |a| + |b|, end);
    } else {
      assert h[at..end] == h[at..mid] + h[mid..end];
    }
  }

  /** Two consecutive writes amount to one. */
  lemma PutPut(s: seq<byte>, at: nat, a: seq<byte>, b: seq<byte>)
    requires at + |a| + |b| <= |s|
    ensures Put(Put(s, at, a), at + |a|, b) == Put(s, at, a + b)
  {
  }

  /** Overwriting a range and then writing its old bytes again changes nothing. */
  lemma PutBack(s: seq<byte>, at: nat, a: seq<byte>, before: seq<byte>)
    requires at + |a| <= |s| && |before| == |a| && s[at..at + |a|] == before
    ensures Put(Put(s, at, a), at, before) == s
  {
    forall i | 0 <= i < |s| ensures Put(Put(s, at, a), at, before)[i] == s[i] {
      if at <= i < at + |a| {
        assert s[at..at + |a|][i - at] == s[i];
      }
    }
  }

  /** A buffer of n bytes written up to |prefix| and zero beyond. */
  function Filled(prefix: seq<byte>, n: nat): (r: seq<byte>)
    requires |prefix| <= n
    ensures |r| == n
  {
    prefix + Zeros(n - |prefix|)
  }

  /** The next field of a zeroed buffer, possibly after a gap that stays zero. */
  lemma PutNext(prefix: seq<byte>, n: nat, gap: nat, f: seq<byte>)
    requires |prefix| + gap + |f| <= n
    ensures Put(Filled(prefix, n), |prefix| + gap, f) == Filled(prefix + Zeros(gap) + f, n)
  {
  }

  lemma PutAfter(prefix: seq<byte>, n: nat, f: seq<byte>)
    requires |prefix| + |f| <= n
    ensures Put(Filled(prefix, n), |prefix|, f) == Filled(prefix + f, n)
  {
  }

  /** Bytes left zero count as stored. */
  lemma FilledMore(prefix: seq<byte>, n: nat, k: nat)
    requires |prefix| + k <= n
    ensures Filled(prefix, n) == Filled(prefix + Zeros(k), n)
  {
  }

  lemma FilledNothing(s: seq<byte>)
    requires forall i :: 0 <= i < |s| ==> s[i] == 0
    ensures s == Filled([], |s|)
  {
  }

  /** Stores the low n bytes of value at an offset, least significant first. */
  method WriteLe(a: array<byte>, at: nat, n: nat, value: nat)
    requires at + n <= a.Length
    modifies a
    ensures a[..] == Put(old(a[..]), at, Le(n, value))
  {
    ghost var before := a[..];
    ghost var done := [];
    var rest := value;
    for index := 0 to n
      invariant |done| == index && Le(n, value) == done + Le(n - index, rest)
      invariant a[..] == Put(before, at, done)
    {
      LeHead(n - index, rest);
      ghost var b: byte := rest % 256;
      assert done + ([b] + Le(n - index - 1, rest / 256)) == (done + [b]) + Le(n - index - 1, rest / 256);
      PutPut(before, at, done, [b]);
      a[at + index] := rest % 256;
      done, rest := done + [b], rest / 256;
    }
  }

  lemma LeHead(n: nat, v: nat)
    requires n > 0
    ensures Le(n, v) == [v % 256] + Le(n - 1, v / 256)
  {
  }

  /** Copies bytes into a buffer at an offset. */
  method Copy(a: array<byte>, at: nat, b: seq<byte>)
    requires at + |b| <= a.Length
    modifies a
    ensures a[..] == Put(old(a[..]), at, b)
  {
    ghost var before := a[..];
    for index := 0 to |b|
      invariant a[..] == Put(before, at, b[..index])
    {
      a[at + index] := b[index];
    }
    assert b[..|b|] == b;
  }

  /** Appends a number to a buffer filled up to offset at. */
  method AppendLe(a: array<byte>, at: nat, n: nat, value: nat, ghost prefix: seq<byte>)
    returns (ghost filled: seq<byte>)
    requires at == |prefix| && at + n <= a.Length && a[..] == Filled(prefix, a.Length)
    modifies a
    ensures filled == prefix + Le(n, value) && a[..] == Filled(filled, a.Length)
  {
    PutAfter(prefix, a.Length, Le(n, value));
    WriteLe(a, at, n, value);
    filled := prefix + Le(n, value);
  }

  lemma Associate(a: seq<byte>, b: seq<byte>, c: seq<byte>)
    ensures a + b + c == a + (b + c)
  {
  }

  lemma Regroup(h: seq<byte>, a: seq<byte>, b: seq<byte>, c: seq<byte>)
    ensures h + a + b + c == h + (a + b + c)
  {
  }

  // ---------- most significant byte first ----------

  /** The low n bytes of a number, most significant first. */
  function Be(n: nat, v: nat): (r: seq<byte>)
    ensures |r| == n
  {
    if n == 0 then [] else Be(n - 1, v / 256) + [v % 256]
  }

  function FromBe(s: seq<byte>): nat {
    if s == [] then 0 else FromBe(s[..|s| - 1]) * 256 + s[|s| - 1]
  }

  /** Four bytes read back as a number exactly when they are its encoding. */
  lemma {:induction false} BeExactly(s: seq<byte>, n: nat, v: nat)
    requires |s| == n && v < Pow256(n)
    ensures s == Be(n, v) <==> FromBe(s) == v
    decreases n
  {
    if n > 0 {
      BeExactly(s[..n - 1], n - 1, v / 256);
      assert s == s[..n - 1] + [s[n - 1]];
      assert Be(n, v)[..n - 1] == Be(n - 1, v / 256) && Be(n, v)[n - 1] == v % 256;
    }
  }

  /** Written and read back, most significant byte first. */
  lemma {:induction false} BeRead(n: nat, v: nat)
    ensures FromBe(Be(n, v)) == v % Pow256(n)
  {
    if n != 0 {
      BeRead(n - 1, v / 256);
      assert Be(n, v)[..n - 1] == Be(n - 1, v / 256);
      SplitRemainder(v, Pow256(n - 1));
    }
  }

  /** Byte i from the end is digit i to the base 256. */
  lemma {:induction false} BeDigit(n: nat, v: nat, i: nat)
    requires i < n
    ensures Be(n, v)[n - 1 - i] == v / Pow256(i) % 256
    decreases n
  {
    if i > 0 {
      BeDigit(n - 1, v / 256, i - 1);
      assert Be(n, v)[n - 1 - i] == Be(n - 1, v / 256)[n - 1 - i];
      QuotientOf(v, Pow256(i - 1));
    }
  }

  // ---------- alignment ----------

  /** Rounds up to a multiple of 64, saturating at the largest 64-bit value. */
  function Align64(v: nat): nat {
    if v > U64_MAX - 63 then U64_MAX else (v + 63) / 64 * 64
  }

  lemma Align64Least(v: nat)
    requires v <= U64_MAX - 63
    ensures Align64(v) % 64 == 0 && v <= Align64(v) < v + 64
    ensures forall w: nat :: v <= w && w % 64 == 0 ==> Align64(v) <= w
  {
  }

  /** It saturates exactly where no multiple of 64 is left below 2^64. */
  lemma Align64Saturates(v: nat)
    requires v <= U64_MAX
    ensures Align64(v) == U64_MAX <==> forall w: nat :: v <= w <= U64_MAX ==> w % 64 != 0
  {
    if v <= U64_MAX - 63 {
      Align64Least(v);
    }
  }

  // ---------- letters ----------

  /** The bytes of a string of ASCII letters. */
  function Letters(s: string): (r: seq<int>)
    ensures |r| == |s| && forall i :: 0 <= i < |s| ==> r[i] == s[i] as int
  {
    seq(|s|, i requires 0 <= i < |s| => s[i] as int)
  }
}
