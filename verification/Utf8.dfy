/** The strict UTF-8 check every stored name and JSON document passes through, measured against
    the encoding of Unicode scalar values in section 3 of RFC 3629. */
module Utf8 {
  import opened Bytes

  /** A Unicode scalar value: any code point that is not a surrogate. */
  predicate IsScalar(v: nat) {
    v < 0xd800 || 0xe000 <= v < 0x11_0000
  }

  /** The UTF-8 encoding of one scalar value. */
  function Encode(v: nat): (r: seq<byte>)
    requires IsScalar(v)
    ensures 1 <= |r| <= 4
  {
    if v < 0x80 then [v]
    else if v < 0x800 then [0xc0 + v / 0x40, 0x80 + v % 0x40]
    else if v < 0x1_0000 then [0xe0 + v / 0x1000, 0x80 + v / 0x40 % 0x40, 0x80 + v % 0x40]
    else [0xf0 + v / 0x4_0000, 0x80 + v / 0x1000 % 0x40, 0x80 + v / 0x40 % 0x40, 0x80 + v % 0x40]
  }

  predicate AllScalars(cs: seq<nat>) {
    forall i :: 0 <= i < |cs| ==> IsScalar(cs[i])
  }

  function EncodeAll(cs: seq<nat>): seq<byte>
    requires AllScalars(cs)
  {
    if cs == [] then [] else Encode(cs[0]) + EncodeAll(cs[1..])
  }

  /** s is a concatenation of encodings of scalar values. */
  ghost predicate IsUtf8(s: seq<byte>) {
    exists cs: seq<nat> :: AllScalars(cs) && EncodeAll(cs) == s
  }

  predicate IsContinuation(b: byte) {
    0x80 <= b < 0xc0
  }

  /** The length the first byte of a character announces; 0 if it cannot start one. */
  function LeadLength(b: byte): nat {
    if b < 0x80 then 1
    else if 0xc2 <= b <= 0xdf then 2
    else if 0xe0 <= b <= 0xef then 3
    else if 0xf0 <= b <= 0xf4 then 4
    else 0
  }

  function LeadBits(b: byte): nat {
    if b < 0x80 then b
    else if b < 0xe0 then b % 0x20
    else if b < 0xf0 then b % 0x10
    else b % 8
  }

  function LeadMinimum(b: byte): nat {
    if b < 0x80 then 0
    else if b < 0xe0 then 0x80
    else if b < 0xf0 then 0x800
    else 0x1_0000
  }

  /** The payload of a continuation byte. */
  function Low6(b: byte): nat {
    b % 0x40
  }

  /** The number the bits of the first n bytes of s spell, six to a continuation byte. */
  function Accumulate(s: seq<byte>, n: nat): nat
    requires 1 <= n <= |s|
  {
    if n == 1 then LeadBits(s[0]) else Accumulate(s, n - 1) * 0x40 + Low6(s[n - 1])
  }

  /** s starts with one well-formed character of n bytes. */
  predicate StartsCharacter(s: seq<byte>, n: nat) {
    && 1 <= n <= |s|
    && LeadLength(s[0]) == n
    && (forall i :: 1 <= i < n ==> IsContinuation(s[i]))
    && LeadMinimum(s[0]) <= Accumulate(s, n)
    && IsScalar(Accumulate(s, n))
  }

  predicate Valid(s: seq<byte>)
    decreases |s|
  {
    s == [] || (StartsCharacter(s, LeadLength(s[0])) && Valid(s[LeadLength(s[0])..]))
  }

  /** The first of the bytes 1 to n - 1 of s, from i on, that continues no character; n if there is none. */
  function Broken(s: seq<byte>, i: nat, n: nat): (b: nat)
    requires 1 <= i <= n <= |s|
    ensures i <= b <= n && (b < n ==> !IsContinuation(s[b])) && forall j :: i <= j < b ==> IsContinuation(s[j])
    decreases n - i
  {
    if i == n || !IsContinuation(s[i]) then i else Broken(s, i + 1, n)
  }

  /** Which byte a malformed character is reported at: the first one that fails to continue it, or the
      lead byte if that is no lead, is cut short, or spells a forbidden number. */
  function Blame(s: seq<byte>): (b: nat)
    requires s != []
    ensures b < |s|
  {
    var n := LeadLength(s[0]);
    if n <= 1 || |s| < n || Broken(s, 1, n) == n then 0 else Broken(s, 1, n)
  }

  /** Where the validator gives up: past all well-formed characters, at the byte to blame. */
  function BadOffset(s: seq<byte>): (b: nat)
    requires !Valid(s)
    ensures b < |s|
    decreases |s|
  {
    if !StartsCharacter(s, LeadLength(s[0])) then Blame(s)
    else LeadLength(s[0]) + BadOffset(s[LeadLength(s[0])..])
  }

  /** s is well formed up to p, and no longer: p is where the malformed character starts. */
  predicate LongestValid(s: seq<byte>, p: nat) {
    && p < |s| && Valid(s[..p]) && !StartsCharacter(s[p..], LeadLength(s[p]))
    && forall q :: p < q <= |s| ==> !Valid(s[..q])
  }

  /** The reported byte belongs to the character after the longest valid prefix. */
  lemma {:induction false} BadOffsetIs(s: seq<byte>) returns (p: nat)
    requires !Valid(s)
    ensures LongestValid(s, p) && BadOffset(s) == p + Blame(s[p..])
    decreases |s|
  {
    hide Accumulate, IsScalar, IsContinuation, Blame;
    var n := LeadLength(s[0]);
    if !StartsCharacter(s, n) {
      p := 0;
      assert s[0..] == s;
      forall q | 0 < q <= |s| ensures !Valid(s[..q]) {
        ShorterStart(s, q, n);
      }
    } else {
      var rest := s[n..];
      p := BadOffsetIs(rest);
      assert rest[p..] == s[n + p..] && rest[p] == s[n + p];
      forall q | n <= q <= |s| ensures Valid(s[..q]) == Valid(rest[..q - n]) {
        PrefixValid(s, q, n);
      }
      forall q | n + p < q <= |s| ensures !Valid(s[..q]) {
        assert !Valid(rest[..q - n]);
      }
      p := n + p;
    }
  }

  /** A character that starts no prefix of s starts no longer text either. */
  lemma ShorterStart(s: seq<byte>, q: nat, n: nat)
    requires 0 < q <= |s| && n == LeadLength(s[0]) && !StartsCharacter(s, n)
    ensures !Valid(s[..q])
  {
    hide IsScalar, IsContinuation;
    var t := s[..q];
    if StartsCharacter(t, n) {
      SameAccumulate(s, t, n);
    }
  }

  lemma {:induction false} SameAccumulate(s: seq<byte>, t: seq<byte>, n: nat)
    requires 1 <= n <= |s| && n <= |t| && s[..n] == t[..n]
    ensures Accumulate(s, n) == Accumulate(t, n)
    decreases n
  {
    assert s[n - 1] == s[..n][n - 1] == t[..n][n - 1] == t[n - 1];
    if n > 1 {
      assert s[..n - 1] == s[..n][..n - 1] == t[..n][..n - 1] == t[..n - 1];
      SameAccumulate(s, t, n - 1);
    }
  }

  lemma PrefixValid(s: seq<byte>, q: nat, n: nat)
    requires StartsCharacter(s, n) && n <= q <= |s|
    ensures Valid(s[..q]) == Valid(s[n..][..q - n])
  {
    hide IsScalar, IsContinuation;
    var t := s[..q];
    SameAccumulate(s, t, n);
    assert t[n..] == s[n..][..q - n];
    assert StartsCharacter(t, n);
  }

  /** Checks one multi-byte character; on failure bad names the offending byte. */
  method ScanCharacter(bytes: seq<byte>, position: nat) returns (ok: bool, count: nat, bad: nat)
    requires position < |bytes| && bytes[position] >= 0x80
    ensures ok == StartsCharacter(bytes[position..], LeadLength(bytes[position]))
    ensures ok ==> count == LeadLength(bytes[position])
    ensures !ok ==> bad == position + Blame(bytes[position..])
  {
    hide IsContinuation, Accumulate, Broken;
    ghost var rest := bytes[position..];
    var first := bytes[position];
    bad := position;
    var value: nat, minimum: nat := 0, 0;
    if 0xc2 <= first <= 0xdf {
      count, value, minimum := 2, first % 0x20, 0x80;
    } else if 0xe0 <= first <= 0xef {
      count, value, minimum := 3, first % 0x10, 0x800;
    } else if 0xf0 <= first <= 0xf4 {
      count, value, minimum := 4, first % 8, 0x1_0000;
    } else {
      return false, 0, position;
    }
    if |bytes| - position < count {
      return false, count, position;
    }
    ok, value, bad := ReadContinuations(bytes, position, count, value);
    if !ok {
      return;
    }
    bad := position;
    ok := !(value < minimum || value > 0x10_ffff || 0xd800 <= value <= 0xdfff);
  }

  /** The bytes after the first of a character, and the value they spell with the bits of the first. */
  method ReadContinuations(bytes: seq<byte>, position: nat, count: nat, bits: nat) returns (ok: bool, value: nat, bad: nat)
    requires count > 0 && position + count <= |bytes| && bits == LeadBits(bytes[position])
    ensures var rest := bytes[position..];
      && ok == (Broken(rest, 1, count) == count)
      && (ok ==> value == Accumulate(rest, count))
      && (!ok ==> bad == position + Broken(rest, 1, count))
  {
    hide IsContinuation, LeadBits, Low6;
    ghost var rest := bytes[position..];
    value, bad := bits, position;
    var index := 1;
    while index < count
      invariant 1 <= index <= count
      invariant value == Accumulate(rest, index)
      invariant Broken(rest, 1, count) == Broken(rest, index, count)
    {
      var next := bytes[position + index];
      assert next == rest[index];
      if !IsContinuation(next) {
        return false, value, position + index;
      }
      value := value * 0x40 + Low6(next);
      index := index + 1;
    }
    ok := true;
  }

  /** The bytewise validator; on failure badOffset names the byte to blame. */
  method Validate(bytes: seq<byte>) returns (ok: bool, badOffset: nat)
    ensures ok == Valid(bytes)
    ensures !ok ==> badOffset == BadOffset(bytes)
  {
    hide Blame, StartsCharacter, LeadLength, Valid, BadOffset;
    var position := 0;
    assert bytes[0..] == bytes;
    badOffset := 0;
    while position < |bytes|
      invariant 0 <= position <= |bytes|
      invariant Valid(bytes) == Valid(bytes[position..])
      invariant !Valid(bytes) ==> BadOffset(bytes) == position + BadOffset(bytes[position..])
    {
      ghost var rest := bytes[position..];
      ValidStep(rest);
      var count := 1;
      if bytes[position] >= 0x80 {
        ok, count, badOffset := ScanCharacter(bytes, position);
        if !ok {
          return;
        }
      } else {
        AsciiCharacter(rest);
      }
      assert rest[count..] == bytes[position + count..];
      position := position + count;
    }
    NothingValid();
    ok := true;
  }

  /** The first character decides, or what follows it. */
  lemma ValidStep(s: seq<byte>)
    requires s != []
    ensures var n := LeadLength(s[0]);
      if StartsCharacter(s, n) then
        1 <= n <= |s| && Valid(s) == Valid(s[n..]) && (!Valid(s) ==> BadOffset(s) == n + BadOffset(s[n..]))
      else
        !Valid(s) && BadOffset(s) == Blame(s)
  {
    hide Blame, Accumulate, IsScalar, LeadMinimum;
  }

  lemma NothingValid()
    ensures Valid([])
  {
  }

  lemma AsciiCharacter(s: seq<byte>)
    requires s != [] && s[0] < 0x80
    ensures LeadLength(s[0]) == 1 && StartsCharacter(s, 1)
  {
  }

  // ---------- exactness ----------

  lemma Spelling(s: seq<byte>, n: nat)
    requires 1 <= n <= 4 && n <= |s|
    ensures n == 1 ==> Accumulate(s, n) == LeadBits(s[0])
    ensures n == 2 ==> Accumulate(s, n) == 0x40 * LeadBits(s[0]) + Low6(s[1])
    ensures n == 3 ==> Accumulate(s, n) == 0x1000 * LeadBits(s[0]) + 0x40 * Low6(s[1]) + Low6(s[2])
    ensures n == 4 ==>
      Accumulate(s, n) == 0x4_0000 * LeadBits(s[0]) + 0x1000 * Low6(s[1]) + 0x40 * Low6(s[2]) + Low6(s[3])
  {
    assert Accumulate(s, 1) == LeadBits(s[0]);
    if n >= 2 {
      assert Accumulate(s, 2) == Accumulate(s, 1) * 0x40 + Low6(s[1]);
    }
    if n >= 3 {
      assert Accumulate(s, 3) == Accumulate(s, 2) * 0x40 + Low6(s[2]);
    }
    if n == 4 {
      assert Accumulate(s, 4) == Accumulate(s, 3) * 0x40 + Low6(s[3]);
    }
  }

  lemma Push(x: nat, d: nat)
    requires d < 0x40
    ensures (0x40 * x + d) / 0x40 == x && (0x40 * x + d) % 0x40 == d
  {
  }

  lemma Quotients(v: nat)
    ensures v / 0x1000 == v / 0x40 / 0x40
    ensures v / 0x4_0000 == v / 0x1000 / 0x40
  {
  }

  /** The base-64 digits of a number built from them. */
  lemma Digits(a: nat, b: nat, c: nat, d: nat)
    requires b < 0x40 && c < 0x40 && d < 0x40
    ensures var v := a * 0x4_0000 + b * 0x1000 + c * 0x40 + d;
      && v % 0x40 == d && v / 0x40 % 0x40 == c && v / 0x1000 % 0x40 == b && v / 0x4_0000 == a
      && v / 0x40 == a * 0x1000 + b * 0x40 + c && v / 0x1000 == a * 0x40 + b
  {
    var v := a * 0x4_0000 + b * 0x1000 + c * 0x40 + d;
    var w, x := a * 0x1000 + b * 0x40 + c, a * 0x40 + b;
    Push(w, d);
    Push(x, c);
    Push(a, b);
    assert v == 0x40 * w + d && w == 0x40 * x + c && x == 0x40 * a + b;
    Quotients(v);
  }

  /** A well-formed character is the encoding of the value its bits spell. */
  lemma CharacterEncodes(s: seq<byte>, n: nat)
    requires StartsCharacter(s, n)
    ensures Encode(Accumulate(s, n)) == s[..n]
  {
    Spelling(s, n);
    var v := Accumulate(s, n);
    match n {
      case 1 => assert Encode(v) == [s[0]] == s[..n];
      case 2 => TwoBytes(s, v);
      case 3 => ThreeBytes(s, v);
      case _ => FourBytes(s, v);
    }
  }

  lemma TwoBytes(s: seq<byte>, v: nat)
    requires |s| >= 2 && LeadLength(s[0]) == 2 && IsContinuation(s[1])
    requires v == 0x40 * LeadBits(s[0]) + Low6(s[1]) && 0x80 <= v
    ensures IsScalar(v) && Encode(v) == s[..2]
  {
    Digits(0, 0, LeadBits(s[0]), Low6(s[1]));
    assert s[..2] == [s[0], s[1]];
  }

  lemma ThreeBytes(s: seq<byte>, v: nat)
    requires |s| >= 3 && LeadLength(s[0]) == 3 && IsContinuation(s[1]) && IsContinuation(s[2])
    requires v == 0x1000 * LeadBits(s[0]) + 0x40 * Low6(s[1]) + Low6(s[2]) && 0x800 <= v && IsScalar(v)
    ensures Encode(v) == s[..3]
  {
    Digits(0, LeadBits(s[0]), Low6(s[1]), Low6(s[2]));
    assert s[..3] == [s[0], s[1], s[2]];
  }

  lemma FourBytes(s: seq<byte>, v: nat)
    requires |s| >= 4 && LeadLength(s[0]) == 4
    requires IsContinuation(s[1]) && IsContinuation(s[2]) && IsContinuation(s[3])
    requires v == 0x4_0000 * LeadBits(s[0]) + 0x1000 * Low6(s[1]) + 0x40 * Low6(s[2]) + Low6(s[3])
    requires 0x1_0000 <= v && IsScalar(v)
    ensures Encode(v) == s[..4]
  {
    var a, b, c, d := LeadBits(s[0]), Low6(s[1]), Low6(s[2]), Low6(s[3]);
    Digits(a, b, c, d);
    assert s[..4] == [s[0], s[1], s[2], s[3]];
    assert s[0] == 0xf0 + a && s[1] == 0x80 + b && s[2] == 0x80 + c && s[3] == 0x80 + d;
    hide LeadLength, LeadBits, Low6, IsContinuation, IsScalar;
    assert Encode(v) == [0xf0 + v / 0x4_0000, 0x80 + v / 0x1000 % 0x40, 0x80 + v / 0x40 % 0x40, 0x80 + v % 0x40];
  }

  /** An encoding is a well-formed character, whatever follows it. */
  lemma EncodingStarts(v: nat, rest: seq<byte>)
    requires IsScalar(v)
    ensures StartsCharacter(Encode(v) + rest, |Encode(v)|)
    ensures Accumulate(Encode(v) + rest, |Encode(v)|) == v
  {
    var e := Encode(v);
    var s, n := e + rest, |e|;
    assert forall i :: 0 <= i < n ==> s[i] == e[i];
    Spelling(s, n);
    EncodingLead(v);
    EncodingDigits(v);
  }

  /** The lead byte announces the encoding's length and the others continue it. */
  lemma EncodingLead(v: nat)
    requires IsScalar(v)
    ensures LeadLength(Encode(v)[0]) == |Encode(v)| && LeadMinimum(Encode(v)[0]) <= v
    ensures forall i :: 1 <= i < |Encode(v)| ==> IsContinuation(Encode(v)[i])
  {
  }

  lemma EncodingDigits(v: nat)
    requires IsScalar(v)
    ensures var e := Encode(v);
      v == (match |e|
            case 1 => LeadBits(e[0])
            case 2 => 0x40 * LeadBits(e[0]) + Low6(e[1])
            case 3 => 0x1000 * LeadBits(e[0]) + 0x40 * Low6(e[1]) + Low6(e[2])
            case _ => 0x4_0000 * LeadBits(e[0]) + 0x1000 * Low6(e[1]) + 0x40 * Low6(e[2]) + Low6(e[3]))
  {
    var q1, q2, q3 := v / 0x40, v / 0x1000, v / 0x4_0000;
    var d0, d1, d2 := v % 0x40, q1 % 0x40, q2 % 0x40;
    Quotients(v);
    assert v == 0x40 * q1 + d0 && q1 == 0x40 * q2 + d1 && q2 == 0x40 * q3 + d2;
    hide LeadBits, Low6;
    if v < 0x80 {
    } else if v < 0x800 {
      LeadTwo(q1, d0);
    } else if v < 0x1_0000 {
      LeadThree(q2, d1, d0);
    } else {
      LeadFour(q3, d2, d1, d0);
    }
  }

  lemma LeadTwo(a: nat, d: nat)
    requires a < 0x20 && d < 0x40 && a >= 2
    ensures LeadBits(0xc0 + a) == a && Low6(0x80 + d) == d
  {
  }

  lemma LeadThree(a: nat, c: nat, d: nat)
    requires a < 0x10 && c < 0x40 && d < 0x40
    ensures LeadBits(0xe0 + a) == a && Low6(0x80 + c) == c && Low6(0x80 + d) == d
  {
  }

  lemma LeadFour(a: nat, b: nat, c: nat, d: nat)
    requires a < 8 && b < 0x40 && c < 0x40 && d < 0x40
    ensures LeadBits(0xf0 + a) == a && Low6(0x80 + b) == b && Low6(0x80 + c) == c && Low6(0x80 + d) == d
  {
  }

  lemma {:induction false} ValidIsUtf8(s: seq<byte>) returns (cs: seq<nat>)
    requires Valid(s)
    ensures AllScalars(cs) && EncodeAll(cs) == s
    decreases |s|
  {
    hide Valid, EncodeAll, AllScalars, StartsCharacter, Encode, Accumulate;
    if s == [] {
      cs := [];
      EncodeNone();
    } else {
      var n := LeadLength(s[0]);
      ValidParts(s);
      CharacterEncodes(s, n);
      var tail := ValidIsUtf8(s[n..]);
      EncodeAllCons(Accumulate(s, n), tail);
      cs := [Accumulate(s, n)] + tail;
      assert s == s[..n] + s[n..];
    }
  }

  lemma ValidParts(s: seq<byte>)
    requires s != [] && Valid(s)
    ensures var n := LeadLength(s[0]);
      1 <= n <= |s| && StartsCharacter(s, n) && IsScalar(Accumulate(s, n)) && Valid(s[n..])
  {
    hide Accumulate, IsScalar;
  }

  lemma EncodeNone()
    ensures AllScalars([]) && EncodeAll([]) == []
  {
  }

  lemma EncodeAllCons(c: nat, tail: seq<nat>)
    requires IsScalar(c) && AllScalars(tail)
    ensures AllScalars([c] + tail) && EncodeAll([c] + tail) == Encode(c) + EncodeAll(tail)
  {
    hide Encode;
    assert ([c] + tail)[1..] == tail;
  }

  lemma {:induction false} Utf8IsValid(cs: seq<nat>)
    requires AllScalars(cs)
    ensures Valid(EncodeAll(cs))
  {
    if cs != [] {
      Utf8IsValid(cs[1..]);
      var s, n := EncodeAll(cs), |Encode(cs[0])|;
      EncodingStarts(cs[0], EncodeAll(cs[1..]));
      assert s[n..] == EncodeAll(cs[1..]);
    }
  }

  /** The validator accepts exactly the concatenations of encodings of scalar values. */
  lemma ValidExact(s: seq<byte>)
    ensures Valid(s) <==> IsUtf8(s)
  {
    if Valid(s) {
      var cs := ValidIsUtf8(s);
    }
    if IsUtf8(s) {
      var cs: seq<nat> :| AllScalars(cs) && EncodeAll(cs) == s;
      Utf8IsValid(cs);
    }
  }

  /** A text has one decoding only. */
  lemma {:induction false} EncodeAllInjective(a: seq<nat>, b: seq<nat>)
    requires AllScalars(a) && AllScalars(b) && EncodeAll(a) == EncodeAll(b)
    ensures a == b
  {
    if a == [] || b == [] {
      assert |EncodeAll(a)| == |EncodeAll(b)|;
    } else {
      EncodingStarts(a[0], EncodeAll(a[1..]));
      EncodingStarts(b[0], EncodeAll(b[1..]));
      var n := |Encode(a[0])|;
      assert EncodeAll(a)[n..] == EncodeAll(a[1..]) && EncodeAll(b)[n..] == EncodeAll(b[1..]);
      EncodeAllInjective(a[1..], b[1..]);
      assert a == [a[0]] + a[1..] && b == [b[0]] + b[1..];
    }
  }
}
