/** The letters of JSON as RFC 8259 lists them, and what escapes, surrogate pairs and signed digits
    stand for: the small facts on which grammar, parser and decoder all rest. */
module JsonLaws {
  import opened Bytes
  import opened JsonText
  import opened JsonScan
  import opened JsonStrings
  import StatsText
  import Utf8

  // ---------- the letters ----------

  /** White space, digits, and the marks around values (sections 2 to 6). */
  lemma Marks(b: byte)
    ensures IsSpaceByte(b) <==> b == ' ' as int || b == '\t' as int || b == '\n' as int || b == '\r' as int
    ensures IsDigit(b) <==> '0' as int <= b <= '9' as int
    ensures IsSign(b) <==> b == '+' as int || b == '-' as int
    ensures Open(true) == '{' as int && Close(true) == '}' as int && Open(false) == '[' as int && Close(false) == ']' as int
    ensures QUOTE == '\"' as int && ESCAPE == '\\' as int && LETTER_U == 'u' as int && COLON == ':' as int && COMMA == ',' as int
    ensures MAX_DEPTH == 128
  {
  }

  lemma Words()
    ensures WordText(True) == Letters("true") && WordText(False) == Letters("false") && WordText(Null) == Letters("null")
  {
  }

  /** A number is an optional minus, digits, an optional point and digits, an optional exponent. */
  lemma NumberParts(n: Number)
    ensures NumberText(n.(fraction := [], exponent := NoExponent)) == (if n.minus then Letters("-") else []) + n.whole
    ensures n.fraction != [] ==> FractionText(n.fraction) == Letters(".") + n.fraction
    ensures n.exponent.Exponent? && ExponentOk(n.exponent) ==>
      && (ExponentText(n.exponent)[..1] == Letters("e") || ExponentText(n.exponent)[..1] == Letters("E"))
      && (n.exponent.sign == [] || n.exponent.sign == Letters("+") || n.exponent.sign == Letters("-"))
  {
    assert Letters("+") == [0x2b] && Letters("-") == [0x2d];
  }

  // ---------- escapes ----------

  /** The two-character escapes of section 7 and what they stand for. */
  lemma ShortEscapes(e: byte)
    ensures IsShortEscape(e) <==> e in {'\"' as int, '\\' as int, '/' as int, 'b' as int, 'f' as int, 'n' as int, 'r' as int, 't' as int}
    ensures ShortValue('b' as int) == 0x08 && ShortValue('f' as int) == 0x0c && ShortValue('n' as int) == 0x0a
    ensures ShortValue('r' as int) == 0x0d && ShortValue('t' as int) == 0x09
    ensures ShortValue('\"' as int) == '\"' as int && ShortValue('\\' as int) == '\\' as int && ShortValue('/' as int) == '/' as int
  {
  }

  /** A character of a string: a byte that needs no escape, a short escape, one \u escape outside the
      surrogates, or a high surrogate followed by a low one. */
  lemma CharLetters(c: Char)
    ensures CharText(c) == match c
      case Plain(b) => [b]
      case Short(e) => Letters("\\") + [e]
      case Hex(h) => Letters("\\u") + h
      case Pair(high, low) => Letters("\\u") + high + Letters("\\u") + low
    ensures CharOk(c) <==> match c
      case Plain(b) => b >= 0x20 && b != '\"' as int && b != '\\' as int
      case Short(e) => IsShortEscape(e)
      case Hex(h) => IsHex4(h) && !(0xd800 <= Hex4(h) < 0xe000)
      case Pair(high, low) => IsHex4(high) && IsHex4(low) && 0xd800 <= Hex4(high) < 0xdc00 <= Hex4(low) < 0xe000
  {
    assert Letters("\\u") == [0x5c, 0x75];
  }

  const LOWER := "0123456789abcdef"
  const UPPER := "0123456789ABCDEF"

  /** A hexadecimal digit is one of sixteen letters, in either case, and counts by its place. */
  lemma HexDigits(b: byte)
    ensures HexValue(b) >= 0 ==> HexValue(b) < 16 && (b == LOWER[HexValue(b)] as int || b == UPPER[HexValue(b)] as int)
    ensures forall v :: 0 <= v < 16 ==> b == LOWER[v] as int || b == UPPER[v] as int ==> HexValue(b) == v
  {
    forall v | 0 <= v < 16 && (b == LOWER[v] as int || b == UPPER[v] as int) ensures HexValue(b) == v {
      PlaceOf(v);
    }
    if HexValue(b) >= 0 {
      PlaceOf(HexValue(b));
    }
  }

  lemma PlaceOf(v: nat)
    requires v < 16
    ensures LOWER[v] as int == (if v < 10 then 0x30 + v else 0x57 + v) && UPPER[v] as int == (if v < 10 then 0x30 + v else 0x37 + v)
  {
  }

  /** Four hexadecimal digits of a number below 2^16. */
  function HexOf(v: nat): (h: seq<byte>)
    requires v < 0x1_0000
    ensures |h| == 4
  {
    [HexDigit(v / 0x1000), HexDigit(v / 0x100 % 16), HexDigit(v / 16 % 16), HexDigit(v % 16)]
  }

  function HexDigit(v: nat): byte
    requires v < 16
  {
    if v < 10 then 0x30 + v else 0x57 + v
  }

  lemma HexReads(v: nat)
    requires v < 0x1_0000
    ensures IsHex4(HexOf(v)) && Hex4(HexOf(v)) == v
  {
    hide HexValue, HexDigit;
    DigitReads(v / 0x1000);
    DigitReads(v / 0x100 % 16);
    DigitReads(v / 16 % 16);
    DigitReads(v % 16);
    Nibbles(v);
  }

  lemma DigitReads(d: nat)
    requires d < 16
    ensures HexValue(HexDigit(d)) == d
  {
  }

  lemma Nibbles(v: nat)
    ensures v == ((v / 0x1000 * 16 + v / 0x100 % 16) * 16 + v / 16 % 16) * 16 + v % 16
  {
    var a, b := v / 16, v / 0x100;
    assert v == 16 * a + v % 16;
    assert b == a / 16 && a == 16 * b + a % 16;
    assert v / 0x1000 == b / 16 && b == 16 * (b / 16) + b % 16;
  }

  /** Escaping works for every scalar value: one escape below 2^16, a surrogate pair above it, as
      section 7 computes it; the decoder returns the value's own encoding. */
  function Escaped(v: nat): Char
    requires Utf8.IsScalar(v)
  {
    if v < 0x1_0000 then Hex(HexOf(v))
    else Pair(HexOf(0xd800 + (v - 0x1_0000) / 0x400), HexOf(0xdc00 + (v - 0x1_0000) % 0x400))
  }

  lemma EscapedDecodes(v: nat)
    requires Utf8.IsScalar(v)
    ensures CharOk(Escaped(v)) && DecodeChar(Escaped(v)) == Utf8.Encode(v)
  {
    hide HexOf, Hex4, IsHex4, Utf8.Encode;
    if v < 0x1_0000 {
      HexReads(v);
    } else {
      HexReads(0xd800 + (v - 0x1_0000) / 0x400);
      HexReads(0xdc00 + (v - 0x1_0000) % 0x400);
    }
  }

  // ---------- integers ----------

  /** A string of digits counts each by its place in base ten. */
  lemma {:induction false} DecimalPlaces(s: seq<byte>, i: nat)
    requires AllDigits(s) && i < |s|
    ensures Decimal(s) / TenTo(i) % 10 == s[|s| - 1 - i] - '0' as int
    decreases i
  {
    hide Decimal, AllDigits;
    var n := |s| - 1;
    LastDigit(s);
    if i > 0 {
      DecimalPlaces(s[..n], i - 1);
      TenthOf(Decimal(s), Decimal(s[..n]), s[n] - 0x30, TenTo(i - 1));
    }
  }

  lemma LastDigit(s: seq<byte>)
    requires AllDigits(s) && s != []
    ensures var n := |s| - 1;
      AllDigits(s[..n]) && 0x30 <= s[n] <= 0x39 && Decimal(s) == Decimal(s[..n]) * 10 + (s[n] - 0x30)
  {
  }

  function TenTo(i: nat): (p: nat)
    ensures p > 0
  {
    if i == 0 then 1 else 10 * TenTo(i - 1)
  }

  lemma TenthOf(v: nat, q: nat, d: nat, p: nat)
    requires v == q * 10 + d && d < 10 && p > 0
    ensures v / (10 * p) == q / p
  {
    var a, r := q / p, q % p;
    assert q == a * p + r;
    assert 10 * (a * p) == a * (10 * p);
    QuotientIs(v, 10 * p, a, 10 * r + d);
  }

  /** An integer as one writes it. */
  function Written(v: int): Number {
    Number(v < 0, StatsText.Digits(if v < 0 then -v else v), [], NoExponent)
  }

  /** Exactly the integers from -2^63 to 2^63 - 1 read back, sign included; zero with a minus is zero. */
  lemma IntegersRead(v: int)
    ensures NumberOk(Written(v))
    ensures IntegerOf(Written(v)) ==
      if -0x8000_0000_0000_0000 <= v <= 0x7fff_ffff_ffff_ffff then Some(v) else None
    ensures v >= 0 ==> NumberText(Written(v)) == StatsText.Digits(v)
    ensures v < 0 ==> NumberText(Written(v)) == Letters("-") + StatsText.Digits(-v)
  {
    hide StatsText.Digits, Decimal;
    StatsText.DigitsRead(if v < 0 then -v else v);
    if v == 0 {
      ZeroDigits();
    }
  }

  /** A number reads as an integer exactly if it has neither fraction nor exponent and its digits, with its
      sign, lie inside 64 bits. */
  lemma IntegerExactly(n: Number, v: int)
    requires NumberOk(n)
    ensures IntegerOf(n) == Some(v) <==>
      && |n.fraction| == 0 && n.exponent == NoExponent
      && -0x8000_0000_0000_0000 <= v <= 0x7fff_ffff_ffff_ffff && (if n.minus then -v else v) == Decimal(n.whole)
  {
    hide Decimal, NumberOk;
  }

  lemma ZeroDigits()
    ensures StatsText.Digits(0) == [0x30]
  {
  }

  lemma MinusZero()
    ensures IntegerOf(Number(true, StatsText.Digits(0), [], NoExponent)) == Some(0)
  {
    StatsText.DigitsRead(0);
  }
}
