/** JSON texts as trees: every byte of a text, white space and escapes included, belongs to one node,
    so that rendering a tree gives back the text (RFC 8259, sections 2 to 7). */
module JsonText {
  import opened Bytes

  const QUOTE: byte := 0x22
  const ESCAPE: byte := 0x5c
  const LETTER_U: byte := 0x75
  const COLON: byte := 0x3a
  const COMMA: byte := 0x2c
  const MAX_DEPTH: nat := 128

  // ---------- strings ----------

  /** One character of a string, as written. */
  datatype Char = Plain(b: byte) | Short(e: byte) | Hex(h: seq<byte>) | Pair(high: seq<byte>, low: seq<byte>)

  function HexValue(b: byte): int {
    if 0x30 <= b <= 0x39 then b - 0x30
    else if 0x61 <= b <= 0x66 then b - 0x61 + 10
    else if 0x41 <= b <= 0x46 then b - 0x41 + 10
    else -1
  }

  predicate IsHex4(h: seq<byte>) {
    |h| == 4 && HexValue(h[0]) >= 0 && HexValue(h[1]) >= 0 && HexValue(h[2]) >= 0 && HexValue(h[3]) >= 0
  }

  function Hex4(h: seq<byte>): (v: nat)
    requires IsHex4(h)
    ensures v < 0x1_0000
  {
    ((HexValue(h[0]) * 16 + HexValue(h[1])) * 16 + HexValue(h[2])) * 16 + HexValue(h[3])
  }

  predicate IsHigh(v: nat) {
    0xd800 <= v <= 0xdbff
  }

  predicate IsLow(v: nat) {
    0xdc00 <= v <= 0xdfff
  }

  predicate IsShortEscape(e: byte) {
    e in [0x22, 0x5c, 0x2f, 0x62, 0x66, 0x6e, 0x72, 0x74]
  }

  predicate CharOk(c: Char) {
    match c
    case Plain(b) => b >= 0x20 && b != QUOTE && b != ESCAPE
    case Short(e) => IsShortEscape(e)
    case Hex(h) => IsHex4(h) && !IsHigh(Hex4(h)) && !IsLow(Hex4(h))
    case Pair(high, low) => IsHex4(high) && IsHex4(low) && IsHigh(Hex4(high)) && IsLow(Hex4(low))
  }

  function CharText(c: Char): (t: seq<byte>)
    ensures |t| > 0
  {
    match c
    case Plain(b) => [b]
    case Short(e) => [ESCAPE, e]
    case Hex(h) => [ESCAPE, LETTER_U] + h
    case Pair(high, low) => [ESCAPE, LETTER_U] + high + ([ESCAPE, LETTER_U] + low)
  }

  predicate CharsOk(cs: seq<Char>) {
    forall i :: 0 <= i < |cs| ==> CharOk(cs[i])
  }

  function CharsText(cs: seq<Char>): seq<byte> {
    if cs == [] then [] else CharText(cs[0]) + CharsText(cs[1..])
  }

  function Quoted(cs: seq<Char>): (t: seq<byte>)
    ensures |t| >= 2
  {
    [QUOTE] + (CharsText(cs) + [QUOTE])
  }

  // ---------- numbers ----------

  datatype Exponent = NoExponent | Exponent(letter: byte, sign: seq<byte>, digits: seq<byte>)

  /** The parts of a number; an absent fraction has no digits. */
  datatype Number = Number(minus: bool, whole: seq<byte>, fraction: seq<byte>, exponent: Exponent)

  predicate IsDigit(b: byte) {
    0x30 <= b <= 0x39
  }

  predicate AllDigits(s: seq<byte>) {
    forall i :: 0 <= i < |s| ==> IsDigit(s[i])
  }

  predicate NumberOk(n: Number) {
    && n.whole != [] && AllDigits(n.whole) && (n.whole[0] == 0x30 ==> |n.whole| == 1)
    && AllDigits(n.fraction) && ExponentOk(n.exponent)
  }

  predicate ExponentOk(e: Exponent) {
    e.Exponent? ==>
      && (e.letter == 0x65 || e.letter == 0x45)
      && (e.sign == [] || e.sign == [0x2b] || e.sign == [0x2d])
      && e.digits != [] && AllDigits(e.digits)
  }

  function MinusText(minus: bool): seq<byte> {
    if minus then [0x2d] else []
  }

  function FractionText(fraction: seq<byte>): seq<byte> {
    if fraction == [] then [] else [0x2e] + fraction
  }

  function ExponentText(e: Exponent): seq<byte> {
    match e
    case NoExponent => []
    case Exponent(letter, sign, digits) => [letter] + (sign + digits)
  }

  function NumberText(n: Number): seq<byte> {
    MinusText(n.minus) + (n.whole + (FractionText(n.fraction) + ExponentText(n.exponent)))
  }

  // ---------- values ----------

  datatype Word = True | False | Null

  function WordText(w: Word): (t: seq<byte>)
    ensures |t| >= 4
  {
    match w
    case True => [0x74, 0x72, 0x75, 0x65]
    case False => [0x66, 0x61, 0x6c, 0x73, 0x65]
    case Null => [0x6e, 0x75, 0x6c, 0x6c]
  }

  datatype Value =
    | Literal(word: Word)
    | Num(number: Number)
    | Str(chars: seq<Char>)
    | Composite(isObject: bool, pad: seq<byte>, members: Members)

  /** The members of an object or the elements of an array. */
  datatype Members = Nil | Cons(head: Member, tail: Members)

  datatype Member = Member(lead: seq<byte>, key: Key, value: Value, trail: seq<byte>)

  datatype Key = NoKey | Key(chars: seq<Char>, before: seq<byte>, after: seq<byte>)

  predicate IsSpaceByte(b: byte) {
    b == 0x20 || b == 0x09 || b == 0x0d || b == 0x0a
  }

  predicate IsSpace(s: seq<byte>) {
    forall i :: 0 <= i < |s| ==> IsSpaceByte(s[i])
  }

  function Open(isObject: bool): byte {
    if isObject then 0x7b else 0x5b
  }

  function Close(isObject: bool): byte {
    if isObject then 0x7d else 0x5d
  }

  function KeyText(k: Key): seq<byte> {
    match k
    case NoKey => []
    case Key(chars, before, after) => Quoted(chars) + (before + ([COLON] + after))
  }

  function Text(v: Value): (t: seq<byte>)
    decreases v
  {
    match v
    case Literal(word) => WordText(word)
    case Num(number) => NumberText(number)
    case Str(chars) => Quoted(chars)
    case Composite(isObject, pad, members) =>
      [Open(isObject)] + ((if members.Nil? then pad else MembersText(members)) + [Close(isObject)])
  }

  function MemberText(m: Member): seq<byte>
    decreases m
  {
    m.lead + (KeyText(m.key) + (Text(m.value) + m.trail))
  }

  function MembersText(ms: Members): seq<byte>
    requires ms.Cons?
    decreases ms
  {
    if ms.tail.Nil? then MemberText(ms.head)
    else MemberText(ms.head) + ([COMMA] + MembersText(ms.tail))
  }

  predicate KeyOk(k: Key, isObject: bool) {
    && k.Key? == isObject
    && (k.Key? ==> CharsOk(k.chars) && IsSpace(k.before) && IsSpace(k.after))
  }

  /** The tree is one the grammar derives. */
  predicate Ok(v: Value)
    decreases v
  {
    match v
    case Literal(_) => true
    case Num(number) => NumberOk(number)
    case Str(chars) => CharsOk(chars)
    case Composite(isObject, pad, members) =>
      IsSpace(pad) && (members.Cons? ==> pad == []) && MembersOk(members, isObject)
  }

  predicate MembersOk(ms: Members, isObject: bool)
    decreases ms
  {
    ms.Cons? ==>
      IsSpace(ms.head.lead) && KeyOk(ms.head.key, isObject) && Ok(ms.head.value) && IsSpace(ms.head.trail) &&
      MembersOk(ms.tail, isObject)
  }

  /** How many containers lie inside one another. */
  function Nesting(v: Value): nat
    decreases v
  {
    if v.Composite? then 1 + MembersNesting(v.members) else 0
  }

  function MembersNesting(ms: Members): nat
    decreases ms
  {
    if ms.Nil? then 0
    else if Nesting(ms.head.value) > MembersNesting(ms.tail) then Nesting(ms.head.value)
    else MembersNesting(ms.tail)
  }

  /** A JSON text with at most 128 containers inside one another. */
  ghost predicate IsJson(b: seq<byte>) {
    exists lead, v, trail ::
      IsSpace(lead) && IsSpace(trail) && Ok(v) && Nesting(v) <= MAX_DEPTH && b == lead + Text(v) + trail
  }
}
