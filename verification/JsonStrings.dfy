/** Decoding string tokens and reading integer tokens. */
module JsonStrings {
  import opened Bytes
  import opened JsonText
  import opened JsonScan
  import opened JsonTokens
  import Utf8

  // ---------- what a string means ----------

  function ShortValue(e: byte): byte {
    if e == 0x62 then 8 else if e == 0x66 then 12 else if e == 0x6e then 10 else if e == 0x72 then 13 else if e == 0x74 then 9 else e
  }

  function PairValue(high: nat, low: nat): nat
    requires IsHigh(high) && IsLow(low)
  {
    0x1_0000 + (high - 0xd800) * 0x400 + (low - 0xdc00)
  }

  lemma PairScalar(high: nat, low: nat)
    requires IsHigh(high) && IsLow(low)
    ensures Utf8.IsScalar(PairValue(high, low))
  {
  }

  /** The bytes a character of a string stands for, in UTF-8. */
  function DecodeChar(c: Char): (d: seq<byte>)
    requires CharOk(c)
    ensures 1 <= |d| <= 4
  {
    match c
    case Plain(b) => [b]
    case Short(e) => [ShortValue(e)]
    case Hex(h) => Utf8.Encode(Hex4(h))
    case Pair(high, low) => PairScalar(Hex4(high), Hex4(low)); Utf8.Encode(PairValue(Hex4(high), Hex4(low)))
  }

  function Decoded(cs: seq<Char>): seq<byte>
    requires CharsOk(cs)
  {
    if cs == [] then [] else Decoded(cs[..|cs| - 1]) + DecodeChar(cs[|cs| - 1])
  }

  lemma DecodedNext(cs: seq<Char>, i: nat)
    requires CharsOk(cs) && i < |cs|
    ensures Decoded(cs[..i + 1]) == Decoded(cs[..i]) + DecodeChar(cs[i])
  {
    assert cs[..i + 1][..i] == cs[..i];
  }

  lemma {:induction false} DecodedJoin(a: seq<Char>, b: seq<Char>)
    requires CharsOk(a) && CharsOk(b)
    ensures CharsOk(a + b) && Decoded(a + b) == Decoded(a) + Decoded(b)
    decreases |b|
  {
    OkJoin(a, b);
    if b == [] {
      assert a + b == a;
    } else {
      hide DecodeChar, CharOk, CharsOk, Decoded;
      var n := |b| - 1;
      DecodedLast(b);
      DecodedJoin(a, b[..n]);
      JoinCut(a, b, n);
      DecodedLast(a + b);
      Associate(Decoded(a), Decoded(b[..n]), DecodeChar(b[n]));
    }
  }

  lemma DecodedLast(cs: seq<Char>)
    requires CharsOk(cs) && cs != []
    ensures var n := |cs| - 1;
      CharsOk(cs[..n]) && CharOk(cs[n]) && Decoded(cs) == Decoded(cs[..n]) + DecodeChar(cs[n])
  {
    hide DecodeChar, CharOk;
  }

  lemma OkJoin(a: seq<Char>, b: seq<Char>)
    requires CharsOk(a) && CharsOk(b)
    ensures CharsOk(a + b)
  {
  }

  lemma JoinCut(a: seq<Char>, b: seq<Char>, n: nat)
    requires n < |b|
    ensures (a + b)[..|a| + n] == a + b[..n] && (a + b)[|a| + n] == b[n]
  {
  }

  lemma {:induction false} DecodedGrows(cs: seq<Char>, i: nat, j: nat)
    requires CharsOk(cs) && i <= j <= |cs|
    ensures |Decoded(cs[..i])| + (j - i) <= |Decoded(cs[..j])|
    decreases j
  {
    hide DecodeChar, CharOk, Decoded;
    if i < j {
      DecodedGrows(cs, i, j - 1);
      DecodedNext(cs, j - 1);
    }
  }

  // ---------- one character ----------

  /** What decode_next delivers for a character: the byte itself, or the code point of an escape. */
  function CharValue(c: Char): nat
    requires CharOk(c)
  {
    match c
    case Plain(b) => b
    case Short(e) => ShortValue(e)
    case Hex(h) => Hex4(h)
    case Pair(high, low) => PairValue(Hex4(high), Hex4(low))
  }

  /** Reads one character of a well-formed string. */
  method DecodeNext(bytes: seq<byte>, position: nat, ghost c: Char) returns (next: nat, value: nat)
    requires CharOk(c) && Stands(bytes, position, CharText(c))
    ensures next == position + |CharText(c)| && value == CharValue(c)
  {
    hide Hex4;
    CharComplete(bytes, position, c);
    var b := bytes[position];
    if b != ESCAPE {
      return position + 1, b;
    }
    var e := bytes[position + 1];
    if e != LETTER_U {
      return position + 2, ShortValue(e);
    }
    var ok, first := ReadHex4(bytes, position + 2);
    if !IsHigh(first) {
      return position + 6, first;
    }
    var second: nat;
    ok, second := ReadHex4(bytes, position + 8);
    return position + 12, PairValue(first, second);
  }

  /** Encodes a code point into a buffer. */
  method WriteUtf8(buffer: array<byte>, at: nat, value: nat)
    requires Utf8.IsScalar(value) && at + |Utf8.Encode(value)| <= buffer.Length
    modifies buffer
    ensures buffer[..] == Put(old(buffer[..]), at, Utf8.Encode(value))
  {
    if value < 0x80 {
      buffer[at] := value;
    } else if value < 0x800 {
      buffer[at], buffer[at + 1] := 0xc0 + value / 0x40, 0x80 + value % 0x40;
    } else if value < 0x1_0000 {
      buffer[at], buffer[at + 1], buffer[at + 2] := 0xe0 + value / 0x1000, 0x80 + value / 0x40 % 0x40, 0x80 + value % 0x40;
    } else {
      buffer[at], buffer[at + 1] := 0xf0 + value / 0x4_0000, 0x80 + value / 0x1000 % 0x40;
      buffer[at + 2], buffer[at + 3] := 0x80 + value / 0x40 % 0x40, 0x80 + value % 0x40;
    }
  }

  // ---------- copying a string out ----------

  /** The string token cs is written at. */
  predicate TokenOf(bytes: seq<byte>, t: Token, cs: seq<Char>) {
    t.kind == StringToken && CharsOk(cs) && Stands(bytes, t.start, Quoted(cs)) && t.end == t.start + |Quoted(cs)|
  }

  /** Where the copy stands after i characters. */
  predicate At(bytes: seq<byte>, t: Token, cs: seq<Char>, i: nat, input: nat) {
    && i <= |cs| && CharsOk(cs)
    && Stands(bytes, input, CharsText(cs[i..]) + [QUOTE]) && input + |CharsText(cs[i..])| + 1 == t.end
  }

  lemma AtStart(bytes: seq<byte>, t: Token, cs: seq<Char>)
    requires TokenOf(bytes, t, cs)
    ensures At(bytes, t, cs, 0, t.start + 1)
  {
    StandsSplit(bytes, t.start, [QUOTE], CharsText(cs) + [QUOTE]);
    assert cs[0..] == cs;
  }

  lemma AtNext(bytes: seq<byte>, t: Token, cs: seq<Char>, i: nat, input: nat)
    requires At(bytes, t, cs, i, input)
    ensures i < |cs| <==> input + 1 < t.end
    ensures i < |cs| ==> Stands(bytes, input, CharText(cs[i])) && At(bytes, t, cs, i + 1, input + |CharText(cs[i])|)
    ensures i == |cs| ==> input < |bytes| && bytes[input] == QUOTE
  {
    if i < |cs| {
      var rest := cs[i..];
      assert rest[0] == cs[i] && rest[1..] == cs[i + 1..];
      assert CharsText(rest) + [QUOTE] == CharText(cs[i]) + (CharsText(cs[i + 1..]) + [QUOTE]);
      StandsSplit(bytes, input, CharText(cs[i]), CharsText(cs[i + 1..]) + [QUOTE]);
    } else {
      assert CharsText(cs[i..]) == [];
      assert bytes[input..input + 1][0] == bytes[input];
    }
  }

  /** A byte above 0x7f is a character by itself. */
  lemma HighPlain(bytes: seq<byte>, p: nat, c: Char)
    requires CharOk(c) && Stands(bytes, p, CharText(c))
    ensures p < |bytes| && (bytes[p] >= 0x80 ==> c == Plain(bytes[p])) && (c.Plain? ==> c.b == bytes[p])
  {
    assert bytes[p] == bytes[p..p + |CharText(c)|][0];
  }

  /** Taking one byte above 0x7f. */
  lemma TakeHigh(bytes: seq<byte>, t: Token, cs: seq<Char>, i: nat, input: nat)
    requires At(bytes, t, cs, i, input) && input < |bytes| && bytes[input] >= 0x80
    ensures i < |cs| && At(bytes, t, cs, i + 1, input + 1) && input + 1 < |bytes|
    ensures Decoded(cs[..i + 1]) == Decoded(cs[..i]) + [bytes[input]]
  {
    hide At, DecodeChar;
    AtNext(bytes, t, cs, i, input);
    AtInside(bytes, t, cs, i, input);
    HighPlain(bytes, input, cs[i]);
    DecodedNext(cs, i);
    PlainDecodes(bytes[input]);
    AtInside(bytes, t, cs, i + 1, input + 1);
  }

  lemma PlainDecodes(b: byte)
    requires b >= 0x80
    ensures CharOk(Plain(b)) && DecodeChar(Plain(b)) == [b]
  {
  }

  /** The continuation bytes after a lead byte, copied together with it. */
  method Continuations(bytes: seq<byte>, t: Token, before: nat, ghost cs: seq<Char>, ghost i: nat)
    returns (input: nat, ghost j: nat)
    requires At(bytes, t, cs, i, before) && before < |bytes| && bytes[before] >= 0x80
    ensures i < j <= |cs| && At(bytes, t, cs, j, input) && before < input < |bytes|
    ensures CharsOk(cs) && Decoded(cs[..j]) == Decoded(cs[..i]) + bytes[before..input]
  {
    hide At, Decoded, CharOk;
    TakeHigh(bytes, t, cs, i, before);
    AtInside(bytes, t, cs, i, before);
    input, j := before + 1, i + 1;
    assert bytes[before..input] == [bytes[before]];
    while input < t.end - 1 && Utf8.IsContinuation(bytes[input])
      invariant i < j <= |cs| && At(bytes, t, cs, j, input) && before < input < |bytes|
      invariant Decoded(cs[..j]) == Decoded(cs[..i]) + bytes[before..input]
      decreases |bytes| - input
    {
      TakeHigh(bytes, t, cs, j, input);
      assert bytes[before..input + 1] == bytes[before..input] + [bytes[input]];
      input, j := input + 1, j + 1;
    }
  }

  lemma AtInside(bytes: seq<byte>, t: Token, cs: seq<Char>, i: nat, input: nat)
    requires At(bytes, t, cs, i, input)
    ensures input < t.end <= |bytes| && i <= |cs| && CharsOk(cs)
  {
  }

  /** If the whole string fits, the buffer holds the first i characters. */
  ghost predicate Copied(buffer: array?<byte>, output: nat, cs: seq<Char>, i: nat, fits: bool)
    reads buffer
  {
    fits ==>
      && buffer != null && i <= |cs| && CharsOk(cs) && |Decoded(cs)| < buffer.Length
      && output <= buffer.Length && buffer[..output] == Decoded(cs[..i])
  }

  /** One round of the copy: a multi-byte character, or one ASCII byte or escape. */
  method CopyNext(bytes: seq<byte>, t: Token, buffer: array?<byte>, input: nat, output: nat,
                  ghost cs: seq<Char>, ghost i: nat, ghost fits: bool)
    returns (nextInput: nat, nextOutput: nat, ghost j: nat)
    requires i <= |cs| && CharsOk(cs) && At(bytes, t, cs, i, input) && input + 1 < t.end && output == |Decoded(cs[..i])|
    requires Copied(buffer, output, cs, i, fits)
    modifies buffer
    ensures i < j <= |cs| && At(bytes, t, cs, j, nextInput) && nextOutput == |Decoded(cs[..j])|
    ensures Copied(buffer, nextOutput, cs, j, fits)
  {
    hide At, DecodeChar, CharText, Decoded, CharOk;
    AtNext(bytes, t, cs, i, input);
    AtInside(bytes, t, cs, i, input);
    assert cs[..|cs|] == cs;
    if bytes[input] >= 0x80 {
      nextInput, j := Continuations(bytes, t, input, cs, i);
      DecodedGrows(cs, j, |cs|);
      nextOutput := CopyPart(buffer, output, bytes[input..nextInput], Decoded(cs[..i]), fits);
    } else {
      var value: nat;
      nextInput, value := DecodeNext(bytes, input, cs[i]);
      AsciiStart(bytes, input, cs[i]);
      j := i + 1;
      DecodedNext(cs, i);
      DecodedGrows(cs, j, |cs|);
      nextOutput := EncodePart(buffer, output, value, Decoded(cs[..i]), fits);
    }
  }

  /** Copies a string token out, decoded: the size it needs does not depend on the buffer, and it
      succeeds exactly when the buffer is large enough. */
  method CopyString(bytes: seq<byte>, t: Token, buffer: array?<byte>, ghost cs: seq<Char>)
    returns (ok: bool, required: nat)
    requires t.kind == StringToken ==> TokenOf(bytes, t, cs)
    modifies buffer
    ensures t.kind != StringToken ==> !ok
    ensures t.kind == StringToken ==>
      && required == |Decoded(cs)| + 1
      && (ok <==> buffer != null && buffer.Length >= required)
      && (ok ==> buffer[..required] == Decoded(cs) + [0])
  {
    if t.kind != StringToken {
      return false, 0;
    }
    hide At, TokenOf, DecodeChar, CharText, Decoded, CharOk;
    AtStart(bytes, t, cs);
    TokenChars(bytes, t, cs);
    var input: nat, output: nat := t.start + 1, 0;
    ghost var i: nat := 0;
    ghost var fits := buffer != null && |Decoded(cs)| < buffer.Length;
    while input + 1 < t.end
      invariant i <= |cs| && At(bytes, t, cs, i, input) && output == |Decoded(cs[..i])|
      invariant Copied(buffer, output, cs, i, fits)
      decreases |cs| - i
    {
      input, output, i := CopyNext(bytes, t, buffer, input, output, cs, i, fits);
    }
    AtNext(bytes, t, cs, i, input);
    assert cs[..|cs|] == cs;
    required := output + 1;
    ok := buffer != null && buffer.Length >= required;
    if ok {
      buffer[output] := 0;
      assert buffer[..output] == Decoded(cs);
    }
  }

  lemma TokenChars(bytes: seq<byte>, t: Token, cs: seq<Char>)
    requires TokenOf(bytes, t, cs)
    ensures CharsOk(cs) && Decoded(cs[..0]) == []
  {
  }

  /** A character that starts below 0x80 decodes to the encoding of its value. */
  lemma AsciiStart(bytes: seq<byte>, p: nat, c: Char)
    requires CharOk(c) && Stands(bytes, p, CharText(c)) && p < |bytes| && bytes[p] < 0x80
    ensures Utf8.IsScalar(CharValue(c)) && DecodeChar(c) == Utf8.Encode(CharValue(c))
  {
    hide Hex4, Utf8.Encode;
    HighPlain(bytes, p, c);
    match c {
      case Plain(b) => OneByteEncoding(b);
      case Short(e) => OneByteEncoding(ShortValue(e));
      case Hex(_) =>
      case Pair(high, low) => PairScalar(Hex4(high), Hex4(low));
    }
  }

  lemma OneByteEncoding(b: byte)
    requires b < 0x80
    ensures Utf8.Encode(b) == [b]
  {
  }

  /** Appends bytes if there is room for them and a terminator; counts them either way. */
  method CopyPart(buffer: array?<byte>, output: nat, part: seq<byte>, ghost done: seq<byte>, ghost fits: bool)
    returns (next: nat)
    requires output == |done| && (fits ==> buffer != null && output + |part| < buffer.Length && buffer[..output] == done)
    modifies buffer
    ensures next == output + |part|
    ensures fits ==> next <= buffer.Length && buffer[..next] == done + part
  {
    next := output + |part|;
    if buffer != null && output + |part| < buffer.Length {
      ghost var before := buffer[..];
      Copy(buffer, output, part);
      assert fits ==> buffer[..next] == before[..output] + part;
    }
  }

  method EncodePart(buffer: array?<byte>, output: nat, value: nat, ghost done: seq<byte>, ghost fits: bool)
    returns (next: nat)
    requires Utf8.IsScalar(value) && output == |done|
    requires fits ==> buffer != null && output + |Utf8.Encode(value)| < buffer.Length && buffer[..output] == done
    modifies buffer
    ensures next == output + |Utf8.Encode(value)|
    ensures fits ==> next <= buffer.Length && buffer[..next] == done + Utf8.Encode(value)
  {
    hide Utf8.Encode;
    var count := Utf8Size(value);
    next := output + count;
    if buffer != null && output + count < buffer.Length {
      ghost var before := buffer[..];
      WriteUtf8(buffer, output, value);
      assert fits ==> buffer[..next] == before[..output] + Utf8.Encode(value);
    }
  }

  method Utf8Size(value: nat) returns (size: nat)
    requires Utf8.IsScalar(value)
    ensures size == |Utf8.Encode(value)|
  {
    size := if value < 0x80 then 1 else if value < 0x800 then 2 else if value < 0x1_0000 then 3 else 4;
  }

  // ---------- decoding keeps UTF-8 ----------

  lemma {:induction false} EncodeAllJoin(a: seq<nat>, b: seq<nat>)
    requires Utf8.AllScalars(a) && Utf8.AllScalars(b)
    ensures Utf8.AllScalars(a + b) && Utf8.EncodeAll(a + b) == Utf8.EncodeAll(a) + Utf8.EncodeAll(b)
    decreases |a|
  {
    hide Utf8.Encode;
    if a == [] {
      assert a + b == b;
    } else {
      assert (a + b)[1..] == a[1..] + b;
      EncodeAllJoin(a[1..], b);
    }
  }

  lemma ValidJoin(a: seq<byte>, b: seq<byte>)
    requires Utf8.Valid(a) && Utf8.Valid(b)
    ensures Utf8.Valid(a + b)
  {
    var x := Utf8.ValidIsUtf8(a);
    var y := Utf8.ValidIsUtf8(b);
    EncodeAllJoin(x, y);
    Utf8.Utf8IsValid(x + y);
  }

  lemma ValidEncoding(v: nat)
    requires Utf8.IsScalar(v)
    ensures Utf8.Valid(Utf8.Encode(v))
  {
    hide Utf8.Encode;
    var one := [v];
    assert one[1..] == [] && Utf8.EncodeAll(one[1..]) == [];
    assert Utf8.EncodeAll(one) == Utf8.Encode(v);
    Utf8.Utf8IsValid(one);
  }

  /** A valid text may be cut before any ASCII byte. */
  lemma {:induction false} ValidCut(s: seq<byte>, p: nat)
    requires Utf8.Valid(s) && p < |s| && s[p] < 0x80
    ensures Utf8.Valid(s[..p]) && Utf8.Valid(s[p..])
    decreases |s|
  {
    if p == 0 {
      assert s[0..] == s;
    } else {
      hide Utf8.Valid, Utf8.StartsCharacter;
      var n := FirstWhole(s, p);
      assert s[n..][p - n] == s[p];
      ValidCut(s[n..], p - n);
      FirstValid(s, n);
      assert s[n..][..p - n] == s[n..p] && s[n..][p - n..] == s[p..];
      ValidJoin(s[..n], s[n..p]);
      assert s[..p] == s[..n] + s[n..p];
    }
  }

  /** An ASCII byte behind the first one lies behind the first character. */
  lemma FirstWhole(s: seq<byte>, p: nat) returns (n: nat)
    requires Utf8.Valid(s) && 0 < p < |s| && s[p] < 0x80
    ensures 1 <= n <= p && Utf8.StartsCharacter(s, n) && Utf8.Valid(s[n..])
  {
    hide Utf8.Accumulate, Utf8.LeadMinimum, Utf8.IsScalar;
    n := Utf8.LeadLength(s[0]);
    if n > p {
      ContinuationHigh(s, n, p);
    }
  }

  lemma ContinuationHigh(s: seq<byte>, n: nat, i: nat)
    requires Utf8.StartsCharacter(s, n) && 1 <= i < n
    ensures s[i] >= 0x80
  {
    hide Utf8.Accumulate, Utf8.LeadMinimum, Utf8.IsScalar;
    assert Utf8.IsContinuation(s[i]);
  }

  lemma FirstValid(s: seq<byte>, n: nat)
    requires Utf8.StartsCharacter(s, n)
    ensures Utf8.Valid(s[..n])
  {
    Utf8.CharacterEncodes(s, n);
    ValidEncoding(Utf8.Accumulate(s, n));
  }

  lemma {:induction false} AsciiDrop(s: seq<byte>, k: nat)
    requires Utf8.Valid(s) && k <= |s| && forall i :: 0 <= i < k ==> s[i] < 0x80
    ensures Utf8.Valid(s[k..])
    decreases k
  {
    if k == 0 {
      assert s[0..] == s;
    } else {
      AsciiDrop(s[1..], k - 1);
      assert s[1..][k - 1..] == s[k..];
    }
  }

  lemma AsciiText(c: Char)
    requires CharOk(c) && !(c.Plain? && c.b >= 0x80)
    ensures forall i :: 0 <= i < |CharText(c)| ==> CharText(c)[i] < 0x80
    ensures Utf8.Valid(DecodeChar(c))
  {
    var t := CharText(c);
    match c {
      case Plain(b) => ValidEncoding(b); OneByteEncoding(b);
      case Short(e) => ValidEncoding(ShortValue(e)); OneByteEncoding(ShortValue(e));
      case Hex(h) => ValidEncoding(Hex4(h)); HexAscii(h);
      case Pair(high, low) =>
        PairScalar(Hex4(high), Hex4(low));
        ValidEncoding(PairValue(Hex4(high), Hex4(low)));
        HexAscii(high);
        HexAscii(low);
    }
  }

  lemma HexAscii(h: seq<byte>)
    requires IsHex4(h)
    ensures forall i :: 0 <= i < |h| ==> h[i] < 0x80
  {
  }

  lemma HighOne(cs: seq<Char>)
    requires CharsOk(cs) && CharsText(cs) != [] && CharsText(cs)[0] >= 0x80
    ensures cs != [] && cs[0] == Plain(CharsText(cs)[0]) && CharsText(cs[1..]) == CharsText(cs)[1..]
  {
    assert CharsText(cs) == CharText(cs[0]) + CharsText(cs[1..]);
    assert CharsText(cs)[0] == CharText(cs[0])[0];
  }

  /** The first k bytes of a string's text, all above 0x7f, are k characters of it. */
  lemma {:induction false} HighRun(cs: seq<Char>, k: nat)
    requires CharsOk(cs) && k <= |CharsText(cs)| && forall i :: 0 <= i < k ==> CharsText(cs)[i] >= 0x80
    ensures k <= |cs| && CharsText(cs[k..]) == CharsText(cs)[k..]
    ensures forall i :: 0 <= i < k ==> cs[i] == Plain(CharsText(cs)[i])
    decreases k
  {
    hide CharsText, CharOk;
    if k == 0 {
      assert cs[0..] == cs;
    } else {
      HighOne(cs);
      var tail, s := cs[1..], CharsText(cs);
      HighRun(tail, k - 1);
      assert tail[k - 1..] == cs[k..] && s[1..][k - 1..] == s[k..];
      forall i | 0 <= i < k ensures cs[i] == Plain(s[i]) {
        if i > 0 {
          assert cs[i] == tail[i - 1] && s[i] == s[1..][i - 1];
        }
      }
    }
  }

  lemma {:induction false} PlainRun(cs: seq<Char>, s: seq<byte>)
    requires CharsOk(cs) && |cs| == |s| && forall i :: 0 <= i < |s| ==> cs[i] == Plain(s[i])
    ensures Decoded(cs) == s
    decreases |cs|
  {
    if cs != [] {
      var n := |cs| - 1;
      PlainRun(cs[..n], s[..n]);
      assert s == s[..n] + [s[n]];
    }
  }

  /** A character that starts above 0x7f, as the k characters of the string its bytes are. */
  lemma FirstHigh(cs: seq<Char>) returns (k: nat)
    requires CharsOk(cs) && cs != [] && Utf8.Valid(CharsText(cs)) && cs[0].Plain? && cs[0].b >= 0x80
    ensures 1 <= k <= |cs| && Utf8.Valid(Decoded(cs[..k])) && Utf8.Valid(CharsText(cs[k..]))
  {
    hide DecodeChar, Decoded, Utf8.LeadLength, Utf8.StartsCharacter;
    var s := CharsText(cs);
    k := Utf8.LeadLength(s[0]);
    HighLead(s, k);
    HighRun(cs, k);
    PlainRun(cs[..k], s[..k]);
    FirstValid(s, k);
  }

  lemma FirstLow(cs: seq<Char>)
    requires CharsOk(cs) && cs != [] && Utf8.Valid(CharsText(cs)) && !(cs[0].Plain? && cs[0].b >= 0x80)
    ensures Utf8.Valid(Decoded(cs[..1])) && Utf8.Valid(CharsText(cs[1..]))
  {
    hide DecodeChar, Decoded, Utf8.Valid;
    var s := CharsText(cs);
    AsciiText(cs[0]);
    AsciiDrop(s, |CharText(cs[0])|);
    assert s[|CharText(cs[0])|..] == CharsText(cs[1..]);
    DecodedOne(cs);
  }

  /** A valid string text decodes to valid UTF-8. */
  lemma {:induction false} DecodedValid(cs: seq<Char>)
    requires CharsOk(cs) && Utf8.Valid(CharsText(cs))
    ensures Utf8.Valid(Decoded(cs))
    decreases |cs|
  {
    hide CharsText, Decoded, Utf8.Valid;
    if cs == [] {
      DecodedEmpty();
    } else {
      var k: nat := 1;
      if cs[0].Plain? && cs[0].b >= 0x80 {
        k := FirstHigh(cs);
      } else {
        FirstLow(cs);
      }
      DecodedValid(cs[k..]);
      ValidJoin(Decoded(cs[..k]), Decoded(cs[k..]));
      DecodedJoin(cs[..k], cs[k..]);
      assert cs == cs[..k] + cs[k..];
    }
  }

  lemma DecodedEmpty()
    ensures Decoded([]) == [] && Utf8.Valid(Decoded([]))
  {
  }

  /** A multi-byte character consists of bytes above 0x7f. */
  lemma HighLead(s: seq<byte>, k: nat)
    requires Utf8.Valid(s) && s != [] && s[0] >= 0x80 && k == Utf8.LeadLength(s[0])
    ensures 1 <= k <= |s| && Utf8.StartsCharacter(s, k) && Utf8.Valid(s[k..]) && forall i :: 0 <= i < k ==> s[i] >= 0x80
  {
  }

  lemma DecodedOne(cs: seq<Char>)
    requires CharsOk(cs) && cs != []
    ensures Decoded(cs[..1]) == DecodeChar(cs[0])
  {
    DecodedNext(cs, 0);
    assert Decoded(cs[..0]) == [];
  }

  /** What stands between two quotes in valid text is valid. */
  lemma ValidBetween(s: seq<byte>, p: nat, q: nat)
    requires Utf8.Valid(s) && p < q < |s| && s[p] == QUOTE && s[q] == QUOTE
    ensures Utf8.Valid(s[p + 1..q])
  {
    hide Utf8.Valid;
    ValidCut(s, q);
    ValidCut(s[..q], p);
    var t := s[..q][p..];
    assert t[0] == QUOTE;
    AsciiDrop(t, 1);
    assert t[1..] == s[p + 1..q];
  }

  /** Every string of a valid UTF-8 document decodes to valid UTF-8. */
  lemma TokenDecodesValid(bytes: seq<byte>, t: Token, cs: seq<Char>)
    requires Utf8.Valid(bytes) && TokenOf(bytes, t, cs)
    ensures Utf8.Valid(Decoded(cs))
  {
    var p, text := t.start, CharsText(cs);
    StandsSplit(bytes, p, [QUOTE], text + [QUOTE]);
    StandsSplit(bytes, p + 1, text, [QUOTE]);
    var q := p + 1 + |text|;
    assert bytes[p] == bytes[p..p + 1][0] && bytes[q] == bytes[q..q + 1][0];
    ValidBetween(bytes, p, q);
    DecodedValid(cs);
  }

  // ---------- comparing ----------

  /** Whether a string token decodes to the given text. */
  method StringEquals(bytes: seq<byte>, t: Token, value: seq<byte>, ghost cs: seq<Char>) returns (equal: bool)
    requires t.kind == StringToken ==> TokenOf(bytes, t, cs)
    ensures equal == (t.kind == StringToken && CharsOk(cs) && Decoded(cs) == value)
  {
    hide Decoded, TokenOf;
    if t.kind != StringToken {
      return false;
    }
    TokenChars(bytes, t, cs);
    var ok, required := CopyString(bytes, t, null, cs);
    if required != |value| + 1 {
      return false;
    }
    var decoded := new byte[required](_ => 0);
    ok, required := CopyString(bytes, t, decoded, cs);
    equal := decoded[..] == value + [0];
    assert decoded[..] == decoded[..required];
    Unterminated(Decoded(cs), value);
  }

  lemma Unterminated(a: seq<byte>, b: seq<byte>)
    ensures a + [0] == b + [0] <==> a == b
  {
    if a + [0] == b + [0] {
      assert (a + [0])[..|a|] == a && (b + [0])[..|b|] == b;
    }
  }

  /** Whether two string tokens decode alike: the comparison behind duplicate keys. */
  method StringsEqual(bytes: seq<byte>, first: Token, second: Token, ghost a: seq<Char>, ghost b: seq<Char>)
    returns (equal: bool)
    requires TokenOf(bytes, first, a) && TokenOf(bytes, second, b)
    ensures CharsOk(a) && CharsOk(b) && equal == (Decoded(a) == Decoded(b))
  {
    hide Decoded, CharOk;
    var ok, firstSize := CopyString(bytes, first, null, a);
    var secondSize: nat;
    ok, secondSize := CopyString(bytes, second, null, b);
    if firstSize != secondSize {
      return false;
    }
    var x, y := new byte[firstSize](_ => 0), new byte[secondSize](_ => 0);
    ok, firstSize := CopyString(bytes, first, x, a);
    ok, secondSize := CopyString(bytes, second, y, b);
    equal := x[..] == y[..];
    assert x[..] == x[..firstSize] && y[..] == y[..secondSize];
    Unterminated(Decoded(a), Decoded(b));
  }

  // ---------- integers ----------

  const INT64_MAX: nat := 0x7fff_ffff_ffff_ffff

  /** The number a string of digits spells in base ten. */
  function Decimal(s: seq<byte>): nat
    requires AllDigits(s)
  {
    if s == [] then 0 else Decimal(s[..|s| - 1]) * 10 + (s[|s| - 1] - 0x30)
  }

  /** The integer a number token stands for: no fraction, no exponent, inside 64 bits. */
  function IntegerOf(n: Number): Option<int>
    requires NumberOk(n)
  {
    if n.fraction != [] || n.exponent.Exponent? then None
    else
      var d: int := Decimal(n.whole);
      if n.minus then (if d <= INT64_MAX + 1 then Some(-d) else None)
      else if d <= INT64_MAX then Some(d) else None
  }

  predicate NumberTokenOf(bytes: seq<byte>, t: Token, n: Number) {
    t.kind == NumberToken && NumberOk(n) && Stands(bytes, t.start, NumberText(n)) && t.end == t.start + |NumberText(n)|
  }

  lemma DecimalNext(s: seq<byte>, i: nat)
    requires AllDigits(s) && i < |s|
    ensures Decimal(s[..i + 1]) == Decimal(s[..i]) * 10 + (s[i] - 0x30)
  {
    assert s[..i + 1][..i] == s[..i];
  }

  lemma {:induction false} DecimalGrows(s: seq<byte>, i: nat)
    requires AllDigits(s) && i <= |s|
    ensures Decimal(s[..i]) <= Decimal(s)
    decreases |s| - i
  {
    if i < |s| {
      DecimalGrows(s, i + 1);
      DecimalNext(s, i);
    } else {
      assert s[..i] == s;
    }
  }

  /** The byte that follows the whole part of a number that is no integer. */
  lemma NotInteger(bytes: seq<byte>, t: Token, n: Number)
    requires NumberTokenOf(bytes, t, n)
    ensures var q := t.start + |MinusText(n.minus)|; var w := q + |n.whole|;
      && t.start < q + 1 && q < w <= t.end <= |bytes| && bytes[q..w] == n.whole && n.minus == (bytes[t.start] == 0x2d)
      && (n.fraction == [] && n.exponent.NoExponent? <==> w == t.end)
      && (w < t.end ==> !IsDigit(bytes[w]))
  {
    hide NumberText, FractionText, ExponentText, MinusText, ExponentOk;
    NumberParts(bytes, t.start, n);
    MinusComplete(bytes, t.start, n);
    var w := t.start + |MinusText(n.minus)| + |n.whole|;
    BehindWhole(bytes, w, n.fraction, n.exponent);
  }

  /** What stands behind the whole part of a number, if anything, starts with no digit. */
  lemma BehindWhole(bytes: seq<byte>, w: nat, fraction: seq<byte>, e: Exponent)
    requires ExponentOk(e) && Stands(bytes, w, FractionText(fraction)) && Stands(bytes, w + |FractionText(fraction)|, ExponentText(e))
    ensures (fraction == [] && e.NoExponent?) <==> |FractionText(fraction)| + |ExponentText(e)| == 0
    ensures |FractionText(fraction)| + |ExponentText(e)| > 0 ==> w < |bytes| && !IsDigit(bytes[w])
  {
    hide AllDigits;
    if fraction != [] {
      assert bytes[w] == bytes[w..w + |FractionText(fraction)|][0];
    } else if e.Exponent? {
      assert bytes[w] == bytes[w..w + |ExponentText(e)|][0];
    }
  }

  /** Reads an integer token digit by digit, with the overflow checks of 64-bit arithmetic. */
  method ReadInteger(bytes: seq<byte>, t: Token, ghost n: Number) returns (value: Option<int>)
    requires t.kind == NumberToken ==> NumberTokenOf(bytes, t, n)
    ensures value == if t.kind == NumberToken && NumberOk(n) then IntegerOf(n) else None
  {
    hide NumberTokenOf, Decimal;
    if t.kind != NumberToken {
      return None;
    }
    IsNumber(bytes, t, n);
    NotInteger(bytes, t, n);
    var position := t.start;
    var negative := bytes[position] == 0x2d;
    if negative {
      position := position + 1;
    }
    var digits := ReadDigits(bytes, position, t.end, n.whole);
    if digits.None? {
      return None;
    }
    var signed: int := digits.value;
    if negative {
      return if signed <= INT64_MAX + 1 then Some(-signed) else None;
    }
    value := if signed <= INT64_MAX then Some(signed) else None;
  }

  /** The digits up to the end of an integer; anything else there, or a value past 64 bits, fails. */
  method ReadDigits(bytes: seq<byte>, start: nat, end: nat, ghost whole: seq<byte>) returns (value: Option<nat>)
    requires AllDigits(whole) && start + |whole| <= end <= |bytes| && bytes[start..start + |whole|] == whole
    requires start + |whole| < end ==> !IsDigit(bytes[start + |whole|])
    ensures value == if start + |whole| == end && Decimal(whole) <= U64_MAX then Some(Decimal(whole)) else None
  {
    hide Decimal;
    var position, result := start, 0;
    DecimalNothing(whole);
    while position < end
      invariant start <= position <= start + |whole|
      invariant result == Decimal(whole[..position - start]) <= U64_MAX
    {
      var b := bytes[position];
      if !IsDigit(b) {
        return None;
      }
      assert position < start + |whole| && b == bytes[start..start + |whole|][position - start];
      DecimalNext(whole, position - start);
      DecimalGrows(whole, position - start + 1);
      if result > (U64_MAX - (b - 0x30)) / 10 {
        TooLarge(result, b - 0x30);
        return None;
      }
      result := result * 10 + (b - 0x30);
      position := position + 1;
    }
    assert whole[..|whole|] == whole;
    value := Some(result);
  }

  lemma IsNumber(bytes: seq<byte>, t: Token, n: Number)
    requires NumberTokenOf(bytes, t, n)
    ensures NumberOk(n) && t.end <= |bytes|
  {
  }

  lemma DecimalNothing(s: seq<byte>)
    requires AllDigits(s)
    ensures Decimal(s[..0]) == 0
  {
  }

  lemma TooLarge(result: nat, digit: nat)
    requires digit <= 9 && result > (U64_MAX - digit) / 10
    ensures result * 10 + digit > U64_MAX
  {
  }
}
