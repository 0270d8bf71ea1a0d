/** Scanning white space, strings and numbers: each scanner reads exactly the longest text of its
    kind, and fails exactly when there is none. */
module JsonScan {
  import opened Bytes
  import opened JsonText

  datatype Scan<T> = Fail | At(value: T, end: nat)

  // ---------- white space ----------

  function SkipSpace(b: seq<byte>, p: nat): (q: nat)
    requires p <= |b|
    ensures p <= q <= |b| && IsSpace(b[p..q]) && (q < |b| ==> !IsSpaceByte(b[q]))
    decreases |b| - p
  {
    if p < |b| && IsSpaceByte(b[p]) then
      var q := SkipSpace(b, p + 1);
      assert b[p..q] == [b[p]] + b[p + 1..q];
      q
    else p
  }

  /** White space ends where the next byte is not white space. */
  lemma {:induction false} SpaceExact(b: seq<byte>, p: nat, q: nat)
    requires p <= q <= |b| && IsSpace(b[p..q]) && (q < |b| ==> !IsSpaceByte(b[q]))
    ensures SkipSpace(b, p) == q
    decreases q - p
  {
    if p < q {
      assert b[p..q][0] == b[p];
      assert b[p + 1..q] == b[p..q][1..];
      SpaceExact(b, p + 1, q);
    }
  }

  lemma SpaceStands(b: seq<byte>, p: nat, s: seq<byte>)
    requires Stands(b, p, s) && IsSpace(s) && (p + |s| < |b| ==> !IsSpaceByte(b[p + |s|]))
    ensures SkipSpace(b, p) == p + |s|
  {
    SpaceExact(b, p, p + |s|);
  }

  // ---------- strings ----------

  /** One character of a string at p, which is not the closing quote. */
  function ScanChar(b: seq<byte>, p: nat): Scan<Char>
    requires p < |b|
  {
    if b[p] < 0x20 || b[p] == QUOTE then Fail
    else if b[p] != ESCAPE then At(Plain(b[p]), p + 1)
    else if p + 1 >= |b| then Fail
    else if b[p + 1] == LETTER_U then
      if p + 6 > |b| || !IsHex4(b[p + 2..p + 6]) then Fail
      else if IsHigh(Hex4(b[p + 2..p + 6])) then ScanLow(b, p)
      else if IsLow(Hex4(b[p + 2..p + 6])) then Fail
      else At(Hex(b[p + 2..p + 6]), p + 6)
    else if IsShortEscape(b[p + 1]) then At(Short(b[p + 1]), p + 2)
    else Fail
  }

  /** The second half of a surrogate pair whose first half stands at p. */
  function ScanLow(b: seq<byte>, p: nat): Scan<Char>
    requires p + 6 <= |b|
  {
    if p + 12 > |b| || b[p + 6] != ESCAPE || b[p + 7] != LETTER_U || !IsHex4(b[p + 8..p + 12]) ||
       !IsLow(Hex4(b[p + 8..p + 12])) then Fail
    else At(Pair(b[p + 2..p + 6], b[p + 8..p + 12]), p + 12)
  }

  /** An escape with four more bytes. */
  lemma EscapeStands(b: seq<byte>, p: nat)
    requires p + 6 <= |b| && b[p] == ESCAPE && b[p + 1] == LETTER_U
    ensures Stands(b, p, [ESCAPE, LETTER_U] + b[p + 2..p + 6])
  {
    assert b[p..p + 2] == [ESCAPE, LETTER_U];
    StandsSplit(b, p, [ESCAPE, LETTER_U], b[p + 2..p + 6]);
  }

  lemma LowSound(b: seq<byte>, p: nat)
    requires p + 6 <= |b| && b[p] == ESCAPE && b[p + 1] == LETTER_U && IsHex4(b[p + 2..p + 6]) && IsHigh(Hex4(b[p + 2..p + 6]))
    requires ScanLow(b, p).At?
    ensures var r := ScanLow(b, p);
      CharOk(r.value) && Stands(b, p, CharText(r.value)) && r.end == p + |CharText(r.value)|
  {
    hide Hex4, IsHex4, Stands;
    EscapeStands(b, p);
    EscapeStands(b, p + 6);
    StandsSplit(b, p, [ESCAPE, LETTER_U] + b[p + 2..p + 6], [ESCAPE, LETTER_U] + b[p + 8..p + 12]);
  }

  lemma CharSound(b: seq<byte>, p: nat)
    requires p < |b| && ScanChar(b, p).At?
    ensures var r := ScanChar(b, p);
      CharOk(r.value) && Stands(b, p, CharText(r.value)) && r.end == p + |CharText(r.value)|
  {
    hide Hex4, IsHex4, ScanLow;
    var r := ScanChar(b, p);
    if b[p] == ESCAPE && b[p + 1] == LETTER_U {
      EscapeStands(b, p);
      if IsHigh(Hex4(b[p + 2..p + 6])) {
        LowSound(b, p);
      }
    }
  }

  lemma CharComplete(b: seq<byte>, p: nat, c: Char)
    requires CharOk(c) && Stands(b, p, CharText(c))
    ensures p < |b| && b[p] != QUOTE && ScanChar(b, p) == At(c, p + |CharText(c)|)
  {
    hide Hex4;
    var t := CharText(c);
    assert b[p] == b[p..p + |t|][0] == t[0];
    match c {
      case Plain(_) =>
      case Short(_) => assert b[p + 1] == b[p..p + |t|][1] == t[1];
      case Hex(h) => HexStands(b, p, h);
      case Pair(high, low) => PairStands(b, p, high, low);
    }
  }

  lemma HexStands(b: seq<byte>, p: nat, h: seq<byte>)
    requires |h| == 4 && Stands(b, p, [ESCAPE, LETTER_U] + h)
    ensures p + 6 <= |b| && b[p] == ESCAPE && b[p + 1] == LETTER_U && b[p + 2..p + 6] == h
  {
    StandsSplit(b, p, [ESCAPE, LETTER_U], h);
    assert b[p] == b[p..p + 2][0] && b[p + 1] == b[p..p + 2][1];
  }

  lemma PairStands(b: seq<byte>, p: nat, high: seq<byte>, low: seq<byte>)
    requires |high| == |low| == 4 && Stands(b, p, [ESCAPE, LETTER_U] + high + ([ESCAPE, LETTER_U] + low))
    ensures p + 12 <= |b| && b[p] == ESCAPE && b[p + 1] == LETTER_U && b[p + 2..p + 6] == high
    ensures b[p + 6] == ESCAPE && b[p + 7] == LETTER_U && b[p + 8..p + 12] == low
  {
    StandsSplit(b, p, [ESCAPE, LETTER_U] + high, [ESCAPE, LETTER_U] + low);
    HexStands(b, p, high);
    HexStands(b, p + 6, low);
  }

  /** The characters from p to the closing quote. */
  function ScanString(b: seq<byte>, p: nat): (r: Scan<seq<Char>>)
    ensures r.At? ==> p < r.end <= |b|
    decreases |b| - p
  {
    if p >= |b| then Fail
    else if b[p] == QUOTE then At([], p + 1)
    else if ScanChar(b, p).Fail? then Fail
    else
      var c := ScanChar(b, p);
      if c.end > |b| || c.end <= p then Fail
      else
        var r := ScanString(b, c.end);
        if r.Fail? then Fail else At([c.value] + r.value, r.end)
  }

  lemma {:induction false} StringSound(b: seq<byte>, p: nat)
    requires ScanString(b, p).At?
    ensures var r := ScanString(b, p);
      CharsOk(r.value) && Stands(b, p, CharsText(r.value) + [QUOTE]) && r.end == p + |CharsText(r.value)| + 1
    decreases |b| - p
  {
    var r := ScanString(b, p);
    if b[p] == QUOTE {
      assert b[p..p + 1] == [QUOTE];
    } else {
      var c := ScanChar(b, p);
      CharSound(b, p);
      StringSound(b, c.end);
      assert r.value[0] == c.value && r.value[1..] == ScanString(b, c.end).value;
      StandsSplit(b, p, CharText(c.value), CharsText(r.value[1..]) + [QUOTE]);
      assert CharsText(r.value) + [QUOTE] == CharText(c.value) + (CharsText(r.value[1..]) + [QUOTE]);
    }
  }

  lemma EmptyString(b: seq<byte>, p: nat)
    requires Stands(b, p, CharsText([]) + [QUOTE])
    ensures ScanString(b, p) == At([], p + 1)
  {
    assert b[p] == b[p..p + 1][0];
  }

  lemma {:induction false} StringComplete(b: seq<byte>, p: nat, cs: seq<Char>)
    requires CharsOk(cs) && Stands(b, p, CharsText(cs) + [QUOTE])
    ensures ScanString(b, p) == At(cs, p + |CharsText(cs)| + 1)
    decreases |cs|
  {
    hide ScanChar, CharText, Stands;
    if cs == [] {
      EmptyString(b, p);
    } else {
      assert CharsText(cs) + [QUOTE] == CharText(cs[0]) + (CharsText(cs[1..]) + [QUOTE]);
      StandsSplit(b, p, CharText(cs[0]), CharsText(cs[1..]) + [QUOTE]);
      CharComplete(b, p, cs[0]);
      StringComplete(b, p + |CharText(cs[0])|, cs[1..]);
      assert cs == [cs[0]] + cs[1..];
    }
  }

  // ---------- numbers ----------

  function DigitsEnd(b: seq<byte>, p: nat): (q: nat)
    requires p <= |b|
    ensures p <= q <= |b| && AllDigits(b[p..q]) && (q < |b| ==> !IsDigit(b[q]))
    decreases |b| - p
  {
    if p < |b| && IsDigit(b[p]) then
      var q := DigitsEnd(b, p + 1);
      assert b[p..q] == [b[p]] + b[p + 1..q];
      q
    else p
  }

  lemma {:induction false} DigitsExact(b: seq<byte>, p: nat, q: nat)
    requires p <= q <= |b| && AllDigits(b[p..q]) && (q < |b| ==> !IsDigit(b[q]))
    ensures DigitsEnd(b, p) == q
    decreases q - p
  {
    if p < q {
      assert b[p..q][0] == b[p];
      assert b[p + 1..q] == b[p..q][1..];
      DigitsExact(b, p + 1, q);
    }
  }

  function ScanWhole(b: seq<byte>, p: nat): Scan<seq<byte>> {
    if p >= |b| || !IsDigit(b[p]) then Fail
    else if b[p] == 0x30 then
      if p + 1 < |b| && IsDigit(b[p + 1]) then Fail else At([0x30], p + 1)
    else At(b[p..DigitsEnd(b, p)], DigitsEnd(b, p))
  }

  function ScanFraction(b: seq<byte>, p: nat): Scan<seq<byte>> {
    if p < |b| && b[p] == 0x2e then
      if p + 1 >= |b| || !IsDigit(b[p + 1]) then Fail
      else At(b[p + 1..DigitsEnd(b, p + 1)], DigitsEnd(b, p + 1))
    else At([], p)
  }

  predicate IsSign(c: byte) {
    c == 0x2b || c == 0x2d
  }

  function ScanExponent(b: seq<byte>, p: nat): Scan<Exponent> {
    if p < |b| && (b[p] == 0x65 || b[p] == 0x45) then
      var q := if p + 1 < |b| && IsSign(b[p + 1]) then p + 2 else p + 1;
      if q >= |b| || !IsDigit(b[q]) then Fail
      else At(Exponent(b[p], b[p + 1..q], b[q..DigitsEnd(b, q)]), DigitsEnd(b, q))
    else At(NoExponent, p)
  }

  function ScanNumber(b: seq<byte>, p: nat): Scan<Number> {
    var minus := p < |b| && b[p] == 0x2d;
    var whole := ScanWhole(b, if minus then p + 1 else p);
    if whole.Fail? then Fail
    else
      var fraction := ScanFraction(b, whole.end);
      if fraction.Fail? then Fail
      else
        var exponent := ScanExponent(b, fraction.end);
        if exponent.Fail? then Fail
        else At(Number(minus, whole.value, fraction.value, exponent.value), exponent.end)
  }

  lemma WholeSound(b: seq<byte>, p: nat)
    requires ScanWhole(b, p).At?
    ensures var r := ScanWhole(b, p);
      r.value != [] && AllDigits(r.value) && (r.value[0] == 0x30 ==> |r.value| == 1) && Stands(b, p, r.value) && r.end == p + |r.value|
  {
    if b[p] == 0x30 {
      assert b[p..p + 1] == [0x30];
    }
  }

  lemma FractionSound(b: seq<byte>, p: nat)
    requires p <= |b| && ScanFraction(b, p).At?
    ensures var r := ScanFraction(b, p);
      AllDigits(r.value) && Stands(b, p, FractionText(r.value)) && r.end == p + |FractionText(r.value)|
  {
    var r := ScanFraction(b, p);
    if p < |b| && b[p] == 0x2e {
      assert b[p..r.end] == [0x2e] + b[p + 1..r.end];
    }
  }

  lemma ExponentSound(b: seq<byte>, p: nat)
    requires p <= |b| && ScanExponent(b, p).At?
    ensures var r := ScanExponent(b, p);
      ExponentOk(r.value) && Stands(b, p, ExponentText(r.value)) && r.end == p + |ExponentText(r.value)| <= |b|
  {
    hide DigitsEnd, AllDigits, Stands, ExponentText;
    if p < |b| && (b[p] == 0x65 || b[p] == 0x45) {
      var q := if p + 1 < |b| && IsSign(b[p + 1]) then p + 2 else p + 1;
      DigitFirst(b, q);
      OneOrNone(b, p + 1, q);
      ExponentStands(b, p, q, DigitsEnd(b, q));
    } else {
      NothingStands(b, p);
    }
  }

  lemma DigitFirst(b: seq<byte>, q: nat)
    requires q < |b| && IsDigit(b[q])
    ensures q < DigitsEnd(b, q)
  {
  }

  lemma NothingStands(b: seq<byte>, p: nat)
    requires p <= |b|
    ensures Stands(b, p, ExponentText(NoExponent)) && ExponentText(NoExponent) == []
  {
  }

  lemma OneOrNone(b: seq<byte>, p: nat, q: nat)
    requires p <= q <= p + 1 && q <= |b|
    ensures b[p..q] == if p == q then [] else [b[p]]
  {
  }

  lemma ExponentStands(b: seq<byte>, p: nat, q: nat, end: nat)
    requires p < q <= end <= |b|
    ensures var text := ExponentText(Exponent(b[p], b[p + 1..q], b[q..end])); Stands(b, p, text) && end == p + |text|
  {
    assert b[p..end] == [b[p]] + (b[p + 1..q] + b[q..end]);
  }

  lemma MinusStands(b: seq<byte>, p: nat)
    requires p <= |b|
    ensures Stands(b, p, MinusText(p < |b| && b[p] == 0x2d))
  {
    if p < |b| && b[p] == 0x2d {
      assert b[p..p + 1] == [0x2d];
    }
  }

  lemma NumberSound(b: seq<byte>, p: nat)
    requires p <= |b| && ScanNumber(b, p).At?
    ensures var r := ScanNumber(b, p);
      NumberOk(r.value) && Stands(b, p, NumberText(r.value)) && r.end == p + |NumberText(r.value)| && p < r.end <= |b|
  {
    hide ScanWhole, ScanFraction, ScanExponent, FractionText, ExponentText, Stands;
    var n := ScanNumber(b, p).value;
    var q := p + |MinusText(n.minus)|;
    MinusStands(b, p);
    WholeSound(b, q);
    var w := q + |n.whole|;
    FractionSound(b, w);
    var f := w + |FractionText(n.fraction)|;
    ExponentSound(b, f);
    StandsSplit(b, w, FractionText(n.fraction), ExponentText(n.exponent));
    StandsSplit(b, q, n.whole, FractionText(n.fraction) + ExponentText(n.exponent));
    StandsSplit(b, p, MinusText(n.minus), n.whole + (FractionText(n.fraction) + ExponentText(n.exponent)));
  }

  /** No byte follows that could still belong to a number. */
  predicate NumberEnds(b: seq<byte>, p: nat) {
    p < |b| ==> !IsDigit(b[p]) && b[p] != 0x2e && b[p] != 0x65 && b[p] != 0x45
  }

  /** The byte at p, if any, is not a digit. */
  predicate DigitsStop(b: seq<byte>, p: nat) {
    p < |b| ==> !IsDigit(b[p])
  }

  lemma WholeComplete(b: seq<byte>, p: nat, whole: seq<byte>)
    requires whole != [] && AllDigits(whole) && (whole[0] == 0x30 ==> |whole| == 1)
    requires Stands(b, p, whole) && DigitsStop(b, p + |whole|)
    ensures ScanWhole(b, p) == At(whole, p + |whole|)
  {
    assert b[p] == b[p..p + |whole|][0];
    DigitsExact(b, p, p + |whole|);
    if whole[0] == 0x30 {
      assert whole == [0x30];
    }
  }

  lemma FractionComplete(b: seq<byte>, p: nat, fraction: seq<byte>)
    requires p <= |b| && AllDigits(fraction) && Stands(b, p, FractionText(fraction))
    requires DigitsStop(b, p + |FractionText(fraction)|)
    requires fraction == [] ==> p == |b| || b[p] != 0x2e
    ensures ScanFraction(b, p) == At(fraction, p + |FractionText(fraction)|)
  {
    if fraction != [] {
      StandsSplit(b, p, [0x2e], fraction);
      assert b[p] == b[p..p + 1][0];
      assert b[p + 1] == b[p + 1..p + 1 + |fraction|][0];
      DigitsExact(b, p + 1, p + 1 + |fraction|);
    }
  }

  /** Where the parts of an exponent stand. */
  lemma ExponentParts(b: seq<byte>, p: nat, e: Exponent)
    requires e.Exponent? && ExponentOk(e) && Stands(b, p, ExponentText(e))
    ensures var q := p + 1 + |e.sign|;
      && p < |b| && b[p] == e.letter && Stands(b, p + 1, e.sign) && Stands(b, q, e.digits)
      && q + |e.digits| == p + |ExponentText(e)| <= |b| && IsDigit(b[q])
      && (e.sign == [] ==> IsDigit(b[p + 1])) && (e.sign != [] ==> IsSign(b[p + 1]))
  {
    var q := p + 1 + |e.sign|;
    StandsSplit(b, p, [e.letter], e.sign + e.digits);
    StandsSplit(b, p + 1, e.sign, e.digits);
    assert b[p] == b[p..p + 1][0];
    assert b[q] == b[q..q + |e.digits|][0];
    if e.sign != [] {
      assert b[p + 1] == b[p + 1..p + 2][0];
    }
  }

  lemma ExponentComplete(b: seq<byte>, p: nat, e: Exponent)
    requires p <= |b| && ExponentOk(e) && Stands(b, p, ExponentText(e))
    requires NumberEnds(b, p + |ExponentText(e)|)
    ensures ScanExponent(b, p) == At(e, p + |ExponentText(e)|)
  {
    hide Stands, ScanExponent, ExponentOk, NumberEnds, ExponentText;
    if e.Exponent? {
      ExponentParts(b, p, e);
      ExponentFound(b, p, e, p + |ExponentText(e)|);
    } else {
      ExponentAbsent(b, p, e);
    }
  }

  lemma ExponentAbsent(b: seq<byte>, p: nat, e: Exponent)
    requires p <= |b| && e.NoExponent? && NumberEnds(b, p + |ExponentText(e)|)
    ensures ScanExponent(b, p) == At(e, p + |ExponentText(e)|)
  {
    hide DigitsEnd;
  }

  lemma ExponentFound(b: seq<byte>, p: nat, e: Exponent, end: nat)
    requires e.Exponent? && ExponentOk(e) && NumberEnds(b, end)
    requires var q := p + 1 + |e.sign|;
      && p < |b| && b[p] == e.letter && Stands(b, p + 1, e.sign) && Stands(b, q, e.digits)
      && q + |e.digits| == end <= |b| && IsDigit(b[q])
      && (e.sign == [] ==> IsDigit(b[p + 1])) && (e.sign != [] ==> IsSign(b[p + 1]))
    ensures ScanExponent(b, p) == At(e, end)
  {
    var q := p + 1 + |e.sign|;
    ExponentDigits(b, q, e.digits);
    hide AllDigits, DigitsEnd;
  }

  lemma ExponentDigits(b: seq<byte>, q: nat, digits: seq<byte>)
    requires AllDigits(digits) && digits != [] && Stands(b, q, digits) && NumberEnds(b, q + |digits|)
    ensures q < |b| && q + |digits| <= |b| && DigitsEnd(b, q) == q + |digits| && b[q..q + |digits|] == digits
  {
    DigitsExact(b, q, q + |digits|);
  }

  /** What follows one part of a number begins the next part or ends the number. */
  lemma PartsFollow(b: seq<byte>, p: nat, n: Number)
    requires NumberOk(n) && Stands(b, p, FractionText(n.fraction)) && Stands(b, p + |FractionText(n.fraction)|, ExponentText(n.exponent))
    requires NumberEnds(b, p + |FractionText(n.fraction)| + |ExponentText(n.exponent)|)
    ensures DigitsStop(b, p) && DigitsStop(b, p + |FractionText(n.fraction)|)
    ensures n.fraction == [] ==> p == |b| || b[p] != 0x2e
  {
    var f := p + |FractionText(n.fraction)|;
    if n.exponent.Exponent? {
      assert b[f] == b[f..f + |ExponentText(n.exponent)|][0] == n.exponent.letter;
    }
    if n.fraction != [] {
      assert b[p] == b[p..f][0] == 0x2e;
    }
  }

  lemma MinusComplete(b: seq<byte>, p: nat, n: Number)
    requires n.whole != [] && AllDigits(n.whole)
    requires Stands(b, p, MinusText(n.minus)) && Stands(b, p + |MinusText(n.minus)|, n.whole)
    ensures p < |b| && n.minus == (b[p] == 0x2d) && |MinusText(n.minus)| == if n.minus then 1 else 0
  {
    var q := p + |MinusText(n.minus)|;
    assert b[q] == b[q..q + |n.whole|][0];
    if n.minus {
      assert b[p] == b[p..p + 1][0];
    }
  }

  /** Where the parts of a number stand. */
  lemma NumberParts(b: seq<byte>, p: nat, n: Number)
    requires Stands(b, p, NumberText(n))
    ensures var q := p + |MinusText(n.minus)|; var w := q + |n.whole|; var f := w + |FractionText(n.fraction)|;
      && Stands(b, p, MinusText(n.minus)) && Stands(b, q, n.whole) && Stands(b, w, FractionText(n.fraction))
      && Stands(b, f, ExponentText(n.exponent)) && f + |ExponentText(n.exponent)| == p + |NumberText(n)| <= |b|
  {
    hide FractionText, ExponentText, MinusText;
    var rest := FractionText(n.fraction) + ExponentText(n.exponent);
    var q := p + |MinusText(n.minus)|;
    StandsSplit(b, p, MinusText(n.minus), n.whole + rest);
    StandsSplit(b, q, n.whole, rest);
    StandsSplit(b, q + |n.whole|, FractionText(n.fraction), ExponentText(n.exponent));
  }

  lemma NumberAssembled(b: seq<byte>, p: nat, n: Number, w: nat, f: nat, e: nat)
    requires p < |b| && n.minus == (b[p] == 0x2d)
    requires ScanWhole(b, if n.minus then p + 1 else p) == At(n.whole, w)
    requires ScanFraction(b, w) == At(n.fraction, f) && ScanExponent(b, f) == At(n.exponent, e)
    ensures ScanNumber(b, p) == At(n, e)
  {
    hide ScanWhole, ScanFraction, ScanExponent;
  }

  lemma NumberComplete(b: seq<byte>, p: nat, n: Number)
    requires NumberOk(n) && Stands(b, p, NumberText(n)) && NumberEnds(b, p + |NumberText(n)|)
    ensures ScanNumber(b, p) == At(n, p + |NumberText(n)|)
  {
    hide ScanWhole, ScanFraction, ScanExponent, ScanNumber, FractionText, ExponentText, MinusText, NumberText,
      Stands, NumberEnds, AllDigits;
    NumberParts(b, p, n);
    var q := p + |MinusText(n.minus)|;
    var w := q + |n.whole|;
    var f := w + |FractionText(n.fraction)|;
    StandsInside(b, w, FractionText(n.fraction));
    StandsInside(b, f, ExponentText(n.exponent));
    PartsFollow(b, w, n);
    MinusComplete(b, p, n);
    WholeComplete(b, q, n.whole);
    FractionComplete(b, w, n.fraction);
    ExponentComplete(b, f, n.exponent);
    NumberAssembled(b, p, n, w, f, f + |ExponentText(n.exponent)|);
  }

  lemma StandsInside(b: seq<byte>, p: nat, t: seq<byte>)
    requires Stands(b, p, t)
    ensures p + |t| <= |b|
  {
  }
}
