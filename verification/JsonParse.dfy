/** The recursive-descent parser as a function, and its exactness: it succeeds on exactly the texts
    of the grammar with at most 128 nested containers, and gives back the tree they render. */
module JsonParse {
  import opened Bytes
  import opened JsonText
  import opened JsonScan

  function ScanWord(b: seq<byte>, p: nat): Scan<Word> {
    if Stands(b, p, WordText(True)) then At(True, p + 4)
    else if Stands(b, p, WordText(False)) then At(False, p + 5)
    else if Stands(b, p, WordText(Null)) then At(Null, p + 4)
    else Fail
  }

  /** The key of an object member, its colon included; array elements have none. */
  function ScanKey(b: seq<byte>, p: nat, isObject: bool): (r: Scan<Key>)
    requires p <= |b|
    ensures r.At? ==> p <= r.end <= |b|
  {
    if !isObject then At(NoKey, p)
    else if p >= |b| || b[p] != QUOTE then Fail
    else
      var s := ScanString(b, p + 1);
      if s.Fail? then Fail
      else
        var x := SkipSpace(b, s.end);
        if x >= |b| || b[x] != COLON then Fail
        else
          var y := SkipSpace(b, x + 1);
          At(Key(s.value, b[s.end..x], b[x + 1..y]), y)
  }

  /** A value whose first byte is at p, inside depth containers. */
  function ParseValue(b: seq<byte>, p: nat, depth: nat): (r: Scan<Value>)
    requires p <= |b|
    ensures r.At? ==> p < r.end <= |b|
    decreases |b| - p, 1
  {
    if p >= |b| then Fail
    else if b[p] == Open(true) || b[p] == Open(false) then
      if depth + 1 > MAX_DEPTH then Fail else ParseBody(b, p + 1, depth + 1, b[p] == Open(true))
    else ParseScalar(b, p)
  }

  function ParseScalar(b: seq<byte>, p: nat): (r: Scan<Value>)
    requires p < |b|
    ensures r.At? ==> p < r.end <= |b|
  {
    if b[p] == QUOTE then
      var s := ScanString(b, p + 1);
      if s.Fail? then Fail else At(Str(s.value), s.end)
    else if b[p] == 0x2d || IsDigit(b[p]) then
      var n := ScanNumber(b, p);
      if n.Fail? then Fail else (NumberSound(b, p); At(Num(n.value), n.end))
    else
      var w := ScanWord(b, p);
      if w.Fail? then Fail else At(Literal(w.value), w.end)
  }

  /** What follows an opening bracket, up to and including the closing one. */
  function ParseBody(b: seq<byte>, p: nat, depth: nat, isObject: bool): (r: Scan<Value>)
    requires p <= |b|
    ensures r.At? ==> p < r.end <= |b|
    decreases |b| - p, 4
  {
    var q := SkipSpace(b, p);
    if q < |b| && b[q] == Close(isObject) then At(Composite(isObject, b[p..q], Nil), q + 1)
    else
      var ms := ParseMembers(b, p, depth, isObject);
      if ms.Fail? then Fail else At(Composite(isObject, [], ms.value), ms.end)
  }

  /** One member: white space, key, value, white space. */
  function ParseMember(b: seq<byte>, p: nat, depth: nat, isObject: bool): (r: Scan<Member>)
    requires p <= |b|
    ensures r.At? ==> p < r.end <= |b|
    decreases |b| - p, 2
  {
    var q := SkipSpace(b, p);
    var k := ScanKey(b, q, isObject);
    if k.Fail? then Fail
    else
      var v := ParseValue(b, k.end, depth);
      if v.Fail? then Fail
      else
        var t := SkipSpace(b, v.end);
        At(Member(b[p..q], k.value, v.value, b[v.end..t]), t)
  }

  /** Members from p up to and including the closing bracket. */
  function ParseMembers(b: seq<byte>, p: nat, depth: nat, isObject: bool): (r: Scan<Members>)
    requires p <= |b|
    ensures r.At? ==> p < r.end <= |b|
    decreases |b| - p, 3
  {
    var m := ParseMember(b, p, depth, isObject);
    if m.Fail? || m.end >= |b| then Fail
    else if b[m.end] == Close(isObject) then At(Cons(m.value, Nil), m.end + 1)
    else if b[m.end] != COMMA then Fail
    else
      var s := SkipSpace(b, m.end + 1);
      if s >= |b| || b[s] == Close(isObject) then Fail
      else
        var rest := ParseMembers(b, m.end + 1, depth, isObject);
        if rest.Fail? then Fail else At(Cons(m.value, rest.value), rest.end)
  }

  /** The members from p on, once the first of them has been read. */
  lemma MembersUnfold(b: seq<byte>, p: nat, depth: nat, isObject: bool)
    requires p <= |b| && ParseMember(b, p, depth, isObject).At? && ParseMember(b, p, depth, isObject).end < |b|
    ensures var m := ParseMember(b, p, depth, isObject);
      b[m.end] == Close(isObject) ==> ParseMembers(b, p, depth, isObject) == At(Cons(m.value, Nil), m.end + 1)
    ensures var m := ParseMember(b, p, depth, isObject);
      var rest := ParseMembers(b, m.end + 1, depth, isObject);
      b[m.end] == COMMA && Continues(b, m.end + 1, isObject) ==>
        ParseMembers(b, p, depth, isObject) == if rest.Fail? then Fail else At(Cons(m.value, rest.value), rest.end)
    ensures var m := ParseMember(b, p, depth, isObject);
      b[m.end] != Close(isObject) && (b[m.end] != COMMA || !Continues(b, m.end + 1, isObject)) ==>
        ParseMembers(b, p, depth, isObject).Fail?
  {
    hide ParseMember, SkipSpace;
  }

  /** After a comma comes another member, not the closing bracket. */
  predicate Continues(b: seq<byte>, p: nat, isObject: bool)
    requires p <= |b|
  {
    SkipSpace(b, p) < |b| && b[SkipSpace(b, p)] != Close(isObject)
  }

  lemma MembersFail(b: seq<byte>, p: nat, depth: nat, isObject: bool)
    requires p <= |b|
    requires var m := ParseMember(b, p, depth, isObject); m.Fail? || m.end >= |b|
    ensures ParseMembers(b, p, depth, isObject).Fail?
  {
    hide ParseMember;
  }

  lemma MembersBegin(b: seq<byte>, p: nat, depth: nat, isObject: bool)
    requires p <= |b| && ParseMembers(b, p, depth, isObject).At?
    ensures var m := ParseMember(b, p, depth, isObject); m.At? && m.end < |b|
  {
    hide ParseMember;
  }

  /** The whole text: one value, white space around it, nothing else. */
  function ParseText(b: seq<byte>): Scan<Value> {
    var v := ParseValue(b, SkipSpace(b, 0), 0);
    if v.Fail? || SkipSpace(b, v.end) != |b| then Fail else v
  }

  // ---------- soundness ----------

  lemma WordSound(b: seq<byte>, p: nat)
    requires ScanWord(b, p).At?
    ensures var r := ScanWord(b, p); Stands(b, p, WordText(r.value)) && r.end == p + |WordText(r.value)|
  {
  }

  lemma OneByte(b: seq<byte>, p: nat, c: byte)
    requires p < |b| && b[p] == c
    ensures Stands(b, p, [c])
  {
    assert b[p..p + 1] == [c];
  }

  lemma QuotedSound(b: seq<byte>, p: nat)
    requires p < |b| && b[p] == QUOTE && ScanString(b, p + 1).At?
    ensures var s := ScanString(b, p + 1);
      CharsOk(s.value) && Stands(b, p, Quoted(s.value)) && s.end == p + |Quoted(s.value)|
  {
    hide CharsText, ScanString, CharsOk, Stands;
    var s := ScanString(b, p + 1);
    StringSound(b, p + 1);
    OneByte(b, p, QUOTE);
    StandsSplit(b, p, [QUOTE], CharsText(s.value) + [QUOTE]);
  }

  lemma KeySound(b: seq<byte>, p: nat, isObject: bool)
    requires p <= |b| && ScanKey(b, p, isObject).At?
    ensures var r := ScanKey(b, p, isObject);
      KeyOk(r.value, isObject) && Stands(b, p, KeyText(r.value)) && r.end == p + |KeyText(r.value)|
  {
    hide Quoted, ScanString, CharsOk, Stands, IsSpace, SkipSpace;
    var r := ScanKey(b, p, isObject);
    if isObject {
      QuotedSound(b, p);
      var e := p + |Quoted(r.value.chars)|;
      var x := e + |r.value.before|;
      SliceStands(b, e, x);
      OneByte(b, x, COLON);
      SliceStands(b, x + 1, r.end);
      StandsSplit(b, x, [COLON], r.value.after);
      StandsSplit(b, e, r.value.before, [COLON] + r.value.after);
      StandsSplit(b, p, Quoted(r.value.chars), r.value.before + ([COLON] + r.value.after));
    } else {
      SliceStands(b, p, p);
    }
  }

  lemma SliceStands(b: seq<byte>, p: nat, q: nat)
    requires p <= q <= |b|
    ensures Stands(b, p, b[p..q]) && |b[p..q]| == q - p
  {
  }

  lemma ScalarSound(b: seq<byte>, p: nat)
    requires p < |b| && ParseScalar(b, p).At?
    ensures var r := ParseScalar(b, p);
      Ok(r.value) && Nesting(r.value) == 0 && Stands(b, p, Text(r.value)) && r.end == p + |Text(r.value)|
  {
    hide Quoted, ScanString, ScanNumber, ScanWord, NumberOk, NumberText, CharsOk, Stands, WordText;
    if b[p] == QUOTE {
      QuotedSound(b, p);
    } else if b[p] == 0x2d || IsDigit(b[p]) {
      NumberSound(b, p);
    } else {
      WordSound(b, p);
    }
  }

  /** What a successful parse has read is the text of the tree it returns. */
  lemma {:induction false} ValueSound(b: seq<byte>, p: nat, depth: nat)
    requires p <= |b| && depth <= MAX_DEPTH && ParseValue(b, p, depth).At?
    ensures var r := ParseValue(b, p, depth);
      Ok(r.value) && depth + Nesting(r.value) <= MAX_DEPTH && Stands(b, p, Text(r.value)) && r.end == p + |Text(r.value)|
    decreases |b| - p, 1
  {
    hide Stands, ParseScalar, ParseBody, Ok, Nesting;
    if b[p] == Open(true) || b[p] == Open(false) {
      BodySound(b, p + 1, depth + 1, b[p] == Open(true));
      OneByte(b, p, b[p]);
      var v := ParseValue(b, p, depth).value;
      var rest := (if v.members.Nil? then v.pad else MembersText(v.members)) + [Close(v.isObject)];
      StandsSplit(b, p, [Open(v.isObject)], rest);
    } else {
      ScalarSound(b, p);
    }
  }

  lemma {:induction false} BodySound(b: seq<byte>, p: nat, depth: nat, isObject: bool)
    requires p <= |b| && 0 < depth <= MAX_DEPTH && ParseBody(b, p, depth, isObject).At?
    ensures var r := ParseBody(b, p, depth, isObject);
      && r.value.Composite? && r.value.isObject == isObject && Ok(r.value) && depth - 1 + Nesting(r.value) <= MAX_DEPTH
      && var rest := (if r.value.members.Nil? then r.value.pad else MembersText(r.value.members)) + [Close(isObject)];
         Stands(b, p, rest) && r.end == p + |rest|
    decreases |b| - p, 4
  {
    hide Stands, ParseMembers, SkipSpace;
    var q := SkipSpace(b, p);
    if q < |b| && b[q] == Close(isObject) {
      SliceStands(b, p, q);
      OneByte(b, q, Close(isObject));
      StandsSplit(b, p, b[p..q], [Close(isObject)]);
    } else {
      MembersSound(b, p, depth, isObject);
    }
  }

  lemma {:induction false} MemberSound(b: seq<byte>, p: nat, depth: nat, isObject: bool)
    requires p <= |b| && depth <= MAX_DEPTH && ParseMember(b, p, depth, isObject).At?
    ensures var r := ParseMember(b, p, depth, isObject);
      && IsSpace(r.value.lead) && KeyOk(r.value.key, isObject) && Ok(r.value.value) && IsSpace(r.value.trail)
      && depth + Nesting(r.value.value) <= MAX_DEPTH
      && Stands(b, p, MemberText(r.value)) && r.end == p + |MemberText(r.value)|
    decreases |b| - p, 2
  {
    hide Stands, ParseValue, SkipSpace, ScanKey, KeyOk, Ok, Nesting, KeyText, Text, IsSpace;
    var m := ParseMember(b, p, depth, isObject).value;
    var q := p + |m.lead|;
    SliceStands(b, p, SkipSpace(b, p));
    KeySound(b, q, isObject);
    var k := q + |KeyText(m.key)|;
    ValueSound(b, k, depth);
    var e := k + |Text(m.value)|;
    SliceStands(b, e, SkipSpace(b, e));
    StandsSplit(b, k, Text(m.value), m.trail);
    StandsSplit(b, q, KeyText(m.key), Text(m.value) + m.trail);
    StandsSplit(b, p, m.lead, KeyText(m.key) + (Text(m.value) + m.trail));
  }

  /** The text of members, one and the rest. */
  lemma ConsText(m: Member, tail: Members, close: byte)
    ensures tail.Nil? ==> MembersText(Cons(m, tail)) == MemberText(m)
    ensures tail.Cons? ==>
      && |MembersText(Cons(m, tail))| == |MemberText(m)| + 1 + |MembersText(tail)|
      && MembersText(Cons(m, tail)) + [close] == MemberText(m) + ([COMMA] + (MembersText(tail) + [close]))
  {
    hide MemberText;
    if tail.Cons? {
      assert MembersText(Cons(m, tail)) == MemberText(m) + ([COMMA] + MembersText(tail));
    }
  }

  lemma {:induction false} MembersSound(b: seq<byte>, p: nat, depth: nat, isObject: bool)
    requires p <= |b| && depth <= MAX_DEPTH && ParseMembers(b, p, depth, isObject).At?
    ensures var r := ParseMembers(b, p, depth, isObject);
      && r.value.Cons? && MembersOk(r.value, isObject) && depth + MembersNesting(r.value) <= MAX_DEPTH
      && Stands(b, p, MembersText(r.value) + [Close(isObject)]) && r.end == p + |MembersText(r.value)| + 1
    decreases |b| - p, 3
  {
    hide Stands, ParseMember, ParseMembers, SkipSpace, KeyOk, Ok, Nesting, MemberText, MembersText, IsSpace, Continues;
    MembersBegin(b, p, depth, isObject);
    MemberSound(b, p, depth, isObject);
    var m := ParseMember(b, p, depth, isObject);
    MembersUnfold(b, p, depth, isObject);
    if b[m.end] == Close(isObject) {
      ConsText(m.value, Nil, Close(isObject));
      OneByte(b, m.end, Close(isObject));
      StandsSplit(b, p, MemberText(m.value), [Close(isObject)]);
    } else {
      MembersSound(b, m.end + 1, depth, isObject);
      OneByte(b, m.end, COMMA);
      var rest := ParseMembers(b, m.end + 1, depth, isObject).value;
      ConsText(m.value, rest, Close(isObject));
      var tail := MembersText(rest) + [Close(isObject)];
      StandsSplit(b, m.end, [COMMA], tail);
      StandsSplit(b, p, MemberText(m.value), [COMMA] + tail);
    }
  }

  // ---------- completeness ----------

  /** A byte that may come after a value: white space, a comma, a closing bracket, or nothing. */
  predicate ValueEnds(b: seq<byte>, p: nat) {
    p < |b| ==> IsSpaceByte(b[p]) || b[p] == COMMA || b[p] == Close(true) || b[p] == Close(false)
  }

  /** No value starts like white space, a separator or a closing bracket. */
  predicate StartsValue(c: byte) {
    !IsSpaceByte(c) && c != COMMA && c != COLON && c != Close(true) && c != Close(false)
  }

  lemma FirstByte(v: Value)
    requires Ok(v)
    ensures |Text(v)| > 0 && StartsValue(Text(v)[0])
    ensures v.Composite? <==> Text(v)[0] == Open(true) || Text(v)[0] == Open(false)
    ensures v.Composite? ==> Text(v)[0] == Open(v.isObject)
    ensures v.Str? <==> Text(v)[0] == QUOTE
    ensures v.Num? <==> Text(v)[0] == 0x2d || IsDigit(Text(v)[0])
  {
    if v.Num? {
      var n := v.number;
      assert NumberText(n)[0] == if n.minus then 0x2d else n.whole[0];
      assert IsDigit(n.whole[0]);
    }
  }

  lemma FirstStands(b: seq<byte>, p: nat, t: seq<byte>)
    requires Stands(b, p, t) && |t| > 0
    ensures p < |b| && b[p] == t[0]
  {
    assert b[p..p + |t|][0] == b[p];
  }

  lemma WordComplete(b: seq<byte>, p: nat, w: Word)
    requires Stands(b, p, WordText(w))
    ensures ScanWord(b, p) == At(w, p + |WordText(w)|)
  {
    hide Stands;
    FirstStands(b, p, WordText(w));
    if Stands(b, p, WordText(True)) {
      FirstStands(b, p, WordText(True));
    } else if Stands(b, p, WordText(False)) {
      FirstStands(b, p, WordText(False));
    } else {
      FirstStands(b, p, WordText(Null));
    }
  }

  lemma QuotedComplete(b: seq<byte>, p: nat, cs: seq<Char>)
    requires CharsOk(cs) && Stands(b, p, Quoted(cs))
    ensures p < |b| && b[p] == QUOTE && ScanString(b, p + 1) == At(cs, p + |Quoted(cs)|)
  {
    hide CharsText, ScanString, CharsOk, Stands;
    FirstStands(b, p, Quoted(cs));
    StandsSplit(b, p, [QUOTE], CharsText(cs) + [QUOTE]);
    StringComplete(b, p + 1, cs);
  }

  lemma ScalarComplete(b: seq<byte>, p: nat, v: Value)
    requires Ok(v) && !v.Composite? && Stands(b, p, Text(v)) && ValueEnds(b, p + |Text(v)|)
    ensures p < |b| && b[p] == Text(v)[0] && ParseScalar(b, p) == At(v, p + |Text(v)|)
  {
    hide Quoted, ScanString, ScanNumber, ScanWord, NumberText, CharsOk, Stands, WordText;
    FirstByte(v);
    FirstStands(b, p, Text(v));
    match v {
      case Literal(word) => WordComplete(b, p, word);
      case Num(number) => NumberComplete(b, p, number);
      case Str(chars) => QuotedComplete(b, p, chars);
    }
  }

  /** White space, then a byte that is none. */
  lemma SpaceThen(b: seq<byte>, p: nat, s: seq<byte>, c: byte)
    requires Stands(b, p, s) && IsSpace(s) && p + |s| < |b| && b[p + |s|] == c && !IsSpaceByte(c)
    ensures SkipSpace(b, p) == p + |s| && b[p..p + |s|] == s
  {
    SpaceStands(b, p, s);
  }

  lemma KeyComplete(b: seq<byte>, p: nat, k: Key, isObject: bool)
    requires p + |KeyText(k)| < |b| && StartsValue(b[p + |KeyText(k)|])
    requires KeyOk(k, isObject) && Stands(b, p, KeyText(k))
    ensures ScanKey(b, p, isObject) == At(k, p + |KeyText(k)|)
  {
    hide Quoted, ScanString, CharsOk, Stands, IsSpace, SkipSpace;
    if isObject {
      var e := p + |Quoted(k.chars)|;
      var x := e + |k.before|;
      StandsSplit(b, p, Quoted(k.chars), k.before + ([COLON] + k.after));
      StandsSplit(b, e, k.before, [COLON] + k.after);
      StandsSplit(b, x, [COLON], k.after);
      QuotedComplete(b, p, k.chars);
      FirstStands(b, x, [COLON]);
      SpaceThen(b, e, k.before, COLON);
      SpaceThen(b, x + 1, k.after, b[p + |KeyText(k)|]);
    }
  }

  /** A text of the grammar is parsed to its tree. */
  lemma {:induction false} ValueComplete(b: seq<byte>, p: nat, depth: nat, v: Value)
    requires Ok(v) && depth + Nesting(v) <= MAX_DEPTH && Stands(b, p, Text(v)) && ValueEnds(b, p + |Text(v)|)
    ensures p < |b| && ParseValue(b, p, depth) == At(v, p + |Text(v)|)
    decreases v, 1
  {
    hide Stands, ParseScalar, ParseBody, MembersOk, MembersNesting, MembersText, NumberText, Quoted;
    FirstByte(v);
    FirstStands(b, p, Text(v));
    if v.Composite? {
      var rest := (if v.members.Nil? then v.pad else MembersText(v.members)) + [Close(v.isObject)];
      StandsSplit(b, p, [Open(v.isObject)], rest);
      BodyComplete(b, p + 1, depth + 1, v);
    } else {
      ScalarComplete(b, p, v);
    }
  }

  lemma {:induction false} BodyComplete(b: seq<byte>, p: nat, depth: nat, v: Value)
    requires v.Composite? && Ok(v) && depth + MembersNesting(v.members) <= MAX_DEPTH
    requires Stands(b, p, (if v.members.Nil? then v.pad else MembersText(v.members)) + [Close(v.isObject)])
    ensures p <= |b| && ParseBody(b, p, depth, v.isObject) ==
      At(v, p + |(if v.members.Nil? then v.pad else MembersText(v.members))| + 1)
    decreases v, 0
  {
    hide Stands, ParseMembers, SkipSpace, MembersOk, MembersNesting;
    if v.members.Nil? {
      StandsSplit(b, p, v.pad, [Close(v.isObject)]);
      FirstStands(b, p + |v.pad|, [Close(v.isObject)]);
      SpaceThen(b, p, v.pad, Close(v.isObject));
    } else {
      MembersComplete(b, p, depth, v.isObject, v.members);
    }
  }

  /** Where the parts of a member stand. */
  lemma MemberParts(b: seq<byte>, p: nat, m: Member)
    requires Stands(b, p, MemberText(m))
    ensures var q := p + |m.lead|; var k := q + |KeyText(m.key)|; var e := k + |Text(m.value)|;
      && Stands(b, p, m.lead) && Stands(b, q, KeyText(m.key)) && Stands(b, k, Text(m.value)) && Stands(b, e, m.trail)
      && e + |m.trail| == p + |MemberText(m)| <= |b|
  {
    hide KeyText, Text;
    StandsSplit(b, p, m.lead, KeyText(m.key) + (Text(m.value) + m.trail));
    StandsSplit(b, p + |m.lead|, KeyText(m.key), Text(m.value) + m.trail);
    StandsSplit(b, p + |m.lead| + |KeyText(m.key)|, Text(m.value), m.trail);
  }

  lemma {:induction false} MemberComplete(b: seq<byte>, p: nat, depth: nat, isObject: bool, m: Member)
    requires IsSpace(m.lead) && KeyOk(m.key, isObject) && Ok(m.value) && IsSpace(m.trail)
    requires depth + Nesting(m.value) <= MAX_DEPTH && Stands(b, p, MemberText(m))
    requires p + |MemberText(m)| < |b|
    requires b[p + |MemberText(m)|] == COMMA || b[p + |MemberText(m)|] == Close(isObject)
    ensures p <= |b| && ParseMember(b, p, depth, isObject) == At(m, p + |MemberText(m)|)
    ensures p < SkipSpace(b, p) + 1 <= |b| && b[SkipSpace(b, p)] != Close(isObject)
    decreases m, 2
  {
    hide Stands, ParseValue, SkipSpace, ScanKey, KeyOk, Ok, Nesting, Text, IsSpace, Quoted, KeyText, MemberText;
    var q := p + |m.lead|;
    var k := q + |KeyText(m.key)|;
    var e := k + |Text(m.value)|;
    MemberParts(b, p, m);
    FirstByte(m.value);
    FirstStands(b, k, Text(m.value));
    KeyComplete(b, q, m.key, isObject);
    KeyStarts(b, q, m.key, isObject, b[k]);
    SpaceThen(b, p, m.lead, b[q]);
    SpaceThen(b, e, m.trail, b[e + |m.trail|]);
    TrailEnds(b, e, m.trail);
    ValueComplete(b, k, depth, m.value);
  }

  /** The first byte of a member after its white space. */
  lemma KeyStarts(b: seq<byte>, q: nat, k: Key, isObject: bool, c: byte)
    requires KeyOk(k, isObject) && Stands(b, q, KeyText(k)) && q + |KeyText(k)| < |b| && b[q + |KeyText(k)|] == c && StartsValue(c)
    ensures q < |b| && StartsValue(b[q])
  {
    if isObject {
      FirstStands(b, q, KeyText(k));
    }
  }

  /** After a value come white space or the byte that ends the member. */
  lemma TrailEnds(b: seq<byte>, e: nat, trail: seq<byte>)
    requires Stands(b, e, trail) && IsSpace(trail) && e + |trail| < |b|
    requires b[e + |trail|] == COMMA || b[e + |trail|] == Close(true) || b[e + |trail|] == Close(false)
    ensures ValueEnds(b, e)
  {
    if trail != [] {
      FirstStands(b, e, trail);
      assert IsSpaceByte(trail[0]);
    }
  }

  lemma {:induction false} MembersComplete(b: seq<byte>, p: nat, depth: nat, isObject: bool, ms: Members)
    requires ms.Cons? && MembersOk(ms, isObject) && depth + MembersNesting(ms) <= MAX_DEPTH
    requires Stands(b, p, MembersText(ms) + [Close(isObject)])
    ensures p <= |b| && ParseMembers(b, p, depth, isObject) == At(ms, p + |MembersText(ms)| + 1)
    ensures p < SkipSpace(b, p) + 1 <= |b| && b[SkipSpace(b, p)] != Close(isObject)
    decreases ms, 3
  {
    hide Stands, ParseMember, ParseMembers, SkipSpace, KeyOk, Ok, Nesting, MemberText, MembersText, IsSpace;
    var m := ms.head;
    var e := p + |MemberText(m)|;
    ConsText(m, ms.tail, Close(isObject));
    if ms.tail.Nil? {
      StandsSplit(b, p, MemberText(m), [Close(isObject)]);
      FirstStands(b, e, [Close(isObject)]);
      MemberComplete(b, p, depth, isObject, m);
    } else {
      var tail := MembersText(ms.tail) + [Close(isObject)];
      StandsSplit(b, p, MemberText(m), [COMMA] + tail);
      StandsSplit(b, e, [COMMA], tail);
      FirstStands(b, e, [COMMA]);
      MemberComplete(b, p, depth, isObject, m);
      MembersComplete(b, e + 1, depth, isObject, ms.tail);
    }
    MembersUnfold(b, p, depth, isObject);
  }

  // ---------- exactness ----------

  lemma TextSound(b: seq<byte>)
    requires ParseText(b).At?
    ensures var v := ParseText(b).value;
      Ok(v) && Nesting(v) <= MAX_DEPTH && Stands(b, SkipSpace(b, 0), Text(v)) &&
      b == b[..SkipSpace(b, 0)] + Text(v) + b[SkipSpace(b, 0) + |Text(v)|..] &&
      IsSpace(b[..SkipSpace(b, 0)]) && IsSpace(b[SkipSpace(b, 0) + |Text(v)|..])
  {
    hide ParseValue, Ok, Nesting, Text, IsSpace, Stands;
    ValueSound(b, SkipSpace(b, 0), 0);
    var q := SkipSpace(b, 0);
    var e := ParseValue(b, q, 0).end;
    assert b[0..q] == b[..q] && b[e..|b|] == b[e..];
    Surrounded(b, q, Text(ParseValue(b, q, 0).value));
  }

  lemma Surrounded(b: seq<byte>, q: nat, t: seq<byte>)
    requires Stands(b, q, t)
    ensures q + |t| <= |b| && b == b[..q] + t + b[q + |t|..]
  {
  }

  /** A rendered text, with white space around it, parses to its tree. */
  lemma TextComplete(lead: seq<byte>, v: Value, trail: seq<byte>)
    requires IsSpace(lead) && IsSpace(trail) && Ok(v) && Nesting(v) <= MAX_DEPTH
    ensures ParseText(lead + Text(v) + trail) == At(v, |lead| + |Text(v)|)
  {
    hide ParseValue, Ok, Nesting, Text, SkipSpace;
    var b, t := lead + Text(v) + trail, Text(v);
    FirstByte(v);
    assert b[0..|lead|] == lead && b[|lead|] == t[0];
    SpaceExact(b, 0, |lead|);
    var e := |lead| + |t|;
    assert b[|lead|..e] == t && b[e..|b|] == trail;
    SpaceExact(b, e, |b|);
    assert e < |b| ==> b[e] == trail[0];
    ValueComplete(b, |lead|, 0, v);
  }

  /** The parser accepts exactly the JSON texts of the grammar, nested at most 128 deep. */
  lemma AcceptsExactly(b: seq<byte>)
    ensures ParseText(b).At? <==> IsJson(b)
  {
    hide ParseText, Ok, Text, Nesting, IsSpace;
    if ParseText(b).At? {
      TextSound(b);
    }
    if IsJson(b) {
      var lead, v, trail :| IsSpace(lead) && IsSpace(trail) && Ok(v) && Nesting(v) <= MAX_DEPTH && b == lead + Text(v) + trail;
      TextComplete(lead, v, trail);
    }
  }
}
