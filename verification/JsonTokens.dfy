/** The flat token array of a JSON document, and the parser that fills it in place. */
module JsonTokens {
  import opened Bytes
  import opened JsonText
  import opened JsonScan
  import JsonParse

  datatype Kind = ObjectToken | ArrayToken | StringToken | NumberToken | TrueToken | FalseToken | NullToken

  /** A token: what it is, its span, the index of its container (-1 for the root), how many direct
      children it has. */
  datatype Token = Token(kind: Kind, start: nat, end: nat, parent: int, children: nat)

  function KindOf(v: Value): Kind {
    match v
    case Literal(word) => (match word case True => TrueToken case False => FalseToken case Null => NullToken)
    case Num(_) => NumberToken
    case Str(_) => StringToken
    case Composite(isObject, _, _) => if isObject then ObjectToken else ArrayToken
  }

  // ---------- the tokens of a tree ----------

  function KeyTokens(k: Key, at: nat, parent: int): (ts: seq<Token>)
    ensures |ts| == if k.Key? then 1 else 0
  {
    match k
    case NoKey => []
    case Key(chars, _, _) => [Token(StringToken, at, at + |Quoted(chars)|, parent, 0)]
  }

  /** The tokens of a value whose text starts at `at` and whose first token has the given index. */
  function ValueTokens(v: Value, at: nat, parent: int, index: nat): (ts: seq<Token>)
    ensures |ts| > 0
    decreases v
  {
    match v
    case Composite(isObject, pad, members) =>
      [Token(KindOf(v), at, at + |Text(v)|, parent, Children(members))] + MembersTokens(members, at + 1, index, index + 1)
    case _ => [Token(KindOf(v), at, at + |Text(v)|, parent, 0)]
  }

  function MemberTokens(m: Member, at: nat, parent: int, index: nat): (ts: seq<Token>)
    decreases m
  {
    var key := KeyTokens(m.key, at + |m.lead|, parent);
    key + ValueTokens(m.value, at + |m.lead| + |KeyText(m.key)|, parent, index + |key|)
  }

  function MembersTokens(ms: Members, at: nat, parent: int, index: nat): (ts: seq<Token>)
    decreases ms
  {
    if ms.Nil? then []
    else
      var first := MemberTokens(ms.head, at, parent, index);
      first + MembersTokens(ms.tail, at + |MemberText(ms.head)| + 1, parent, index + |first|)
  }

  function Width(m: Member): nat {
    if m.key.Key? then 2 else 1
  }

  /** How many direct children the members contribute. */
  function Children(ms: Members): nat
    decreases ms
  {
    if ms.Nil? then 0 else Width(ms.head) + Children(ms.tail)
  }

  // ---------- the parser ----------

  /** One more child for a token. */
  function Bump(tokens: seq<Token>, parent: int, n: nat): (r: seq<Token>)
    requires -1 <= parent < |tokens|
    ensures |r| == |tokens|
  {
    if parent < 0 then tokens else tokens[parent := tokens[parent].(children := tokens[parent].children + n)]
  }

  class Parser {
    const bytes: seq<byte>
    var position: nat
    var depth: nat
    var tokens: seq<Token>

    constructor (bytes: seq<byte>)
      ensures this.bytes == bytes && position == 0 && depth == 0 && tokens == []
    {
      this.bytes := bytes;
      position, depth, tokens := 0, 0, [];
    }

    ghost predicate Valid()
      reads this
    {
      position <= |bytes|
    }

    /** Appends a token, counting it with its parent. */
    method AddToken(kind: Kind, start: nat, parent: int) returns (index: nat)
      requires -1 <= parent < |tokens|
      modifies this`tokens
      ensures index == |old(tokens)|
      ensures tokens == Bump(old(tokens), parent, 1) + [Token(kind, start, start, parent, 0)]
    {
      index := |tokens|;
      tokens := tokens + [Token(kind, start, start, parent, 0)];
      if parent >= 0 {
        tokens := tokens[parent := tokens[parent].(children := tokens[parent].children + 1)];
      }
    }

    method SetEnd(index: nat)
      requires index < |tokens|
      modifies this`tokens
      ensures tokens == old(tokens)[index := old(tokens)[index].(end := position)]
    {
      tokens := tokens[index := tokens[index].(end := position)];
    }

    /** Adds a token that is already complete. */
    method AddScalar(kind: Kind, start: nat, parent: int)
      requires -1 <= parent < |tokens|
      modifies this`tokens
      ensures tokens == Bump(old(tokens), parent, 1) + [Token(kind, start, position, parent, 0)]
    {
      var index := AddToken(kind, start, parent);
      SetEnd(index);
    }

    method SkipWhiteSpace()
      requires Valid()
      modifies this`position
      ensures Valid() && position == SkipSpace(bytes, old(position))
    {
      ghost var start := position;
      while position < |bytes| && IsSpaceByte(bytes[position])
        invariant start <= position <= |bytes| && SkipSpace(bytes, start) == SkipSpace(bytes, position)
      {
        position := position + 1;
      }
    }

    /** One character of a string that is not its closing quote. */
    method SkipChar() returns (ok: bool)
      requires position < |bytes| && bytes[position] != QUOTE
      modifies this`position
      ensures ok == ScanChar(bytes, old(position)).At?
      ensures ok ==> position == ScanChar(bytes, old(position)).end <= |bytes|
    {
      hide IsLow, IsHigh, IsHex4, Hex4, IsShortEscape, ScanLow;
      ghost var p := position;
      var b := bytes[position];
      position := position + 1;
      if b < 0x20 {
        return false;
      }
      if b != ESCAPE {
        return true;
      }
      if position >= |bytes| {
        return false;
      }
      var escape := bytes[position];
      position := position + 1;
      if escape != LETTER_U {
        return IsShortEscape(escape);
      }
      var first, value := ReadHex4(bytes, position);
      if !first {
        return false;
      }
      position := position + 4;
      if IsHigh(value) {
        ok := SkipLow(p);
        return;
      }
      ok := !IsLow(value);
    }

    /** The second half of a surrogate pair. */
    method SkipLow(ghost p: nat) returns (ok: bool)
      requires position == p + 6 <= |bytes|
      modifies this`position
      ensures ok == ScanLow(bytes, p).At?
      ensures ok ==> position == ScanLow(bytes, p).end <= |bytes|
    {
      hide IsLow, IsHex4, Hex4;
      if |bytes| - position < 6 || bytes[position] != ESCAPE || bytes[position + 1] != LETTER_U {
        return false;
      }
      var second, low := ReadHex4(bytes, position + 2);
      if !second || !IsLow(low) {
        return false;
      }
      position := position + 6;
      ok := true;
    }

    /** A string: the loop over its characters. */
    method ParseString(parent: int) returns (ok: bool)
      requires position < |bytes| && bytes[position] == QUOTE && -1 <= parent < |tokens|
      modifies this`position, this`tokens
      ensures ok == ScanString(bytes, old(position) + 1).At?
      ensures ok ==> Valid() && position == ScanString(bytes, old(position) + 1).end
      ensures ok ==> tokens == Bump(old(tokens), parent, 1) + [Token(StringToken, old(position), position, parent, 0)]
    {
      hide ScanChar;
      var start := position;
      position := position + 1;
      while position < |bytes|
        invariant start < position <= |bytes| && tokens == old(tokens)
        invariant ScanString(bytes, start + 1).At? == ScanString(bytes, position).At?
        invariant ScanString(bytes, position).At? ==> ScanString(bytes, start + 1).end == ScanString(bytes, position).end
        decreases |bytes| - position
      {
        if bytes[position] == QUOTE {
          position := position + 1;
          AddScalar(StringToken, start, parent);
          return true;
        }
        CharAdvances(bytes, position);
        ok := SkipChar();
        if !ok {
          return;
        }
      }
      ok := false;
    }

    method SkipDigits()
      requires Valid()
      modifies this`position
      ensures Valid() && position == DigitsEnd(bytes, old(position))
    {
      ghost var start := position;
      while position < |bytes| && IsDigit(bytes[position])
        invariant start <= position <= |bytes| && DigitsEnd(bytes, start) == DigitsEnd(bytes, position)
      {
        position := position + 1;
      }
    }

    method SkipWhole() returns (ok: bool)
      requires Valid()
      modifies this`position
      ensures ok == ScanWhole(bytes, old(position)).At?
      ensures ok ==> Valid() && position == ScanWhole(bytes, old(position)).end
    {
      if position >= |bytes| {
        return false;
      }
      if bytes[position] == 0x30 {
        position := position + 1;
        return !(position < |bytes| && IsDigit(bytes[position]));
      }
      if !IsDigit(bytes[position]) {
        return false;
      }
      SkipDigits();
      ok := true;
    }

    method SkipFraction() returns (ok: bool)
      requires Valid()
      modifies this`position
      ensures ok == ScanFraction(bytes, old(position)).At?
      ensures ok ==> Valid() && position == ScanFraction(bytes, old(position)).end
    {
      if position < |bytes| && bytes[position] == 0x2e {
        position := position + 1;
        if position >= |bytes| || !IsDigit(bytes[position]) {
          return false;
        }
        SkipDigits();
      }
      ok := true;
    }

    method SkipExponent() returns (ok: bool)
      requires Valid()
      modifies this`position
      ensures ok == ScanExponent(bytes, old(position)).At?
      ensures ok ==> Valid() && position == ScanExponent(bytes, old(position)).end
    {
      if position < |bytes| && (bytes[position] == 0x65 || bytes[position] == 0x45) {
        position := position + 1;
        if position < |bytes| && IsSign(bytes[position]) {
          position := position + 1;
        }
        if position >= |bytes| || !IsDigit(bytes[position]) {
          return false;
        }
        SkipDigits();
      }
      ok := true;
    }

    method ParseNumber(parent: int) returns (ok: bool)
      requires position < |bytes| && -1 <= parent < |tokens|
      modifies this`position, this`tokens
      ensures ok == ScanNumber(bytes, old(position)).At?
      ensures ok ==> Valid() && position == ScanNumber(bytes, old(position)).end
      ensures ok ==> tokens == Bump(old(tokens), parent, 1) + [Token(NumberToken, old(position), position, parent, 0)]
    {
      hide ScanWhole, ScanFraction, ScanExponent;
      var start := position;
      if bytes[position] == 0x2d {
        position := position + 1;
      }
      ok := SkipWhole();
      if ok {
        ok := SkipFraction();
        if ok {
          ok := SkipExponent();
          if ok {
            AddScalar(NumberToken, start, parent);
          }
        }
      }
    }

    method ParseLiteral(word: Word, parent: int) returns (ok: bool)
      requires Valid() && -1 <= parent < |tokens|
      modifies this`position, this`tokens
      ensures ok == Stands(bytes, old(position), WordText(word))
      ensures ok ==> Valid() && position == old(position) + |WordText(word)|
      ensures ok ==> tokens == Bump(old(tokens), parent, 1) + [Token(KindOf(Literal(word)), old(position), position, parent, 0)]
      ensures !ok ==> position == old(position) && tokens == old(tokens)
    {
      var start := position;
      ok := Stands(bytes, position, WordText(word));
      if ok {
        position := position + |WordText(word)|;
        AddScalar(KindOf(Literal(word)), start, parent);
      }
    }

    /** A value that is no container. */
    method ParseScalarValue(parent: int) returns (ok: bool)
      requires position < |bytes| && -1 <= parent < |tokens|
      modifies this`position, this`tokens
      ensures ok == JsonParse.ParseScalar(bytes, old(position)).At?
      ensures ok ==> var r := JsonParse.ParseScalar(bytes, old(position));
        && Valid() && position == r.end
        && tokens == Bump(old(tokens), parent, 1) + ValueTokens(r.value, old(position), parent, |old(tokens)|)
    {
      hide Stands, ScanString, ScanNumber, WordText;
      ghost var p := position;
      if JsonParse.ParseScalar(bytes, p).At? {
        ScalarTokens(bytes, p, parent, |tokens|);
      }
      if bytes[position] == QUOTE {
        ok := ParseString(parent);
        return;
      }
      if bytes[position] == 0x2d || IsDigit(bytes[position]) {
        ok := ParseNumber(parent);
        return;
      }
      ok := ParseLiteral(True, parent);
      if !ok {
        ok := ParseLiteral(False, parent);
        if !ok {
          ok := ParseLiteral(Null, parent);
        }
      }
    }

    /** A value, white space before it skipped. */
    method ParseValue(parent: int) returns (ok: bool)
      requires Valid() && -1 <= parent < |tokens| && depth <= MAX_DEPTH
      modifies this
      ensures var s := SkipSpace(bytes, old(position)); var r := JsonParse.ParseValue(bytes, s, old(depth));
        && ok == r.At?
        && (ok ==>
              && Valid() && position == r.end && depth == old(depth)
              && tokens == Bump(old(tokens), parent, 1) + ValueTokens(r.value, s, parent, |old(tokens)|))
      decreases |bytes| - position, 1
    {
      SkipWhiteSpace();
      if position >= |bytes| {
        return false;
      }
      if bytes[position] == Open(true) {
        ok := ParseContainer(parent, true);
      } else if bytes[position] == Open(false) {
        ok := ParseContainer(parent, false);
      } else {
        ok := ParseScalarValue(parent);
      }
    }

    /** The key of an object member, its colon and the white space around it. */
    method ParseKey(index: nat) returns (ok: bool)
      requires Valid() && index < |tokens|
      modifies this`position, this`tokens
      ensures ok == JsonParse.ScanKey(bytes, old(position), true).At?
      ensures ok ==> Valid() && position == JsonParse.ScanKey(bytes, old(position), true).end
      ensures ok ==> SkipSpace(bytes, position) == position && JsonParse.ScanKey(bytes, old(position), true).value.Key?
      ensures ok ==> tokens == Bump(old(tokens), index, 1)
                               + KeyTokens(JsonParse.ScanKey(bytes, old(position), true).value, old(position), index)
    {
      hide ScanString, JsonParse.ScanKey, KeyTokens, SkipSpace, Bump;
      ghost var p := position;
      KeyIs(bytes, p, index);
      if position >= |bytes| || bytes[position] != QUOTE {
        return false;
      }
      ok := ParseString(index);
      if !ok {
        return;
      }
      SkipWhiteSpace();
      if position >= |bytes| || bytes[position] != COLON {
        return false;
      }
      position := position + 1;
      SpaceTwice(bytes, position);
      SkipWhiteSpace();
    }

    /** One member from its first byte to the white space after its value. */
    method ParseMember(index: nat, isObject: bool, ghost p: nat, ghost base: seq<Token>, ghost t: Token, ghost prefix: seq<Token>)
      returns (ok: bool, ghost m: Member, ghost added: seq<Token>)
      requires p <= |bytes| && position == SkipSpace(bytes, p) && depth <= MAX_DEPTH
      requires index == |base| && Framed(tokens, base, t, prefix)
      modifies this
      ensures ok == JsonParse.ParseMember(bytes, p, old(depth), isObject).At?
      ensures ok ==> Valid() && depth == old(depth) && Added(bytes, p, depth, isObject, index, prefix, m, position, added)
      ensures ok ==> Framed(tokens, base, t.(children := t.children + Arity(isObject)), prefix + added)
      decreases |bytes| - p, 2
    {
      hide JsonParse.ParseValue, JsonParse.ScanKey, ValueTokens, SkipSpace, KeyText, Text, MemberTokens, Bump;
      m, added := Member([], NoKey, Literal(Null), []), [];
      ghost var q := position;
      SpaceTwice(bytes, p);
      if isObject {
        ok := ParseKey(index);
        if !ok {
          return;
        }
      } else {
        NoKeyHere(bytes, q);
        BumpNone(tokens, index);
      }
      ghost var key := JsonParse.ScanKey(bytes, q, isObject);
      ghost var v := JsonParse.ParseValue(bytes, key.end, depth);
      ghost var ks := KeyTokens(key.value, q, index);
      assert |ks| == Arity(isObject) - 1;
      BumpMore(base + [t] + prefix, index, ks);
      ok := ParseValue(index);
      if !ok {
        return;
      }
      SkipWhiteSpace();
      m := Member(bytes[p..q], key.value, v.value, bytes[v.end..position]);
      added := MemberTokens(m, p, index, index + 1 + |prefix|);
      MemberDone(bytes, p, depth, isObject, key.value, key.end, v.value, v.end, index, index + 1 + |prefix|);
      TokensGrow(base, t, prefix, Arity(isObject), ks, ValueTokens(v.value, key.end, index, index + 1 + |prefix| + |ks|));
    }

    /** An object or an array. */
    method ParseContainer(parent: int, isObject: bool) returns (ok: bool)
      requires position < |bytes| && bytes[position] == Open(isObject) && -1 <= parent < |tokens| && depth <= MAX_DEPTH
      modifies this
      ensures var r := JsonParse.ParseValue(bytes, old(position), old(depth));
        && ok == r.At?
        && (ok ==>
              && Valid() && position == r.end && depth == old(depth)
              && tokens == Bump(old(tokens), parent, 1) + ValueTokens(r.value, old(position), parent, |old(tokens)|))
      decreases |bytes| - position, 0
    {
      hide JsonParse.ParseValue, JsonParse.ParseMembers, ValueTokens, MembersTokens, Children, SkipSpace, Bump;
      var start := position;
      ghost var base, p0 := Bump(tokens, parent, 1), position + 1;
      ContainerUnfold(bytes, start, depth, isObject);
      depth := depth + 1;
      if depth > MAX_DEPTH {
        return false;
      }
      var index := AddToken(Bracket(isObject), start, parent);
      position := position + 1;
      SkipWhiteSpace();
      if position < |bytes| && bytes[position] == Close(isObject) {
        CloseContainer(index, base, Token(Bracket(isObject), start, start, parent, 0), []);
        EmptyTokens(bytes, start, old(depth), isObject, parent, base, tokens);
        return true;
      }
      SpaceTwice(bytes, p0);
      ok := ParseMembers(index, isObject, p0, base, start, parent);
      if ok {
        FullTokens(bytes, start, old(depth), isObject, parent, base, position);
      }
    }

    /** The closing bracket: the span of the container ends, and so does one level of depth. */
    method CloseContainer(index: nat, ghost base: seq<Token>, ghost t: Token, ghost rest: seq<Token>)
      requires position < |bytes| && depth > 0 && index == |base| && tokens == base + [t] + rest
      modifies this
      ensures Valid() && position == old(position) + 1 && depth == old(depth) - 1
      ensures tokens == base + [t.(end := position)] + rest
    {
      position := position + 1;
      SetEnd(index);
      depth := depth - 1;
    }

    /** The comma between two members, which must not be the last. */
    method SkipComma(isObject: bool) returns (more: bool)
      requires position < |bytes|
      modifies this`position
      ensures more == (bytes[old(position)] == COMMA && JsonParse.Continues(bytes, old(position) + 1, isObject))
      ensures more ==> Valid() && position == SkipSpace(bytes, old(position) + 1)
    {
      if bytes[position] != COMMA {
        return false;
      }
      position := position + 1;
      SkipWhiteSpace();
      more := position < |bytes| && bytes[position] != Close(isObject);
    }

    /** What follows a member: the closing bracket, or a comma and another member. */
    method EndMember(index: nat, isObject: bool, ghost base: seq<Token>, ghost t: Token, ghost rest: seq<Token>)
      returns (closed: bool, more: bool)
      requires Valid() && depth > 0 && index == |base| && Framed(tokens, base, t, rest)
      modifies this
      ensures var end := old(position);
        && closed == (end < |bytes| && bytes[end] == Close(isObject))
        && more == (end < |bytes| && !closed && bytes[end] == COMMA && JsonParse.Continues(bytes, end + 1, isObject))
        && (closed ==> Valid() && position == end + 1 && depth == old(depth) - 1 && Framed(tokens, base, t.(end := position), rest))
        && (more ==> Valid() && position == SkipSpace(bytes, end + 1) && depth == old(depth) && tokens == old(tokens))
    {
      hide SkipSpace, JsonParse.Continues;
      closed, more := false, false;
      if position >= |bytes| {
        return;
      }
      if bytes[position] == Close(isObject) {
        CloseContainer(index, base, t, rest);
        return true, false;
      }
      more := SkipComma(isObject);
    }

    /** The loop over the members of a container, up to and including its closing bracket. */
    method ParseMembers(index: nat, isObject: bool, ghost p0: nat, ghost base: seq<Token>, ghost start: nat, ghost parent: int)
      returns (ok: bool)
      requires p0 <= |bytes| && position == SkipSpace(bytes, p0) && 0 < depth <= MAX_DEPTH && index == |base|
      requires Framed(tokens, base, Token(Bracket(isObject), start, start, parent, 0), [])
      modifies this
      ensures var r := JsonParse.ParseMembers(bytes, p0, old(depth), isObject);
        && ok == r.At?
        && (ok ==>
              && Valid() && position == r.end && depth == old(depth) - 1
              && Framed(tokens, base, Token(Bracket(isObject), start, position, parent, Children(r.value)),
                        MembersTokens(r.value, p0, index, index + 1)))
      decreases |bytes| - p0, 3
    {
      hide JsonParse.ParseMembers, JsonParse.ParseMember, MembersTokens, Children, SkipSpace, Progress, Added,
        JsonParse.Continues, Framed;
      ghost var p, prefix, d := p0, [], depth;
      ghost var count: nat := 0;
      ProgressStarts(bytes, p0, d, isObject, index);
      while true
        invariant p0 <= p <= |bytes| && position == SkipSpace(bytes, p) && depth == d
        invariant Framed(tokens, base, Token(Bracket(isObject), start, start, parent, count), prefix)
        invariant Progress(bytes, p0, p, d, isObject, index, prefix, count)
        decreases |bytes| - p
      {
        ghost var m: Member, added: seq<Token>;
        ok, m, added := ParseMember(index, isObject, p, base, Token(Bracket(isObject), start, start, parent, count), prefix);
        if !ok {
          JsonParse.MembersFail(bytes, p, d, isObject);
          ProgressFails(bytes, p0, p, d, isObject, index, prefix, count);
          return;
        }
        ghost var end := position;
        var closed, more := EndMember(index, isObject, base, Token(Bracket(isObject), start, start, parent, count + Arity(isObject)),
                                     prefix + added);
        if closed {
          ProgressEnds(bytes, p0, p, d, isObject, index, prefix, count, m, end, added);
          return true;
        }
        if !more {
          LoopExit(bytes, p0, p, d, isObject, index, prefix, count, m, end, added);
          return false;
        }
        assert position == SkipSpace(bytes, end + 1);
        ProgressStep(bytes, p0, p, d, isObject, index, prefix, count, m, end, added);
        p, prefix, count := end + 1, prefix + added, count + Arity(isObject);
      }
    }
  }

  /** A token between those before it and those it holds. */
  predicate Framed(tokens: seq<Token>, before: seq<Token>, t: Token, rest: seq<Token>) {
    tokens == before + [t] + rest
  }

  function Bracket(isObject: bool): Kind {
    if isObject then ObjectToken else ArrayToken
  }

  // ---------- what the methods rely on ----------

  /** When a key can be read, where its colon and its end lie, and its token. */
  lemma KeyIs(b: seq<byte>, p: nat, index: nat)
    requires p <= |b|
    ensures p == |b| || b[p] != QUOTE || ScanString(b, p + 1).Fail? ==> JsonParse.ScanKey(b, p, true).Fail?
    ensures p < |b| && b[p] == QUOTE && ScanString(b, p + 1).At? ==>
      var s := ScanString(b, p + 1); var x := SkipSpace(b, s.end); var k := JsonParse.ScanKey(b, p, true);
      && k.At? == (x < |b| && b[x] == COLON)
      && (k.At? ==> k.end == SkipSpace(b, x + 1) && k.value.Key?
                    && KeyTokens(k.value, p, index) == [Token(StringToken, p, s.end, index, 0)])
  {
    hide ScanString, SkipSpace, Quoted;
    if p < |b| && b[p] == QUOTE && ScanString(b, p + 1).At? {
      JsonParse.QuotedSound(b, p);
    }
  }

  lemma ScalarTokens(b: seq<byte>, p: nat, parent: int, index: nat)
    requires p < |b| && JsonParse.ParseScalar(b, p).At?
    ensures var r := JsonParse.ParseScalar(b, p);
      ValueTokens(r.value, p, parent, index) == [Token(KindOf(r.value), p, r.end, parent, 0)]
  {
    hide Text, JsonScan.ScanString, JsonScan.ScanNumber;
    JsonParse.ScalarSound(b, p);
  }

  lemma SpaceTwice(b: seq<byte>, p: nat)
    requires p <= |b|
    ensures SkipSpace(b, SkipSpace(b, p)) == SkipSpace(b, p)
  {
  }

  lemma BumpNone(before: seq<Token>, index: nat)
    requires index < |before|
    ensures Bump(before, index, 0) + [] == before
  {
  }

  lemma BumpMore(before: seq<Token>, index: nat, key: seq<Token>)
    requires index < |before|
    ensures Bump(Bump(before, index, |key|) + key, index, 1) == Bump(before, index, |key| + 1) + key
  {
  }

  lemma BumpInner(base: seq<Token>, t: Token, prefix: seq<Token>, n: nat)
    ensures Bump(base + [t] + prefix, |base|, n) == base + [t.(children := t.children + n)] + prefix
  {
  }

  /** The tokens of an empty container. */
  lemma EmptyTokens(b: seq<byte>, start: nat, depth: nat, isObject: bool, parent: int, base: seq<Token>, tokens: seq<Token>)
    requires start < |b| && b[start] == Open(isObject) && depth < MAX_DEPTH
    requires SkipSpace(b, start + 1) < |b| && b[SkipSpace(b, start + 1)] == Close(isObject)
    requires var q := SkipSpace(b, start + 1);
      tokens == base + [Token(Bracket(isObject), start, q + 1, parent, 0)]
    ensures var r := JsonParse.ParseValue(b, start, depth);
      r.At? && r.end == SkipSpace(b, start + 1) + 1 && tokens == base + ValueTokens(r.value, start, parent, |base|)
  {
    hide Text, SkipSpace;
    JsonParse.ValueSound(b, start, depth);
  }

  /** The tokens of a container with members. */
  lemma FullTokens(b: seq<byte>, start: nat, depth: nat, isObject: bool, parent: int, base: seq<Token>, end: nat)
    requires start < |b| && b[start] == Open(isObject) && depth < MAX_DEPTH
    requires var q := SkipSpace(b, start + 1); !(q < |b| && b[q] == Close(isObject))
    requires var ms := JsonParse.ParseMembers(b, start + 1, depth + 1, isObject); ms.At? && end == ms.end
    ensures var r := JsonParse.ParseValue(b, start, depth);
      var ms := JsonParse.ParseMembers(b, start + 1, depth + 1, isObject).value;
      r.At? && r.end == end && ValueTokens(r.value, start, parent, |base|) ==
        [Token(Bracket(isObject), start, end, parent, Children(ms))] + MembersTokens(ms, start + 1, |base|, |base| + 1)
  {
    hide Text, SkipSpace, JsonParse.ParseMembers, MembersTokens;
    JsonParse.ValueSound(b, start, depth);
  }

  // ---------- the member loop ----------

  /** How the members still to come, from p on, complete those already read, from p0 on. */
  ghost predicate Progress(b: seq<byte>, p0: nat, p: nat, depth: nat, isObject: bool, index: nat, prefix: seq<Token>, count: nat)
    requires p0 <= p <= |b|
  {
    var all, rest := JsonParse.ParseMembers(b, p0, depth, isObject), JsonParse.ParseMembers(b, p, depth, isObject);
    && all.At? == rest.At?
    && (all.At? ==>
          && all.end == rest.end && Children(all.value) == count + Children(rest.value)
          && MembersTokens(all.value, p0, index, index + 1) == prefix + MembersTokens(rest.value, p, index, index + 1 + |prefix|))
  }

  lemma ProgressStarts(b: seq<byte>, p0: nat, depth: nat, isObject: bool, index: nat)
    requires p0 <= |b|
    ensures Progress(b, p0, p0, depth, isObject, index, [], 0)
  {
    hide JsonParse.ParseMembers, MembersTokens, Children;
  }

  lemma ConsTokens(m: Member, tail: Members, at: nat, parent: int, index: nat)
    ensures var added := MemberTokens(m, at, parent, index);
      MembersTokens(Cons(m, tail), at, parent, index) == added + MembersTokens(tail, at + |MemberText(m)| + 1, parent, index + |added|)
    ensures Children(Cons(m, tail)) == Width(m) + Children(tail)
    ensures MembersTokens(Nil, at, parent, index) == [] && Children(Nil) == 0
  {
    hide MemberTokens, MemberText, Width;
  }

  function Arity(isObject: bool): nat {
    if isObject then 2 else 1
  }

  /** m is the member read at p, and the tokens it adds. */
  ghost predicate Added(b: seq<byte>, p: nat, depth: nat, isObject: bool, index: nat, prefix: seq<Token>,
                        m: Member, end: nat, added: seq<Token>) {
    && p <= |b| && depth <= MAX_DEPTH
    && JsonParse.ParseMember(b, p, depth, isObject) == At(m, end)
    && added == MemberTokens(m, p, index, index + 1 + |prefix|)
  }

  lemma AddedMember(b: seq<byte>, p: nat, depth: nat, isObject: bool, index: nat, prefix: seq<Token>,
                    m: Member, end: nat, added: seq<Token>)
    requires Added(b, p, depth, isObject, index, prefix, m, end, added)
    ensures Width(m) == Arity(isObject) && end == p + |MemberText(m)| <= |b| && p < end
  {
    hide JsonParse.ParseMember, MemberText, MemberTokens, Ok;
    JsonParse.MemberSound(b, p, depth, isObject);
  }

  lemma ProgressEnds(b: seq<byte>, p0: nat, p: nat, depth: nat, isObject: bool, index: nat, prefix: seq<Token>, count: nat,
                     m: Member, end: nat, added: seq<Token>)
    requires p0 <= p <= |b| && Progress(b, p0, p, depth, isObject, index, prefix, count)
    requires Added(b, p, depth, isObject, index, prefix, m, end, added) && end < |b| && b[end] == Close(isObject)
    ensures var all := JsonParse.ParseMembers(b, p0, depth, isObject);
      && all.At? && all.end == end + 1
      && Children(all.value) == count + Arity(isObject) && MembersTokens(all.value, p0, index, index + 1) == prefix + added
  {
    hide JsonParse.ParseMember, JsonParse.ParseMembers, MemberTokens, MembersTokens, Children, MemberText;
    AddedMember(b, p, depth, isObject, index, prefix, m, end, added);
    JsonParse.MembersUnfold(b, p, depth, isObject);
    ConsTokens(m, Nil, p, index, index + 1 + |prefix|);
    ConsTokens(m, Nil, end + 1, index, index + 1 + |prefix| + |added|);
  }

  lemma ProgressStep(b: seq<byte>, p0: nat, p: nat, depth: nat, isObject: bool, index: nat, prefix: seq<Token>, count: nat,
                     m: Member, end: nat, added: seq<Token>)
    requires p0 <= p <= |b| && Progress(b, p0, p, depth, isObject, index, prefix, count)
    requires Added(b, p, depth, isObject, index, prefix, m, end, added)
    requires end < |b| && b[end] == COMMA && JsonParse.Continues(b, end + 1, isObject)
    ensures p < end && Progress(b, p0, end + 1, depth, isObject, index, prefix + added, count + Arity(isObject))
  {
    hide JsonParse.ParseMember, JsonParse.ParseMembers, MemberTokens, MembersTokens, Children, MemberText, JsonParse.Continues;
    AddedMember(b, p, depth, isObject, index, prefix, m, end, added);
    JsonParse.MembersUnfold(b, p, depth, isObject);
    var rest := JsonParse.ParseMembers(b, end + 1, depth, isObject);
    if rest.At? {
      ConsTokens(m, rest.value, p, index, index + 1 + |prefix|);
    }
  }

  /** The loop cannot end well if a member is missing or nothing proper follows it. */
  lemma ProgressFails(b: seq<byte>, p0: nat, p: nat, depth: nat, isObject: bool, index: nat, prefix: seq<Token>, count: nat)
    requires p0 <= p <= |b| && Progress(b, p0, p, depth, isObject, index, prefix, count)
    requires JsonParse.ParseMembers(b, p, depth, isObject).Fail?
    ensures JsonParse.ParseMembers(b, p0, depth, isObject).Fail?
  {
  }

  lemma NoKeyHere(b: seq<byte>, q: nat)
    requires q <= |b|
    ensures JsonParse.ScanKey(b, q, false) == At(NoKey, q)
  {
  }

  /** Why the loop may give up after a member: then the members as a whole do not parse. */
  lemma LoopExit(b: seq<byte>, p0: nat, p: nat, depth: nat, isObject: bool, index: nat, prefix: seq<Token>, count: nat,
                 m: Member, end: nat, added: seq<Token>)
    requires p0 <= p <= |b| && Progress(b, p0, p, depth, isObject, index, prefix, count)
    requires Added(b, p, depth, isObject, index, prefix, m, end, added) && end <= |b|
    ensures end == |b| || (b[end] != Close(isObject) && (b[end] != COMMA || !JsonParse.Continues(b, end + 1, isObject))) ==>
      JsonParse.ParseMembers(b, p0, depth, isObject).Fail?
  {
    hide JsonParse.ParseMember, JsonParse.ParseMembers, JsonParse.Continues;
    if end == |b| {
      JsonParse.MembersFail(b, p, depth, isObject);
    } else {
      JsonParse.MembersUnfold(b, p, depth, isObject);
    }
    if JsonParse.ParseMembers(b, p, depth, isObject).Fail? {
      ProgressFails(b, p0, p, depth, isObject, index, prefix, count);
    }
  }

  /** Key, value and white space make a member, and their tokens make its tokens. */
  lemma MemberDone(b: seq<byte>, p: nat, depth: nat, isObject: bool, key: Key, keyEnd: nat, v: Value, end: nat, parent: nat, index: nat)
    requires p <= |b| && depth <= MAX_DEPTH && keyEnd <= |b| && end <= |b|
    requires JsonParse.ScanKey(b, SkipSpace(b, p), isObject) == At(key, keyEnd)
    requires JsonParse.ParseValue(b, keyEnd, depth) == At(v, end)
    ensures var q := SkipSpace(b, p); var m := Member(b[p..q], key, v, b[end..SkipSpace(b, end)]);
      var ks := KeyTokens(key, q, parent);
      && JsonParse.ParseMember(b, p, depth, isObject) == At(m, SkipSpace(b, end))
      && MemberTokens(m, p, parent, index) == ks + ValueTokens(v, keyEnd, parent, index + |ks|)
  {
    hide JsonParse.ParseValue, ValueTokens, SkipSpace, JsonParse.ScanKey, KeyText, JsonParse.ParseMember, MemberTokens;
    var q := SkipSpace(b, p);
    MemberParsed(b, p, depth, isObject, key, keyEnd, v, end);
    JsonParse.KeySound(b, q, isObject);
    MemberTokensAre(Member(b[p..q], key, v, b[end..SkipSpace(b, end)]), p, parent, index);
  }

  lemma TokensGrow(base: seq<Token>, t: Token, prefix: seq<Token>, n: nat, ks: seq<Token>, vs: seq<Token>)
    ensures Bump(base + [t] + prefix, |base|, n) + ks + vs
         == base + [t.(children := t.children + n)] + (prefix + (ks + vs))
  {
    BumpInner(base, t, prefix, n);
  }

  lemma MemberParsed(b: seq<byte>, p: nat, depth: nat, isObject: bool, key: Key, keyEnd: nat, v: Value, end: nat)
    requires p <= |b| && keyEnd <= |b| && end <= |b|
    requires JsonParse.ScanKey(b, SkipSpace(b, p), isObject) == At(key, keyEnd)
    requires JsonParse.ParseValue(b, keyEnd, depth) == At(v, end)
    ensures JsonParse.ParseMember(b, p, depth, isObject)
         == At(Member(b[p..SkipSpace(b, p)], key, v, b[end..SkipSpace(b, end)]), SkipSpace(b, end))
  {
    hide JsonParse.ParseValue, SkipSpace, JsonParse.ScanKey;
  }

  lemma MemberTokensAre(m: Member, at: nat, parent: int, index: nat)
    ensures var ks := KeyTokens(m.key, at + |m.lead|, parent);
      MemberTokens(m, at, parent, index) == ks + ValueTokens(m.value, at + |m.lead| + |KeyText(m.key)|, parent, index + |ks|)
  {
    hide ValueTokens, KeyText, KeyTokens;
  }

  /** What a container parses to, in terms of its members. */
  lemma ContainerUnfold(b: seq<byte>, start: nat, depth: nat, isObject: bool)
    requires start < |b| && b[start] == Open(isObject)
    ensures depth + 1 > MAX_DEPTH ==> JsonParse.ParseValue(b, start, depth).Fail?
    ensures depth + 1 <= MAX_DEPTH && JsonParse.Continues(b, start + 1, isObject) ==>
      JsonParse.ParseValue(b, start, depth).At? == JsonParse.ParseMembers(b, start + 1, depth + 1, isObject).At?
    ensures depth + 1 <= MAX_DEPTH && SkipSpace(b, start + 1) >= |b| ==>
      JsonParse.ParseValue(b, start, depth).At? == JsonParse.ParseMembers(b, start + 1, depth + 1, isObject).At?
  {
    hide SkipSpace, JsonParse.ParseMembers;
  }

  lemma CharAdvances(b: seq<byte>, p: nat)
    requires p < |b|
    ensures ScanChar(b, p).At? ==> p < ScanChar(b, p).end <= |b|
  {
  }

  /** Four hexadecimal digits. */
  method ReadHex4(bytes: seq<byte>, position: nat) returns (ok: bool, value: nat)
    ensures ok == (position + 4 <= |bytes| && IsHex4(bytes[position..position + 4]))
    ensures ok ==> value == Hex4(bytes[position..position + 4])
  {
    value := 0;
    if position > |bytes| || |bytes| - position < 4 {
      return false, 0;
    }
    ghost var h := bytes[position..position + 4];
    for index := 0 to 4
      invariant index >= 1 ==> HexValue(h[0]) >= 0
      invariant index >= 2 ==> HexValue(h[1]) >= 0
      invariant index >= 3 ==> HexValue(h[2]) >= 0
      invariant index == 4 ==> HexValue(h[3]) >= 0
      invariant index == 0 ==> value == 0
      invariant index == 1 ==> value == HexValue(h[0])
      invariant index == 2 ==> value == HexValue(h[0]) * 16 + HexValue(h[1])
      invariant index == 3 ==> value == (HexValue(h[0]) * 16 + HexValue(h[1])) * 16 + HexValue(h[2])
      invariant index == 4 ==> value == ((HexValue(h[0]) * 16 + HexValue(h[1])) * 16 + HexValue(h[2])) * 16 + HexValue(h[3])
    {
      var digit := HexValue(bytes[position + index]);
      assert bytes[position + index] == h[index];
      if digit < 0 {
        return false, 0;
      }
      value := value * 16 + digit;
    }
    ok := true;
  }

  // ---------- documents ----------

  /** The whole document: the root value, white space around it, nothing else. */
  method Parse(bytes: seq<byte>) returns (ok: bool, tokens: seq<Token>)
    ensures ok == JsonParse.ParseText(bytes).At?
    ensures ok ==> tokens == ValueTokens(JsonParse.ParseText(bytes).value, SkipSpace(bytes, 0), -1, 0)
  {
    var parser := new Parser(bytes);
    ok := parser.ParseValue(-1);
    tokens := parser.tokens;
    if ok {
      parser.SkipWhiteSpace();
      ok := parser.position == |bytes|;
    }
  }
}
