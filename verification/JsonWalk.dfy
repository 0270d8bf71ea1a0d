/** Walking the direct children of an object: keys and values in turn, in the order of the text. */
module JsonWalk {
  import opened Bytes
  import opened JsonText
  import opened JsonTokens
  import opened JsonTree
  import opened JsonStrings

  // ---------- the next direct child ----------

  /** The first token from `from` on with the given parent, or -1. */
  function FirstChild(ts: seq<Token>, parent: int, from: nat): int
    decreases |ts| - from
  {
    if from >= |ts| then -1
    else if ts[from].parent == parent then from
    else FirstChild(ts, parent, from + 1)
  }

  method NextDirectChild(ts: seq<Token>, parent: int, after: int) returns (index: int)
    requires -1 <= after
    ensures index == FirstChild(ts, parent, after + 1)
  {
    var i := if after < 0 then 0 else after + 1;
    while i < |ts|
      invariant after < i && FirstChild(ts, parent, after + 1) == FirstChild(ts, parent, i)
    {
      if ts[i].parent == parent {
        return i;
      }
      i := i + 1;
    }
    index := -1;
  }

  lemma {:induction false} FirstSkips(ts: seq<Token>, parent: int, from: nat, to: nat)
    requires from <= to <= |ts| && forall k :: from <= k < to ==> ts[k].parent != parent
    ensures FirstChild(ts, parent, from) == FirstChild(ts, parent, to)
    decreases |ts| - from
  {
    if from < to {
      FirstSkips(ts, parent, from + 1, to);
    }
  }

  // ---------- members by number ----------

  function Len(ms: Members): nat {
    if ms.Nil? then 0 else 1 + Len(ms.tail)
  }

  function Nth(ms: Members, n: nat): Member
    requires n < Len(ms)
  {
    if n == 0 then ms.head else Nth(ms.tail, n - 1)
  }

  /** How many tokens a value has. */
  function Size(v: Value): (n: nat)
    ensures n > 0
    decreases v
  {
    if v.Composite? then 1 + MembersSize(v.members) else 1
  }

  function MemberSize(m: Member): (n: nat)
    ensures n > 0
    decreases m
  {
    (if m.key.Key? then 1 else 0) + Size(m.value)
  }

  function MembersSize(ms: Members): nat
    decreases ms
  {
    if ms.Nil? then 0 else MemberSize(ms.head) + MembersSize(ms.tail)
  }

  lemma {:induction false} SizeIs(v: Value, at: nat, parent: int, index: nat)
    ensures |ValueTokens(v, at, parent, index)| == Size(v)
    decreases v
  {
    if v.Composite? {
      MembersSizeIs(v.members, at + 1, index, index + 1);
    }
  }

  lemma {:induction false} MembersSizeIs(ms: Members, at: nat, parent: int, index: nat)
    ensures |MembersTokens(ms, at, parent, index)| == MembersSize(ms)
    decreases ms
  {
    if ms.Cons? {
      var m := ms.head;
      var first := MemberTokens(m, at, parent, index);
      SizeIs(m.value, at + |m.lead| + |KeyText(m.key)|, parent, index + |KeyTokens(m.key, at + |m.lead|, parent)|);
      MembersSizeIs(ms.tail, at + |MemberText(m)| + 1, parent, index + |first|);
    }
  }

  /** The token of the n-th member's key, if the first member's is at x. */
  function KeyIndex(ms: Members, x: nat, n: nat): nat
    requires n <= Len(ms)
  {
    if n == 0 then x else KeyIndex(ms.tail, x + MemberSize(ms.head), n - 1)
  }

  // ---------- tokens in place ----------

  /** The tokens of a value stand at i; what comes before has parents before it, what comes after
      has parents elsewhere. */
  predicate Hosts(ts: seq<Token>, v: Value, at: nat, parent: int, i: nat) {
    var end := i + Size(v);
    && parent < i && end <= |ts| && ts[i..end] == ValueTokens(v, at, parent, i)
    && (forall k :: 0 <= k < i ==> ts[k].parent < i)
    && (forall k :: end <= k < |ts| ==> ts[k].parent < i || end <= ts[k].parent)
  }

  /** The same for the rest of an object's members, from token x on. */
  predicate Rest(ts: seq<Token>, ms: Members, at: nat, i: nat, x: nat) {
    var end := x + MembersSize(ms);
    && i < x && end <= |ts| && ts[x..end] == MembersTokens(ms, at, i, x)
    && (forall k :: 0 <= k < x ==> ts[k].parent < x)
    && (forall k :: end <= k < |ts| ==> ts[k].parent < i || end <= ts[k].parent)
  }

  /** The text behind the tokens. */
  predicate Written(bytes: seq<byte>, ms: Members, at: nat) {
    MembersOk(ms, true) && (ms.Cons? ==> Stands(bytes, at, MembersText(ms)))
  }

  lemma HostsRoot(v: Value, at: nat)
    ensures Hosts(ValueTokens(v, at, -1, 0), v, at, -1, 0)
  {
    SizeIs(v, at, -1, 0);
    var ts := ValueTokens(v, at, -1, 0);
    assert ts[0..|ts|] == ts;
  }

  /** Inside a value only the first token has the outer parent. */
  lemma ValueParents(v: Value, at: nat, parent: int, index: nat)
    requires parent < index
    ensures forall k :: 0 < k < |ValueTokens(v, at, parent, index)| ==>
      index <= ValueTokens(v, at, parent, index)[k].parent < index + k
    ensures ValueTokens(v, at, parent, index)[0].parent == parent
  {
    if v.Composite? {
      hide MembersTokens, Text, WellCounted;
      var inner := MembersTokens(v.members, at + 1, index, index + 1);
      MembersCounted(v.members, at + 1, index, index + 1);
      UnderParents(Token(KindOf(v), at, at + |Text(v)|, parent, Children(v.members)), inner, index);
    }
  }

  lemma UnderParents(t: Token, inner: seq<Token>, index: nat)
    requires WellCounted(inner, index, index + 1)
    ensures forall k :: 0 < k < 1 + |inner| ==> index <= ([t] + inner)[k].parent < index + k
  {
    forall k | 0 < k < 1 + |inner| ensures index <= ([t] + inner)[k].parent < index + k {
      assert ([t] + inner)[k] == inner[k - 1];
    }
  }

  lemma HostsMembers(ts: seq<Token>, v: Value, at: nat, parent: int, i: nat)
    requires v.Composite? && Hosts(ts, v, at, parent, i)
    ensures Rest(ts, v.members, at + 1, i, i + 1)
    ensures FirstChild(ts, i, 0) == FirstChild(ts, i, i + 1)
  {
    hide MembersTokens, Text;
    var all, inner := ValueTokens(v, at, parent, i), MembersTokens(v.members, at + 1, i, i + 1);
    var end := i + Size(v);
    assert ts[i + 1..end] == ts[i..end][1..] == inner;
    assert ts[i] == ts[i..end][0];
    FirstSkips(ts, i, 0, i + 1);
  }

  /** A member of an object, found in the token array and in the text. */
  predicate MemberHere(bytes: seq<byte>, ts: seq<Token>, i: nat, m: Member, k: nat, valueAt: nat) {
    && m.key.Key? && k + 1 < |ts| && i < k
    && TokenOf(bytes, ts[k], m.key.chars) && ts[k].parent == i
    && Hosts(ts, m.value, valueAt, i, k + 1) && Stands(bytes, valueAt, Text(m.value)) && Ok(m.value)
  }

  lemma FirstMemberTokens(ts: seq<Token>, ms: Members, at: nat, i: nat, x: nat)
    requires ms.Cons? && ms.head.key.Key? && Rest(ts, ms, at, i, x)
    ensures var m := ms.head; var ks := at + |m.lead|; var va := ks + |KeyText(m.key)|; var y := x + 1 + Size(m.value);
      && y <= |ts| && ts[x] == Token(StringToken, ks, ks + |Quoted(m.key.chars)|, i, 0)
      && ts[x + 1..y] == ValueTokens(m.value, va, i, x + 1)
      && MemberSize(m) == 1 + Size(m.value) && MembersSize(ms) == MemberSize(m) + MembersSize(ms.tail)
      && ts[y..y + MembersSize(ms.tail)] == MembersTokens(ms.tail, at + |MemberText(m)| + 1, i, y)
  {
    hide ValueTokens, KeyText, Quoted, MemberText, MembersTokens, Size, MembersSize, MemberSize;
    var m := ms.head;
    var ks := at + |m.lead|;
    var va := ks + |KeyText(m.key)|;
    var y := x + 1 + Size(m.value);
    HeadTokens(ms, at, i, x);
    var a, b := [Token(StringToken, ks, ks + |Quoted(m.key.chars)|, i, 0)], ValueTokens(m.value, va, i, x + 1);
    var c := MembersTokens(ms.tail, at + |MemberText(m)| + 1, i, y);
    ThreePieces(ts, x, a, b, c);
    assert ts[x] == ts[x..x + 1][0];
  }

  /** The tokens of an object's members: a key, its value, the rest. */
  lemma HeadTokens(ms: Members, at: nat, i: nat, x: nat)
    requires ms.Cons? && ms.head.key.Key?
    ensures var m := ms.head; var ks := at + |m.lead|; var va := ks + |KeyText(m.key)|; var y := x + 1 + Size(m.value);
      && MemberSize(m) == 1 + Size(m.value) && MembersSize(ms) == MemberSize(m) + MembersSize(ms.tail)
      && |ValueTokens(m.value, va, i, x + 1)| == Size(m.value)
      && |MembersTokens(ms.tail, at + |MemberText(m)| + 1, i, y)| == MembersSize(ms.tail)
      && MembersTokens(ms, at, i, x)
         == [Token(StringToken, ks, ks + |Quoted(m.key.chars)|, i, 0)] + ValueTokens(m.value, va, i, x + 1)
            + MembersTokens(ms.tail, at + |MemberText(m)| + 1, i, y)
  {
    hide ValueTokens, KeyText, Quoted, MemberText;
    var m := ms.head;
    var va := at + |m.lead| + |KeyText(m.key)|;
    SizeIs(m.value, va, i, x + 1);
    MembersSizeIs(ms.tail, at + |MemberText(m)| + 1, i, x + 1 + Size(m.value));
    assert |KeyTokens(m.key, at + |m.lead|, i)| == 1;
  }

  lemma FirstMemberText(bytes: seq<byte>, ms: Members, at: nat)
    requires ms.Cons? && Written(bytes, ms, at)
    ensures var m := ms.head; var ks := at + |m.lead|; var va := ks + |KeyText(m.key)|;
      && m.key.Key? && CharsOk(m.key.chars) && Ok(m.value)
      && Stands(bytes, ks, Quoted(m.key.chars)) && Stands(bytes, va, Text(m.value))
      && Written(bytes, ms.tail, at + |MemberText(m)| + 1)
  {
    hide Text, Quoted, Stands;
    var m := ms.head;
    var ks := at + |m.lead|;
    if ms.tail.Cons? {
      StandsSplit(bytes, at, MemberText(m), [COMMA] + MembersText(ms.tail));
      StandsSplit(bytes, at + |MemberText(m)|, [COMMA], MembersText(ms.tail));
    }
    StandsSplit(bytes, at, m.lead, KeyText(m.key) + (Text(m.value) + m.trail));
    StandsSplit(bytes, ks, KeyText(m.key), Text(m.value) + m.trail);
    StandsSplit(bytes, ks + |KeyText(m.key)|, Text(m.value), m.trail);
    StandsSplit(bytes, ks, Quoted(m.key.chars), m.key.before + ([COLON] + m.key.after));
  }

  /** The first of the remaining members, and where the walk goes next. */
  lemma WalkStep(bytes: seq<byte>, ts: seq<Token>, ms: Members, at: nat, i: nat, x: nat)
    requires ms.Cons? && Rest(ts, ms, at, i, x) && Written(bytes, ms, at)
    ensures var m := ms.head; var next := at + |MemberText(m)| + 1; var y := x + MemberSize(m);
      && MemberHere(bytes, ts, i, m, x, at + |m.lead| + |KeyText(m.key)|)
      && FirstChild(ts, i, x) == x && FirstChild(ts, i, x + 1) == x + 1 && FirstChild(ts, i, x + 2) == FirstChild(ts, i, y)
      && Rest(ts, ms.tail, next, i, y) && Written(bytes, ms.tail, next)
  {
    hide ValueTokens, KeyText, Quoted, MemberText, Text, Stands, MembersTokens, MembersOk;
    var m := ms.head;
    var va := at + |m.lead| + |KeyText(m.key)|;
    var y := x + 1 + Size(m.value);
    FirstMemberText(bytes, ms, at);
    FirstMemberTokens(ts, ms, at, i, x);
    ValueParents(m.value, va, i, x + 1);
    SizeIs(m.value, va, i, x + 1);
    var vs := ValueTokens(m.value, va, i, x + 1);
    forall k | x + 1 < k < y ensures x + 1 <= ts[k].parent < k {
      assert ts[k] == ts[x + 1..y][k - x - 1] == vs[k - x - 1];
    }
    assert ts[x + 1] == ts[x + 1..y][0] == vs[0];
    FirstSkips(ts, i, x + 2, y);
    RestParents(ts, ms, at, i, x, y);
  }

  /** Behind the first member's value, parents are the object, its ancestors, or later tokens. */
  lemma RestParents(ts: seq<Token>, ms: Members, at: nat, i: nat, x: nat, y: nat)
    requires ms.Cons? && ms.head.key.Key? && Rest(ts, ms, at, i, x) && y == x + 1 + Size(ms.head.value)
    ensures forall k :: y <= k < |ts| ==> ts[k].parent < x + 1 || y <= ts[k].parent
    ensures forall k :: x + MembersSize(ms) <= k < |ts| ==> ts[k].parent < i || x + MembersSize(ms) <= ts[k].parent
  {
    hide ValueTokens, KeyText, Quoted, MemberText, Text, MembersTokens;
    FirstMemberTokens(ts, ms, at, i, x);
    var next, end := at + |MemberText(ms.head)| + 1, x + MembersSize(ms);
    MembersCounted(ms.tail, next, i, y);
    var tail := MembersTokens(ms.tail, next, i, y);
    forall k | y <= k < end ensures ts[k].parent < x + 1 || y <= ts[k].parent {
      assert ts[k] == ts[y..y + MembersSize(ms.tail)][k - y] == tail[k - y];
    }
  }

  lemma WalkEnd(ts: seq<Token>, at: nat, i: nat, x: nat)
    requires Rest(ts, Nil, at, i, x)
    ensures FirstChild(ts, i, x) == -1
  {
    FirstSkips(ts, i, x, |ts|);
  }

  /** What the walk finds at the n-th member. */
  ghost predicate Step(bytes: seq<byte>, ts: seq<Token>, ms: Members, i: nat, x: nat, n: nat)
    requires n < Len(ms)
  {
    var k := KeyIndex(ms, x, n);
    && (exists valueAt :: MemberHere(bytes, ts, i, Nth(ms, n), k, valueAt))
    && FirstChild(ts, i, k + 1) == k + 1
    && FirstChild(ts, i, k + 2) == if n + 1 < Len(ms) then KeyIndex(ms, x, n + 1) else -1
  }

  /** The walk over a whole object finds its n-th member. */
  ghost predicate Found(bytes: seq<byte>, ts: seq<Token>, ms: Members, i: nat, n: nat)
    requires n < Len(ms)
  {
    Step(bytes, ts, ms, i, i + 1, n)
  }

  /** The first member of the walk. */
  lemma WalkHere(bytes: seq<byte>, ts: seq<Token>, ms: Members, at: nat, i: nat, x: nat)
    requires Rest(ts, ms, at, i, x) && Written(bytes, ms, at) && ms.Cons?
    ensures FirstChild(ts, i, x) == x && Len(ms) > 0 && Step(bytes, ts, ms, i, x, 0)
  {
    hide MemberHere, Rest, Written, MemberText, KeyText, MemberSize, FirstChild;
    WalkStep(bytes, ts, ms, at, i, x);
    var next, y := at + |MemberText(ms.head)| + 1, x + MemberSize(ms.head);
    assert MemberHere(bytes, ts, i, Nth(ms, 0), KeyIndex(ms, x, 0), at + |ms.head.lead| + |KeyText(ms.head.key)|);
    assert Len(ms) == 1 + Len(ms.tail);
    if ms.tail.Cons? {
      WalkStep(bytes, ts, ms.tail, next, i, y);
      assert KeyIndex(ms, x, 1) == KeyIndex(ms.tail, y, 0);
    } else {
      WalkEnd(ts, next, i, y);
    }
  }

  /** Every member of an object is found where it should be, key and value in turn. */
  lemma {:induction false} Walk(bytes: seq<byte>, ts: seq<Token>, ms: Members, at: nat, i: nat, x: nat, n: nat)
    requires Rest(ts, ms, at, i, x) && Written(bytes, ms, at) && n < Len(ms)
    ensures FirstChild(ts, i, x) == x && Step(bytes, ts, ms, i, x, n)
    decreases ms
  {
    hide MemberHere, Rest, Written, MemberText, KeyText, MemberSize, FirstChild;
    if n == 0 {
      WalkHere(bytes, ts, ms, at, i, x);
    } else {
      WalkStep(bytes, ts, ms, at, i, x);
      var y := x + MemberSize(ms.head);
      Walk(bytes, ts, ms.tail, at + |MemberText(ms.head)| + 1, i, y, n - 1);
      assert Nth(ms, n) == Nth(ms.tail, n - 1) && KeyIndex(ms, x, n) == KeyIndex(ms.tail, y, n - 1);
      assert KeyIndex(ms, x, n + 1) == KeyIndex(ms.tail, y, n);
    }
  }

  // ---------- objects ----------

  /** Object v stands at token i and at offset at of the text. */
  ghost predicate ObjectAt(bytes: seq<byte>, ts: seq<Token>, v: Value, at: nat, parent: int, i: nat) {
    && v.Composite? && v.isObject && Ok(v) && Hosts(ts, v, at, parent, i) && Stands(bytes, at, Text(v))
  }

  /** The first key, or none. */
  function FirstKey(v: Value, i: nat): int
    requires v.Composite?
  {
    if v.members.Nil? then -1 else i + 1
  }

  lemma ObjectWalk(bytes: seq<byte>, ts: seq<Token>, v: Value, at: nat, parent: int, i: nat)
    requires ObjectAt(bytes, ts, v, at, parent, i)
    ensures FirstChild(ts, i, 0) == FirstKey(v, i)
    ensures forall n :: 0 <= n < Len(v.members) ==> Found(bytes, ts, v.members, i, n)
  {
    hide Hosts, Step, Rest, Written, MembersText;
    HostsMembers(ts, v, at, parent, i);
    ObjectText(bytes, v, at);
    if v.members.Nil? {
      WalkEnd(ts, at + 1, i, i + 1);
    } else {
      Walk(bytes, ts, v.members, at + 1, i, i + 1, 0);
    }
    forall n | 0 <= n < Len(v.members) ensures Found(bytes, ts, v.members, i, n) {
      Walk(bytes, ts, v.members, at + 1, i, i + 1, n);
    }
  }

  lemma ObjectText(bytes: seq<byte>, v: Value, at: nat)
    requires v.Composite? && v.isObject && Ok(v) && Stands(bytes, at, Text(v))
    ensures Written(bytes, v.members, at + 1)
  {
    hide MembersText, Stands;
    if v.members.Cons? {
      StandsSplit(bytes, at, [Open(true)], MembersText(v.members) + [Close(true)]);
      StandsSplit(bytes, at + 1, MembersText(v.members), [Close(true)]);
    }
  }

  lemma {:induction false} KeyIndexGrows(ms: Members, x: nat, a: nat, b: nat)
    requires a < b <= Len(ms)
    ensures KeyIndex(ms, x, a) < KeyIndex(ms, x, b)
    decreases ms
  {
    if a > 0 {
      KeyIndexGrows(ms.tail, x + MemberSize(ms.head), a - 1, b - 1);
    } else if b > 1 {
      KeyIndexGrows(ms.tail, x + MemberSize(ms.head), 0, b - 1);
    }
  }

  // ---------- duplicate keys ----------

  function KeyOf(ms: Members, n: nat): seq<byte>
    requires n < Len(ms)
  {
    var k := Nth(ms, n).key;
    if k.Key? && CharsOk(k.chars) then Decoded(k.chars) else []
  }

  /** No two keys decode to the same text. */
  predicate KeysDistinct(ms: Members) {
    forall a, b :: 0 <= a < b < Len(ms) ==> KeyOf(ms, a) != KeyOf(ms, b)
  }

  /** Some other key equals the a-th. */
  predicate HasTwin(ms: Members, a: nat)
    requires a < Len(ms)
  {
    exists b :: 0 <= b < Len(ms) && b != a && KeyOf(ms, b) == KeyOf(ms, a)
  }

  /** None of the first n keys has a twin. */
  predicate NoTwins(ms: Members, n: nat)
    requires n <= Len(ms)
  {
    forall a :: 0 <= a < n ==> !HasTwin(ms, a)
  }

  lemma TwinsMean(ms: Members)
    ensures KeysDistinct(ms) <==> NoTwins(ms, Len(ms))
    ensures forall a :: 0 <= a < Len(ms) && HasTwin(ms, a) ==> !KeysDistinct(ms)
  {
    hide KeyOf;
    if NoTwins(ms, Len(ms)) {
      forall a, b | 0 <= a < b < Len(ms) ensures KeyOf(ms, a) != KeyOf(ms, b) {
        assert !HasTwin(ms, a);
      }
    }
  }

  /** Compares every key with every other, by decoded text. */
  method HasUniqueKeys(bytes: seq<byte>, ts: seq<Token>, i: nat, ghost v: Value, ghost at: nat, ghost parent: int)
    returns (unique: bool)
    requires ObjectAt(bytes, ts, v, at, parent, i)
    ensures v.Composite? && unique == KeysDistinct(v.members)
  {
    hide Found, KeyOf, ObjectAt, KeyIndex, KeysDistinct, HasTwin, TokenOf, Hosts, Decoded, Text, CharOk, FirstChild;
    ObjectWalk(bytes, ts, v, at, parent, i);
    IsObject(bytes, ts, v, at, parent, i);
    TwinsMean(v.members);
    ghost var ms := v.members;
    ghost var a: nat := 0;
    var first: int := -1;
    while true
      invariant a <= Len(ms) && -1 <= first && FirstChild(ts, i, first + 1) == KeyOrEnd(ms, i, a) && NoTwins(ms, a)
      decreases Len(ms) - a
    {
      first := NextDirectChild(ts, i, first);
      if first < 0 {
        return true;
      }
      MemberFound(bytes, ts, ms, i, a);
      var same := SameAsAnother(bytes, ts, i, first, v, at, parent, a);
      if same {
        return false;
      }
      first := NextDirectChild(ts, i, first);
      a := a + 1;
    }
  }

  lemma IsObject(bytes: seq<byte>, ts: seq<Token>, v: Value, at: nat, parent: int, i: nat)
    requires ObjectAt(bytes, ts, v, at, parent, i)
    ensures v.Composite? && v.isObject && FirstKey(v, i) == KeyOrEnd(v.members, i, 0)
  {
  }

  /** The token of the n-th key, or -1 behind the last. */
  function KeyOrEnd(ms: Members, i: nat, n: nat): int
    requires n <= Len(ms)
  {
    if n < Len(ms) then KeyIndex(ms, i + 1, n) else -1
  }

  /** The n-th member as the walk delivers it. */
  lemma MemberFound(bytes: seq<byte>, ts: seq<Token>, ms: Members, i: nat, n: nat)
    requires n < Len(ms) && Found(bytes, ts, ms, i, n)
    ensures var k := KeyIndex(ms, i + 1, n); var m := Nth(ms, n);
      && k + 1 < |ts| && i < k && m.key.Key? && TokenOf(bytes, ts[k], m.key.chars) && KeyOf(ms, n) == Decoded(m.key.chars)
      && FirstChild(ts, i, k + 1) == k + 1 && FirstChild(ts, i, k + 2) == KeyOrEnd(ms, i, n + 1)
      && Ok(m.value) && exists valueAt :: Hosts(ts, m.value, valueAt, i, k + 1) && Stands(bytes, valueAt, Text(m.value))
  {
    hide Hosts, TokenOf, Stands, Text, Decoded, Ok;
    var k, m := KeyIndex(ms, i + 1, n), Nth(ms, n);
    var valueAt :| MemberHere(bytes, ts, i, m, k, valueAt);
    TokenKey(bytes, ts[k], m.key.chars);
  }

  lemma TokenKey(bytes: seq<byte>, t: Token, cs: seq<Char>)
    requires TokenOf(bytes, t, cs)
    ensures CharsOk(cs)
  {
  }

  /** The inner loop: whether some other key equals the a-th. */
  method SameAsAnother(bytes: seq<byte>, ts: seq<Token>, i: nat, first: nat, ghost v: Value, ghost at: nat, ghost parent: int, ghost a: nat)
    returns (same: bool)
    requires ObjectAt(bytes, ts, v, at, parent, i) && v.Composite? && a < Len(v.members) && first == KeyIndex(v.members, i + 1, a)
    ensures same == HasTwin(v.members, a)
  {
    hide Found, KeyOf, ObjectAt, TokenOf, KeyIndex, Hosts, Decoded, Text, CharOk, FirstChild;
    ObjectWalk(bytes, ts, v, at, parent, i);
    IsObject(bytes, ts, v, at, parent, i);
    ghost var ms, b := v.members, 0;
    ghost var len := Len(ms);
    MemberFound(bytes, ts, ms, i, a);
    var second: int := -1;
    while true
      invariant b <= len && -1 <= second && FirstChild(ts, i, second + 1) == KeyOrEnd(ms, i, b)
      invariant forall d :: 0 <= d < b && d != a ==> KeyOf(ms, d) != KeyOf(ms, a)
      decreases len - b
    {
      second := NextDirectChild(ts, i, second);
      if second < 0 {
        return false;
      }
      MemberFound(bytes, ts, ms, i, b);
      if second != first {
        same := StringsEqual(bytes, ts[first], ts[second], Nth(ms, a).key.chars, Nth(ms, b).key.chars);
        if same {
          return;
        }
      } else if a < b {
        KeyIndexGrows(ms, i + 1, a, b);
      } else if b < a {
        KeyIndexGrows(ms, i + 1, b, a);
      }
      second := NextDirectChild(ts, i, second);
      b := b + 1;
    }
  }
}
