/** What the token array says about the document: spans nest, siblings follow one another, child
    counts count, and the direct children of an object are its keys and values in turn. */
module JsonTree {
  import opened JsonText
  import opened JsonTokens

  // ---------- nesting ----------

  /** Token k lies strictly inside its parent, which comes before it; or its parent is the given
      one, outside this stretch of tokens. */
  predicate Inside(ts: seq<Token>, parent: int, index: nat, k: nat)
    requires k < |ts|
  {
    ts[k].parent == parent ||
    (index <= ts[k].parent < index + k &&
     var p := ts[ts[k].parent - index]; p.start < ts[k].start && ts[k].end < p.end)
  }

  /** A stretch of tokens starting at index, for the bytes [lo, hi) of a container. */
  predicate WellNested(ts: seq<Token>, parent: int, index: nat, lo: nat, hi: nat) {
    && (forall k :: 0 <= k < |ts| ==> lo <= ts[k].start < ts[k].end <= hi)
    && (forall k :: 0 <= k < |ts| ==> Inside(ts, parent, index, k))
    && (forall j, k :: 0 <= j < k < |ts| && ts[j].parent == ts[k].parent ==> ts[j].end <= ts[k].start)
  }

  lemma NestJoin(a: seq<Token>, b: seq<Token>, parent: int, index: nat, lo: nat, mid: nat, mid2: nat, hi: nat)
    requires WellNested(a, parent, index, lo, mid) && WellNested(b, parent, index + |a|, mid2, hi)
    requires parent < index && lo <= mid <= mid2 <= hi
    ensures WellNested(a + b, parent, index, lo, hi)
  {
    var ts := a + b;
    forall k | 0 <= k < |ts| ensures Inside(ts, parent, index, k) {
      if k < |a| {
        assert ts[k] == a[k] && Inside(a, parent, index, k);
      } else {
        assert ts[k] == b[k - |a|] && Inside(b, parent, index + |a|, k - |a|);
      }
    }
    forall j, k | 0 <= j < k < |ts| && ts[j].parent == ts[k].parent ensures ts[j].end <= ts[k].start {
      if k < |a| {
        assert ts[j] == a[j] && ts[k] == a[k];
      } else if j >= |a| {
        assert ts[j] == b[j - |a|] && ts[k] == b[k - |a|];
      } else {
        assert ts[j] == a[j] && ts[k] == b[k - |a|];
      }
    }
  }

  lemma NestOne(t: Token, parent: int, index: nat, lo: nat, hi: nat)
    requires lo <= t.start < t.end <= hi && t.parent == parent
    ensures WellNested([t], parent, index, lo, hi)
  {
  }

  lemma NestUnder(t: Token, inner: seq<Token>, index: nat)
    requires t.parent < index && t.start + 1 < t.end && WellNested(inner, index, index + 1, t.start + 1, t.end - 1)
    ensures WellNested([t] + inner, t.parent, index, t.start, t.end)
  {
    var ts := [t] + inner;
    forall k | 0 <= k < |ts| ensures Inside(ts, t.parent, index, k) {
      if k > 0 {
        assert ts[k] == inner[k - 1] && Inside(inner, index, index + 1, k - 1);
      }
    }
    forall j, k | 0 <= j < k < |ts| && ts[j].parent == ts[k].parent ensures ts[j].end <= ts[k].start {
      assert ts[k] == inner[k - 1] && Inside(inner, index, index + 1, k - 1);
      if j > 0 {
        assert ts[j] == inner[j - 1];
      }
    }
  }

  lemma TextNonEmpty(v: Value)
    requires Ok(v)
    ensures |Text(v)| > 0 && (v.Composite? ==> |Text(v)| > 1)
  {
  }

  /** The spans of a document nest: every token lies strictly inside its parent, children of one
      parent follow one another without overlap. */
  lemma {:induction false} ValueNested(v: Value, at: nat, parent: int, index: nat)
    requires Ok(v) && parent < index
    ensures WellNested(ValueTokens(v, at, parent, index), parent, index, at, at + |Text(v)|)
    decreases v
  {
    hide WellNested;
    TextNonEmpty(v);
    if v.Composite? {
      var t := Token(KindOf(v), at, at + |Text(v)|, parent, Children(v.members));
      MembersNested(v.members, at + 1, index, index + 1, v.isObject, at + |Text(v)| - 1);
      NestUnder(t, MembersTokens(v.members, at + 1, index, index + 1), index);
    } else {
      NestOne(Token(KindOf(v), at, at + |Text(v)|, parent, 0), parent, index, at, at + |Text(v)|);
    }
  }

  lemma {:induction false} MemberNested(m: Member, at: nat, parent: int, index: nat, isObject: bool)
    requires KeyOk(m.key, isObject) && Ok(m.value) && parent < index
    ensures WellNested(MemberTokens(m, at, parent, index), parent, index, at, at + |MemberText(m)|)
    decreases m
  {
    hide WellNested, Ok, Text, Quoted;
    var q := at + |m.lead|;
    var k := q + |KeyText(m.key)|;
    KeyNested(m.key, q, parent, index);
    ValueNested(m.value, k, parent, index + |KeyTokens(m.key, q, parent)|);
    NestJoin(KeyTokens(m.key, q, parent), ValueTokens(m.value, k, parent, index + |KeyTokens(m.key, q, parent)|), parent, index,
             q, k, k, k + |Text(m.value)|);
    NestWiden(MemberTokens(m, at, parent, index), parent, index, q, k + |Text(m.value)|, at, at + |MemberText(m)|);
  }

  lemma KeyNested(key: Key, at: nat, parent: int, index: nat)
    ensures WellNested(KeyTokens(key, at, parent), parent, index, at, at + |KeyText(key)|)
  {
    if key.Key? {
      NestOne(KeyTokens(key, at, parent)[0], parent, index, at, at + |KeyText(key)|);
    }
  }

  lemma NestWiden(ts: seq<Token>, parent: int, index: nat, lo: nat, hi: nat, lower: nat, higher: nat)
    requires WellNested(ts, parent, index, lo, hi) && lower <= lo && hi <= higher
    ensures WellNested(ts, parent, index, lower, higher)
  {
  }

  lemma {:induction false} MembersNested(ms: Members, at: nat, parent: int, index: nat, isObject: bool, hi: nat)
    requires MembersOk(ms, isObject) && parent < index
    requires ms.Nil? || hi == at + |MembersText(ms)|
    ensures WellNested(MembersTokens(ms, at, parent, index), parent, index, at, hi)
    decreases ms
  {
    hide Ok, KeyOk, MemberText, MemberTokens;
    if ms.Cons? {
      hide WellNested;
      var first := MemberTokens(ms.head, at, parent, index);
      var mid := at + |MemberText(ms.head)|;
      MemberNested(ms.head, at, parent, index, isObject);
      if ms.tail.Nil? {
        assert MembersTokens(ms, at, parent, index) == first;
      } else {
        MembersNested(ms.tail, mid + 1, parent, index + |first|, isObject, hi);
        NestJoin(first, MembersTokens(ms.tail, mid + 1, parent, index + |first|), parent, index, at, mid, mid + 1, hi);
      }
    }
  }

  // ---------- counting ----------

  /** How many tokens have the given parent. */
  function CountOf(ts: seq<Token>, parent: int): nat {
    if ts == [] then 0 else (if ts[0].parent == parent then 1 else 0) + CountOf(ts[1..], parent)
  }

  lemma {:induction false} CountJoin(a: seq<Token>, b: seq<Token>, parent: int)
    ensures CountOf(a + b, parent) == CountOf(a, parent) + CountOf(b, parent)
    decreases |a|
  {
    if a == [] {
      assert a + b == b;
    } else {
      assert (a + b)[1..] == a[1..] + b;
      CountJoin(a[1..], b, parent);
    }
  }

  lemma {:induction false} CountNone(ts: seq<Token>, parent: int)
    requires forall k :: 0 <= k < |ts| ==> ts[k].parent != parent
    ensures CountOf(ts, parent) == 0
  {
    if ts != [] {
      CountNone(ts[1..], parent);
    }
  }

  /** Every token's child count is the number of tokens that name it as their parent; the rest of
      the stretch names only the given parent. */
  predicate WellCounted(ts: seq<Token>, parent: int, index: nat) {
    && (forall k :: 0 <= k < |ts| ==> ts[k].parent == parent || index <= ts[k].parent < index + k)
    && (forall k :: 0 <= k < |ts| ==> ts[k].children == CountOf(ts, index + k))
  }

  lemma CountedJoin(a: seq<Token>, b: seq<Token>, parent: int, index: nat)
    requires WellCounted(a, parent, index) && WellCounted(b, parent, index + |a|) && parent < index
    ensures WellCounted(a + b, parent, index) && CountOf(a + b, parent) == CountOf(a, parent) + CountOf(b, parent)
  {
    hide CountOf;
    CountJoin(a, b, parent);
    var ts := a + b;
    forall k | 0 <= k < |ts| ensures ts[k].children == CountOf(ts, index + k) {
      CountJoin(a, b, index + k);
      if k < |a| {
        CountNone(b, index + k);
      } else {
        CountNone(a, index + k);
        assert ts[k] == b[k - |a|];
      }
    }
  }

  lemma CountedUnder(t: Token, inner: seq<Token>, index: nat)
    requires t.parent < index && WellCounted(inner, index, index + 1) && t.children == CountOf(inner, index)
    ensures WellCounted([t] + inner, t.parent, index) && CountOf([t] + inner, t.parent) == 1
  {
    var ts := [t] + inner;
    assert ts[1..] == inner;
    CountNone(inner, t.parent);
    forall k | 0 <= k < |ts| ensures ts[k].children == CountOf(ts, index + k) {
      if k > 0 {
        assert ts[k] == inner[k - 1];
      }
    }
  }

  lemma CountedOne(t: Token, index: nat)
    requires t.parent < index && t.children == 0
    ensures WellCounted([t], t.parent, index) && CountOf([t], t.parent) == 1
  {
    assert [t][1..] == [];
  }

  /** In a document every child count is exact. */
  lemma {:induction false} ValueCounted(v: Value, at: nat, parent: int, index: nat)
    requires parent < index
    ensures WellCounted(ValueTokens(v, at, parent, index), parent, index)
    ensures CountOf(ValueTokens(v, at, parent, index), parent) == 1
    decreases v
  {
    hide WellCounted, CountOf, Text;
    if v.Composite? {
      var t := Token(KindOf(v), at, at + |Text(v)|, parent, Children(v.members));
      MembersCounted(v.members, at + 1, index, index + 1);
      CountedUnder(t, MembersTokens(v.members, at + 1, index, index + 1), index);
    } else {
      CountedOne(Token(KindOf(v), at, at + |Text(v)|, parent, 0), index);
    }
  }

  lemma {:induction false} MemberCounted(m: Member, at: nat, parent: int, index: nat)
    requires parent < index
    ensures WellCounted(MemberTokens(m, at, parent, index), parent, index)
    ensures CountOf(MemberTokens(m, at, parent, index), parent) == Width(m)
    decreases m
  {
    hide WellCounted, CountOf, Text, KeyText, Quoted;
    var q := at + |m.lead|;
    var ks := KeyTokens(m.key, q, parent);
    ValueCounted(m.value, q + |KeyText(m.key)|, parent, index + |ks|);
    if m.key.Key? {
      CountedOne(ks[0], index);
      assert ks == [ks[0]];
      CountedJoin(ks, ValueTokens(m.value, q + |KeyText(m.key)|, parent, index + 1), parent, index);
    } else {
      assert MemberTokens(m, at, parent, index) == ValueTokens(m.value, q + |KeyText(m.key)|, parent, index);
    }
  }

  lemma {:induction false} MembersCounted(ms: Members, at: nat, parent: int, index: nat)
    requires parent < index
    ensures WellCounted(MembersTokens(ms, at, parent, index), parent, index)
    ensures CountOf(MembersTokens(ms, at, parent, index), parent) == Children(ms)
    decreases ms
  {
    hide MemberTokens, MemberText;
    if ms.Cons? {
      hide WellCounted, CountOf;
      var first := MemberTokens(ms.head, at, parent, index);
      var next := at + |MemberText(ms.head)| + 1;
      MemberCounted(ms.head, at, parent, index);
      MembersCounted(ms.tail, next, parent, index + |first|);
      CountedJoin(first, MembersTokens(ms.tail, next, parent, index + |first|), parent, index);
    }
  }
}
