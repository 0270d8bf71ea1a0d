/** Names: '/'-separated relative paths shared by mutable keys, bundle entries and virtual files,
    and their comparison after ASCII case folding. A name handed over as a C string has no NUL. */
module Paths {
  import opened Bytes
  import Utf8

  const SLASH: byte := 0x2f
  const BACKSLASH: byte := 0x5c
  const DOT: byte := 0x2e

  predicate NulFree(s: seq<byte>) {
    forall i :: 0 <= i < |s| ==> s[i] != 0
  }

  // ---------- what a name may be ----------

  function FirstSlash(s: seq<byte>): (k: nat)
    ensures k <= |s| && (k < |s| ==> s[k] == SLASH)
    ensures forall i :: 0 <= i < k ==> s[i] != SLASH
  {
    if s == [] || s[0] == SLASH then 0 else 1 + FirstSlash(s[1..])
  }

  /** The components between slashes; there is always at least one. */
  function Components(s: seq<byte>): seq<seq<byte>>
    decreases |s|
  {
    var k := FirstSlash(s);
    if k == |s| then [s] else [s[..k]] + Components(s[k + 1..])
  }

  predicate IsPlainComponent(c: seq<byte>) {
    c != [] && c != [DOT] && c != [DOT, DOT]
  }

  predicate AllPlain(cs: seq<seq<byte>>) {
    forall i :: 0 <= i < |cs| ==> IsPlainComponent(cs[i])
  }

  /** A relative path with no empty, "." or ".." component, no backslash and no NUL, in UTF-8. */
  predicate IsPath(s: seq<byte>) {
    && AllPlain(Components(s))
    && Utf8.Valid(s)
    && NulFree(s)
    && BACKSLASH !in s
  }

  /** No slash in path[start..k]. */
  predicate SlashFree(s: seq<byte>, start: nat, k: nat)
    requires k <= |s|
  {
    forall i :: start <= i < k ==> s[i] != SLASH
  }

  lemma SlashFreeNone(s: seq<byte>, k: nat)
    requires k <= |s|
    ensures SlashFree(s, k, k)
  {
  }

  lemma SlashFreeMore(s: seq<byte>, start: nat, k: nat)
    requires k < |s| && SlashFree(s, start, k) && s[k] != SLASH
    ensures SlashFree(s, start, k + 1)
  {
  }

  lemma ComponentsStep(s: seq<byte>, start: nat, k: nat)
    requires start <= k <= |s| && SlashFree(s, start, k) && (k < |s| ==> s[k] == SLASH)
    ensures k == |s| ==> Components(s[start..]) == [s[start..k]]
    ensures k < |s| ==> Components(s[start..]) == [s[start..k]] + Components(s[k + 1..])
  {
    var t, n := s[start..], k - start;
    assert FirstSlash(t) == n;
    assert t[..n] == s[start..k];
    if k < |s| {
      assert t[n + 1..] == s[k + 1..];
      assert Components(t) == [t[..n]] + Components(t[n + 1..]);
    } else {
      assert Components(t) == [t] && t[..n] == t;
    }
  }

  /** A slash at either end leaves an empty component. */
  lemma {:induction false} OuterSlash(s: seq<byte>)
    requires s == [] || s[0] == SLASH || s[|s| - 1] == SLASH
    ensures !AllPlain(Components(s))
    decreases |s|
  {
    var k := FirstSlash(s);
    FirstComponent(s);
    if k < |s| {
      hide Components, AllPlain;
      AllPlainStep(s[..k], Components(s[k + 1..]));
      if k > 0 {
        OuterSlash(s[k + 1..]);
      }
    }
  }

  lemma {:induction false} FirstComponent(s: seq<byte>)
    ensures var k := FirstSlash(s);
      Components(s) == if k == |s| then [s] else [s[..k]] + Components(s[k + 1..])
    ensures s != [] && s[0] == SLASH ==> FirstSlash(s) == 0
    ensures s == [] ==> !AllPlain(Components(s))
  {
    hide FirstSlash;
    if s == [] {
      assert Components(s)[0] == [];
    }
  }

  lemma AllPlainStep(c: seq<byte>, tail: seq<seq<byte>>)
    ensures AllPlain([c] + tail) <==> IsPlainComponent(c) && AllPlain(tail)
  {
    if AllPlain([c] + tail) {
      assert ([c] + tail)[0] == c;
      assert forall i :: 0 <= i < |tail| ==> ([c] + tail)[i + 1] == tail[i];
    }
  }

  /** Every component from offset start on is plain. */
  ghost predicate PlainFrom(path: seq<byte>, start: nat)
    requires start <= |path|
  {
    AllPlain(Components(path[start..]))
  }

  /** Closing the component path[start..k] reduces the question to the components after it. */
  lemma CloseComponent(path: seq<byte>, start: nat, k: nat)
    requires start <= k <= |path| && SlashFree(path, start, k) && (k < |path| ==> path[k] == SLASH)
    ensures k < |path| ==> (PlainFrom(path, start) <==> PlainAt(path, start, k) && PlainFrom(path, k + 1))
    ensures k == |path| ==> (PlainFrom(path, start) <==> PlainAt(path, start, k))
  {
    ComponentsStep(path, start, k);
    PlainAtMeans(path, start, k);
    AllPlainStep(path[start..k], if k < |path| then Components(path[k + 1..]) else []);
  }

  /** The component test of the source, on its length and its dots. */
  predicate PlainAt(path: seq<byte>, component: nat, index: nat)
    requires component <= index <= |path|
  {
    !(index == component ||
      (index - component == 1 && path[component] == DOT) ||
      (index - component == 2 && path[component] == DOT && path[component + 1] == DOT))
  }

  lemma PlainAtMeans(path: seq<byte>, component: nat, index: nat)
    requires component <= index <= |path|
    ensures PlainAt(path, component, index) == IsPlainComponent(path[component..index])
  {
    var c := path[component..index];
    if index - component == 1 {
      assert c == [path[component]];
    } else if index - component == 2 {
      assert c == [path[component], path[component + 1]];
    }
  }

  lemma SlashFreeAll(path: seq<byte>)
    ensures SlashFree(path, 0, |path|) ==> SLASH !in path
  {
  }

  /** The scan: component boundaries are the slashes and the end of the name. */
  method ScanComponents(path: seq<byte>) returns (ok: bool, hasSeparator: bool)
    requires path != []
    ensures ok == (PlainFrom(path, 0) && NulFree(path) && BACKSLASH !in path)
    ensures ok ==> hasSeparator == (SLASH in path)
  {
    hide PlainFrom, SlashFree;
    hasSeparator := false;
    var component, index := 0, 0;
    SlashFreeNone(path, 0);
    while index < |path|
      invariant 0 <= component <= index <= |path|
      invariant SlashFree(path, component, index)
      invariant forall i :: 0 <= i < index ==> path[i] != 0 && path[i] != BACKSLASH
      invariant PlainFrom(path, 0) == PlainFrom(path, component)
      invariant hasSeparator ==> SLASH in path
      invariant !hasSeparator ==> component == 0
    {
      if path[index] != SLASH {
        if path[index] == 0 || path[index] == BACKSLASH {
          return false, false;
        }
        SlashFreeMore(path, component, index);
        index := index + 1;
        continue;
      }
      CloseComponent(path, component, index);
      if !PlainAt(path, component, index) {
        return false, false;
      }
      if component == 0 && index > 0 {
        hasSeparator := true;
      }
      component := index + 1;
      index := index + 1;
      SlashFreeNone(path, index);
    }
    CloseComponent(path, component, index);
    SlashFreeAll(path);
    ok := PlainAt(path, component, index);
  }

  /** The validity check of stored names; hasSeparator is what the PRIVATE namespace demands. */
  method PathIsValid(path: seq<byte>) returns (ok: bool, hasSeparator: bool)
    ensures ok == IsPath(path)
    ensures ok ==> hasSeparator == (SLASH in path)
  {
    if |path| == 0 || path[0] == SLASH || path[|path| - 1] == SLASH {
      OuterSlash(path);
      return false, false;
    }
    var utf8, bad := Utf8.Validate(path);
    if !utf8 {
      return false, false;
    }
    assert path[0..] == path;
    ok, hasSeparator := ScanComponents(path);
  }

  // ---------- ASCII case folding ----------

  function FoldByte(b: byte): byte {
    if 0x41 <= b <= 0x5a then b + 32 else b
  }

  function Fold(s: seq<byte>): (r: seq<byte>)
    ensures |r| == |s|
    ensures forall i :: 0 <= i < |s| ==> r[i] == FoldByte(s[i])
  {
    seq(|s|, i requires 0 <= i < |s| => FoldByte(s[i]))
  }

  /** Names fold alike exactly if they differ at most in the case of the letters A to Z. */
  lemma FoldAlike(a: seq<byte>, b: seq<byte>)
    ensures Fold(a) == Fold(b) <==> |a| == |b| && forall i :: 0 <= i < |a| ==> SameLetter(a[i], b[i])
  {
    if Fold(a) == Fold(b) {
      forall i | 0 <= i < |a| ensures SameLetter(a[i], b[i]) {
        assert Fold(a)[i] == Fold(b)[i];
      }
    }
  }

  predicate SameLetter(a: byte, b: byte) {
    || a == b
    || ('A' as int <= a <= 'Z' as int && b == a + ('a' as int - 'A' as int))
    || ('A' as int <= b <= 'Z' as int && a == b + ('a' as int - 'A' as int))
  }

  /** The byte a C string yields at an index up to and including its terminator. */
  function CharAt(s: seq<byte>, i: nat): byte
    requires i <= |s|
  {
    if i == |s| then 0 else s[i]
  }

  lemma FoldDiffers(first: seq<byte>, second: seq<byte>, index: nat)
    requires index <= |first| && index <= |second|
    requires FoldByte(CharAt(first, index)) != FoldByte(CharAt(second, index))
    ensures Fold(first) != Fold(second)
  {
    if index < |first| && index < |second| {
      assert Fold(first)[index] != Fold(second)[index];
    }
  }

  /** Compares two C strings byte by byte after folding, up to the first terminator. */
  method AsciiFoldEqual(first: seq<byte>, second: seq<byte>) returns (equal: bool)
    requires NulFree(first) && NulFree(second)
    ensures equal == (Fold(first) == Fold(second))
  {
    var index := 0;
    while true
      invariant 0 <= index <= |first| && index <= |second|
      invariant Fold(first)[..index] == Fold(second)[..index]
      decreases |first| - index
    {
      var a, b := FoldByte(CharAt(first, index)), FoldByte(CharAt(second, index));
      if a != b {
        FoldDiffers(first, second, index);
        return false;
      }
      if a == 0 {
        assert Fold(first) == Fold(first)[..index] && Fold(second) == Fold(second)[..index];
        return true;
      }
      index := index + 1;
    }
  }
}
