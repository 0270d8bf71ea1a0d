/** The sort of the C library, names in byte order, and the test that names stay distinct on a
    case-insensitive file system. */
module Sorting {
  import opened Bytes
  import opened Paths

  // ---------- sorting ----------

  ghost predicate IsOrder<T(!new)>(leq: (T, T) -> bool) {
    && (forall a, b :: leq(a, b) || leq(b, a))
    && (forall a, b, c :: leq(a, b) && leq(b, c) ==> leq(a, c))
  }

  predicate IsSorted<T>(s: seq<T>, leq: (T, T) -> bool) {
    forall i, j :: 0 <= i < j < |s| ==> leq(s[i], s[j])
  }

  function Inserted<T>(s: seq<T>, k: nat, x: T): seq<T>
    requires k <= |s|
  {
    s[..k] + [x] + s[k..]
  }

  lemma InsertSorted<T(!new)>(s: seq<T>, k: nat, x: T, leq: (T, T) -> bool)
    requires k <= |s| && IsOrder(leq) && IsSorted(s, leq)
    requires k > 0 ==> leq(s[k - 1], x)
    requires k < |s| ==> leq(x, s[k])
    ensures IsSorted(Inserted(s, k, x), leq)
  {
    var t := Inserted(s, k, x);
    forall i, j | 0 <= i < j < |t| ensures leq(t[i], t[j]) {
      var a, b := t[i], t[j];
      assert a == if i < k then s[i] else if i == k then x else s[i - 1];
      assert b == if j < k then s[j] else if j == k then x else s[j - 1];
      if j == k {
        assert i == k - 1 || leq(s[i], s[k - 1]);
      } else if i == k {
        assert j == k + 1 || leq(s[k], s[j - 1]);
      }
    }
  }

  /** Sorts by any total order, keeping every element as often as it occurs. */
  method Sort<T(!new)>(s: seq<T>, leq: (T, T) -> bool) returns (sorted: seq<T>)
    requires IsOrder(leq)
    ensures IsSorted(sorted, leq) && multiset(sorted) == multiset(s)
  {
    sorted := [];
    for i := 0 to |s|
      invariant IsSorted(sorted, leq) && multiset(sorted) == multiset(s[..i])
    {
      var k := |sorted|;
      while k > 0 && !leq(sorted[k - 1], s[i])
        invariant 0 <= k <= |sorted|
        invariant k < |sorted| ==> leq(s[i], sorted[k])
      {
        k := k - 1;
      }
      InsertSorted(sorted, k, s[i], leq);
      assert s[..i + 1] == s[..i] + [s[i]];
      assert sorted == sorted[..k] + sorted[k..];
      sorted := Inserted(sorted, k, s[i]);
    }
    assert s[..|s|] == s;
  }

  lemma SameElements<T>(a: seq<T>, b: seq<T>)
    requires multiset(a) == multiset(b)
    ensures |a| == |b| && forall x :: x in a <==> x in b
  {
    assert |multiset(a)| == |a| && |multiset(b)| == |b|;
    forall x ensures x in a <==> x in b {
      assert x in multiset(a) <==> x in a;
      assert x in multiset(b) <==> x in b;
    }
  }

  // ---------- byte order ----------

  /** Strict lexicographic order of byte strings. */
  predicate Before(a: seq<byte>, b: seq<byte>)
    decreases |a|
  {
    b != [] && (a == [] || a[0] < b[0] || (a[0] == b[0] && Before(a[1..], b[1..])))
  }

  predicate NotAfter(a: seq<byte>, b: seq<byte>) {
    a == b || Before(a, b)
  }

  lemma {:induction false} BeforeTotal(a: seq<byte>, b: seq<byte>)
    ensures a == b || Before(a, b) || Before(b, a)
    ensures !(Before(a, b) && Before(b, a)) && !Before(a, a)
    decreases |a|
  {
    if a != [] {
      BeforeTotal(a[1..], a[1..]);
      if b != [] {
        BeforeTotal(a[1..], b[1..]);
        assert a == [a[0]] + a[1..] && b == [b[0]] + b[1..];
      }
    }
  }

  lemma {:induction false} BeforeTransitive(a: seq<byte>, b: seq<byte>, c: seq<byte>)
    requires Before(a, b) && Before(b, c)
    ensures Before(a, c)
    decreases |a|
  {
    if a != [] && a[0] == b[0] == c[0] {
      BeforeTransitive(a[1..], b[1..], c[1..]);
    }
  }

  lemma {:induction false} BeforeSkip(a: seq<byte>, b: seq<byte>, n: nat)
    requires n <= |a| && n <= |b| && a[..n] == b[..n]
    ensures Before(a, b) <==> Before(a[n..], b[n..])
    decreases n
  {
    if n == 0 {
      assert a[0..] == a && b[0..] == b;
    } else {
      assert a[0] == a[..n][0] && b[0] == b[..n][0];
      assert a[1..][..n - 1] == a[..n][1..] && b[1..][..n - 1] == b[..n][1..];
      BeforeSkip(a[1..], b[1..], n - 1);
      assert a[1..][n - 1..] == a[n..] && b[1..][n - 1..] == b[n..];
    }
  }

  /** a comes first if it is a proper beginning of b, or smaller where they first differ. */
  predicate SmallerAt(a: seq<byte>, b: seq<byte>, n: nat) {
    n <= |a| && n < |b| && a[..n] == b[..n] && (n == |a| || a[n] < b[n])
  }

  lemma {:induction false} Lexicographic(a: seq<byte>, b: seq<byte>)
    ensures Before(a, b) <==> exists n :: SmallerAt(a, b, n)
    decreases |a|
  {
    if n: nat :| SmallerAt(a, b, n) {
      BeforeSkip(a, b, n);
    }
    if Before(a, b) {
      if a == [] || a[0] < b[0] {
        assert SmallerAt(a, b, 0);
      } else {
        Lexicographic(a[1..], b[1..]);
        var n: nat :| SmallerAt(a[1..], b[1..], n);
        assert a[..n + 1] == [a[0]] + a[1..][..n] && b[..n + 1] == [b[0]] + b[1..][..n];
        assert SmallerAt(a, b, n + 1);
      }
    }
  }

  /** Where two strings first differ decides their order, the end counting as a zero byte. */
  lemma FirstDifference(a: seq<byte>, b: seq<byte>, n: nat)
    requires NulFree(a) && NulFree(b) && n <= |a| && n <= |b| && a[..n] == b[..n]
    ensures CharAt(a, n) < CharAt(b, n) ==> Before(a, b)
    ensures CharAt(a, n) > CharAt(b, n) ==> Before(b, a)
    ensures CharAt(a, n) == CharAt(b, n) == 0 ==> a == b
  {
    BeforeSkip(a, b, n);
    BeforeSkip(b, a, n);
    if CharAt(a, n) == 0 {
      assert a[..n] == a;
    }
    if CharAt(b, n) == 0 {
      assert b[..n] == b;
    }
  }

  /** Compares two C strings byte by byte. */
  method PathCompareBytes(left: seq<byte>, right: seq<byte>) returns (order: int)
    requires NulFree(left) && NulFree(right)
    ensures order < 0 <==> Before(left, right)
    ensures order == 0 <==> left == right
    ensures order > 0 <==> Before(right, left)
  {
    BeforeTotal(left, right);
    var n := 0;
    while CharAt(left, n) != 0 && CharAt(right, n) != 0
      invariant 0 <= n <= |left| && n <= |right| && left[..n] == right[..n]
      decreases |left| - n
    {
      if left[n] != right[n] {
        FirstDifference(left, right, n);
        return if left[n] < right[n] then -1 else 1;
      }
      n := n + 1;
    }
    FirstDifference(left, right, n);
    order := if CharAt(left, n) == CharAt(right, n) then 0 else if CharAt(left, n) == 0 then -1 else 1;
  }

  // ---------- distinct after folding ----------

  predicate FoldDistinct(paths: seq<seq<byte>>) {
    forall i, j :: 0 <= i < j < |paths| ==> Fold(paths[i]) != Fold(paths[j])
  }

  ghost function FoldSet(paths: seq<seq<byte>>): set<seq<byte>> {
    set p | p in paths :: Fold(p)
  }

  lemma FoldSetAppend(paths: seq<seq<byte>>, p: seq<byte>)
    ensures FoldSet(paths + [p]) == FoldSet(paths) + {Fold(p)}
  {
    forall f | f in FoldSet(paths) + {Fold(p)} ensures f in FoldSet(paths + [p]) {
      if f == Fold(p) {
        assert p in paths + [p];
      } else {
        var q :| q in paths && Fold(q) == f;
        assert q in paths + [p];
      }
    }
  }

  /** Names are distinct exactly when folding them gives as many. */
  lemma {:induction false} DistinctCount(paths: seq<seq<byte>>)
    ensures |FoldSet(paths)| <= |paths|
    ensures FoldDistinct(paths) <==> |FoldSet(paths)| == |paths|
  {
    if paths == [] {
      assert FoldSet(paths) == {};
    } else {
      var n := |paths| - 1;
      var init, last := paths[..n], paths[n];
      DistinctCount(init);
      assert paths == init + [last];
      FoldSetAppend(init, last);
      LastDistinct(init, last);
    }
  }

  lemma LastDistinct(init: seq<seq<byte>>, last: seq<byte>)
    ensures FoldDistinct(init + [last]) <==> FoldDistinct(init) && Fold(last) !in FoldSet(init)
  {
    var paths := init + [last];
    assert forall i :: 0 <= i < |init| ==> paths[i] == init[i];
    if Fold(last) in FoldSet(init) {
      var i :| 0 <= i < |init| && Fold(init[i]) == Fold(last);
      assert Fold(paths[i]) == Fold(paths[|init|]);
    }
    if FoldDistinct(init) && Fold(last) !in FoldSet(init) {
      forall i, j | 0 <= i < j < |paths| ensures Fold(paths[i]) != Fold(paths[j]) {
        assert paths[i] in init;
      }
    }
  }

  lemma AppendDistinct(init: seq<seq<byte>>, last: seq<byte>)
    ensures FoldDistinct(init + [last]) <==> FoldDistinct(init) && forall i :: 0 <= i < |init| ==> Fold(init[i]) != Fold(last)
  {
    hide Fold;
    var paths := init + [last];
    if FoldDistinct(paths) {
      forall i | 0 <= i < |init| ensures Fold(init[i]) != Fold(last) {
        assert Fold(paths[i]) != Fold(paths[|init|]);
      }
      forall i, j | 0 <= i < j < |init| ensures Fold(init[i]) != Fold(init[j]) {
        assert Fold(paths[i]) != Fold(paths[j]);
      }
    }
  }

  lemma DistinctPermuted(a: seq<seq<byte>>, b: seq<seq<byte>>)
    requires multiset(a) == multiset(b)
    ensures FoldDistinct(a) == FoldDistinct(b)
  {
    SameElements(a, b);
    assert FoldSet(a) == FoldSet(b);
    DistinctCount(a);
    DistinctCount(b);
  }

  predicate FoldNotAfter(a: seq<byte>, b: seq<byte>) {
    NotAfter(Fold(a), Fold(b))
  }

  lemma FoldOrder()
    ensures IsOrder(FoldNotAfter)
  {
    forall a, b ensures FoldNotAfter(a, b) || FoldNotAfter(b, a) {
      BeforeTotal(Fold(a), Fold(b));
    }
    forall a, b, c | FoldNotAfter(a, b) && FoldNotAfter(b, c) ensures FoldNotAfter(a, c) {
      if Fold(a) != Fold(b) && Fold(b) != Fold(c) {
        BeforeTransitive(Fold(a), Fold(b), Fold(c));
      }
    }
  }

  /** In folded order, names that fold alike stand next to each other. */
  lemma AdjacentEnough(sorted: seq<seq<byte>>, i: nat, j: nat)
    requires IsSorted(sorted, FoldNotAfter) && i < j < |sorted| && Fold(sorted[i]) == Fold(sorted[j])
    ensures Fold(sorted[j - 1]) == Fold(sorted[j])
  {
    if i < j - 1 {
      assert FoldNotAfter(sorted[i], sorted[j - 1]) && FoldNotAfter(sorted[j - 1], sorted[j]);
      BeforeTotal(Fold(sorted[i]), Fold(sorted[j - 1]));
    }
  }

  /** Sorts the names by their folded form and compares neighbours. */
  method PathsPortableUnique(paths: seq<seq<byte>>) returns (unique: bool)
    requires forall i :: 0 <= i < |paths| ==> NulFree(paths[i])
    ensures unique == FoldDistinct(paths)
  {
    hide Fold;
    if |paths| < 2 {
      return true;
    }
    FoldOrder();
    var sorted := Sort(paths, FoldNotAfter);
    hide IsSorted, FoldDistinct, FoldNotAfter;
    DistinctPermuted(paths, sorted);
    SameElements(paths, sorted);
    forall i | 0 <= i < |sorted| ensures NulFree(sorted[i]) {
      assert sorted[i] in paths;
    }
    unique := NeighboursDiffer(sorted);
    if unique {
      NeighboursDistinct(sorted);
    }
  }

  method NeighboursDiffer(sorted: seq<seq<byte>>) returns (differ: bool)
    requires |sorted| > 0 && forall i :: 0 <= i < |sorted| ==> NulFree(sorted[i])
    ensures differ ==> forall k :: 1 <= k < |sorted| ==> Fold(sorted[k - 1]) != Fold(sorted[k])
    ensures !differ ==> !FoldDistinct(sorted)
  {
    hide Fold, NulFree;
    var index := 1;
    while index < |sorted|
      invariant 1 <= index <= |sorted|
      invariant forall k :: 1 <= k < index ==> Fold(sorted[k - 1]) != Fold(sorted[k])
    {
      var equal := AsciiFoldEqual(sorted[index - 1], sorted[index]);
      if equal {
        return false;
      }
      index := index + 1;
    }
    differ := true;
  }

  lemma NeighboursDistinct(sorted: seq<seq<byte>>)
    requires IsSorted(sorted, FoldNotAfter)
    requires forall k :: 1 <= k < |sorted| ==> Fold(sorted[k - 1]) != Fold(sorted[k])
    ensures FoldDistinct(sorted)
  {
    hide Fold, IsSorted;
    forall i, j | 0 <= i < j < |sorted| ensures Fold(sorted[i]) != Fold(sorted[j]) {
      if Fold(sorted[i]) == Fold(sorted[j]) {
        AdjacentEnough(sorted, i, j);
      }
    }
  }
}
