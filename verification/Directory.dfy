/** The slot directory as the reader opens it: which slots are usable after the conflict pass, and
    which object a lookup finds. */
module Directory {
  import opened Paths
  import opened Entries

  predicate SameName(a: Entry, b: Entry) {
    a.ns == b.ns && Fold(a.key) == Fold(b.key)
  }

  /** Two extents overlap, by the test of the source. */
  predicate Overlap(a: Entry, b: Entry) {
    a.offset < b.offset + b.capacity && b.offset < a.offset + a.capacity
  }

  predicate Clash(a: Entry, b: Entry) {
    SameName(a, b) || Overlap(a, b)
  }

  predicate Conflict(a: Slot, b: Slot) {
    a.Occupied? && b.Occupied? && Clash(a.e, b.e)
  }

  lemma ConflictSymmetric(a: Slot, b: Slot)
    ensures Conflict(a, b) == Conflict(b, a)
  {
  }

  // ---------- the conflict pass ----------

  /** No slot before n that was still usable on its own turn knocked slot i out. */
  ghost predicate Spared(slots: seq<Slot>, n: nat, i: nat)
    requires n <= i < |slots|
    decreases n, 0
  {
    && slots[i].Occupied?
    && forall h :: 0 <= h < n ==> !(Spared(slots, h, h) && Conflict(slots[h], slots[i]))
  }

  /** Slot i is usable when its own turn comes. */
  ghost predicate Alive(slots: seq<Slot>, i: nat)
    requires i < |slots|
  {
    Spared(slots, i, i)
  }

  /** Slot i is usable once the pass is over: alive on its turn, and clashing with no later slot
      that had been spared until then. */
  ghost predicate Usable(slots: seq<Slot>, i: nat)
    requires i < |slots|
  {
    && Alive(slots, i)
    && forall j :: i < j < |slots| ==> !(Spared(slots, i, j) && Conflict(slots[i], slots[j]))
  }

  lemma SparedStep(slots: seq<Slot>, n: nat, i: nat)
    requires n < i < |slots|
    ensures Spared(slots, n + 1, i) == (Spared(slots, n, i) && !(Alive(slots, n) && Conflict(slots[n], slots[i])))
  {
  }

  /** Flags as they stand when the outer loop reaches slot n. */
  ghost predicate FlagsAt(slots: seq<Slot>, flags: seq<bool>, n: nat) {
    && |flags| == |slots| && n <= |slots|
    && (forall i :: 0 <= i < n ==> flags[i] == Usable(slots, i))
    && (forall i :: n <= i < |slots| ==> flags[i] == Spared(slots, n, i))
  }

  /** Flags while slot n is compared with the slots from other on. */
  ghost predicate FlagsWithin(slots: seq<Slot>, flags: seq<bool>, n: nat, other: nat) {
    && |flags| == |slots| && n < other <= |slots|
    && (forall i :: 0 <= i < n ==> flags[i] == Usable(slots, i))
    && flags[n] == (forall j :: n < j < other ==> !(Spared(slots, n, j) && Conflict(slots[n], slots[j])))
    && (forall i :: n < i < other ==> flags[i] == Spared(slots, n + 1, i))
    && (forall i :: other <= i < |slots| ==> flags[i] == Spared(slots, n, i))
  }

  lemma FlagsStart(slots: seq<Slot>, flags: seq<bool>)
    requires |flags| == |slots| && forall i :: 0 <= i < |slots| ==> flags[i] == slots[i].Occupied?
    ensures FlagsAt(slots, flags, 0)
  {
  }

  lemma FlagsSkip(slots: seq<Slot>, flags: seq<bool>, n: nat)
    requires FlagsAt(slots, flags, n) && n < |slots| && !flags[n]
    ensures FlagsAt(slots, flags, n + 1)
  {
    forall i | n < i < |slots| ensures flags[i] == Spared(slots, n + 1, i) {
      SparedStep(slots, n, i);
    }
  }

  lemma FlagsEnter(slots: seq<Slot>, flags: seq<bool>, n: nat)
    requires FlagsAt(slots, flags, n) && n < |slots| && flags[n]
    ensures FlagsWithin(slots, flags, n, n + 1) && Alive(slots, n)
  {
  }

  lemma FlagsLeave(slots: seq<Slot>, flags: seq<bool>, n: nat)
    requires FlagsWithin(slots, flags, n, |slots|) && Alive(slots, n)
    ensures FlagsAt(slots, flags, n + 1)
  {
  }

  lemma FlagsCompare(slots: seq<Slot>, flags: seq<bool>, n: nat, other: nat, after: seq<bool>)
    requires FlagsWithin(slots, flags, n, other) && other < |slots| && Alive(slots, n)
    requires after == if flags[other] && Conflict(slots[n], slots[other]) then flags[n := false][other := false] else flags
    ensures FlagsWithin(slots, after, n, other + 1)
  {
    SparedStep(slots, n, other);
  }

  /** Some entry has lost its flag. */
  ghost predicate Dropped(slots: seq<Slot>, flags: seq<bool>)
    requires |flags| == |slots|
  {
    exists i :: 0 <= i < |slots| && slots[i].Occupied? && !flags[i]
  }

  lemma DroppedTwo(slots: seq<Slot>, flags: seq<bool>, n: nat, other: nat)
    requires n < other < |flags| == |slots| && Conflict(slots[n], slots[other])
    ensures Dropped(slots, flags[n := false][other := false])
  {
    assert !flags[n := false][other := false][n];
  }

  /** The conflict pass of the reader: every pair of usable slots that clash loses both flags. */
  method ConflictPass(slots: seq<Slot>, usable: array<bool>) returns (degraded: bool)
    requires usable.Length == |slots|
    requires forall i :: 0 <= i < |slots| ==> usable[i] == slots[i].Occupied?
    modifies usable
    ensures forall i :: 0 <= i < |slots| ==> usable[i] == Usable(slots, i)
    ensures degraded == exists i :: 0 <= i < |slots| && slots[i].Occupied? && !Usable(slots, i)
  {
    hide FlagsWithin, Alive, Spared, Conflict, Usable;
    degraded := false;
    var index := 0;
    FlagsStart(slots, usable[..]);
    while index < |slots|
      invariant 0 <= index <= |slots|
      invariant FlagsAt(slots, usable[..], index)
      invariant degraded == Dropped(slots, usable[..])
    {
      if !usable[index] {
        FlagsSkip(slots, usable[..], index);
        index := index + 1;
        continue;
      }
      FlagsEnter(slots, usable[..], index);
      degraded := CompareFrom(slots, usable, index, degraded);
      FlagsLeave(slots, usable[..], index);
      index := index + 1;
    }
    assert forall i :: 0 <= i < |slots| ==> usable[i] == usable[..][i];
  }

  /** The inner loop: one slot against all later ones. */
  method CompareFrom(slots: seq<Slot>, usable: array<bool>, index: nat, before: bool) returns (degraded: bool)
    requires index < usable.Length == |slots| && Alive(slots, index)
    requires FlagsWithin(slots, usable[..], index, index + 1) && before == Dropped(slots, usable[..])
    modifies usable
    ensures FlagsWithin(slots, usable[..], index, |slots|) && degraded == Dropped(slots, usable[..])
  {
    hide FlagsWithin, Alive, Spared, Conflict, Dropped;
    degraded := before;
    var other := index + 1;
    while other < |slots|
      invariant index < other <= |slots|
      invariant FlagsWithin(slots, usable[..], index, other)
      invariant degraded == Dropped(slots, usable[..])
    {
      ghost var flags := usable[..];
      if usable[other] && Conflict(slots[index], slots[other]) {
        usable[index] := false;
        usable[other] := false;
        degraded := true;
        DroppedTwo(slots, flags, index, other);
      }
      FlagsCompare(slots, flags, index, other, usable[..]);
      other := other + 1;
    }
  }

  // ---------- what the pass guarantees ----------

  /** Usable slots never clash: their extents are disjoint and their folded names distinct. */
  lemma UsableDisjoint(slots: seq<Slot>, i: nat, j: nat)
    requires i < |slots| && j < |slots| && i != j
    requires Usable(slots, i) && Usable(slots, j)
    ensures slots[i].Occupied? && slots[j].Occupied? && !Clash(slots[i].e, slots[j].e)
  {
    var lo, hi := if i < j then i else j, if i < j then j else i;
    assert Alive(slots, lo) && Spared(slots, hi, hi);
    ConflictSymmetric(slots[i], slots[j]);
  }

  /** b may replace a in the directory without any other slot noticing: it is unoccupied, or it
      keeps the name and the extent. */
  predicate Discreet(a: Slot, b: Slot) {
    b.Occupied? ==> a.Occupied? && SameName(a.e, b.e) && a.e.offset == b.e.offset && a.e.capacity == b.e.capacity
  }

  lemma DiscreetConflict(a: Slot, b: Slot, c: Slot)
    requires Discreet(a, b) && Conflict(b, c)
    ensures Conflict(a, c)
  {
  }

  /** Replacing a usable slot discreetly changes no other slot's turn in the pass. */
  lemma {:induction false} SparedStable(slots: seq<Slot>, k: nat, b: Slot, n: nat, i: nat)
    requires n <= i < |slots| && k < |slots| && k != i
    requires Usable(slots, k) && Discreet(slots[k], b)
    ensures Spared(slots[k := b], n, i) == Spared(slots, n, i)
    decreases n
  {
    var after := slots[k := b];
    forall h | 0 <= h < n && h != k ensures Alive(after, h) == Alive(slots, h) {
      SparedStable(slots, k, b, h, h);
    }
    if k < n && Conflict(slots[k], slots[i]) {
      // k clashes only with slots that something before k has knocked out already
      assert !Spared(slots, k, i);
      var h :| 0 <= h < k && Alive(slots, h) && Conflict(slots[h], slots[i]);
      assert !Spared(slots, n, i) && !Spared(after, n, i) by {
        assert Alive(after, h) && Conflict(after[h], after[i]);
      }
    } else {
      forall h | 0 <= h < n
        ensures (Spared(after, h, h) && Conflict(after[h], after[i])) == (Spared(slots, h, h) && Conflict(slots[h], slots[i]))
      {
        if h == k {
          assert !Conflict(slots[k], slots[i]) && !Conflict(after[k], after[i]);
        } else {
          assert Alive(after, h) == Alive(slots, h);
        }
      }
    }
  }

  /** Replacing a usable slot discreetly leaves every other slot's usable flag as it was:
      nothing visible is lost and nothing quarantined comes back. */
  lemma UsableStable(slots: seq<Slot>, k: nat, b: Slot, i: nat)
    requires i < |slots| && k < |slots| && k != i
    requires Usable(slots, k) && Discreet(slots[k], b)
    ensures Usable(slots[k := b], i) == Usable(slots, i)
  {
    var after := slots[k := b];
    SparedStable(slots, k, b, i, i);
    forall j | i < j < |slots|
      ensures (Spared(after, i, j) && Conflict(after[i], after[j])) == (Spared(slots, i, j) && Conflict(slots[i], slots[j]))
           || !Alive(slots, i)
    {
      if j != k {
        SparedStable(slots, k, b, i, j);
      } else if Conflict(slots[i], slots[k]) {
        // k is usable, so i cannot be alive and clash with it
      } else {
        ConflictSymmetric(slots[i], slots[k]);
        ConflictSymmetric(slots[i], b);
      }
    }
  }

  /** A usable slot replaced by an entry of the same name and extent stays usable. */
  lemma UsableReplaced(slots: seq<Slot>, k: nat, b: Slot)
    requires k < |slots| && Usable(slots, k) && Discreet(slots[k], b) && b.Occupied?
    ensures Usable(slots[k := b], k)
  {
    var after := slots[k := b];
    forall h | 0 <= h < k ensures !(Alive(after, h) && Conflict(after[h], after[k])) {
      SparedStable(slots, k, b, h, h);
      ConflictSymmetric(after[h], after[k]);
      ConflictSymmetric(slots[h], slots[k]);
    }
    forall j | k < j < |slots| ensures !(Spared(after, k, j) && Conflict(after[k], after[j])) {
      SparedStable(slots, k, b, k, j);
    }
  }

  // ---------- tidy directories ----------

  /** No malformed slot and no clash at all: the region reports VALID. */
  ghost predicate Clean(slots: seq<Slot>) {
    && (forall i :: 0 <= i < |slots| ==> !slots[i].Malformed?)
    && (forall i :: 0 <= i < |slots| && slots[i].Occupied? ==> Usable(slots, i))
  }

  ghost predicate PairwiseClear(slots: seq<Slot>) {
    forall i, j :: 0 <= i < j < |slots| ==> !Conflict(slots[i], slots[j])
  }

  /** In a clean directory nothing clashes, and the other way round. */
  lemma CleanMeans(slots: seq<Slot>)
    ensures Clean(slots) <==> (forall i :: 0 <= i < |slots| ==> !slots[i].Malformed?) && PairwiseClear(slots)
  {
    if Clean(slots) {
      forall i, j | 0 <= i < j < |slots| ensures !Conflict(slots[i], slots[j]) {
        if Conflict(slots[i], slots[j]) {
          UsableDisjoint(slots, i, j);
        }
      }
    }
  }

  /** In a clean directory a free slot may be filled by an entry; the outcome depends only on
      which occupied slots the newcomer clashes with. */
  lemma FillFree(slots: seq<Slot>, k: nat, e: Entry)
    requires k < |slots| && Clean(slots) && slots[k].Free?
    ensures Usable(slots[k := Occupied(e)], k) <==> ClearOf(slots, e)
    ensures forall i :: 0 <= i < |slots| && slots[i].Occupied? && !Clash(slots[i].e, e) ==> Usable(slots[k := Occupied(e)], i)
  {
    CleanMeans(slots);
    var after := slots[k := Occupied(e)];
    forall i, n | 0 <= n <= i < |slots| && slots[i].Occupied? && (n <= k || !Clash(slots[i].e, e))
      ensures Spared(after, n, i)
    {
      forall h | 0 <= h < n ensures !Conflict(after[h], after[i]) {
      }
    }
    if !ClearOf(slots, e) {
      var i :| 0 <= i < |slots| && slots[i].Occupied? && Clash(slots[i].e, e);
      assert Conflict(after[i], after[k]) && Conflict(after[k], after[i]);
      if i < k {
        assert Spared(after, i, i);
      } else {
        assert Spared(after, k, i);
      }
    }
  }

  /** e clashes with no occupied slot. */
  ghost predicate ClearOf(slots: seq<Slot>, e: Entry) {
    forall i :: 0 <= i < |slots| && slots[i].Occupied? ==> !Clash(slots[i].e, e)
  }
}
