/** Which documents keep to the STATS profile, and what they say: a table of members instead of a walk. */
module StatsProfile {
  import opened Bytes
  import opened JsonText
  import opened JsonStrings
  import opened JsonWalk
  import opened Stats
  import JsonParse
  import StatsText
  import Utf8

  // ---------- members ----------

  /** Member i, one of the first n, is called what id is called. */
  ghost predicate Called(ms: Members, n: nat, i: nat, id: Id)
    requires n <= Len(ms)
  {
    i < n && KeyOf(ms, i) == Name(id)
  }

  ghost predicate Has(ms: Members, n: nat, id: Id)
    requires n <= Len(ms)
  {
    exists i :: Called(ms, n, i, id)
  }

  /** v is a number without fraction and exponent whose digits mean n, below 2^53. */
  ghost predicate Whole(v: Value, n: nat) {
    v.Num? && NumberOk(v.number) && IntegerOf(v.number) == Some(n) && n < 0x20_0000_0000_0000
  }

  /** v is a value for the field id, and it means n. */
  ghost predicate Means(id: Id, v: Value, n: nat) {
    match id
    case PlayTime | LaunchCount | FirstPlayed | LastPlayed | Unlocked | Total | Hardcore => Whole(v, n)
    case Percent => Whole(v, n) && n <= 100
    case Favorite | Completed => (v == Literal(True) && n == 1) || (v == Literal(False) && n == 0)
    case _ => false
  }

  /** f is what the first n members say about id: there with its value, or not there at all. */
  ghost predicate FieldIs(ms: Members, n: nat, id: Id, f: Field)
    requires n <= Len(ms)
  {
    && (f.has <==> Has(ms, n, id)) && (!f.has ==> f.value == 0)
    && forall i :: Called(ms, n, i, id) ==> Means(id, Nth(ms, i).value, f.value)
  }

  lemma HasNext(ms: Members, n: nat, id: Id)
    requires n < Len(ms)
    ensures Has(ms, n + 1, id) <==> Has(ms, n, id) || KeyOf(ms, n) == Name(id)
    ensures KeysDistinct(ms) && KeyOf(ms, n) == Name(id) ==> !Has(ms, n, id)
  {
    hide KeyOf, Name;
    if i: nat :| Called(ms, n, i, id) {
      assert Called(ms, n + 1, i, id);
    }
    var m := n + 1;
    if i: nat :| Called(ms, m, i, id) {
      assert i < n ==> Called(ms, n, i, id);
    }
    if KeyOf(ms, n) == Name(id) {
      assert Called(ms, n + 1, n, id);
    }
  }

  lemma OnlyOne(ms: Members, n: nat, id: Id, i: nat)
    requires n < Len(ms) && KeysDistinct(ms) && KeyOf(ms, n) == Name(id) && Called(ms, n + 1, i, id)
    ensures i == n
  {
  }

  /** A member of another name leaves what is known of id as it was. */
  lemma FieldKept(ms: Members, n: nat, id: Id, f: Field)
    requires n < Len(ms) && KeyOf(ms, n) != Name(id)
    ensures FieldIs(ms, n + 1, id, f) <==> FieldIs(ms, n, id, f)
  {
    hide KeyOf, Name, Means;
    HasNext(ms, n, id);
    assert forall i :: Called(ms, n + 1, i, id) <==> Called(ms, n, i, id);
  }

  lemma FieldFound(ms: Members, n: nat, id: Id, value: nat)
    requires n < Len(ms) && KeysDistinct(ms) && KeyOf(ms, n) == Name(id) && Means(id, Nth(ms, n).value, value)
    ensures FieldIs(ms, n + 1, id, Present(value))
  {
    hide KeyOf, Name, Means;
    HasNext(ms, n, id);
    var m := n + 1;
    forall i: nat | Called(ms, m, i, id) ensures i == n {
      OnlyOne(ms, n, id, i);
    }
  }

  // ---------- achievements ----------

  ghost predicate IsCount(id: Id) {
    id == Unlocked || id == Total || id == Hardcore
  }

  ghost predicate CountNamed(key: seq<byte>, v: Value) {
    exists id :: IsCount(id) && key == Name(id) && Counted(v)
  }

  ghost predicate Counted(v: Value) {
    exists n :: Whole(v, n)
  }

  function FieldOfOption(n: Option<nat>): Field {
    if n.Some? then Present(n.value) else ABSENT
  }

  ghost predicate CountsAre(ms: Members, n: nat, unlocked: Field, total: Field, hardcore: Field)
    requires n <= Len(ms)
  {
    FieldIs(ms, n, Unlocked, unlocked) && FieldIs(ms, n, Total, total) && FieldIs(ms, n, Hardcore, hardcore)
  }

  /** An achievements object: three counts, the first two obligatory, each within the one before. */
  ghost predicate AchievementsAre(v: Value, unlocked: nat, total: nat, hardcore: Field) {
    && v.Composite? && v.isObject && KeysDistinct(v.members)
    && (forall i :: 0 <= i < Len(v.members) ==> CountNamed(KeyOf(v.members, i), Nth(v.members, i).value))
    && CountsAre(v.members, Len(v.members), Present(unlocked), Present(total), hardcore)
    && unlocked <= total && (hardcore.has ==> hardcore.value <= unlocked)
  }

  lemma WholeIs(v: Value, n: nat)
    ensures Uint53(v) == Some(n) <==> Whole(v, n)
    ensures Uint53(v).Some? <==> Counted(v)
  {
    if Uint53(v).Some? {
      assert Whole(v, Uint53(v).value);
    }
  }

  lemma CountStep(ms: Members, n: nat, c: Counting)
    requires n < Len(ms) && KeysDistinct(ms)
    requires CountsAre(ms, n, FieldOfOption(c.unlocked), FieldOfOption(c.total), FieldOfOption(c.hardcore))
    ensures var next := CountField(c, KeyOf(ms, n), Nth(ms, n).value);
      && (next.Some? <==> CountNamed(KeyOf(ms, n), Nth(ms, n).value))
      && (next.Some? ==> CountsAre(ms, n + 1, FieldOfOption(next.value.unlocked), FieldOfOption(next.value.total),
                                   FieldOfOption(next.value.hardcore)))
  {
    hide FieldIs, KeyOf, Name, Uint53, Whole, KeysDistinct;
    var key, v := KeyOf(ms, n), Nth(ms, n).value;
    NamesDiffer(Unlocked, Total);
    NamesDiffer(Unlocked, Hardcore);
    NamesDiffer(Total, Hardcore);
    WholeIs(v, 0);
    if Uint53(v).Some? {
      WholeIs(v, Uint53(v).value);
      if id: Id :| IsCount(id) && key == Name(id) {
        FieldFound(ms, n, id, Uint53(v).value);
        CountOthers(ms, n, c, id);
      }
    }
  }

  lemma CountOthers(ms: Members, n: nat, c: Counting, id: Id)
    requires n < Len(ms) && IsCount(id) && KeyOf(ms, n) == Name(id)
    requires CountsAre(ms, n, FieldOfOption(c.unlocked), FieldOfOption(c.total), FieldOfOption(c.hardcore))
    ensures id != Unlocked ==> FieldIs(ms, n + 1, Unlocked, FieldOfOption(c.unlocked))
    ensures id != Total ==> FieldIs(ms, n + 1, Total, FieldOfOption(c.total))
    ensures id != Hardcore ==> FieldIs(ms, n + 1, Hardcore, FieldOfOption(c.hardcore))
  {
    hide FieldIs, KeyOf, Name;
    if id != Unlocked {
      NamesDiffer(id, Unlocked);
      FieldKept(ms, n, Unlocked, FieldOfOption(c.unlocked));
    }
    if id != Total {
      NamesDiffer(id, Total);
      FieldKept(ms, n, Total, FieldOfOption(c.total));
    }
    if id != Hardcore {
      NamesDiffer(id, Hardcore);
      FieldKept(ms, n, Hardcore, FieldOfOption(c.hardcore));
    }
  }

  lemma NothingCounted(ms: Members)
    ensures CountsAre(ms, 0, ABSENT, ABSENT, ABSENT)
  {
    hide KeyOf, Whole;
  }

  lemma {:induction false} CountsRead(ms: Members, n: nat)
    requires n <= Len(ms) && KeysDistinct(ms)
    ensures CountUpTo(ms, n).Some? <==> forall i :: 0 <= i < n ==> CountNamed(KeyOf(ms, i), Nth(ms, i).value)
    ensures CountUpTo(ms, n).Some? ==> var c := CountUpTo(ms, n).value;
      CountsAre(ms, n, FieldOfOption(c.unlocked), FieldOfOption(c.total), FieldOfOption(c.hardcore))
  {
    hide KeyOf, CountField, CountNamed, KeysDistinct, FieldIs;
    if n == 0 {
      NothingCounted(ms);
    } else {
      CountsRead(ms, n - 1);
      if CountUpTo(ms, n - 1).Some? {
        CountNext(ms, n - 1);
        CountStep(ms, n - 1, CountUpTo(ms, n - 1).value);
      } else {
        CountStops(ms, n - 1, n);
      }
    }
  }

  /** Reading an achievements object, for statistics that have none yet. */
  lemma AchievementsExactly(s: Stats, v: Value, unlocked: nat, total: nat, hardcore: Field)
    requires s.hardcore == ABSENT
    ensures ReadAchievements(s, v) == Some(s.(achievements := true, unlocked := unlocked, total := total, hardcore := hardcore))
       <==> AchievementsAre(v, unlocked, total, hardcore)
  {
    hide KeyOf, KeysDistinct, CountNamed, FieldIs;
    if v.Composite? && v.isObject && KeysDistinct(v.members) {
      CountsRead(v.members, Len(v.members));
      if CountUpTo(v.members, Len(v.members)).Some? {
        var c := CountUpTo(v.members, Len(v.members)).value;
        OneField(v.members, Len(v.members), Unlocked, FieldOfOption(c.unlocked), Present(unlocked));
        OneField(v.members, Len(v.members), Total, FieldOfOption(c.total), Present(total));
        OneField(v.members, Len(v.members), Hardcore, FieldOfOption(c.hardcore), hardcore);
      }
    }
  }

  /** What the members say about a field they say in one way. */
  lemma OneField(ms: Members, n: nat, id: Id, f: Field, g: Field)
    requires n <= Len(ms) && FieldIs(ms, n, id, f)
    ensures FieldIs(ms, n, id, g) <==> f == g
  {
    hide KeyOf, Name;
  }

  // ---------- the document ----------

  ghost predicate Says(v: Value, text: string) {
    v.Str? && CharsOk(v.chars) && Decoded(v.chars) == Ascii(text)
  }

  ghost predicate SomeAchievements(v: Value) {
    exists unlocked, total, hardcore :: AchievementsAre(v, unlocked, total, hardcore)
  }

  predicate IsNumeric(id: Id) {
    id in [PlayTime, LaunchCount, FirstPlayed, LastPlayed, Favorite, Completed, Percent]
  }

  ghost predicate SomeMeaning(id: Id, v: Value) {
    exists n :: Means(id, v, n)
  }

  /** v may stand at the member that id names. */
  ghost predicate Fitting(id: Id, v: Value) {
    match id
    case Schema => Says(v, "romx.stats")
    case Version => Whole(v, 1)
    case Achievements => SomeAchievements(v)
    case _ => IsNumeric(id) && SomeMeaning(id, v)
  }

  /** A member of the document: one of ten names, with a value that fits. */
  ghost predicate MemberOk(key: seq<byte>, v: Value) {
    exists id :: Fitting(id, v) && key == Name(id)
  }

  function Get(s: Stats, id: Id): Field {
    match id
    case PlayTime => s.playTime
    case LaunchCount => s.launchCount
    case FirstPlayed => s.firstPlayed
    case LastPlayed => s.lastPlayed
    case Favorite => s.favorite
    case Completed => s.completed
    case Percent => s.percent
    case _ => ABSENT
  }

  ghost predicate NumbersAre(ms: Members, n: nat, s: Stats)
    requires n <= Len(ms)
  {
    forall id :: IsNumeric(id) ==> FieldIs(ms, n, id, Get(s, id))
  }

  /** The achievements are what the first n members say, or there are none. */
  ghost predicate AchievementsIn(ms: Members, n: nat, s: Stats)
    requires n <= Len(ms)
  {
    && (s.achievements <==> Has(ms, n, Achievements))
    && (!s.achievements ==> s.unlocked == 0 && s.total == 0 && s.hardcore == ABSENT)
    && forall i :: Called(ms, n, i, Achievements) ==> AchievementsAre(Nth(ms, i).value, s.unlocked, s.total, s.hardcore)
  }

  ghost predicate ReadingIs(ms: Members, n: nat, r: Reading)
    requires n <= Len(ms)
  {
    && (r.schema <==> Has(ms, n, Schema)) && (r.version <==> Has(ms, n, Version))
    && NumbersAre(ms, n, r.stats) && AchievementsIn(ms, n, r.stats)
  }

  lemma FieldOfMeans(key: seq<byte>, id: Id)
    ensures FieldOf(key) == Some(id) <==> key == Name(id) && !IsCount(id)
  {
    hide Name, NameString;
    if key == Name(id) && !IsCount(id) {
      StatsText.FieldNamed(id);
    }
  }

  lemma NumberIs(id: Id, v: Value, n: nat)
    requires IsNumeric(id)
    ensures NumberOf(id, v) == Some(n) <==> Means(id, v, n)
    ensures NumberOf(id, v).Some? <==> SomeMeaning(id, v)
  {
    hide NumberOk, IntegerOf;
    if NumberOf(id, v).Some? {
      assert Means(id, v, NumberOf(id, v).value);
    }
  }

  lemma SetGet(s: Stats, id: Id, f: Field, other: Id)
    requires IsNumeric(id)
    ensures Get(SetField(s, id, f), other) == if other == id then f else Get(s, other)
    ensures var t := SetField(s, id, f);
      t.achievements == s.achievements && t.unlocked == s.unlocked && t.total == s.total && t.hardcore == s.hardcore
  {
  }

  /** What a member of the name id is worth, once read. */
  lemma KnownFits(r: Reading, id: Id, v: Value)
    requires !IsCount(id) && (id == Achievements ==> r.stats.hardcore == ABSENT)
    ensures ReadKnown(r, id, v).Some? <==> Fitting(id, v)
  {
    hide AchievementsAre, Means, NumberOf, Whole, ReadAchievements;
    if id == Achievements {
      AchievementsFit(r.stats, v);
    } else if IsNumeric(id) {
      NumberIs(id, v, 0);
    } else if id == Version {
      WholeOne(v);
    }
  }

  lemma WholeOne(v: Value)
    ensures IsVersionOne(v) <==> Whole(v, 1)
  {
  }

  lemma AchievementsFit(s: Stats, v: Value)
    requires s.hardcore == ABSENT
    ensures ReadAchievements(s, v).Some? <==> SomeAchievements(v)
    ensures ReadAchievements(s, v).Some? ==> var t := ReadAchievements(s, v).value;
      t == s.(achievements := true, unlocked := t.unlocked, total := t.total, hardcore := t.hardcore) &&
      AchievementsAre(v, t.unlocked, t.total, t.hardcore)
  {
    hide AchievementsAre;
    if ReadAchievements(s, v).Some? {
      var t := ReadAchievements(s, v).value;
      AchievementsExactly(s, v, t.unlocked, t.total, t.hardcore);
    }
    if unlocked, total, hardcore :| AchievementsAre(v, unlocked, total, hardcore) {
      AchievementsExactly(s, v, unlocked, total, hardcore);
    }
  }

  /** Members of another name leave the achievements as they were. */
  lemma AchievementsKept(ms: Members, n: nat, s: Stats)
    requires n < Len(ms) && KeyOf(ms, n) != Name(Achievements)
    ensures AchievementsIn(ms, n + 1, s) <==> AchievementsIn(ms, n, s)
  {
    hide KeyOf, Name, AchievementsAre;
    HasNext(ms, n, Achievements);
    assert forall i :: Called(ms, n + 1, i, Achievements) <==> Called(ms, n, i, Achievements);
  }

  lemma AchievementsAdded(ms: Members, n: nat, s: Stats, t: Stats)
    requires n < Len(ms) && KeysDistinct(ms) && KeyOf(ms, n) == Name(Achievements)
    requires t.achievements && AchievementsAre(Nth(ms, n).value, t.unlocked, t.total, t.hardcore)
    ensures AchievementsIn(ms, n + 1, t)
  {
    hide KeyOf, Name, AchievementsAre;
    HasNext(ms, n, Achievements);
    var m := n + 1;
    forall i: nat | Called(ms, m, i, Achievements) ensures i == n {
      OnlyOne(ms, n, Achievements, i);
    }
  }

  lemma NumbersKept(ms: Members, n: nat, s: Stats, id: Id)
    requires n < Len(ms) && KeyOf(ms, n) == Name(id) && !IsNumeric(id) && NumbersAre(ms, n, s)
    ensures NumbersAre(ms, n + 1, s)
  {
    hide KeyOf, Name, FieldIs, Get;
    forall other | IsNumeric(other) ensures FieldIs(ms, n + 1, other, Get(s, other)) {
      NamesDiffer(id, other);
      FieldKept(ms, n, other, Get(s, other));
    }
  }

  lemma NumberAdded(ms: Members, n: nat, s: Stats, id: Id, value: nat)
    requires n < Len(ms) && KeysDistinct(ms) && KeyOf(ms, n) == Name(id) && IsNumeric(id) && NumbersAre(ms, n, s)
    requires Means(id, Nth(ms, n).value, value)
    ensures NumbersAre(ms, n + 1, SetField(s, id, Present(value)))
  {
    hide KeyOf, Name, FieldIs, Get, SetField, KeysDistinct, Means;
    forall other | IsNumeric(other) ensures FieldIs(ms, n + 1, other, Get(SetField(s, id, Present(value)), other)) {
      SetGet(s, id, Present(value), other);
      if other == id {
        FieldFound(ms, n, id, value);
      } else {
        NamesDiffer(id, other);
        FieldKept(ms, n, other, Get(s, other));
      }
    }
  }

  lemma FlagsStep(ms: Members, n: nat, r: Reading, id: Id, next: Reading)
    requires n < Len(ms) && KeyOf(ms, n) == Name(id)
    requires (r.schema <==> Has(ms, n, Schema)) && (r.version <==> Has(ms, n, Version))
    requires next.schema == (r.schema || id == Schema) && next.version == (r.version || id == Version)
    ensures (next.schema <==> Has(ms, n + 1, Schema)) && (next.version <==> Has(ms, n + 1, Version))
  {
    hide KeyOf, Name, Has;
    HasNext(ms, n, Schema);
    HasNext(ms, n, Version);
    if id != Schema {
      NamesDiffer(id, Schema);
    }
    if id != Version {
      NamesDiffer(id, Version);
    }
  }

  lemma AchievementsStep(ms: Members, n: nat, s: Stats)
    requires n < Len(ms) && KeysDistinct(ms) && KeyOf(ms, n) == Name(Achievements)
    requires NumbersAre(ms, n, s) && AchievementsIn(ms, n, s) && ReadAchievements(s, Nth(ms, n).value).Some?
    ensures var t := ReadAchievements(s, Nth(ms, n).value).value; NumbersAre(ms, n + 1, t) && AchievementsIn(ms, n + 1, t)
  {
    hide KeyOf, Name, NumbersAre, AchievementsIn, KeysDistinct, ReadAchievements, AchievementsAre;
    var t := ReadAchievements(s, Nth(ms, n).value).value;
    NoneYet(ms, n, s);
    AchievementsFit(s, Nth(ms, n).value);
    AchievementsAdded(ms, n, s, t);
    NumbersKept(ms, n, s, Achievements);
    SameNumbers(ms, n + 1, s, t);
  }

  lemma NumericStep(ms: Members, n: nat, s: Stats, id: Id)
    requires n < Len(ms) && KeysDistinct(ms) && KeyOf(ms, n) == Name(id) && IsNumeric(id)
    requires NumbersAre(ms, n, s) && AchievementsIn(ms, n, s) && NumberOf(id, Nth(ms, n).value).Some?
    ensures var t := SetField(s, id, Present(NumberOf(id, Nth(ms, n).value).value));
      NumbersAre(ms, n + 1, t) && AchievementsIn(ms, n + 1, t)
  {
    hide KeyOf, Name, NumbersAre, AchievementsIn, KeysDistinct, NumberOf, Means, SetField;
    var value := NumberOf(id, Nth(ms, n).value).value;
    NamesDiffer(id, Achievements);
    AchievementsKept(ms, n, s);
    NumberIs(id, Nth(ms, n).value, value);
    NumberAdded(ms, n, s, id, value);
    SetGet(s, id, Present(value), id);
    SameAchievements(ms, n + 1, s, SetField(s, id, Present(value)));
  }

  /** One member more adds what it says. */
  lemma KnownStep(ms: Members, n: nat, r: Reading, id: Id)
    requires n < Len(ms) && KeysDistinct(ms) && KeyOf(ms, n) == Name(id) && !IsCount(id) && ReadingIs(ms, n, r)
    requires ReadKnown(r, id, Nth(ms, n).value).Some?
    ensures ReadingIs(ms, n + 1, ReadKnown(r, id, Nth(ms, n).value).value)
  {
    hide KeyOf, Name, NumbersAre, AchievementsIn, Has, KeysDistinct, ReadAchievements, NumberOf, SetField, IsSchemaValue, IsVersionOne;
    FlagsStep(ms, n, r, id, ReadKnown(r, id, Nth(ms, n).value).value);
    if id == Achievements {
      AchievementsStep(ms, n, r.stats);
    } else if IsNumeric(id) {
      NumericStep(ms, n, r.stats, id);
    } else {
      NamesDiffer(id, Achievements);
      AchievementsKept(ms, n, r.stats);
      NumbersKept(ms, n, r.stats, id);
    }
  }

  lemma SameNumbers(ms: Members, n: nat, s: Stats, t: Stats)
    requires n <= Len(ms) && NumbersAre(ms, n, s)
    requires t == s.(achievements := true, unlocked := t.unlocked, total := t.total, hardcore := t.hardcore)
    ensures NumbersAre(ms, n, t)
  {
    hide FieldIs;
    forall id | IsNumeric(id) ensures FieldIs(ms, n, id, Get(t, id)) {
      assert Get(t, id) == Get(s, id);
    }
  }

  lemma SameAchievements(ms: Members, n: nat, s: Stats, t: Stats)
    requires n <= Len(ms) && AchievementsIn(ms, n, s)
    requires t.achievements == s.achievements && t.unlocked == s.unlocked && t.total == s.total && t.hardcore == s.hardcore
    ensures AchievementsIn(ms, n, t)
  {
    hide AchievementsAre;
  }

  lemma NoneYet(ms: Members, n: nat, s: Stats)
    requires n < Len(ms) && KeysDistinct(ms) && KeyOf(ms, n) == Name(Achievements) && AchievementsIn(ms, n, s)
    ensures s.hardcore == ABSENT
  {
    hide KeyOf, Name, AchievementsAre;
    HasNext(ms, n, Achievements);
  }

  lemma {:induction false} Known(ms: Members, n: nat)
    requires n <= Len(ms) && KeysDistinct(ms)
    ensures ReadUpTo(ms, n).Some? <==> forall i :: 0 <= i < n ==> MemberOk(KeyOf(ms, i), Nth(ms, i).value)
    ensures ReadUpTo(ms, n).Some? ==> ReadingIs(ms, n, ReadUpTo(ms, n).value)
  {
    hide KeyOf, ReadingIs, MemberOk, KeysDistinct, ReadField;
    if n == 0 {
      NothingRead(ms);
    } else {
      Known(ms, n - 1);
      if ReadUpTo(ms, n - 1).Some? {
        ReadNext(ms, n - 1);
        MemberStep(ms, n - 1, ReadUpTo(ms, n - 1).value);
      } else {
        ReadStops(ms, n - 1, n);
      }
    }
  }

  lemma NothingRead(ms: Members)
    ensures ReadingIs(ms, 0, Reading(EMPTY, false, false))
  {
    hide AchievementsAre, Means, KeyOf;
  }

  lemma MemberStep(ms: Members, n: nat, r: Reading)
    requires n < Len(ms) && KeysDistinct(ms) && ReadingIs(ms, n, r)
    ensures var next := ReadField(r, KeyOf(ms, n), Nth(ms, n).value);
      && (next.Some? <==> MemberOk(KeyOf(ms, n), Nth(ms, n).value))
      && (next.Some? ==> ReadingIs(ms, n + 1, next.value))
  {
    hide KeyOf, Name, ReadKnown, KeysDistinct, Fitting, FieldOf, NumbersAre, AchievementsIn, Has;
    var key, v := KeyOf(ms, n), Nth(ms, n).value;
    if FieldOf(key).Some? {
      var id := FieldOf(key).value;
      FieldOfMeans(key, id);
      if id == Achievements {
        NoneYet(ms, n, r.stats);
      }
      KnownFits(r, id, v);
      if ReadKnown(r, id, v).Some? {
        KnownStep(ms, n, r, id);
      }
    }
    if id :| Fitting(id, v) && key == Name(id) {
      CountsNever(id, v);
      FieldOfMeans(key, id);
    }
  }

  lemma CountsNever(id: Id, v: Value)
    requires Fitting(id, v)
    ensures !IsCount(id)
  {
    hide Means;
  }

  /** A document of the profile: an object of different members, each from the table, with schema and
      version, and with the first time played not after the last. */
  ghost predicate Profile(v: Value) {
    && v.Composite? && v.isObject && KeysDistinct(v.members)
    && (forall i :: 0 <= i < Len(v.members) ==> MemberOk(KeyOf(v.members, i), Nth(v.members, i).value))
    && Has(v.members, Len(v.members), Schema) && Has(v.members, Len(v.members), Version)
    && forall first, last ::
         (FieldIs(v.members, Len(v.members), FirstPlayed, Present(first)) &&
          FieldIs(v.members, Len(v.members), LastPlayed, Present(last))) ==> first <= last
  }

  /** The statistics a document of the profile states: every field what its member says, or absent. */
  ghost predicate States(v: Value, s: Stats)
    requires v.Composite?
  {
    NumbersAre(v.members, Len(v.members), s) && AchievementsIn(v.members, Len(v.members), s)
  }

  /** The reader accepts the documents of the profile and returns what they state. */
  lemma ReadsExactly(v: Value)
    ensures ReadStats(v).Some? <==> Profile(v)
    ensures ReadStats(v).Some? ==> States(v, ReadStats(v).value)
  {
    hide KeyOf, ReadUpTo, MemberOk, KeysDistinct, Has, AchievementsIn, FieldIs;
    if v.Composite? && v.isObject && KeysDistinct(v.members) {
      var n := Len(v.members);
      Known(v.members, n);
      if ReadUpTo(v.members, n).Some? {
        var s := ReadUpTo(v.members, n).value.stats;
        forall first, last
          ensures FieldIs(v.members, n, FirstPlayed, Present(first)) <==> s.firstPlayed == Present(first)
          ensures FieldIs(v.members, n, LastPlayed, Present(last)) <==> s.lastPlayed == Present(last)
        {
          assert FieldIs(v.members, n, FirstPlayed, Get(s, FirstPlayed)) && FieldIs(v.members, n, LastPlayed, Get(s, LastPlayed));
          OneField(v.members, n, FirstPlayed, s.firstPlayed, Present(first));
          OneField(v.members, n, LastPlayed, s.lastPlayed, Present(last));
        }
        assert s.firstPlayed.has ==> s.firstPlayed == Present(s.firstPlayed.value);
        assert s.lastPlayed.has ==> s.lastPlayed == Present(s.lastPlayed.value);
      }
    }
  }

  /** Two statistics stated by one document are the same. */
  lemma StatesOnce(v: Value, s: Stats, t: Stats)
    requires v.Composite? && States(v, s) && States(v, t)
    ensures s == t
  {
    hide FieldIs, AchievementsAre, Has, KeyOf;
    var ms, n := v.members, Len(v.members);
    forall id | IsNumeric(id) ensures Get(s, id) == Get(t, id) {
      OneField(ms, n, id, Get(s, id), Get(t, id));
    }
    assert Get(s, PlayTime) == Get(t, PlayTime) && Get(s, LaunchCount) == Get(t, LaunchCount);
    assert Get(s, FirstPlayed) == Get(t, FirstPlayed) && Get(s, LastPlayed) == Get(t, LastPlayed);
    assert Get(s, Favorite) == Get(t, Favorite) && Get(s, Completed) == Get(t, Completed) && Get(s, Percent) == Get(t, Percent);
    if s.achievements {
      AchievementsOnce(ms, n, s, t);
    }
  }

  lemma AchievementsOnce(ms: Members, n: nat, s: Stats, t: Stats)
    requires n <= Len(ms) && AchievementsIn(ms, n, s) && AchievementsIn(ms, n, t) && s.achievements
    ensures s.unlocked == t.unlocked && s.total == t.total && s.hardcore == t.hardcore
  {
    hide FieldIs, KeyOf;
    var i: nat :| Called(ms, n, i, Achievements);
    var a := Nth(ms, i).value;
    OneField(a.members, Len(a.members), Unlocked, Present(s.unlocked), Present(t.unlocked));
    OneField(a.members, Len(a.members), Total, Present(s.total), Present(t.total));
    OneField(a.members, Len(a.members), Hardcore, s.hardcore, t.hardcore);
  }

  /** The bytes of a document are read exactly if they are valid UTF-8, a JSON text, at most 16384 of
      them, and keep to the profile. */
  lemma OutcomeExactly(bytes: seq<byte>, s: Stats)
    ensures OutcomeOf(bytes) == Accepted(s) <==>
      && 0 < |bytes| <= 16384 && Utf8.Valid(bytes) && JsonParse.ParseText(bytes).At?
      && Profile(JsonParse.ParseText(bytes).value) && States(JsonParse.ParseText(bytes).value, s)
    ensures OutcomeOf(bytes) == BadArgument <==> |bytes| == 0 || |bytes| > 16384
  {
    hide Profile, States, ReadStats, Utf8.Valid, JsonParse.ParseText;
    if JsonParse.ParseText(bytes).At? {
      var v := JsonParse.ParseText(bytes).value;
      ReadsExactly(v);
      if ReadStats(v).Some? {
        ProfileObject(v);
        if States(v, s) {
          StatesOnce(v, s, ReadStats(v).value);
        }
      }
    }
  }

  lemma ProfileObject(v: Value)
    requires Profile(v)
    ensures v.Composite?
  {
  }
}
