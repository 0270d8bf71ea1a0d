/** Writing STATS documents into a fixed buffer, and the round trip through the reader. */
module StatsPrinter {
  import opened Bytes
  import opened JsonText
  import opened JsonStrings
  import opened JsonWalk
  import opened Stats
  import opened StatsText
  import JsonParse
  import Utf8

  // ---------- the round trip ----------

  /** Reading all the fields in order gives the values back, less what absent fields carried. */
  lemma FieldsProgress(s: Stats)
    requires ValuesValid(s)
    ensures Progress(Fields(s), Reading(Normalized(s), true, true), 10)
  {
    hide Progress, Optional, OptionalCounts, ReadKnown;
    FirstItems();
    var r, ps := Reading(EMPTY, true, true), Fields2();
    var p1 := ps + Optional(PlayTime, s.playTime);
    OneField(ps, r, 2, PlayTime, s.playTime);
    var r1 := r.(stats := SetField(r.stats, PlayTime, Trim(s.playTime)));
    var p2 := p1 + Optional(LaunchCount, s.launchCount);
    OneField(p1, r1, 3, LaunchCount, s.launchCount);
    var r2 := r1.(stats := SetField(r1.stats, LaunchCount, Trim(s.launchCount)));
    var p3 := p2 + Optional(FirstPlayed, s.firstPlayed);
    OneField(p2, r2, 4, FirstPlayed, s.firstPlayed);
    var r3 := r2.(stats := SetField(r2.stats, FirstPlayed, Trim(s.firstPlayed)));
    var p4 := p3 + Optional(LastPlayed, s.lastPlayed);
    OneField(p3, r3, 5, LastPlayed, s.lastPlayed);
    var r4 := r3.(stats := SetField(r3.stats, LastPlayed, Trim(s.lastPlayed)));
    var p5 := p4 + Optional(Favorite, s.favorite);
    OneField(p4, r4, 6, Favorite, s.favorite);
    var r5 := r4.(stats := SetField(r4.stats, Favorite, Trim(s.favorite)));
    var p6 := p5 + Optional(Completed, s.completed);
    OneField(p5, r5, 7, Completed, s.completed);
    var r6 := r5.(stats := SetField(r5.stats, Completed, Trim(s.completed)));
    var p7 := p6 + Optional(Percent, s.percent);
    OneField(p6, r6, 8, Percent, s.percent);
    var r7 := r6.(stats := SetField(r6.stats, Percent, Trim(s.percent)));
    assert p7 + OptionalCounts(s) == Fields(s);
    CountsProgress(p7, r7, s);
  }

  function Fields2(): seq<Item> {
    [Item(Schema, Str(Plains(Ascii(SCHEMA_VALUE)))), Item(Version, Whole(1))]
  }

  lemma CountsProgress(ps: seq<Item>, r: Reading, s: Stats)
    requires ValuesValid(s) && Progress(ps, r, 9)
    requires !r.stats.achievements && r.stats.unlocked == 0 && r.stats.total == 0 && r.stats.hardcore == ABSENT
    ensures Progress(ps + OptionalCounts(s), r.(stats := WithCounts(r.stats, s)), 10)
  {
    hide ReadAchievements, Counts, ReadItems, ItemOk;
    if s.achievements {
      AchievementsRead(s, r.stats);
      CountsOk(s);
      OneMore(ps, r, 9, Item(Achievements, Object(Counts(s))), r.(stats := WithCounts(r.stats, s)));
    } else {
      assert ps + [] == ps;
      assert r.(stats := WithCounts(r.stats, s)) == r;
    }
  }

  /** The achievements of s in r. */
  function WithCounts(r: Stats, s: Stats): Stats {
    r.(achievements := s.achievements, unlocked := if s.achievements then s.unlocked else 0,
       total := if s.achievements then s.total else 0, hardcore := Trim(s.hardcore))
  }

  lemma FieldsCount(s: Stats)
    ensures 2 <= |Fields(s)| <= 10
  {
    hide ValueOf, Whole, Counts, Plains;
  }

  /** The written tree reads back as the values written. */
  lemma TreeReads(s: Stats)
    requires ValuesValid(s)
    ensures ReadStats(Tree(s)) == Some(Normalized(s))
  {
    hide Fields, MembersOf, ReadUpTo, KeysDistinct, ReadItems;
    FieldsProgress(s);
    var ps := Fields(s);
    OrderedDistinct(ps, 10);
    ReadsItems(ps, |ps|);
    assert ps[..|ps|] == ps;
  }

  /** The document is a JSON text of two levels, short and without bytes above 0x7f. */
  lemma DocumentShape(s: Stats)
    requires ValuesValid(s)
    ensures Ok(Tree(s)) && Nesting(Tree(s)) <= 2 && 2 <= |Document(s)| <= 2302 && Low(Document(s))
  {
    hide Fields, MembersOf, ReadItems, Ok, Text, Nesting, MembersText, MembersOk, MembersNesting;
    FieldsProgress(s);
    FieldsCount(s);
    var ps := Fields(s);
    ItemsText(ps, 200, 1);
    ObjectIs(ps);
    assert |ps| * 230 <= 2300;
  }

  lemma {:induction false} LowValid(b: seq<byte>)
    requires Low(b)
    ensures Utf8.Valid(b)
    decreases |b|
  {
    if b != [] {
      LowValid(b[1..]);
    }
  }

  /** Reading a written document gives the values back. */
  lemma RoundTrip(s: Stats)
    requires ValuesValid(s)
    ensures OutcomeOf(Document(s)) == Accepted(Normalized(s))
  {
    hide Ok, Text, Nesting, ReadStats, JsonParse.ParseText, Utf8.Valid, Normalized;
    DocumentShape(s);
    LowValid(Document(s));
    JsonParse.TextComplete([], Tree(s), []);
    assert [] + Document(s) + [] == Document(s);
    TreeReads(s);
  }

  // ---------- what the reader accepts can be written ----------

  /** The values hold within their limits and absent fields carry nothing. */
  predicate WithinLimits(s: Stats) {
    && Normalized(s) == s && s.unlocked <= LIMIT && s.total <= LIMIT
    && Fits(PlayTime, s.playTime) && Fits(LaunchCount, s.launchCount)
    && Fits(FirstPlayed, s.firstPlayed) && Fits(LastPlayed, s.lastPlayed)
    && Fits(Favorite, s.favorite) && Fits(Completed, s.completed) && Fits(Percent, s.percent) && Fits(Hardcore, s.hardcore)
    && (s.achievements ==> s.unlocked <= s.total)
    && (s.hardcore.has ==> s.achievements && s.hardcore.value <= s.unlocked)
  }

  lemma NumberFits(id: Id, v: Value)
    requires NumberOf(id, v).Some?
    ensures Fits(id, Present(NumberOf(id, v).value))
  {
    hide IntegerOf, NumberOk;
  }

  /** No count read from an achievements object is above the limit. */
  lemma {:induction false} CountsBounded(ms: Members, n: nat)
    requires n <= Len(ms) && CountUpTo(ms, n).Some?
    ensures var c := CountUpTo(ms, n).value;
      && (c.unlocked.Some? ==> c.unlocked.value <= LIMIT) && (c.total.Some? ==> c.total.value <= LIMIT)
      && (c.hardcore.Some? ==> c.hardcore.value <= LIMIT)
    decreases n
  {
    hide Name, KeyOf, Nth, IntegerOf, NumberOk;
    if n > 0 {
      CountsBounded(ms, n - 1);
    }
  }

  lemma AchievementsBounded(s: Stats, v: Value)
    requires WithinLimits(s) && ReadAchievements(s, v).Some?
    ensures WithinLimits(ReadAchievements(s, v).value)
  {
    hide KeysDistinct, CountUpTo;
    CountsBounded(v.members, Len(v.members));
  }

  lemma KnownBounded(r: Reading, id: Id, v: Value)
    requires WithinLimits(r.stats) && ReadKnown(r, id, v).Some?
    ensures WithinLimits(ReadKnown(r, id, v).value.stats)
  {
    hide ReadAchievements, NumberOf;
    if id == Achievements {
      AchievementsBounded(r.stats, v);
    } else if id != Schema && id != Version {
      NumberFits(id, v);
    }
  }

  lemma {:induction false} ReadBounded(ms: Members, n: nat)
    requires n <= Len(ms) && ReadUpTo(ms, n).Some?
    ensures WithinLimits(ReadUpTo(ms, n).value.stats)
    decreases n
  {
    hide KeyOf, Nth, ReadKnown, FieldOf, WithinLimits;
    if n == 0 {
      EmptyBounded();
    } else {
      ReadBounded(ms, n - 1);
      KnownBounded(ReadUpTo(ms, n - 1).value, FieldOf(KeyOf(ms, n - 1)).value, Nth(ms, n - 1).value);
    }
  }

  lemma EmptyBounded()
    ensures WithinLimits(EMPTY)
  {
  }

  /** Whatever is read may be written again, and loses nothing by it. */
  lemma AcceptedValid(v: Value)
    requires ReadStats(v).Some?
    ensures ValuesValid(ReadStats(v).value) && Normalized(ReadStats(v).value) == ReadStats(v).value
  {
    hide KeysDistinct, ReadUpTo;
    ReadBounded(v.members, Len(v.members));
  }

  /** Rewriting an accepted document keeps its values, whatever its layout, order and escapes were. */
  lemma Rewritten(bytes: seq<byte>)
    requires OutcomeOf(bytes).Accepted?
    ensures ValuesValid(OutcomeOf(bytes).stats) && OutcomeOf(Document(OutcomeOf(bytes).stats)) == OutcomeOf(bytes)
  {
    hide ReadStats, Normalized, ValuesValid, JsonParse.ParseText, Utf8.Valid, Document;
    AcceptedValid(JsonParse.ParseText(bytes).value);
    RoundTrip(OutcomeOf(bytes).stats);
  }

  // ---------- the text, piece by piece ----------

  /** The text of an object whose members so far are ps, not yet closed. */
  function SoFar(ps: seq<Item>): seq<byte> {
    [Open(true)] + (if MembersOf(ps).Cons? then MembersText(MembersOf(ps)) else [])
  }

  /** What goes before the value of a further member. */
  function Lead(id: Id): seq<byte> {
    Ascii(",\"" + NameString(id) + "\":")
  }

  lemma LeadIs(id: Id)
    ensures Lead(id) == [COMMA] + ([QUOTE] + Name(id) + [QUOTE, COLON])
  {
    hide NameString;
    AsciiJoin(",\"", NameString(id));
    AsciiJoin(",\"" + NameString(id), "\":");
    assert Ascii(",\"") == [COMMA, QUOTE] && Ascii("\":") == [QUOTE, COLON];
  }

  lemma {:induction false} MembersMore(ps: seq<Item>, p: Item)
    requires ps != []
    ensures MembersOf(ps).Cons? && MembersOf(ps + [p]).Cons?
    ensures MembersText(MembersOf(ps + [p])) == MembersText(MembersOf(ps)) + Lead(p.id) + Text(p.value)
    decreases |ps|
  {
    hide MembersOf, MembersText, Name, Text, MemberText, Lead;
    if |ps| == 1 {
      SecondMember(ps[0], p);
      assert ps == [ps[0]] && ps + [p] == [ps[0], p];
    } else {
      FirstItemText(ps);
      FirstItemText(ps + [p]);
      assert (ps + [p])[0] == ps[0] && (ps + [p])[1..] == ps[1..] + [p];
      MembersMore(ps[1..], p);
      Rejoin(MemberText(MemberOf(ps[0])), MembersText(MembersOf(ps[1..])), Lead(p.id), Text(p.value));
    }
  }

  lemma SecondMember(q: Item, p: Item)
    ensures MembersOf([q]).Cons? && MembersOf([q, p]).Cons?
    ensures MembersText(MembersOf([q, p])) == MembersText(MembersOf([q])) + Lead(p.id) + Text(p.value)
  {
    OnlyMember(q);
    OnlyMember(p);
    hide MembersOf, MembersText, Name, Text, MemberText, Lead;
    FirstItemText([q, p]);
    assert [q, p][1..] == [p];
    MemberTextIs(p);
    LeadIs(p.id);
    RejoinLead(MemberText(MemberOf(q)), [QUOTE] + Name(p.id) + [QUOTE, COLON], Text(p.value));
  }

  lemma OnlyMember(q: Item)
    ensures MembersOf([q]).Cons? && MembersText(MembersOf([q])) == MemberText(MemberOf(q))
  {
    hide MemberText, MemberOf;
    assert [q][1..] == [];
  }

  lemma RejoinLead(first: seq<byte>, key: seq<byte>, text: seq<byte>)
    ensures first + ([COMMA] + (key + text)) == first + ([COMMA] + key) + text
  {
  }

  lemma Rejoin(first: seq<byte>, rest: seq<byte>, lead: seq<byte>, text: seq<byte>)
    ensures first + ([COMMA] + (rest + lead + text)) == first + ([COMMA] + rest) + lead + text
  {
  }

  /** A further member. */
  lemma WrittenMore(ps: seq<Item>, p: Item)
    requires ps != []
    ensures SoFar(ps + [p]) == SoFar(ps) + Lead(p.id) + Text(p.value)
  {
    hide MembersOf, MembersText, Lead, Text;
    MembersMore(ps, p);
  }

  lemma WrittenFirst(p: Item)
    ensures SoFar([p]) == [Open(true), QUOTE] + Name(p.id) + [QUOTE, COLON] + Text(p.value)
  {
    hide MembersOf, MembersText, Name, Text, MemberText;
    FirstItemText([p]);
    MemberTextIs(p);
    OpenLead(Name(p.id), Text(p.value));
  }

  lemma OpenLead(name: seq<byte>, text: seq<byte>)
    ensures [Open(true)] + ([QUOTE] + name + [QUOTE, COLON] + text) == [Open(true), QUOTE] + name + [QUOTE, COLON] + text
  {
  }

  /** Any list of up to ten members leaves ample room. */
  lemma WrittenShort(ps: seq<Item>)
    requires ps != [] && |ps| <= 10 && ItemsOk(ps)
    ensures |SoFar(ps)| <= 2301
  {
    hide MembersOf, MembersText, Ok, Nesting, Text, MembersOk, MembersNesting;
    ItemsText(ps, 200, 1);
    assert |ps| * 230 <= 2300;
  }

  // ---------- the serializer ----------

  /** The buffer a document is assembled in. */
  class Printer {
    const json: array<byte>
    var position: nat

    ghost predicate Valid()
      reads this
    {
      position <= json.Length == MAX_JSON_SIZE
    }

    /** What has been written so far. */
    ghost function Contents(): seq<byte>
      requires Valid()
      reads this, json
    {
      json[..position]
    }

    constructor ()
      ensures fresh(json) && Valid() && Contents() == []
    {
      json := new byte[MAX_JSON_SIZE](_ => 0);
      position := 0;
    }

    /** Appends text if it fits. */
    method AppendText(text: seq<byte>) returns (ok: bool)
      requires Valid()
      modifies this`position, json
      ensures Valid() && ok == (|old(Contents())| + |text| <= MAX_JSON_SIZE)
      ensures Contents() == if ok then old(Contents()) + text else old(Contents())
    {
      if |text| > json.Length - position {
        return false;
      }
      Copy(json, position, text);
      position := position + |text|;
      ok := true;
    }

    /** Appends a number in decimal, if it and a terminator fit. */
    method AppendUint(value: nat) returns (ok: bool)
      requires Valid()
      modifies this`position, json
      ensures Valid() && ok == (|old(Contents())| + |Digits(value)| < MAX_JSON_SIZE)
      ensures Contents() == if ok then old(Contents()) + Digits(value) else old(Contents())
    {
      hide Digits;
      if position >= json.Length {
        return false;
      }
      var count := |Digits(value)|;
      if count >= json.Length - position {
        return false;
      }
      Copy(json, position, Digits(value));
      json[position + count] := 0;
      position := position + count;
      ok := true;
    }

    /** Appends text and a number after it. */
    method AppendNumber(text: seq<byte>, value: nat) returns (ok: bool)
      requires Valid() && |Contents()| + |text| + |Digits(value)| < MAX_JSON_SIZE
      modifies this`position, json
      ensures Valid() && ok && Contents() == old(Contents()) + text + Digits(value)
    {
      hide Digits;
      ok := AppendText(text);
      if ok {
        ok := AppendUint(value);
      }
    }

    /** Appends an optional number. */
    method AppendField(id: Id, f: Field, ghost ps: seq<Item>) returns (ok: bool)
      requires Valid() && Contents() == SoFar(ps) && ps != [] && |ps| <= 9 && ItemsOk(ps)
      requires id != Favorite && id != Completed && (f.has ==> f.value <= LIMIT)
      modifies this`position, json
      ensures Valid() && ok && Contents() == SoFar(ps + Optional(id, f)) && ItemsOk(ps + Optional(id, f))
    {
      hide SoFar, Digits, Lead, ItemOk;
      ok := true;
      if f.has {
        WrittenShort(ps);
        LeadShort(id);
        WholeItem(id, f.value);
        WholeDigits(f.value);
        WrittenMore(ps, Item(id, Whole(f.value)));
        ok := AppendNumber(Lead(id), f.value);
      } else {
        assert ps + [] == ps;
      }
    }

    /** Appends an optional boolean. */
    method AppendFlag(id: Id, f: Field, ghost ps: seq<Item>) returns (ok: bool)
      requires Valid() && Contents() == SoFar(ps) && ps != [] && |ps| <= 9 && ItemsOk(ps)
      requires id == Favorite || id == Completed
      modifies this`position, json
      ensures Valid() && ok && Contents() == SoFar(ps + Optional(id, f)) && ItemsOk(ps + Optional(id, f))
    {
      hide SoFar, Lead, ItemOk;
      ok := true;
      if f.has {
        WrittenShort(ps);
        LeadShort(id);
        FlagItem(id, f.value);
        WrittenMore(ps, Item(id, ValueOf(id, f.value)));
        ok := AppendText(Lead(id) + WordText(if f.value != 0 then True else False));
      } else {
        assert ps + [] == ps;
      }
    }

    /** Appends the two obligatory counts. */
    method AppendTotals(s: Stats) returns (ok: bool)
      requires Valid() && |Contents()| <= 2400 && ValuesValid(s)
      modifies this`position, json
      ensures Valid() && ok
      ensures Contents() == old(Contents()) + (Lead(Achievements) + UnlockedText()) + Digits(s.unlocked) + Lead(Total) + Digits(s.total)
    {
      hide Digits, Lead, UnlockedText, ValuesValid;
      CountPieces(s);
      ok := AppendNumber(Lead(Achievements) + UnlockedText(), s.unlocked);
      if ok {
        ok := AppendNumber(Lead(Total), s.total);
      }
    }

    /** Appends the third count, if any, and closes the object. */
    method AppendHardcore(s: Stats) returns (ok: bool)
      requires Valid() && |Contents()| <= 2600 && ValuesValid(s)
      modifies this`position, json
      ensures Valid() && ok
      ensures Contents() == old(Contents()) + (if s.hardcore.has then Lead(Hardcore) + Digits(s.hardcore.value) else []) + [Close(true)]
    {
      hide Digits, Lead, ValuesValid;
      CountPieces(s);
      ok := true;
      if s.hardcore.has {
        ok := AppendNumber(Lead(Hardcore), s.hardcore.value);
      }
      if ok {
        ok := AppendText([Close(true)]);
      }
    }

    /** Appends the achievements object. */
    method AppendCounts(s: Stats, ghost ps: seq<Item>) returns (ok: bool)
      requires Valid() && Contents() == SoFar(ps) && ps != [] && |ps| <= 9 && ItemsOk(ps) && ValuesValid(s)
      modifies this`position, json
      ensures Valid() && ok && Contents() == SoFar(ps + OptionalCounts(s))
    {
      hide SoFar, Digits, Lead, ItemOk, Counts, UnlockedText, Text, Object, ValuesValid;
      ok := true;
      if s.achievements {
        WrittenShort(ps);
        CountPieces(s);
        WrittenMore(ps, Item(Achievements, Object(Counts(s))));
        ok := AppendTotals(s);
        if ok {
          ok := AppendHardcore(s);
        }
        CountsJoined(SoFar(ps), s);
      } else {
        assert ps + [] == ps;
      }
    }
  }

  lemma CountPieces(s: Stats)
    requires ValuesValid(s)
    ensures |Digits(s.unlocked)| <= 16 && |Digits(s.total)| <= 16 && |Digits(s.hardcore.value)| <= 16
    ensures |Lead(Achievements)| <= 29 && |Lead(Total)| <= 29 && |Lead(Hardcore)| <= 29 && |UnlockedText()| == 12
  {
    hide SoFar, Digits, Lead, UnlockedText, Text, Object, Counts;
    CountsText(s);
    UnlockedLead();
  }

  lemma LeadShort(id: Id)
    ensures |Lead(id)| <= 29
  {
    NameSize(id);
  }

  lemma WholeDigits(v: nat)
    requires v <= LIMIT
    ensures Text(Whole(v)) == Digits(v) && |Digits(v)| <= 16
  {
    hide Digits;
    WholeReads(v);
  }

  lemma FlagItem(id: Id, n: nat)
    requires id == Favorite || id == Completed
    ensures ItemOk(Item(id, ValueOf(id, n))) && Text(ValueOf(id, n)) == WordText(if n != 0 then True else False)
  {
  }

  function UnlockedText(): seq<byte> {
    Ascii("{\"unlocked\":")
  }

  /** The achievements object, as the serializer puts it together. */
  lemma CountsText(s: Stats)
    requires ValuesValid(s)
    ensures Text(Object(Counts(s))) ==
      UnlockedText() + Digits(s.unlocked) + Lead(Total) + Digits(s.total)
      + (if s.hardcore.has then Lead(Hardcore) + Digits(s.hardcore.value) else []) + [Close(true)]
    ensures |Digits(s.unlocked)| <= 16 && |Digits(s.total)| <= 16 && |Digits(s.hardcore.value)| <= 16
    ensures |Lead(Achievements)| <= 29 && |Lead(Total)| <= 29 && |Lead(Hardcore)| <= 29
  {
    hide SoFar, Digits, Lead, Text, MembersOf;
    WholeDigits(s.unlocked);
    WholeDigits(s.total);
    WholeDigits(s.hardcore.value);
    LeadShort(Achievements);
    LeadShort(Total);
    LeadShort(Hardcore);
    var a, b, c := Item(Unlocked, Whole(s.unlocked)), Item(Total, Whole(s.total)), Item(Hardcore, Whole(s.hardcore.value));
    CountsAre(s);
    WrittenFirst(a);
    UnlockedLead();
    WrittenMore([a], b);
    assert [a] + [b] == [a, b];
    if s.hardcore.has {
      WrittenMore([a, b], c);
      assert Counts(s) == [a, b] + [c];
    } else {
      assert Counts(s) == [a, b];
    }
    Closed(Counts(s));
  }

  /** The pieces after some text, one by one and at once. */
  lemma CountsJoined(front: seq<byte>, s: Stats)
    requires ValuesValid(s)
    ensures front + Lead(Achievements) + Text(Object(Counts(s))) ==
      front + (Lead(Achievements) + UnlockedText()) + Digits(s.unlocked) + Lead(Total) + Digits(s.total)
      + (if s.hardcore.has then Lead(Hardcore) + Digits(s.hardcore.value) else []) + [Close(true)]
  {
    hide SoFar, Digits, Lead, Counts, UnlockedText, Text, Object;
    CountsText(s);
  }

  lemma UnlockedLead()
    ensures |UnlockedText()| == 12
    ensures UnlockedText() == [Open(true), QUOTE] + Name(Unlocked) + [QUOTE, COLON]
  {
  }

  lemma Closed(ps: seq<Item>)
    requires ps != []
    ensures Text(Object(ps)) == SoFar(ps) + [Close(true)]
  {
    hide MembersText;
  }

  /** The opening of every document. */
  function Opening(): seq<byte> {
    Ascii("{\"schema\":\"romx.stats\",\"version\":1")
  }

  lemma OpeningIs()
    ensures Opening() == SoFar(Fields2()) && ItemsOk(Fields2())
  {
    hide SoFar, Lead, Text;
    var a, b := Item(Schema, Str(Plains(Ascii(SCHEMA_VALUE)))), Item(Version, Whole(1));
    FirstItems();
    WrittenFirst(a);
    WrittenMore([a], b);
    assert [a] + [b] == Fields2();
    SchemaText();
    WholeDigits(1);
    OpeningPieces();
  }

  lemma SchemaText()
    ensures Text(Str(Plains(Ascii(SCHEMA_VALUE)))) == [QUOTE] + Ascii(SCHEMA_VALUE) + [QUOTE]
  {
    hide CharsText;
    PlainsText(Ascii(SCHEMA_VALUE));
  }

  lemma OpeningPieces()
    ensures Opening() == [Open(true), QUOTE] + Name(Schema) + [QUOTE, COLON] +
                         ([QUOTE] + Ascii(SCHEMA_VALUE) + [QUOTE]) + Lead(Version) + Digits(1)
  {
    var a, b := "{\"schema\":\"romx.stats\"", ",\"version\":";
    AsciiJoin(a, b);
    AsciiJoin(a + b, "1");
    assert "{\"schema\":\"romx.stats\",\"version\":1" == a + b + "1";
    SchemaPieces();
  }

  lemma AsciiJoin(a: string, b: string)
    ensures Ascii(a + b) == Ascii(a) + Ascii(b)
  {
  }

  lemma SchemaPieces()
    ensures Ascii("{\"schema\":\"romx.stats\"") ==
      [Open(true), QUOTE] + Name(Schema) + [QUOTE, COLON] + ([QUOTE] + Ascii(SCHEMA_VALUE) + [QUOTE])
  {
  }

  /** Puts the document together. */
  method Assemble(out: Printer, s: Stats) returns (ok: bool)
    requires out.Valid() && out.Contents() == [] && ValuesValid(s)
    modifies out`position, out.json
    ensures out.Valid() && ok && out.Contents() == Document(s)
  {
    hide SoFar, Optional, OptionalCounts, Opening, ItemsOk, Text, Whole, Ascii, Plains;
    OpeningIs();
    OpeningShort();
    OptionalShort(s);
    ghost var ps := Fields2();
    ok := out.AppendText(Opening());
    if ok {
      ok := out.AppendField(PlayTime, s.playTime, ps);
    }
    ps := ps + Optional(PlayTime, s.playTime);
    if ok {
      ok := out.AppendField(LaunchCount, s.launchCount, ps);
    }
    ps := ps + Optional(LaunchCount, s.launchCount);
    if ok {
      ok := out.AppendField(FirstPlayed, s.firstPlayed, ps);
    }
    ps := ps + Optional(FirstPlayed, s.firstPlayed);
    if ok {
      ok := out.AppendField(LastPlayed, s.lastPlayed, ps);
    }
    ps := ps + Optional(LastPlayed, s.lastPlayed);
    if ok {
      ok := out.AppendFlag(Favorite, s.favorite, ps);
    }
    ps := ps + Optional(Favorite, s.favorite);
    if ok {
      ok := out.AppendFlag(Completed, s.completed, ps);
    }
    ps := ps + Optional(Completed, s.completed);
    if ok {
      ok := out.AppendField(Percent, s.percent, ps);
    }
    ps := ps + Optional(Percent, s.percent);
    if ok {
      ok := out.AppendCounts(s, ps);
    }
    ps := ps + OptionalCounts(s);
    if ok {
      ok := out.AppendText([Close(true)]);
    }
    assert ps == Fields(s);
    WholeDocument(s);
  }

  lemma OpeningShort()
    ensures |Opening()| <= 100
  {
  }

  lemma OptionalShort(s: Stats)
    ensures forall id: Id, f: Field :: |Optional(id, f)| <= 1
  {
    hide ValueOf;
  }

  lemma WholeDocument(s: Stats)
    requires ValuesValid(s)
    ensures Document(s) == SoFar(Fields(s)) + [Close(true)] && |SoFar(Fields(s))| <= 2301
  {
    hide Fields, SoFar, ReadItems, Text;
    FieldsCount(s);
    FieldsProgress(s);
    Closed(Fields(s));
    WrittenShort(Fields(s));
  }

  datatype Result = InvalidValues | TooLarge | TooSmall(required: nat) | Done(required: nat)

  /** Serializes statistics into a caller's buffer. */
  method Serialize(s: Stats, buffer: array?<byte>) returns (result: Result)
    modifies if buffer == null then {} else {buffer}
    ensures result == if !ValuesValid(s) then InvalidValues
                      else if buffer == null || buffer.Length < |Document(s)| then TooSmall(|Document(s)|)
                      else Done(|Document(s)|)
    ensures buffer != null ==> buffer[..] == if result.Done? then Put(old(buffer[..]), 0, Document(s)) else old(buffer[..])
  {
    hide Fields, Document, ValuesValid, SoFar, Optional, OptionalCounts, Put, Opening;
    if !ValuesValid(s) {
      return InvalidValues;
    }
    var out := new Printer();
    var ok := Assemble(out, s);
    var position := out.position;
    if !ok {
      result := TooLarge;
    } else if buffer == null || buffer.Length < position {
      result := TooSmall(position);
    } else {
      Copy(buffer, 0, out.json[..position]);
      result := Done(position);
    }
  }
}
