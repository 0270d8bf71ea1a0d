/** The STATS text the serializer writes, as a tree of the JSON grammar, and what reading it gives. */
module StatsText {
  import opened Bytes
  import opened JsonText
  import opened JsonStrings
  import opened JsonWalk
  import opened Stats

  // ---------- numbers in decimal ----------

  /** A number in decimal, without leading zeros. */
  function Digits(v: nat): (s: seq<byte>)
    ensures s != [] && AllDigits(s)
  {
    if v < 10 then [0x30 + v] else Digits(v / 10) + [0x30 + v % 10]
  }

  lemma {:induction false} DigitsRead(v: nat)
    ensures Decimal(Digits(v)) == v
    ensures v > 0 ==> Digits(v)[0] != 0x30
    decreases v
  {
    var s := Digits(v);
    if v < 10 {
      assert s[..0] == [];
    } else {
      DigitsRead(v / 10);
      assert s[..|s| - 1] == Digits(v / 10);
    }
  }

  lemma {:induction false} DigitsSize(v: nat, k: nat, bound: nat)
    requires k >= 1 && bound == Power10(k) && v < bound
    ensures |Digits(v)| <= k
    decreases k
  {
    if v >= 10 {
      DigitsSize(v / 10, k - 1, Power10(k - 1));
    }
  }

  function Power10(k: nat): nat {
    if k == 0 then 1 else 10 * Power10(k - 1)
  }

  lemma Sixteen()
    ensures LIMIT < Power10(16)
  {
    assert Power10(4) == 10000;
    assert Power10(8) == 1_0000_0000;
    assert Power10(12) == 1_0000_0000_0000;
  }

  // ---------- the written tree ----------

  function Plains(b: seq<byte>): (cs: seq<Char>)
    ensures |cs| == |b| && forall i :: 0 <= i < |b| ==> cs[i] == Plain(b[i])
  {
    seq(|b|, i requires 0 <= i < |b| => Plain(b[i]))
  }

  function Whole(v: nat): Value {
    Num(Number(false, Digits(v), [], NoExponent))
  }

  /** A member to write. */
  datatype Item = Item(id: Id, value: Value)

  function ValueOf(id: Id, n: nat): Value {
    if id == Favorite || id == Completed then Literal(if n != 0 then True else False) else Whole(n)
  }

  function Optional(id: Id, f: Field): seq<Item> {
    if f.has then [Item(id, ValueOf(id, f.value))] else []
  }

  function Counts(s: Stats): seq<Item> {
    [Item(Unlocked, Whole(s.unlocked)), Item(Total, Whole(s.total))] + Optional(Hardcore, s.hardcore)
  }

  function OptionalCounts(s: Stats): seq<Item> {
    if s.achievements then [Item(Achievements, Object(Counts(s)))] else []
  }

  function Fields(s: Stats): seq<Item> {
    [Item(Schema, Str(Plains(Ascii(SCHEMA_VALUE)))), Item(Version, Whole(1))]
    + Optional(PlayTime, s.playTime) + Optional(LaunchCount, s.launchCount)
    + Optional(FirstPlayed, s.firstPlayed) + Optional(LastPlayed, s.lastPlayed)
    + Optional(Favorite, s.favorite) + Optional(Completed, s.completed) + Optional(Percent, s.percent)
    + OptionalCounts(s)
  }

  function MemberOf(p: Item): Member {
    Member([], Key(Plains(Name(p.id)), [], []), p.value, [])
  }

  function MembersOf(ps: seq<Item>): Members {
    if ps == [] then Nil else Cons(MemberOf(ps[0]), MembersOf(ps[1..]))
  }

  function Object(ps: seq<Item>): Value {
    Composite(true, [], MembersOf(ps))
  }

  function Tree(s: Stats): Value {
    Object(Fields(s))
  }

  /** The STATS document of some values. */
  function Document(s: Stats): seq<byte> {
    Text(Tree(s))
  }

  // ---------- its members ----------

  lemma {:induction false} MembersNth(ps: seq<Item>, n: nat)
    ensures Len(MembersOf(ps)) == |ps|
    ensures n < |ps| ==> Nth(MembersOf(ps), n) == MemberOf(ps[n])
    decreases |ps|
  {
    hide MemberOf;
    if ps != [] {
      MembersNth(ps[1..], if n > 0 then n - 1 else 0);
      assert n > 0 && n < |ps| ==> ps[1..][n - 1] == ps[n];
    }
  }

  lemma NameIsPlain(id: Id)
    ensures CharsOk(Plains(Name(id))) && Decoded(Plains(Name(id))) == Name(id)
  {
    hide Decoded, Name;
    forall i | 0 <= i < |Name(id)| ensures CharOk(Plain(Name(id)[i])) {
      NameByte(id, i);
    }
    PlainRun(Plains(Name(id)), Name(id));
  }

  lemma NameByte(id: Id, i: nat)
    requires i < |Name(id)|
    ensures 0x5f <= Name(id)[i] <= 0x7a
  {
    hide NameString;
    NameLetter(id, i);
  }

  lemma NameLetter(id: Id, i: nat)
    requires i < |NameString(id)|
    ensures 0x5f <= NameString(id)[i] as int <= 0x7a
  {
    if |Name(id)| > 17 {
      LongNameLetters(id, i);
    } else if |Name(id)| > 9 {
      NameLetters(id, i);
    } else {
      ShortNameLetters(id, i);
    }
  }

  lemma LongNameLetters(id: Id, i: nat)
    requires 17 < |NameString(id)| && i < |NameString(id)|
    ensures 0x5f <= NameString(id)[i] as int <= 0x7a
  {
  }

  lemma NameLetters(id: Id, i: nat)
    requires 9 < |NameString(id)| <= 17 && i < |NameString(id)|
    ensures 0x5f <= NameString(id)[i] as int <= 0x7a
  {
  }

  lemma ShortNameLetters(id: Id, i: nat)
    requires |NameString(id)| <= 9 && i < |NameString(id)|
    ensures 0x5f <= NameString(id)[i] as int <= 0x7a
  {
  }

  lemma SchemaIsPlain()
    ensures IsSchemaValue(Str(Plains(Ascii(SCHEMA_VALUE))))
  {
    hide Decoded;
    var b := Ascii(SCHEMA_VALUE);
    forall i | 0 <= i < |b| ensures CharOk(Plain(b[i])) {
      assert 0x2e <= SCHEMA_VALUE[i] as int <= 0x7a && SCHEMA_VALUE[i] != '\\';
    }
    PlainRun(Plains(b), b);
  }

  lemma KeyIsName(ps: seq<Item>, n: nat)
    requires n < |ps|
    ensures Len(MembersOf(ps)) == |ps| && KeyOf(MembersOf(ps), n) == Name(ps[n].id)
    ensures Nth(MembersOf(ps), n).value == ps[n].value
  {
    hide Decoded, Name, MembersOf;
    MembersNth(ps, n);
    NameIsPlain(ps[n].id);
  }

  lemma WholeReads(v: nat)
    requires v <= LIMIT
    ensures Ok(Whole(v)) && Uint53(Whole(v)) == Some(v) && IntegerOf(Whole(v).number) == Some(v)
    ensures |Text(Whole(v))| <= 16 && Low(Text(Whole(v)))
  {
    hide Digits, Decimal, Power10;
    DigitsRead(v);
    Sixteen();
    DigitsSize(v, 16, Power10(16));
    WholeZero(v);
  }

  lemma WholeZero(v: nat)
    ensures v == 0 ==> Digits(v) == [0x30]
  {
  }

  // ---------- reading it back ----------

  /** The order in which fields are written. */
  function Rank(id: Id): nat {
    match id
    case Schema => 0
    case Version => 1
    case PlayTime => 2
    case LaunchCount => 3
    case FirstPlayed => 4
    case LastPlayed => 5
    case Favorite => 6
    case Completed => 7
    case Percent => 8
    case Achievements => 9
    case Unlocked => 10
    case Total => 11
    case Hardcore => 12
  }

  lemma NamesDistinct()
    ensures forall a: Id, b: Id :: a != b ==> Name(a) != Name(b)
  {
    hide Name;
    forall a: Id, b: Id | a != b ensures Name(a) != Name(b) {
      NamesDiffer(a, b);
    }
  }

  lemma FieldNamed(id: Id)
    requires Rank(id) <= 9
    ensures FieldOf(Name(id)) == Some(id)
  {
    hide Name;
    FieldFound(Name(id), id);
    var found := FieldOf(Name(id)).value;
    if found != id {
      NamesDiffer(found, id);
    }
  }

  lemma FieldFound(key: seq<byte>, id: Id)
    requires Rank(id) <= 9 && key == Name(id)
    ensures FieldOf(key).Some? && Name(FieldOf(key).value) == key
  {
    hide Name;
  }

  /** Rising ranks, all below k. */
  predicate Ordered(ps: seq<Item>, k: nat) {
    && (forall i :: 0 <= i < |ps| ==> Rank(ps[i].id) < k)
    && (forall i, j :: 0 <= i < j < |ps| ==> Rank(ps[i].id) < Rank(ps[j].id))
  }

  lemma OrderedDistinct(ps: seq<Item>, k: nat)
    requires Ordered(ps, k)
    ensures KeysDistinct(MembersOf(ps))
  {
    hide Name, KeyOf, MembersOf;
    NamesDistinct();
    MembersNth(ps, 0);
    forall a, b | 0 <= a < b < |ps| ensures KeyOf(MembersOf(ps), a) != KeyOf(MembersOf(ps), b) {
      KeyIsName(ps, a);
      KeyIsName(ps, b);
    }
  }

  /** Reading a list of items in order. */
  function ReadItems(ps: seq<Item>): Option<Reading> {
    if ps == [] then Some(Reading(EMPTY, false, false))
    else
      var before := ReadItems(ps[..|ps| - 1]);
      if before.None? then None else ReadKnown(before.value, ps[|ps| - 1].id, ps[|ps| - 1].value)
  }

  lemma ReadsNone()
    ensures ReadItems([]) == Some(Reading(EMPTY, false, false))
  {
  }

  lemma ReadItemsNext(ps: seq<Item>, n: nat)
    requires n < |ps|
    ensures var before := ReadItems(ps[..n]);
      ReadItems(ps[..n + 1]) == if before.None? then None else ReadKnown(before.value, ps[n].id, ps[n].value)
  {
    hide ReadKnown;
    assert ps[..n + 1][..n] == ps[..n];
  }

  lemma {:induction false} ReadsItems(ps: seq<Item>, n: nat)
    requires n <= |ps| && forall i :: 0 <= i < |ps| ==> Rank(ps[i].id) <= 9
    ensures Len(MembersOf(ps)) == |ps| && ReadUpTo(MembersOf(ps), n) == ReadItems(ps[..n])
    decreases n
  {
    hide Name, KeyOf, MembersOf, ReadKnown, FieldOf, Nth, ReadUpTo, ReadItems;
    MembersNth(ps, n);
    if n == 0 {
      ReadNothing(MembersOf(ps));
      ReadsNone();
    } else {
      ReadsItems(ps, n - 1);
      KeyIsName(ps, n - 1);
      FieldNamed(ps[n - 1].id);
      ReadItemsNext(ps, n - 1);
      if ReadUpTo(MembersOf(ps), n - 1).None? {
        ReadStops(MembersOf(ps), n - 1, n);
      } else {
        ReadNext(MembersOf(ps), n - 1);
      }
    }
  }

  /** An item whose text is well formed, shallow and short. */
  predicate ItemOk(p: Item) {
    Ok(p.value) && Nesting(p.value) <= 1 && |Text(p.value)| <= 200 && Low(Text(p.value))
  }

  /** Only bytes below 0x80. */
  predicate Low(b: seq<byte>) {
    forall i :: 0 <= i < |b| ==> b[i] < 0x80
  }

  predicate ItemsOk(ps: seq<Item>) {
    forall i :: 0 <= i < |ps| ==> ItemOk(ps[i])
  }

  /** A list of items written so far and what reading it gives. */
  predicate Progress(ps: seq<Item>, r: Reading, k: nat) {
    ReadItems(ps) == Some(r) && Ordered(ps, k) && ItemsOk(ps)
  }

  lemma OneMore(ps: seq<Item>, r: Reading, k: nat, p: Item, next: Reading)
    requires Progress(ps, r, k) && k <= Rank(p.id) && ItemOk(p) && ReadKnown(r, p.id, p.value) == Some(next)
    ensures Progress(ps + [p], next, Rank(p.id) + 1)
  {
    hide ReadKnown, Rank, ItemOk;
    assert (ps + [p])[..|ps|] == ps;
  }

  function Trim(f: Field): Field {
    if f.has then f else ABSENT
  }

  function GetField(s: Stats, id: Id): Field {
    match id
    case PlayTime => s.playTime
    case LaunchCount => s.launchCount
    case FirstPlayed => s.firstPlayed
    case LastPlayed => s.lastPlayed
    case Favorite => s.favorite
    case Completed => s.completed
    case Percent => s.percent
    case _ => ABSENT
  }

  /** A field's value is one its reader takes. */
  predicate Fits(id: Id, f: Field) {
    f.has ==> f.value <= LIMIT && ((id == Favorite || id == Completed) ==> f.value <= 1) && (id == Percent ==> f.value <= 100)
  }

  lemma ValueReads(id: Id, f: Field)
    requires f.has && Fits(id, f)
    ensures NumberOf(id, ValueOf(id, f.value)) == Some(f.value) && ItemOk(Item(id, ValueOf(id, f.value)))
  {
    hide Uint53, Digits;
    WholeReads(f.value);
  }

  lemma OneField(ps: seq<Item>, r: Reading, k: nat, id: Id, f: Field)
    requires Progress(ps, r, k) && k <= Rank(id) && 2 <= Rank(id) <= 8 && Fits(id, f) && GetField(r.stats, id) == ABSENT
    ensures Progress(ps + Optional(id, f), r.(stats := SetField(r.stats, id, Trim(f))), Rank(id) + 1)
  {
    hide NumberOf, ValueOf, ReadItems, ItemOk, Fits;
    if f.has {
      ValueReads(id, f);
      OneMore(ps, r, k, Item(id, ValueOf(id, f.value)), r.(stats := SetField(r.stats, id, f)));
    } else {
      assert ps + [] == ps;
      assert r.(stats := SetField(r.stats, id, ABSENT)) == r;
    }
  }

  /** What is left of the values once they are written: absent fields carry no value. */
  function Normalized(s: Stats): Stats {
    Stats(Trim(s.playTime), Trim(s.launchCount), Trim(s.firstPlayed), Trim(s.lastPlayed), Trim(s.favorite), Trim(s.completed),
          Trim(s.percent), s.achievements, if s.achievements then s.unlocked else 0, if s.achievements then s.total else 0,
          Trim(s.hardcore))
  }

  lemma FirstItems()
    ensures Progress([Item(Schema, Str(Plains(Ascii(SCHEMA_VALUE)))), Item(Version, Whole(1))], Reading(EMPTY, true, true), 2)
  {
    hide IsSchemaValue, Plains, Digits, Progress, ItemOk, IntegerOf, Ascii;
    NoItems();
    var a, b := Item(Schema, Str(Plains(Ascii(SCHEMA_VALUE)))), Item(Version, Whole(1));
    SchemaItem();
    WholeReads(1);
    WholeItem(Version, 1);
    OneMore([], Reading(EMPTY, false, false), 0, a, Reading(EMPTY, true, false));
    OneMore([] + [a], Reading(EMPTY, true, false), 1, b, Reading(EMPTY, true, true));
    assert [] + [a] + [b] == [a, b];
  }

  lemma NoItems()
    ensures Progress([], Reading(EMPTY, false, false), 0)
  {
  }

  lemma WholeItem(id: Id, v: nat)
    requires v <= LIMIT
    ensures ItemOk(Item(id, Whole(v)))
  {
    hide Digits;
    WholeReads(v);
  }

  lemma SchemaItem()
    ensures ItemOk(Item(Schema, Str(Plains(Ascii(SCHEMA_VALUE))))) && IsSchemaValue(Str(Plains(Ascii(SCHEMA_VALUE))))
  {
    hide Decoded;
    SchemaIsPlain();
    PlainsText(Ascii(SCHEMA_VALUE));
  }

  lemma {:induction false} PlainsText(b: seq<byte>)
    ensures CharsText(Plains(b)) == b
    decreases |b|
  {
    if b != [] {
      PlainsText(b[1..]);
      assert Plains(b)[1..] == Plains(b[1..]);
    }
  }

  // ---------- achievements ----------

  lemma CountNamed(c: Counting, v: Value)
    requires Uint53(v).Some?
    ensures CountField(c, Name(Unlocked), v) == Some(c.(unlocked := Uint53(v)))
    ensures CountField(c, Name(Total), v) == Some(c.(total := Uint53(v)))
    ensures CountField(c, Name(Hardcore), v) == Some(c.(hardcore := Uint53(v)))
  {
    hide Name, Uint53;
    NamesDiffer(Unlocked, Total);
    NamesDiffer(Unlocked, Hardcore);
    NamesDiffer(Total, Hardcore);
  }

  lemma Bounded(s: Stats)
    requires ValuesValid(s)
    ensures s.unlocked <= LIMIT && s.total <= LIMIT && s.hardcore.value <= LIMIT
  {
  }

  lemma CountsRead(s: Stats)
    requires ValuesValid(s)
    ensures Len(MembersOf(Counts(s))) == |Counts(s)|
    ensures CountUpTo(MembersOf(Counts(s)), |Counts(s)|) ==
      Some(Counting(Some(s.unlocked), Some(s.total), if s.hardcore.has then Some(s.hardcore.value) else None))
  {
    hide Name, KeyOf, MembersOf, Nth, Uint53, Whole, CountUpTo, Counts, Len, CountField, ValuesValid;
    var ps, ms := Counts(s), MembersOf(Counts(s));
    CountsAre(s);
    Bounded(s);
    WholeReads(s.unlocked);
    WholeReads(s.total);
    WholeReads(s.hardcore.value);
    CountNamed(Counting(None, None, None), Whole(s.unlocked));
    CountNamed(Counting(Some(s.unlocked), None, None), Whole(s.total));
    CountNamed(Counting(Some(s.unlocked), Some(s.total), None), Whole(s.hardcore.value));
    KeyIsName(ps, 0);
    KeyIsName(ps, 1);
    CountNothing(ms);
    CountNext(ms, 0);
    CountNext(ms, 1);
    if s.hardcore.has {
      KeyIsName(ps, 2);
      CountNext(ms, 2);
    }
  }

  lemma CountsAre(s: Stats)
    ensures var ps := Counts(s);
      && |ps| == (if s.hardcore.has then 3 else 2)
      && ps[0] == Item(Unlocked, Whole(s.unlocked)) && ps[1] == Item(Total, Whole(s.total))
      && (s.hardcore.has ==> ps[2] == Item(Hardcore, Whole(s.hardcore.value)))
  {
    hide Whole;
  }

  lemma CountNothing(ms: Members)
    ensures CountUpTo(ms, 0) == Some(Counting(None, None, None))
  {
  }

  lemma AchievementsRead(s: Stats, r: Stats)
    requires ValuesValid(s) && s.achievements && r.hardcore == ABSENT
    ensures ReadAchievements(r, Object(Counts(s))) ==
      Some(r.(achievements := true, unlocked := s.unlocked, total := s.total, hardcore := Trim(s.hardcore)))
  {
    hide KeysDistinct, MembersOf, CountUpTo, Counts;
    CountsRead(s);
    CountsOrdered(s);
    OrderedDistinct(Counts(s), 13);
    var c := Counting(Some(s.unlocked), Some(s.total), if s.hardcore.has then Some(s.hardcore.value) else None);
    assert ReadAchievements(r, Object(Counts(s))) == Settle(r, c);
  }

  lemma CountsOrdered(s: Stats)
    ensures Ordered(Counts(s), 13)
  {
    hide Whole, ValueOf;
  }

  // ---------- size and shape ----------

  lemma {:induction false} ItemsText(ps: seq<Item>, limit: nat, depth: nat)
    requires forall i :: 0 <= i < |ps| ==> Ok(ps[i].value) && Nesting(ps[i].value) <= depth
    requires forall i :: 0 <= i < |ps| ==> |Text(ps[i].value)| <= limit && Low(Text(ps[i].value))
    ensures MembersOk(MembersOf(ps), true) && MembersNesting(MembersOf(ps)) <= depth
    ensures ps != [] ==> |MembersText(MembersOf(ps))| <= |ps| * (limit + 30) && Low(MembersText(MembersOf(ps)))
    decreases |ps|
  {
    hide Ok, Nesting, Text, Name, MembersOf, MembersOk, MembersNesting, MembersText, MemberText, KeyOk;
    if ps == [] {
      NoMembers();
    } else {
      hide Low;
      ItemsText(ps[1..], limit, depth);
      MemberFits(ps[0], limit);
      FirstItemText(ps);
      Times(|ps|, limit + 30);
      if |ps| > 1 {
        LowJoin(MemberText(MemberOf(ps[0])), MembersText(MembersOf(ps[1..])));
      }
    }
  }

  lemma MemberFits(p: Item, limit: nat)
    requires |Text(p.value)| <= limit && Low(Text(p.value))
    ensures |MemberText(MemberOf(p))| <= limit + 29 && Low(MemberText(MemberOf(p))) && KeyOk(MemberOf(p).key, true)
  {
    hide Text, Name, MemberText, KeyOk;
    MemberTextIs(p);
  }

  lemma LowJoin(a: seq<byte>, b: seq<byte>)
    requires Low(a) && Low(b)
    ensures Low(a + ([COMMA] + b))
  {
  }

  lemma NoMembers()
    ensures MembersOf([]) == Nil && MembersOk(Nil, true) && MembersNesting(Nil) == 0
  {
  }

  lemma FirstItemText(ps: seq<Item>)
    requires ps != []
    ensures var ms, rest := MembersOf(ps), MembersOf(ps[1..]);
      && ms.Cons? && MembersOk(ms, true) == (KeyOk(MemberOf(ps[0]).key, true) && Ok(ps[0].value) && MembersOk(rest, true))
      && MembersNesting(ms) == Max(Nesting(ps[0].value), MembersNesting(rest))
      && rest.Cons? == (|ps| > 1)
      && MembersText(ms) == MemberText(MemberOf(ps[0])) + (if |ps| > 1 then [COMMA] + MembersText(rest) else [])
  {
    hide Ok, Nesting, Text, Name, MemberText, KeyOk, KeyText;
    assert MembersOf(ps) == Cons(MemberOf(ps[0]), MembersOf(ps[1..]));
    assert MemberText(MemberOf(ps[0])) + [] == MemberText(MemberOf(ps[0]));
  }

  function Max(a: nat, b: nat): nat {
    if a > b then a else b
  }

  lemma Times(n: nat, k: nat)
    requires n > 0
    ensures n * k == (n - 1) * k + k
  {
  }

  lemma MemberTextIs(p: Item)
    ensures MemberText(MemberOf(p)) == [QUOTE] + Name(p.id) + [QUOTE, COLON] + Text(p.value)
    ensures KeyOk(MemberOf(p).key, true) && |Name(p.id)| <= 25 && Low(Name(p.id))
  {
    hide Text, CharOk, CharsText, Name;
    PlainsText(Name(p.id));
    NameIsPlain(p.id);
    NameSize(p.id);
    NameLow(p.id);
  }

  lemma NameLow(id: Id)
    ensures Low(Name(id))
  {
    hide Name;
    forall i | 0 <= i < |Name(id)| ensures Name(id)[i] < 0x80 {
      NameByte(id, i);
    }
  }

  lemma NameSize(id: Id)
    ensures |Name(id)| <= 25
  {
  }

  lemma ObjectIs(ps: seq<Item>)
    requires ps != [] && MembersOk(MembersOf(ps), true)
    ensures Ok(Object(ps)) && Nesting(Object(ps)) == 1 + MembersNesting(MembersOf(ps))
    ensures MembersOf(ps).Cons? && Text(Object(ps)) == [Open(true)] + MembersText(MembersOf(ps)) + [Close(true)]
  {
    hide MembersOk, MembersNesting, MembersText;
  }

  lemma CountsItem(s: Stats)
    requires Ok(Object(Counts(s))) && Nesting(Object(Counts(s))) <= 1
    requires |Text(Object(Counts(s)))| <= 200 && Low(Text(Object(Counts(s))))
    ensures ItemOk(Item(Achievements, Object(Counts(s))))
  {
    hide Ok, Nesting, Text;
  }

  lemma CountsOk(s: Stats)
    requires ValuesValid(s)
    ensures ItemOk(Item(Achievements, Object(Counts(s))))
  {
    hide MembersOf, Whole, ItemOk, MembersNesting, MembersText, Counts, MembersOk, Text, Ok, Nesting;
    CountsAre(s);
    WholeReads(s.unlocked);
    WholeReads(s.total);
    WholeReads(s.hardcore.value);
    WholeFlat(s.unlocked);
    WholeFlat(s.total);
    WholeFlat(s.hardcore.value);
    var ps := Counts(s);
    ItemsText(ps, 16, 0);
    ObjectIs(ps);
    assert |ps| * 46 <= 138;
    CountsItem(s);
  }

  lemma WholeFlat(v: nat)
    ensures Nesting(Whole(v)) == 0
  {
  }
}
