/** The STATS profile: which documents it reads, what it writes, and that reading back what was
    written gives the same values. */
module Stats {
  import opened Bytes
  import opened JsonText
  import opened JsonScan
  import opened JsonTokens
  import opened JsonStrings
  import opened JsonWalk
  import JsonParse
  import Utf8

  const LIMIT: nat := 0x1f_ffff_ffff_ffff
  const MAX_JSON_SIZE: nat := 16384

  /** A value and the flag that says it is there. */
  datatype Field = Field(has: bool, value: nat)

  datatype Stats = Stats(playTime: Field, launchCount: Field, firstPlayed: Field, lastPlayed: Field, favorite: Field,
                         completed: Field, percent: Field, achievements: bool, unlocked: nat, total: nat, hardcore: Field)

  const ABSENT: Field := Field(false, 0)
  const EMPTY: Stats := Stats(ABSENT, ABSENT, ABSENT, ABSENT, ABSENT, ABSENT, ABSENT, false, 0, 0, ABSENT)

  /** The values a caller may write. */
  predicate ValuesValid(s: Stats) {
    && (s.favorite.has ==> s.favorite.value <= 1) && (s.completed.has ==> s.completed.value <= 1)
    && (s.percent.has ==> s.percent.value <= 100)
    && (s.hardcore.has ==> s.achievements)
    && s.playTime.value <= LIMIT && s.launchCount.value <= LIMIT && s.firstPlayed.value <= LIMIT && s.lastPlayed.value <= LIMIT
    && s.unlocked <= LIMIT && s.total <= LIMIT && s.hardcore.value <= LIMIT
    && (s.firstPlayed.has && s.lastPlayed.has ==> s.firstPlayed.value <= s.lastPlayed.value)
    && (s.achievements ==> s.unlocked <= s.total)
    && (s.hardcore.has ==> s.hardcore.value <= s.unlocked)
  }

  // ---------- names ----------

  datatype Id = Schema | Version | PlayTime | LaunchCount | FirstPlayed | LastPlayed | Favorite | Completed | Percent | Achievements
              | Unlocked | Total | Hardcore

  function Ascii(s: string): (b: seq<byte>)
    ensures |b| == |s| && forall i :: 0 <= i < |s| ==> b[i] == s[i] as int % 256
  {
    seq(|s|, i requires 0 <= i < |s| => s[i] as int % 256)
  }

  function NameString(id: Id): string {
    match id
    case Schema => "schema"
    case Version => "version"
    case PlayTime => "play_time_seconds"
    case LaunchCount => "launch_count"
    case FirstPlayed => "first_played_unix_seconds"
    case LastPlayed => "last_played_unix_seconds"
    case Favorite => "favorite"
    case Completed => "completed"
    case Percent => "completion_percent"
    case Achievements => "achievements"
    case Unlocked => "unlocked"
    case Total => "total"
    case Hardcore => "hardcore_unlocked"
  }

  function Name(id: Id): (b: seq<byte>)
    ensures |b| == |NameString(id)|
  {
    Ascii(NameString(id))
  }

  const SCHEMA_VALUE: string := "romx.stats"

  lemma NamesDiffer(a: Id, b: Id)
    requires a != b
    ensures Name(a) != Name(b)
  {
    if |NameString(a)| == |NameString(b)| {
      assert Name(a)[0] == NameString(a)[0] as int % 256 && Name(b)[0] == NameString(b)[0] as int % 256;
    }
  }

  // ---------- what a document says ----------

  function Uint53(v: Value): Option<nat> {
    if v.Num? && NumberOk(v.number) && IntegerOf(v.number).Some? && 0 <= IntegerOf(v.number).value <= LIMIT
    then Some(IntegerOf(v.number).value) else None
  }

  function Boolean(v: Value): Option<nat> {
    if v == Literal(True) then Some(1) else if v == Literal(False) then Some(0) else None
  }

  function AtMost(n: Option<nat>, limit: nat): Option<nat> {
    if n.Some? && n.value <= limit then n else None
  }

  function Present(n: nat): Field {
    Field(true, n)
  }

  /** The values read so far, and which obligatory fields have been seen. */
  datatype Reading = Reading(stats: Stats, schema: bool, version: bool)

  /** The achievements read so far. */
  datatype Counting = Counting(unlocked: Option<nat>, total: Option<nat>, hardcore: Option<nat>)

  function CountField(c: Counting, key: seq<byte>, v: Value): Option<Counting> {
    if Uint53(v).None? then None
    else if key == Name(Unlocked) then Some(c.(unlocked := Uint53(v)))
    else if key == Name(Total) then Some(c.(total := Uint53(v)))
    else if key == Name(Hardcore) then Some(c.(hardcore := Uint53(v)))
    else None
  }

  function CountUpTo(ms: Members, n: nat): Option<Counting>
    requires n <= Len(ms)
  {
    if n == 0 then Some(Counting(None, None, None))
    else
      var before := CountUpTo(ms, n - 1);
      if before.None? then None else CountField(before.value, KeyOf(ms, n - 1), Nth(ms, n - 1).value)
  }

  /** What an achievements object adds to the statistics. */
  function ReadAchievements(s: Stats, v: Value): Option<Stats> {
    if !v.Composite? || !v.isObject || !KeysDistinct(v.members) then None
    else
      var c := CountUpTo(v.members, Len(v.members));
      if c.None? then None else Settle(s, c.value)
  }

  function Settle(s: Stats, c: Counting): Option<Stats> {
    var hardcore := if c.hardcore.Some? then Present(c.hardcore.value) else s.hardcore;
    if c.unlocked.None? || c.total.None? || c.unlocked.value > c.total.value ||
       (hardcore.has && hardcore.value > c.unlocked.value) then None
    else Some(s.(achievements := true, unlocked := c.unlocked.value, total := c.total.value, hardcore := hardcore))
  }

  function IsSchemaValue(v: Value): bool {
    v.Str? && CharsOk(v.chars) && Decoded(v.chars) == Ascii(SCHEMA_VALUE)
  }

  function IsVersionOne(v: Value): bool {
    v.Num? && NumberOk(v.number) && IntegerOf(v.number) == Some(1)
  }

  /** The field a key of the document names. */
  function FieldOf(key: seq<byte>): Option<Id> {
    if key == Name(Schema) then Some(Schema)
    else if key == Name(Version) then Some(Version)
    else if key == Name(PlayTime) then Some(PlayTime)
    else if key == Name(LaunchCount) then Some(LaunchCount)
    else if key == Name(FirstPlayed) then Some(FirstPlayed)
    else if key == Name(LastPlayed) then Some(LastPlayed)
    else if key == Name(Favorite) then Some(Favorite)
    else if key == Name(Completed) then Some(Completed)
    else if key == Name(Percent) then Some(Percent)
    else if key == Name(Achievements) then Some(Achievements)
    else None
  }

  /** The number a field's value stands for. */
  function NumberOf(id: Id, v: Value): Option<nat> {
    if id == Favorite || id == Completed then Boolean(v)
    else if id == Percent then AtMost(Uint53(v), 100)
    else Uint53(v)
  }

  function SetField(s: Stats, id: Id, f: Field): Stats {
    match id
    case PlayTime => s.(playTime := f)
    case LaunchCount => s.(launchCount := f)
    case FirstPlayed => s.(firstPlayed := f)
    case LastPlayed => s.(lastPlayed := f)
    case Favorite => s.(favorite := f)
    case Completed => s.(completed := f)
    case Percent => s.(percent := f)
    case _ => s
  }

  function ReadKnown(r: Reading, id: Id, v: Value): Option<Reading> {
    match id
    case Schema => if IsSchemaValue(v) then Some(r.(schema := true)) else None
    case Version => if IsVersionOne(v) then Some(r.(version := true)) else None
    case Achievements =>
      var a := ReadAchievements(r.stats, v);
      if a.Some? then Some(r.(stats := a.value)) else None
    case _ =>
      var n := NumberOf(id, v);
      if n.Some? then Some(r.(stats := SetField(r.stats, id, Present(n.value)))) else None
  }

  function ReadField(r: Reading, key: seq<byte>, v: Value): Option<Reading> {
    if FieldOf(key).None? then None else ReadKnown(r, FieldOf(key).value, v)
  }

  function ReadUpTo(ms: Members, n: nat): Option<Reading>
    requires n <= Len(ms)
  {
    if n == 0 then Some(Reading(EMPTY, false, false))
    else
      var before := ReadUpTo(ms, n - 1);
      if before.None? then None else ReadField(before.value, KeyOf(ms, n - 1), Nth(ms, n - 1).value)
  }

  /** The statistics a document states, if it keeps to the profile. */
  function ReadStats(v: Value): Option<Stats> {
    if !v.Composite? || !v.isObject || !KeysDistinct(v.members) then None
    else
      var r := ReadUpTo(v.members, Len(v.members));
      if r.None? || !r.value.schema || !r.value.version then None
      else if r.value.stats.firstPlayed.has && r.value.stats.lastPlayed.has &&
              r.value.stats.firstPlayed.value > r.value.stats.lastPlayed.value then None
      else Some(r.value.stats)
  }

  // ---------- reading through tokens ----------

  /** Value v stands at token k. */
  ghost predicate ValueAt(bytes: seq<byte>, ts: seq<Token>, v: Value, parent: int, k: nat) {
    k < |ts| && Ok(v) && exists at :: Hosts(ts, v, at, parent, k) && Stands(bytes, at, Text(v))
  }

  /** The first token of a value says what it is and where it stands. */
  lemma ValueToken(bytes: seq<byte>, ts: seq<Token>, v: Value, parent: int, k: nat) returns (at: nat)
    requires ValueAt(bytes, ts, v, parent, k)
    ensures Hosts(ts, v, at, parent, k) && Stands(bytes, at, Text(v)) && Ok(v)
    ensures ts[k].kind == KindOf(v) && ts[k].start == at && ts[k].end == at + |Text(v)|
    ensures v.Num? ==> NumberTokenOf(bytes, ts[k], v.number)
    ensures v.Str? ==> TokenOf(bytes, ts[k], v.chars)
    ensures v.Composite? && v.isObject ==> ObjectAt(bytes, ts, v, at, parent, k)
  {
    hide MembersTokens, MembersText, Stands, NumberText, Quoted, MembersOk, WordText;
    at :| Hosts(ts, v, at, parent, k) && Stands(bytes, at, Text(v));
    assert ts[k] == ts[k..k + Size(v)][0] == ValueTokens(v, at, parent, k)[0];
  }

  method JsonUint53(bytes: seq<byte>, ts: seq<Token>, k: nat, ghost v: Value, ghost parent: int)
    returns (value: Option<nat>)
    requires ValueAt(bytes, ts, v, parent, k)
    ensures value == Uint53(v)
  {
    hide Hosts, NumberOk, IntegerOf, Text, Ok, NumberTokenOf;
    ghost var at := ValueToken(bytes, ts, v, parent, k);
    NumberIsOk(v);
    var parsed := ReadInteger(bytes, ts[k], if v.Num? then v.number else Number(false, [], [], NoExponent));
    if parsed.None? || parsed.value < 0 || parsed.value > LIMIT {
      return None;
    }
    value := Some(parsed.value);
  }

  lemma NumberIsOk(v: Value)
    requires Ok(v)
    ensures v.Num? ==> NumberOk(v.number)
    ensures v.Str? ==> CharsOk(v.chars)
    ensures !NumberOk(Number(false, [], [], NoExponent))
  {
  }

  method JsonBoolean(bytes: seq<byte>, ts: seq<Token>, k: nat, ghost v: Value, ghost parent: int)
    returns (value: Option<nat>)
    requires ValueAt(bytes, ts, v, parent, k)
    ensures value == Boolean(v)
  {
    hide Hosts, Text, Ok;
    ghost var at := ValueToken(bytes, ts, v, parent, k);
    if ts[k].kind == TrueToken {
      return Some(1);
    }
    value := if ts[k].kind == FalseToken then Some(0) else None;
  }

  /** One member of the walk: key text and value. */
  ghost predicate MemberAt(bytes: seq<byte>, ts: seq<Token>, ms: Members, i: nat, n: nat, k: nat)
    requires n < Len(ms)
  {
    && k + 1 < |ts| && Nth(ms, n).key.Key? && TokenOf(bytes, ts[k], Nth(ms, n).key.chars)
    && CharsOk(Nth(ms, n).key.chars) && KeyOf(ms, n) == Decoded(Nth(ms, n).key.chars)
    && ValueAt(bytes, ts, Nth(ms, n).value, i, k + 1)
  }

  lemma MemberIs(bytes: seq<byte>, ts: seq<Token>, ms: Members, i: nat, n: nat)
    requires n < Len(ms) && Found(bytes, ts, ms, i, n)
    ensures var k := KeyIndex(ms, i + 1, n);
      && i < k && MemberAt(bytes, ts, ms, i, n, k)
      && FirstChild(ts, i, k + 1) == k + 1 && FirstChild(ts, i, k + 2) == KeyOrEnd(ms, i, n + 1)
  {
    hide Hosts, Text, Ok, Found, Decoded, KeyOf;
    MemberFound(bytes, ts, ms, i, n);
    TokenKey(bytes, ts[KeyIndex(ms, i + 1, n)], Nth(ms, n).key.chars);
  }

  method KeyIs(bytes: seq<byte>, ts: seq<Token>, k: nat, id: Id, ghost ms: Members, ghost i: nat, ghost n: nat)
    returns (same: bool)
    requires n < Len(ms) && MemberAt(bytes, ts, ms, i, n, k)
    ensures same == (KeyOf(ms, n) == Name(id))
  {
    hide ValueAt, Decoded, KeyOf, Name;
    same := StringEquals(bytes, ts[k], Name(id), Nth(ms, n).key.chars);
  }

  /** One member of the achievements object. */
  method ReadCount(bytes: seq<byte>, ts: seq<Token>, k: nat, c: Counting, ghost ms: Members, ghost i: nat, ghost n: nat)
    returns (next: Option<Counting>)
    requires n < Len(ms) && MemberAt(bytes, ts, ms, i, n, k)
    ensures next == CountField(c, KeyOf(ms, n), Nth(ms, n).value)
  {
    hide ValueAt, Decoded, KeyOf, Name, Uint53, TokenOf;
    var isUnlocked := KeyIs(bytes, ts, k, Unlocked, ms, i, n);
    var isTotal := KeyIs(bytes, ts, k, Total, ms, i, n);
    var isHardcore := KeyIs(bytes, ts, k, Hardcore, ms, i, n);
    if !isUnlocked && !isTotal && !isHardcore {
      return None;
    }
    var v := JsonUint53(bytes, ts, k + 1, Nth(ms, n).value, i);
    if v.None? {
      return None;
    }
    next := Some(if isUnlocked then c.(unlocked := v) else if isTotal then c.(total := v) else c.(hardcore := v));
  }

  method ParseAchievements(bytes: seq<byte>, ts: seq<Token>, k: nat, s: Stats, ghost v: Value, ghost parent: int)
    returns (r: Option<Stats>)
    requires ValueAt(bytes, ts, v, parent, k)
    ensures r == ReadAchievements(s, v)
  {
    hide Found, KeyOf, ObjectAt, KeyIndex, KeysDistinct, TokenOf, Hosts, Decoded, Text, CharOk, FirstChild,
      CountField, Settle, ValueAt, MemberAt, Stands, Ok;
    ghost var at := ValueToken(bytes, ts, v, parent, k);
    KindMeans(v);
    InBounds(bytes, ts, v, parent, k);
    if ts[k].kind != ObjectToken {
      return None;
    }
    var unique := HasUniqueKeys(bytes, ts, k, v, at, parent);
    if !unique {
      return None;
    }
    ObjectWalk(bytes, ts, v, at, parent, k);
    IsObject(bytes, ts, v, at, parent, k);
    ghost var ms := v.members;
    ghost var n: nat := 0;
    var c := Counting(None, None, None);
    var item: int := -1;
    while true
      invariant n <= Len(ms) && -1 <= item && FirstChild(ts, k, item + 1) == KeyOrEnd(ms, k, n)
      invariant CountUpTo(ms, n) == Some(c)
      decreases Len(ms) - n
    {
      item := NextDirectChild(ts, k, item);
      if item < 0 {
        break;
      }
      MemberIs(bytes, ts, ms, k, n);
      var next := ReadCount(bytes, ts, item, c, ms, k, n);
      CountNext(ms, n);
      if next.None? {
        CountStops(ms, n + 1, Len(ms));
        return None;
      }
      c := next.value;
      item := NextDirectChild(ts, k, item);
      n := n + 1;
    }
    r := Settle(s, c);
  }

  lemma KindMeans(v: Value)
    ensures KindOf(v) == ObjectToken <==> v.Composite? && v.isObject
    ensures KindOf(v) == StringToken <==> v.Str?
  {
  }

  /** A member the profile does not allow ends the reading. */
  lemma {:induction false} CountStops(ms: Members, n: nat, m: nat)
    requires n <= m <= Len(ms) && CountUpTo(ms, n).None?
    ensures CountUpTo(ms, m).None?
    decreases m
  {
    hide CountField, KeyOf, Nth;
    if n < m {
      CountStops(ms, n, m - 1);
    }
  }

  lemma CountNext(ms: Members, n: nat)
    requires n < Len(ms) && CountUpTo(ms, n).Some?
    ensures CountUpTo(ms, n + 1) == CountField(CountUpTo(ms, n).value, KeyOf(ms, n), Nth(ms, n).value)
  {
    hide CountField, KeyOf, Nth;
  }

  lemma {:induction false} ReadStops(ms: Members, n: nat, m: nat)
    requires n <= m <= Len(ms) && ReadUpTo(ms, n).None?
    ensures ReadUpTo(ms, m).None?
    decreases m
  {
    hide ReadField, KeyOf, Nth;
    if n < m {
      ReadStops(ms, n, m - 1);
    }
  }

  lemma ReadNext(ms: Members, n: nat)
    requires n < Len(ms) && ReadUpTo(ms, n).Some?
    ensures ReadUpTo(ms, n + 1) == ReadField(ReadUpTo(ms, n).value, KeyOf(ms, n), Nth(ms, n).value)
  {
    hide ReadField, KeyOf, Nth;
  }

  /** Which field a key names. */
  method WhichField(bytes: seq<byte>, ts: seq<Token>, k: nat, ghost ms: Members, ghost i: nat, ghost n: nat)
    returns (id: Option<Id>)
    requires n < Len(ms) && MemberAt(bytes, ts, ms, i, n, k)
    ensures id == FieldOf(KeyOf(ms, n))
  {
    hide MemberAt, KeyOf, Name;
    var same := KeyIs(bytes, ts, k, Schema, ms, i, n);
    if same {
      return Some(Schema);
    }
    same := KeyIs(bytes, ts, k, Version, ms, i, n);
    if same {
      return Some(Version);
    }
    same := KeyIs(bytes, ts, k, PlayTime, ms, i, n);
    if same {
      return Some(PlayTime);
    }
    same := KeyIs(bytes, ts, k, LaunchCount, ms, i, n);
    if same {
      return Some(LaunchCount);
    }
    same := KeyIs(bytes, ts, k, FirstPlayed, ms, i, n);
    if same {
      return Some(FirstPlayed);
    }
    same := KeyIs(bytes, ts, k, LastPlayed, ms, i, n);
    if same {
      return Some(LastPlayed);
    }
    same := KeyIs(bytes, ts, k, Favorite, ms, i, n);
    if same {
      return Some(Favorite);
    }
    same := KeyIs(bytes, ts, k, Completed, ms, i, n);
    if same {
      return Some(Completed);
    }
    same := KeyIs(bytes, ts, k, Percent, ms, i, n);
    if same {
      return Some(Percent);
    }
    same := KeyIs(bytes, ts, k, Achievements, ms, i, n);
    if same {
      return Some(Achievements);
    }
    id := None;
  }

  method JsonNumber(bytes: seq<byte>, ts: seq<Token>, k: nat, id: Id, ghost v: Value, ghost parent: int)
    returns (n: Option<nat>)
    requires ValueAt(bytes, ts, v, parent, k)
    ensures n == NumberOf(id, v)
  {
    hide ValueAt, Uint53, Boolean;
    if id == Favorite || id == Completed {
      n := JsonBoolean(bytes, ts, k, v, parent);
      return;
    }
    n := JsonUint53(bytes, ts, k, v, parent);
    if id == Percent && n.Some? && n.value > 100 {
      return None;
    }
  }

  method JsonIsSchema(bytes: seq<byte>, ts: seq<Token>, k: nat, ghost v: Value, ghost parent: int) returns (ok: bool)
    requires ValueAt(bytes, ts, v, parent, k)
    ensures ok == IsSchemaValue(v)
  {
    hide ValueAt, Decoded, TokenOf, Hosts, Text, Ok, Ascii;
    ghost var at := ValueToken(bytes, ts, v, parent, k);
    KindMeans(v);
    NumberIsOk(v);
    InBounds(bytes, ts, v, parent, k);
    ok := StringEquals(bytes, ts[k], Ascii(SCHEMA_VALUE), if v.Str? then v.chars else []);
  }

  method JsonIsVersion(bytes: seq<byte>, ts: seq<Token>, k: nat, ghost v: Value, ghost parent: int) returns (ok: bool)
    requires ValueAt(bytes, ts, v, parent, k)
    ensures ok == IsVersionOne(v)
  {
    hide ValueAt, NumberOk, IntegerOf, Text, Ok, NumberTokenOf, Hosts;
    ghost var at := ValueToken(bytes, ts, v, parent, k);
    InBounds(bytes, ts, v, parent, k);
    NumberIsOk(v);
    var parsed := ReadInteger(bytes, ts[k], if v.Num? then v.number else Number(false, [], [], NoExponent));
    ok := parsed == Some(1);
  }

  /** One member of the document. */
  method ReadMember(bytes: seq<byte>, ts: seq<Token>, k: nat, r: Reading, ghost ms: Members, ghost i: nat, ghost n: nat)
    returns (next: Option<Reading>)
    requires n < Len(ms) && MemberAt(bytes, ts, ms, i, n, k)
    ensures next == ReadField(r, KeyOf(ms, n), Nth(ms, n).value)
  {
    hide ValueAt, KeyOf, FieldOf, TokenOf, IsSchemaValue, IsVersionOne, ReadAchievements, NumberOf, SetField;
    var id := WhichField(bytes, ts, k, ms, i, n);
    if id.None? {
      return None;
    }
    ghost var v := Nth(ms, n).value;
    match id.value {
      case Schema =>
        var ok := JsonIsSchema(bytes, ts, k + 1, v, i);
        next := if ok then Some(r.(schema := true)) else None;
      case Version =>
        var ok := JsonIsVersion(bytes, ts, k + 1, v, i);
        next := if ok then Some(r.(version := true)) else None;
      case Achievements =>
        var a := ParseAchievements(bytes, ts, k + 1, r.stats, v, i);
        next := if a.Some? then Some(r.(stats := a.value)) else None;
      case _ =>
        var number := JsonNumber(bytes, ts, k + 1, id.value, v, i);
        next := if number.Some? then Some(r.(stats := SetField(r.stats, id.value, Present(number.value)))) else None;
    }
  }

  /** What a STATS document of any bytes amounts to. */
  datatype Outcome = BadArgument | Rejected | Accepted(stats: Stats)

  function OutcomeOf(bytes: seq<byte>): Outcome {
    if bytes == [] || |bytes| > MAX_JSON_SIZE then BadArgument
    else if !Utf8.Valid(bytes) || JsonParse.ParseText(bytes).Fail? then Rejected
    else
      var s := ReadStats(JsonParse.ParseText(bytes).value);
      if s.None? then Rejected else Accepted(s.value)
  }

  /** The whole document stands at the first token. */
  lemma RootAt(bytes: seq<byte>)
    requires JsonParse.ParseText(bytes).At?
    ensures var v := JsonParse.ParseText(bytes).value;
      ValueAt(bytes, ValueTokens(v, SkipSpace(bytes, 0), -1, 0), v, -1, 0)
  {
    hide ValueTokens, Text, Ok, Hosts, JsonParse.ParseText, Stands;
    JsonParse.TextSound(bytes);
    HostsRoot(JsonParse.ParseText(bytes).value, SkipSpace(bytes, 0));
  }

  lemma InBounds(bytes: seq<byte>, ts: seq<Token>, v: Value, parent: int, k: nat)
    requires ValueAt(bytes, ts, v, parent, k)
    ensures k < |ts|
  {
    hide Hosts, Text, Ok, Stands;
  }

  /** Reads a STATS document. */
  method ParseStats(bytes: seq<byte>) returns (r: Outcome)
    ensures r == OutcomeOf(bytes)
  {
    hide ReadStats, ValueAt, JsonParse.ParseText, Utf8.Valid, ValueTokens, SkipSpace;
    if bytes == [] || |bytes| > MAX_JSON_SIZE {
      return BadArgument;
    }
    var valid, bad := Utf8.Validate(bytes);
    if !valid {
      return Rejected;
    }
    var ok, ts := JsonTokens.Parse(bytes);
    if !ok {
      return Rejected;
    }
    RootAt(bytes);
    var s := ParseDocument(bytes, ts, JsonParse.ParseText(bytes).value);
    r := if s.None? then Rejected else Accepted(s.value);
  }

  method ParseDocument(bytes: seq<byte>, ts: seq<Token>, ghost v: Value) returns (s: Option<Stats>)
    requires ValueAt(bytes, ts, v, -1, 0)
    ensures s == ReadStats(v)
  {
    hide Found, KeyOf, ObjectAt, KeyIndex, KeysDistinct, TokenOf, Hosts, Decoded, Text, CharOk, FirstChild,
      ReadField, ValueAt, MemberAt, Stands, Ok, ReadUpTo;
    ghost var at := ValueToken(bytes, ts, v, -1, 0);
    InBounds(bytes, ts, v, -1, 0);
    KindMeans(v);
    if ts[0].kind != ObjectToken {
      return None;
    }
    var unique := HasUniqueKeys(bytes, ts, 0, v, at, -1);
    if !unique {
      return None;
    }
    ObjectWalk(bytes, ts, v, at, -1, 0);
    IsObject(bytes, ts, v, at, -1, 0);
    ghost var ms := v.members;
    ghost var n: nat := 0;
    var r := Reading(EMPTY, false, false);
    ReadNothing(ms);
    var item: int := -1;
    while true
      invariant n <= Len(ms) && -1 <= item && FirstChild(ts, 0, item + 1) == KeyOrEnd(ms, 0, n)
      invariant ReadUpTo(ms, n) == Some(r)
      decreases Len(ms) - n
    {
      item := NextDirectChild(ts, 0, item);
      if item < 0 {
        break;
      }
      MemberIs(bytes, ts, ms, 0, n);
      var next := ReadMember(bytes, ts, item, r, ms, 0, n);
      ReadNext(ms, n);
      if next.None? {
        ReadStops(ms, n + 1, Len(ms));
        return None;
      }
      r := next.value;
      item := NextDirectChild(ts, 0, item);
      n := n + 1;
    }
    if !r.schema || !r.version ||
       (r.stats.firstPlayed.has && r.stats.lastPlayed.has && r.stats.firstPlayed.value > r.stats.lastPlayed.value) {
      return None;
    }
    s := Some(r.stats);
  }

  lemma ReadNothing(ms: Members)
    ensures ReadUpTo(ms, 0) == Some(Reading(EMPTY, false, false))
  {
  }
}
