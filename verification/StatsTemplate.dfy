/** The STATS document as one would write it down: every name and mark in letters. */
module StatsTemplate {
  import opened Bytes
  import opened JsonText
  import opened Stats
  import opened StatsText
  import opened StatsPrinter

  // ---------- what may be written ----------

  /** The values of the profile: numbers up to 2^53 - 1, flags, a percentage, times in order, counts that
      contain one another. */
  lemma ValuesAre(s: Stats)
    ensures ValuesValid(s) <==>
      && s.playTime.value < 0x20_0000_0000_0000 && s.launchCount.value < 0x20_0000_0000_0000
      && s.firstPlayed.value < 0x20_0000_0000_0000 && s.lastPlayed.value < 0x20_0000_0000_0000
      && s.unlocked < 0x20_0000_0000_0000 && s.total < 0x20_0000_0000_0000 && s.hardcore.value < 0x20_0000_0000_0000
      && (s.favorite.has ==> s.favorite.value in {0, 1}) && (s.completed.has ==> s.completed.value in {0, 1})
      && (s.percent.has ==> s.percent.value <= 100)
      && (s.firstPlayed.has && s.lastPlayed.has ==> s.firstPlayed.value <= s.lastPlayed.value)
      && (s.achievements ==> s.unlocked <= s.total)
      && (s.hardcore.has ==> s.achievements && s.hardcore.value <= s.unlocked)
  {
  }

  // ---------- the document ----------

  /** A comma and a name. */
  function Key(name: string): seq<byte> {
    Ascii(",\"" + name + "\":")
  }

  function NumberField(name: string, f: Field): seq<byte> {
    if f.has then Key(name) + Digits(f.value) else []
  }

  function FlagField(name: string, f: Field): seq<byte> {
    if f.has then Key(name) + Ascii(if f.value != 0 then "true" else "false") else []
  }

  function CountsField(s: Stats): seq<byte> {
    if s.achievements then
      Key("achievements") + (Ascii("{\"unlocked\":") + Digits(s.unlocked) + Key("total") + Digits(s.total)
                             + NumberField("hardcore_unlocked", s.hardcore) + Ascii("}"))
    else []
  }

  function Template(s: Stats): seq<byte> {
    Ascii("{\"schema\":\"romx.stats\",\"version\":1")
    + NumberField("play_time_seconds", s.playTime) + NumberField("launch_count", s.launchCount)
    + NumberField("first_played_unix_seconds", s.firstPlayed) + NumberField("last_played_unix_seconds", s.lastPlayed)
    + FlagField("favorite", s.favorite) + FlagField("completed", s.completed)
    + NumberField("completion_percent", s.percent) + CountsField(s) + Ascii("}")
  }

  lemma NumberMore(ps: seq<Item>, id: Id, f: Field)
    requires ps != [] && id != Favorite && id != Completed && (f.has ==> f.value <= LIMIT)
    ensures SoFar(ps + Optional(id, f)) == SoFar(ps) + NumberField(NameString(id), f)
  {
    hide SoFar, Digits, Text, NameString, Ascii;
    if f.has {
      WrittenMore(ps, Item(id, Whole(f.value)));
      WholeDigits(f.value);
      Associate(SoFar(ps), Lead(id), Digits(f.value));
    } else {
      assert ps + [] == ps;
    }
  }

  lemma FlagMore(ps: seq<Item>, id: Id, f: Field)
    requires ps != [] && (id == Favorite || id == Completed)
    ensures SoFar(ps + Optional(id, f)) == SoFar(ps) + FlagField(NameString(id), f)
  {
    hide SoFar, Text, NameString;
    if f.has {
      WrittenMore(ps, Item(id, ValueOf(id, f.value)));
      FlagItem(id, f.value);
      FlagLetters();
      Associate(SoFar(ps), Lead(id), Text(ValueOf(id, f.value)));
    } else {
      assert ps + [] == ps;
    }
  }

  lemma FlagLetters()
    ensures WordText(True) == Ascii("true") && WordText(False) == Ascii("false")
  {
  }

  lemma CountsMore(ps: seq<Item>, s: Stats)
    requires ps != [] && ValuesValid(s)
    ensures SoFar(ps + OptionalCounts(s)) == SoFar(ps) + CountsField(s)
  {
    hide SoFar, Text, Object, Counts, Digits, Ascii, NameString, ValuesValid;
    if s.achievements {
      WrittenMore(ps, Item(Achievements, Object(Counts(s))));
      CountsAlike(s);
      Associate(SoFar(ps), Lead(Achievements), Text(Object(Counts(s))));
    } else {
      assert ps + [] == ps;
    }
  }

  lemma CountsAlike(s: Stats)
    requires ValuesValid(s) && s.achievements
    ensures CountsField(s) == Lead(Achievements) + Text(Object(Counts(s)))
  {
    hide Text, Object, Counts, Digits, Ascii, ValuesValid;
    CountsText(s);
    Brace();
    var front := UnlockedText() + Digits(s.unlocked) + Lead(Total) + Digits(s.total);
    if !s.hardcore.has {
      assert front + [] == front;
    }
  }

  lemma Brace()
    ensures Ascii("}") == [Close(true)]
  {
  }

  lemma FourTimes(s: Stats)
    requires ValuesValid(s)
    ensures Four(s) != [] && SoFar(Four(s)) ==
      Opening() + NumberField("play_time_seconds", s.playTime) + NumberField("launch_count", s.launchCount)
      + NumberField("first_played_unix_seconds", s.firstPlayed) + NumberField("last_played_unix_seconds", s.lastPlayed)
  {
    hide SoFar, Optional, NumberField, Fields2, Opening;
    OpeningIs();
    TwoFields(s);
    var a := Fields2();
    var b := a + Optional(PlayTime, s.playTime);
    var c := b + Optional(LaunchCount, s.launchCount);
    var d := c + Optional(FirstPlayed, s.firstPlayed);
    NumberMore(a, PlayTime, s.playTime);
    NumberMore(b, LaunchCount, s.launchCount);
    NumberMore(c, FirstPlayed, s.firstPlayed);
    NumberMore(d, LastPlayed, s.lastPlayed);
  }

  function Four(s: Stats): seq<Item> {
    Fields2() + Optional(PlayTime, s.playTime) + Optional(LaunchCount, s.launchCount) + Optional(FirstPlayed, s.firstPlayed)
    + Optional(LastPlayed, s.lastPlayed)
  }

  /** What the serializer writes is the template filled in. */
  lemma DocumentIs(s: Stats)
    requires ValuesValid(s)
    ensures Document(s) == Template(s)
  {
    hide SoFar, Text, Ascii, Optional, OptionalCounts, NumberField, FlagField, CountsField, Four, Opening;
    FourTimes(s);
    TwoFields(s);
    var e := Four(s);
    var f := e + Optional(Favorite, s.favorite);
    var g := f + Optional(Completed, s.completed);
    var h := g + Optional(Percent, s.percent);
    FlagMore(e, Favorite, s.favorite);
    FlagMore(f, Completed, s.completed);
    NumberMore(g, Percent, s.percent);
    CountsMore(h, s);
    Closed(Fields(s));
    Brace();
    OpeningLetters();
  }

  lemma OpeningLetters()
    ensures Opening() == Ascii("{\"schema\":\"romx.stats\",\"version\":1")
  {
  }

  lemma TwoFields(s: Stats)
    ensures Fields2() != [] && Fields(s) != []
    ensures Fields(s) ==
      Four(s) + Optional(Favorite, s.favorite) + Optional(Completed, s.completed) + Optional(Percent, s.percent) + OptionalCounts(s)
  {
    hide Optional, OptionalCounts, Ascii;
  }
}
