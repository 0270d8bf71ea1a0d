/** The language of the PNG validator: it accepts exactly the signature followed by sound chunks in
    the order the format demands. */
module PngLanguage {
  import opened Bytes
  import opened Png
  import Crc

  // ---------- the chunks of a file ----------

  /** The chunks found from offset p on. */
  function Chunks(b: seq<byte>, p: nat): seq<Chunk>
    decreases |b| - p
  {
    var c := ReadChunk(b, p);
    if c.None? then [] else [c.value] + Chunks(b, p + 12 + |c.value.data|)
  }

  predicate AllOk(cs: seq<Chunk>) {
    forall i :: 0 <= i < |cs| ==> ChunkOk(cs[i])
  }

  /** The chunks take the validator from a state to the end, and no further. */
  predicate Runs(cs: seq<Chunk>, st: State, limit: nat)
    requires AllOk(cs)
    decreases |cs|
  {
    && cs != []
    && Next(st, cs[0], limit).Some?
    && (if Next(st, cs[0], limit).value.iend then |cs| == 1 else Runs(cs[1..], Next(st, cs[0], limit).value, limit))
  }

  function Next(st: State, c: Chunk, limit: nat): Option<State>
    requires ChunkOk(c)
  {
    Step(st, c, limit)
  }

  /** The state at the end of a run. */
  function Final(cs: seq<Chunk>, st: State, limit: nat): State
    requires AllOk(cs) && Runs(cs, st, limit)
    decreases |cs|
  {
    if |cs| == 1 then Next(st, cs[0], limit).value else Final(cs[1..], Next(st, cs[0], limit).value, limit)
  }

  lemma OneChunk(b: seq<byte>, p: nat)
    requires ReadChunk(b, p).Some?
    ensures var c := ReadChunk(b, p).value;
      ChunkOk(c) && Stands(b, p, Text(c)) && |Text(c)| == 12 + |c.data| && p + 12 + |c.data| <= |b|
  {
    hide Text, Stands;
    ChunkExact(b, p, ReadChunk(b, p).value);
    TextSize(ReadChunk(b, p).value);
  }

  lemma TextSize(c: Chunk)
    requires ChunkOk(c)
    ensures |Text(c)| == 12 + |c.data|
  {
    hide Crc.Crc32;
  }

  lemma {:induction false} ReadSound(b: seq<byte>, p: nat, st: State, limit: nat)
    requires p <= |b| && Read(b, p, st, limit).Some?
    ensures AllOk(Chunks(b, p)) && b[p..] == Texts(Chunks(b, p))
    ensures Runs(Chunks(b, p), st, limit) && Read(b, p, st, limit) == Some(Final(Chunks(b, p), st, limit))
    decreases |b| - p
  {
    hide Text, ChunkOk, Step, ReadChunk, Stands;
    ReadNext(b, p, st, limit);
    OneChunk(b, p);
    var c := ReadChunk(b, p).value;
    var q := p + 12 + |c.data|;
    var next := Step(st, c, limit).value;
    PieceThere(b, p, Text(c));
    var rest := Chunks(b, q);
    assert Chunks(b, p) == [c] + rest && ([c] + rest)[1..] == rest;
    if next.iend {
      EndOfFile(b, q);
      assert Texts(rest) == [] && Text(c) + [] == Text(c);
    } else {
      ReadSound(b, q, next, limit);
    }
  }

  lemma PieceThere(b: seq<byte>, p: nat, t: seq<byte>)
    requires Stands(b, p, t)
    ensures p + |t| <= |b| && b[p..] == t + b[p + |t|..]
  {
  }

  lemma EndOfFile(b: seq<byte>, q: nat)
    requires q == |b|
    ensures Chunks(b, q) == [] && b[q..] == []
  {
  }

  lemma {:induction false} ReadComplete(b: seq<byte>, p: nat, st: State, limit: nat, cs: seq<Chunk>)
    requires p <= |b| && AllOk(cs) && Runs(cs, st, limit) && b[p..] == Texts(cs)
    ensures Read(b, p, st, limit) == Some(Final(cs, st, limit)) && Chunks(b, p) == cs
    decreases |cs|
  {
    hide Text, ChunkOk, Step, ReadChunk, Stands, Read;
    var c := cs[0];
    TextSize(c);
    var q := p + 12 + |c.data|;
    assert b[p..] == Text(c) + Texts(cs[1..]);
    PieceStands(b, p, Text(c), Texts(cs[1..]));
    ChunkExact(b, p, c);
    ReadNext(b, p, st, limit);
    if Step(st, c, limit).value.iend {
      assert cs[1..] == [];
      assert b[q..] == [] && q == |b|;
      EndOfFile(b, q);
      assert cs == [c];
    } else {
      ReadComplete(b, q, Step(st, c, limit).value, limit, cs[1..]);
    }
  }

  lemma PieceStands(b: seq<byte>, p: nat, t: seq<byte>, rest: seq<byte>)
    requires p <= |b| && b[p..] == t + rest
    ensures Stands(b, p, t) && p + |t| <= |b| && b[p + |t|..] == rest
  {
    assert b[p..][..|t|] == t && b[p..][|t|..] == rest;
  }

  // ---------- the rules of order ----------

  /** Some chunk among the first n has this type. */
  predicate Seen(cs: seq<Chunk>, n: nat, kind: seq<byte>)
    requires n <= |cs|
  {
    exists i :: 0 <= i < n && cs[i].kind == kind
  }

  /** An image data chunk lies apart from an earlier one. */
  predicate Gap(cs: seq<Chunk>, n: nat)
    requires n <= |cs|
  {
    exists i, j :: 0 <= i < j < n && cs[i].kind == IDAT && cs[j].kind != IDAT
  }

  predicate HeaderFirst(cs: seq<Chunk>, limit: nat) {
    && cs != [] && cs[0].kind == IHDR && |cs[0].data| == 13 && IhdrOk(cs[0].data, limit)
    && forall i :: 0 < i < |cs| ==> cs[i].kind != IHDR
  }

  predicate IsCritical(kind: seq<byte>) {
    kind == IHDR || kind == PLTE || kind == IDAT || kind == IEND
  }

  /** Types with a capital first letter are known ones. */
  predicate CriticalKnown(cs: seq<Chunk>)
    requires AllOk(cs)
  {
    forall i :: 0 <= i < |cs| && IsUpper(FirstOf(cs[i])) ==> IsCritical(cs[i].kind)
  }

  function FirstOf(c: Chunk): byte
    requires ChunkOk(c)
  {
    c.kind[0]
  }

  /** At most one palette, before the image data, in an image that may have one. */
  predicate PaletteRules(cs: seq<Chunk>, color: byte) {
    && (forall i :: 0 <= i < |cs| && cs[i].kind == PLTE ==> PaletteOk(color, |cs[i].data|))
    && (forall i, j :: 0 <= i < j < |cs| && cs[j].kind == PLTE ==> cs[i].kind != PLTE && cs[i].kind != IDAT)
    && (color == 3 ==> Seen(cs, |cs|, PLTE))
  }

  /** Image data is there, in one uninterrupted run. */
  predicate DataRules(cs: seq<Chunk>) {
    && Seen(cs, |cs|, IDAT)
    && forall i, j, k :: 0 <= i < j < k < |cs| && cs[i].kind == IDAT && cs[k].kind == IDAT ==> cs[j].kind == IDAT
  }

  /** The end chunk is empty, last, and the only one. */
  predicate EndLast(cs: seq<Chunk>)
    requires cs != []
  {
    && cs[|cs| - 1].kind == IEND && cs[|cs| - 1].data == []
    && forall i :: 0 <= i < |cs| - 1 ==> cs[i].kind != IEND
  }

  /** The sequences of chunks a cover may consist of. */
  predicate Legal(cs: seq<Chunk>, limit: nat)
    requires AllOk(cs)
  {
    HeaderFirst(cs, limit) && CriticalKnown(cs) && PaletteRules(cs, cs[0].data[9]) && DataRules(cs) && EndLast(cs)
  }

  // ---------- one rule at a time ----------

  /** The demands on one chunk, given those before it. */
  predicate FitsHere(cs: seq<Chunk>, n: nat, limit: nat)
    requires AllOk(cs) && n < |cs|
  {
    if n == 0 then cs[0].kind == IHDR && |cs[0].data| == 13 && IhdrOk(cs[0].data, limit)
    else
      && cs[n].kind != IHDR
      && (IsUpper(FirstOf(cs[n])) ==> IsCritical(cs[n].kind))
      && (cs[n].kind == PLTE ==> !Seen(cs, n, PLTE) && !Seen(cs, n, IDAT) && PaletteOk(ColorOf(cs), |cs[n].data|))
      && (cs[n].kind == IDAT ==> !Gap(cs, n))
      && (cs[n].kind == IEND ==>
            cs[n].data == [] && Seen(cs, n, IDAT) && (ColorOf(cs) == 3 ==> Seen(cs, n, PLTE)))
  }

  function ColorOf(cs: seq<Chunk>): byte {
    if cs != [] && |cs[0].data| == 13 then cs[0].data[9] else 0
  }

  /** The state of the validator says what has been seen. */
  predicate Tells(st: State, cs: seq<Chunk>, n: nat)
    requires n <= |cs|
  {
    && st.first == (n == 0) && !st.iend
    && (n > 0 ==> st.color == ColorOf(cs) && |cs[0].data| == 13 && st.width == Width(cs[0].data) && st.height == Height(cs[0].data))
    && st.idat == Seen(cs, n, IDAT) && st.plte == Seen(cs, n, PLTE) && st.ended == Gap(cs, n)
    && (n > 0 ==> cs[0].kind == IHDR)
  }

  lemma SeenNext(cs: seq<Chunk>, n: nat, kind: seq<byte>)
    requires n < |cs|
    ensures Seen(cs, n + 1, kind) <==> Seen(cs, n, kind) || cs[n].kind == kind
    ensures !Seen(cs, 0, kind)
  {
  }

  lemma GapNext(cs: seq<Chunk>, n: nat)
    requires n < |cs|
    ensures Gap(cs, n + 1) <==> Gap(cs, n) || (Seen(cs, n, IDAT) && cs[n].kind != IDAT)
    ensures !Gap(cs, 0)
  {
  }

  lemma KindsDiffer()
    ensures IHDR != PLTE && IHDR != IDAT && IHDR != IEND && PLTE != IDAT && PLTE != IEND && IDAT != IEND
    ensures |IHDR| == |PLTE| == |IDAT| == |IEND| == 4
    ensures IsUpper(IHDR[0]) && IsUpper(PLTE[0]) && IsUpper(IDAT[0]) && IsUpper(IEND[0])
  {
    assert IHDR[1] != IDAT[1] && IHDR[1] != IEND[1] && IDAT[1] != IEND[1] && PLTE[0] != IHDR[0];
  }

  /** The validator takes a chunk exactly where the rules allow it. */
  lemma StepTells(cs: seq<Chunk>, n: nat, st: State, limit: nat)
    requires AllOk(cs) && n < |cs| && Tells(st, cs, n)
    ensures Next(st, cs[n], limit).Some? <==> FitsHere(cs, n, limit)
    ensures Next(st, cs[n], limit).Some? ==> Next(st, cs[n], limit).value.iend == (cs[n].kind == IEND)
    ensures Next(st, cs[n], limit).Some? && cs[n].kind != IEND ==> Tells(Next(st, cs[n], limit).value, cs, n + 1)
    ensures Next(st, cs[n], limit).Some? && cs[n].kind == IEND ==>
      Next(st, cs[n], limit).value == st.(iend := true) && n > 0
  {
    hide Seen, Gap, IhdrOk, PaletteOk, Width, Height, IsLetter;
    SeenNext(cs, n, IDAT);
    SeenNext(cs, n, PLTE);
    GapNext(cs, n);
    KindsDiffer();
  }

  // ---------- runs and rules ----------

  predicate FitUpTo(cs: seq<Chunk>, n: nat, limit: nat)
    requires AllOk(cs) && n <= |cs|
  {
    forall i :: n <= i < |cs| ==> FitsHere(cs, i, limit)
  }

  predicate EndOnlyLast(cs: seq<Chunk>, n: nat)
    requires n < |cs|
  {
    cs[|cs| - 1].kind == IEND && forall i :: n <= i < |cs| - 1 ==> cs[i].kind != IEND
  }

  /** From any point, the validator runs to the end exactly if every remaining chunk fits and the
      end chunk is the last. */
  lemma {:induction false} RunsFit(cs: seq<Chunk>, n: nat, st: State, limit: nat)
    requires AllOk(cs) && n < |cs| && Tells(st, cs, n)
    ensures Runs(cs[n..], st, limit) <==> FitUpTo(cs, n, limit) && EndOnlyLast(cs, n)
    ensures Runs(cs[n..], st, limit) ==>
      Final(cs[n..], st, limit).iend && |cs[0].data| == 13
      && Final(cs[n..], st, limit).width == Width(cs[0].data) && Final(cs[n..], st, limit).height == Height(cs[0].data)
    decreases |cs| - n
  {
    hide Next, Tells, FitsHere, Width, Height, ChunkOk;
    var rest := cs[n..];
    assert rest[0] == cs[n] && rest[1..] == cs[n + 1..];
    StepTells(cs, n, st, limit);
    if Next(st, cs[n], limit).Some? {
      var next := Next(st, cs[n], limit).value;
      if cs[n].kind == IEND {
        Dimensions(st, cs, n);
      } else if n + 1 < |cs| {
        RunsFit(cs, n + 1, next, limit);
      }
    }
  }

  lemma Dimensions(st: State, cs: seq<Chunk>, n: nat)
    requires 0 < n <= |cs| && Tells(st, cs, n)
    ensures |cs[0].data| == 13 && st.width == Width(cs[0].data) && st.height == Height(cs[0].data)
  {
  }

  lemma StartTells(cs: seq<Chunk>)
    ensures Tells(START, cs, 0)
  {
  }

  lemma FitIsPalette(cs: seq<Chunk>, limit: nat)
    requires AllOk(cs) && cs != [] && FitUpTo(cs, 0, limit) && EndOnlyLast(cs, 0) && cs[0].kind == IHDR && |cs[0].data| == 13
    ensures PaletteRules(cs, cs[0].data[9])
  {
    hide ChunkOk, IhdrOk, PaletteOk, Width, Height, Gap;
    KindsDiffer();
    forall j | 0 <= j < |cs| && cs[j].kind == PLTE
      ensures PaletteOk(cs[0].data[9], |cs[j].data|)
      ensures forall i :: 0 <= i < j ==> cs[i].kind != PLTE && cs[i].kind != IDAT
    {
      assert FitsHere(cs, j, limit);
    }
    assert FitsHere(cs, |cs| - 1, limit);
  }

  lemma FitIsData(cs: seq<Chunk>, limit: nat)
    requires AllOk(cs) && cs != [] && FitUpTo(cs, 0, limit) && EndOnlyLast(cs, 0)
    ensures DataRules(cs)
  {
    hide ChunkOk, IhdrOk, PaletteOk, Width, Height;
    KindsDiffer();
    assert FitsHere(cs, |cs| - 1, limit);
    forall i, j, k | 0 <= i < j < k < |cs| && cs[i].kind == IDAT && cs[k].kind == IDAT ensures cs[j].kind == IDAT {
      assert FitsHere(cs, k, limit);
    }
  }

  lemma FitIsLegal(cs: seq<Chunk>, limit: nat)
    requires AllOk(cs) && cs != [] && FitUpTo(cs, 0, limit) && EndOnlyLast(cs, 0)
    ensures Legal(cs, limit)
  {
    hide ChunkOk, IhdrOk, PaletteOk, Width, Height, Gap, Seen, PaletteRules, DataRules;
    KindsDiffer();
    assert FitsHere(cs, 0, limit) && FitsHere(cs, |cs| - 1, limit);
    FitIsPalette(cs, limit);
    FitIsData(cs, limit);
    forall i | 0 < i < |cs| ensures cs[i].kind != IHDR && (IsUpper(FirstOf(cs[i])) ==> IsCritical(cs[i].kind)) {
      assert FitsHere(cs, i, limit);
    }
  }

  /** The image data lies before the end chunk. */
  lemma SeenBeforeEnd(cs: seq<Chunk>, kind: seq<byte>)
    requires cs != [] && Seen(cs, |cs|, kind) && cs[|cs| - 1].kind != kind
    ensures Seen(cs, |cs| - 1, kind)
  {
  }

  /** In a legal file nothing but image data lies between image data. */
  lemma NoGap(cs: seq<Chunk>, n: nat)
    requires DataRules(cs) && n < |cs| && cs[n].kind == IDAT
    ensures !Gap(cs, n)
  {
  }

  lemma NotSeen(cs: seq<Chunk>, n: nat, color: byte)
    requires PaletteRules(cs, color) && n < |cs| && cs[n].kind == PLTE
    ensures !Seen(cs, n, PLTE) && !Seen(cs, n, IDAT) && PaletteOk(color, |cs[n].data|)
  {
    hide PaletteOk;
  }

  lemma LegalFits(cs: seq<Chunk>, limit: nat)
    requires AllOk(cs) && cs != [] && Legal(cs, limit)
    ensures FitUpTo(cs, 0, limit) && EndOnlyLast(cs, 0)
  {
    KindsDiffer();
    forall n | 0 <= n < |cs| ensures FitsHere(cs, n, limit) {
      hide ChunkOk, IhdrOk, PaletteOk, Width, Height, Gap, Seen, IsCritical;
      if n > 0 {
        if cs[n].kind == PLTE {
          NotSeen(cs, n, cs[0].data[9]);
        }
        if cs[n].kind == IDAT {
          NoGap(cs, n);
        }
        if cs[n].kind == IEND {
          assert n == |cs| - 1;
          SeenBeforeEnd(cs, IDAT);
          if ColorOf(cs) == 3 {
            SeenBeforeEnd(cs, PLTE);
          }
        }
      }
    }
  }

  /** Chunk by chunk or all at once, the rules are the same. */
  lemma FitsLegal(cs: seq<Chunk>, limit: nat)
    requires AllOk(cs) && cs != []
    ensures FitUpTo(cs, 0, limit) && EndOnlyLast(cs, 0) <==> Legal(cs, limit)
  {
    hide ChunkOk, IhdrOk, PaletteOk, Width, Height;
    KindsDiffer();
    if FitUpTo(cs, 0, limit) && EndOnlyLast(cs, 0) {
      FitIsLegal(cs, limit);
    }
    if Legal(cs, limit) {
      LegalFits(cs, limit);
    }
  }

  // ---------- exactness ----------

  /** A cover of the given chunks. */
  predicate IsCover(cover: seq<byte>, cs: seq<Chunk>) {
    AllOk(cs) && cover == SIGNATURE + Texts(cs)
  }

  /** A cover the format allows. */
  ghost predicate IsLegalCover(cover: seq<byte>, limit: nat) {
    exists cs: seq<Chunk> :: IsCover(cover, cs) && Legal(cs, limit)
  }

  /** The validator accepts exactly the legal covers of acceptable size. */
  lemma AcceptsExactly(cover: seq<byte>, maxSize: nat, limit: nat)
    ensures VerdictOf(cover, maxSize, limit).Valid? <==> |cover| <= maxSize && IsLegalCover(cover, limit)
  {
    hide Legal, AllOk, Read, Chunks, Texts, Width, Height;
    if VerdictOf(cover, maxSize, limit).Valid? {
      Accepted(cover, limit);
      assert IsCover(cover, Chunks(cover, 8)) by {
        assert cover == cover[..8] + cover[8..];
      }
    }
    if |cover| <= maxSize && IsLegalCover(cover, limit) {
      var cs: seq<Chunk> :| IsCover(cover, cs) && Legal(cs, limit);
      LegalAccepted(cover, limit, cs);
    }
  }

  /** A legal cover is read as the chunks it is made of, with the dimensions of its header. */
  lemma ReadsAs(cover: seq<byte>, maxSize: nat, limit: nat, cs: seq<Chunk>)
    requires IsCover(cover, cs) && Legal(cs, limit) && |cover| <= maxSize
    ensures cs != [] && |cs[0].data| == 13 && Chunks(cover, 8) == cs
    ensures VerdictOf(cover, maxSize, limit) == Valid(Width(cs[0].data), Height(cs[0].data))
  {
    hide Legal, AllOk, Read, Chunks, Texts, Width, Height;
    LegalAccepted(cover, limit, cs);
  }

  lemma Accepted(cover: seq<byte>, limit: nat)
    requires |cover| >= 8 && Read(cover, 8, START, limit).Some?
    ensures AllOk(Chunks(cover, 8)) && Legal(Chunks(cover, 8), limit) && cover[8..] == Texts(Chunks(cover, 8))
  {
    hide Legal, Tells, FitUpTo, EndOnlyLast, ChunkOk, Chunks, Read, Next, Texts;
    ReadSound(cover, 8, START, limit);
    var cs := Chunks(cover, 8);
    assert cs[0..] == cs;
    StartTells(cs);
    RunsFit(cs, 0, START, limit);
    FitsLegal(cs, limit);
  }

  lemma LegalAccepted(cover: seq<byte>, limit: nat, cs: seq<Chunk>)
    requires IsCover(cover, cs) && Legal(cs, limit)
    ensures |cover| >= 8 && cover[..8] == SIGNATURE && cs != [] && |cs[0].data| == 13
    ensures Read(cover, 8, START, limit).Some? && Chunks(cover, 8) == cs
    ensures Read(cover, 8, START, limit).value.width == Width(cs[0].data)
    ensures Read(cover, 8, START, limit).value.height == Height(cs[0].data)
  {
    hide Legal, Tells, FitUpTo, EndOnlyLast, ChunkOk, Chunks, Read, Next, Texts, Width, Height, Runs;
    assert cs != [] by {
      NotEmpty(cs, limit);
    }
    assert cover[8..] == Texts(cs);
    assert cs[0..] == cs;
    StartTells(cs);
    FitsLegal(cs, limit);
    RunsFit(cs, 0, START, limit);
    ReadComplete(cover, 8, START, limit, cs);
  }

  lemma NotEmpty(cs: seq<Chunk>, limit: nat)
    requires AllOk(cs) && Legal(cs, limit)
    ensures cs != []
  {
  }
}
