/** The token loop of `get_furigana`: every token of the analysed text
    becomes one or more annotation units, kanji tokens through the reading
    normaliser and the okurigana splitter, everything else annotated with
    itself. The morphological analyser is not modelled: its tokens are an
    input, and whether it is installed is a flag. */
module Pipeline {
  import opened Units
  import opened Kana
  import opened Okurigana

  datatype Option<T> = None | Some(value: T)

  /** One token of the analyser: its surface and the katakana reading of
      its `kana` feature, which is missing for unknown words. */
  datatype Token = Token(surface: string, kana: Option<string>)

  /** The JSON document `get_furigana` returns: the list of units, or an
      object with an `error` message. */
  datatype Result = Ok(units: seq<Unit>) | Err(message: string)

  /** The error reported when the analyser cannot be imported. */
  const NotInstalled: string := "fugashi not installed"

  /** A token annotated with its own reading: its surface holds a kanji and
      its `kana` feature is present and non-empty. */
  predicate NeedsReading(t: Token)
  {
    HasKanji(t.surface) && t.kana.Some? && t.kana.value != []
  }

  /** The units one token contributes: none for an empty surface, the split
      of the surface against the hiragana reading for a token that needs a
      reading, and the surface over itself otherwise. */
  function TokenUnits(t: Token): seq<Unit>
  {
    if t.surface == [] then []
    else if NeedsReading(t) then Split(t.surface, ToHiragana(t.kana.value))
    else [Unit(t.surface, t.surface)]
  }

  /** The units of all tokens, in token order: the specification of the
      token loop. */
  function Annotated(ts: seq<Token>): seq<Unit>
  {
    ConcatUnitsTo(TokenUnits, ts, |ts|)
  }

  /** The text the tokens spell: their surfaces, concatenated. */
  function TokenText(ts: seq<Token>): string
  {
    ConcatStringsTo((t: Token) => t.surface, ts, |ts|)
  }

  /** The reading a token should display: its hiragana reading when it
      needs one, its own surface otherwise. */
  function ExpectedReading(t: Token): string
  {
    if NeedsReading(t) then ToHiragana(t.kana.value) else t.surface
  }

  /** The expected readings of the tokens, concatenated. */
  function ExpectedReadings(ts: seq<Token>): string
  {
    ConcatStringsTo(ExpectedReading, ts, |ts|)
  }

  /** The splitter keeps the token's whole reading: the token needs no
      reading, or its surface is not a non-empty proper suffix of it. */
  predicate KeepsReading(t: Token)
  {
    NeedsReading(t) ==> !DropsRootReading(t.surface, ToHiragana(t.kana.value))
  }

  /** `get_furigana`: reports a missing analyser first, returns an empty
      list for a missing or empty text, and otherwise walks the tokens,
      skipping empty surfaces, splitting kanji tokens that have a reading
      and passing every other token through as its own annotation. */
  method Annotate(available: bool, text: Option<string>, tokens: seq<Token>) returns (r: Result)
    ensures !available <==> r.Err?
    ensures !available ==> r.message == NotInstalled
    ensures available && (text.None? || text.value == []) ==> r == Ok([])
    ensures available && text.Some? && text.value != [] ==> r == Ok(Annotated(tokens))
  {
    if !available {
      return Err(NotInstalled);
    }
    if text.None? {
      return Ok([]);
    }
    if text.value == [] {
      return Ok([]);
    }
    var result: seq<Unit> := [];
    for i := 0 to |tokens|
      invariant result == ConcatUnitsTo(TokenUnits, tokens, i)
    {
      var word := tokens[i];
      var surface := word.surface;
      if surface != [] {
        if HasKanji(surface) && word.kana.Some? && word.kana.value != [] {
          var furigana := KataToHira(word.kana.value);
          var splitResults := SplitOkurigana(surface, furigana);
          result := result + splitResults;
        } else {
          result := result + [Unit(surface, surface)];
        }
      } else {
        assert result + [] == result;
      }
    }
    return Ok(result);
  }

  /** A token that needs no reading but has a surface is annotated with
      itself, as one unit. */
  lemma TokenPassThrough(t: Token)
    requires t.surface != [] && !NeedsReading(t)
    ensures TokenUnits(t) == [Unit(t.surface, t.surface)]
    ensures Surfaces(TokenUnits(t)) == t.surface && Furigana(TokenUnits(t)) == t.surface
  {
    SingletonSpells(Unit(t.surface, t.surface));
  }

  /** The units of a token spell its surface; a token with an empty
      surface contributes no unit at all. */
  lemma TokenSurfaces(t: Token)
    ensures Surfaces(TokenUnits(t)) == t.surface
    ensures t.surface == [] ==> TokenUnits(t) == []
  {
    if t.surface == [] {
    } else if NeedsReading(t) {
      SplitSurfaces(t.surface, ToHiragana(t.kana.value));
    } else {
      SingletonSpells(Unit(t.surface, t.surface));
    }
  }

  /** The furigana of a token spell its expected reading exactly
      when the splitter keeps that reading whole; otherwise they spell only
      the surface. */
  lemma TokenFurigana(t: Token)
    ensures Furigana(TokenUnits(t)) == ExpectedReading(t) <==> KeepsReading(t)
    ensures !KeepsReading(t) ==> Furigana(TokenUnits(t)) == t.surface
  {
    if t.surface == [] {
    } else if NeedsReading(t) {
      SplitFurigana(t.surface, ToHiragana(t.kana.value));
    } else {
      SingletonSpells(Unit(t.surface, t.surface));
    }
  }

  /** A kanji token whose reading holds no kanji (the normal case for a
      kana reading) keeps its whole reading: the surface has a kanji, so it
      cannot be a suffix of the reading. */
  lemma KanaReadingKept(t: Token)
    requires NeedsReading(t) && !HasKanji(t.kana.value)
    ensures KeepsReading(t)
  {
    ToHiraganaKeepsKanji(t.kana.value);
  }

  /** Round trip of the whole loop: the surfaces of the units spell the
      surfaces of the tokens, so no character of the analysed text is lost,
      reordered or duplicated. */
  lemma AnnotateSurfaces(ts: seq<Token>)
    ensures Surfaces(Annotated(ts)) == TokenText(ts)
  {
    forall i | 0 <= i < |ts|
      ensures Surfaces(TokenUnits(ts[i])) == ts[i].surface
    {
      TokenSurfaces(ts[i]);
    }
    SurfacesConcat(TokenUnits, (t: Token) => t.surface, ts, |ts|);
  }

  /** When every token keeps its reading, the furigana of the units spell
      the tokens' expected readings, in order. */
  lemma AnnotateFurigana(ts: seq<Token>)
    requires forall i :: 0 <= i < |ts| ==> KeepsReading(ts[i])
    ensures Furigana(Annotated(ts)) == ExpectedReadings(ts)
  {
    forall i | 0 <= i < |ts|
      ensures Furigana(TokenUnits(ts[i])) == ExpectedReading(ts[i])
    {
      TokenFurigana(ts[i]);
    }
    FuriganaConcat(TokenUnits, ExpectedReading, ts, |ts|);
  }

  /** In particular, when no reading the analyser gives contains a kanji,
      the furigana of the units spell the expected readings. */
  lemma AnnotateFuriganaKana(ts: seq<Token>)
    requires forall i :: 0 <= i < |ts| && ts[i].kana.Some? ==> !HasKanji(ts[i].kana.value)
    ensures Furigana(Annotated(ts)) == ExpectedReadings(ts)
  {
    forall i | 0 <= i < |ts|
      ensures KeepsReading(ts[i])
    {
      if NeedsReading(ts[i]) {
        KanaReadingKept(ts[i]);
      }
    }
    AnnotateFurigana(ts);
  }
}
