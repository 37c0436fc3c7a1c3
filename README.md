# Furigana annotation core, modelled in Dafny

This project models the local furigana annotator of KaraokeRubyTools
(`furigana_local.py`). The annotator takes a Japanese text that a
morphological analyser (fugashi) has split into tokens. It turns the text
into a flat, ordered list of units. Each unit is a piece of the text, its
*surface*, paired with the *furigana* shown above it. The model covers four
parts:

- **Kana normaliser** (`kata_to_hira`). Katakana U+30A1..U+30F6 is shifted
  down by 0x60 to hiragana. Every other code point is left as it is.
- **Script classifier** (`has_kanji`). It tests whether a string holds a
  CJK Unified Ideograph, U+4E00..U+9FFF.
- **Okurigana splitter** (`split_okurigana`). It finds the kana ending a
  word's surface shares with its reading. The kanji root goes into one unit
  with the rest of the reading. The shared ending becomes one-character units
  annotated with themselves.
- **Token loop** of `get_furigana`.
  - Tokens with an empty surface are skipped.
  - A token with a kanji and a non-empty reading is normalised and then split.
  - Every other token is annotated with itself.
  - A missing analyser gives the `fugashi not installed` error.
  - A missing or empty text gives an empty list.

Files:
- `units.dfy` (module `Units`): the unit record, plus the concatenation of
  surfaces and of furigana that the alignment properties are stated in.
- `kana.dfy` (module `Kana`): the normaliser and the classifier.
- `okurigana.dfy` (module `Okurigana`): the splitter.
- `pipeline.dfy` (module `Pipeline`): the token loop.

The Python loops are methods with loop invariants. Each method is proved
equal to a specification function, and the properties are lemmas about
those functions. `has_kanji`, a single `any(...)`, is a function.

**The splitter can lose part of a reading.** Suppose the surface is a
non-empty proper suffix of the reading (`かえ` read `むかえ`). Every code
point of the surface then matches, and the root surface is empty. The
`if root_s:` guard at furigana_local.py:68 therefore skips the root unit,
and the reading's leading `む` is not in the result. `SplitFurigana` proves
this is the only case where the furigana do not spell the reading.
`KanaReadingKept` proves it cannot arise for a kanji token whose reading
holds no kanji, which covers any reading the analyser gives in kana.

## Model

| member | source | states |
|---|---|---|
| Kana.HiraganaOf | furigana_local.py:19-23 | a katakana code point in range lands in hiragana U+3041..U+3096, and no result is left in the shifted range |
| Kana.ToHiragana | furigana_local.py:13-24 | the normalised string has as many code points as the input |
| Kana.KataToHira | furigana_local.py:13-24 | the loop returns a string of the input's length whose code point i is the input's shifted down by 0x60 when it lies in U+30A1..U+30F6 and unchanged otherwise (empty input gives empty output), and equals the specification `ToHiragana` |
| Kana.ToHiraganaAt | furigana_local.py:18-23 | normalisation maps each code point on its own, at its own index |
| Kana.ToHiraganaIdempotent | furigana_local.py:20-23 | no shifted-range code point survives normalisation, so normalising twice is normalising once |
| Kana.HasKanji | furigana_local.py:26-30 | true exactly when some code point is in U+4E00..U+9FFF; empty text gives false |
| Kana.ToHiraganaKeepsKanji | furigana_local.py:13-30 | normalisation neither creates nor removes kanji |
| Okurigana.MatchFrom | furigana_local.py:47-54 | extending a common suffix while the code points from the end agree stops at the longest common suffix |
| Okurigana.CommonSuffixLen | furigana_local.py:43-54 | `match_count` is the length of the longest common suffix of surface and reading |
| Okurigana.Split | furigana_local.py:32-75 | the defining function of the splitter, with no contract of its own: the no-split cases return the inputs as one unit, otherwise the emission at the longest common suffix; `SplitOkurigana` is proved equal to it and the `Split*` lemmas state its properties |
| Okurigana.RootUnit | furigana_local.py:68-69 | the defining function of the root unit, with no contract of its own: present only when the root surface is non-empty; its effect is stated by `SplitShape` and `SplitFurigana` |
| Okurigana.Emitted | furigana_local.py:61-75 | the defining function of the emission at a given `match_count`, with no contract of its own: the root unit, then one unit per matched code point; `EmitSplit` is proved equal to it and `EmittedSurfaces`/`EmittedFurigana*` state its properties |
| Okurigana.CountMatch | furigana_local.py:43-54 | the counting loop stops at the longest common suffix, that is at `CommonSuffixLen` |
| Okurigana.CommonSuffixUnique | furigana_local.py:47-54 | any count at which the longest-common-suffix condition holds is `CommonSuffixLen` |
| Okurigana.CommonSuffixEqual | furigana_local.py:47-54 | the last `match_count` code points of surface and reading are equal strings |
| Okurigana.EmitSplit | furigana_local.py:61-75 | the emitting loop produces the root unit when the root surface is non-empty, then one unit per code point of the matched suffix |
| Okurigana.SplitOkurigana | furigana_local.py:32-75 | the whole splitter equals the specification `Split` |
| Okurigana.EmittedSurfaces | furigana_local.py:61-75 | the emitted surfaces spell root surface plus suffix, that is the surface |
| Okurigana.EmittedFuriganaWithRoot | furigana_local.py:61-75 | with a root unit and a common suffix, the emitted furigana spell the reading |
| Okurigana.EmittedFuriganaRootless | furigana_local.py:61-73 | without a root unit the emitted furigana spell only the surface |
| Okurigana.SplitWhole | furigana_local.py:36-58 | an empty surface or reading, equal strings, or `match_count == 0` give the inputs back as one unit |
| Okurigana.SplitEmits | furigana_local.py:57-75 | otherwise the result is the emission at `match_count` = the longest common suffix |
| Okurigana.SplitWholeIff | furigana_local.py:36-75 | the result is exactly `[{surface, reading}]` if and only if one of the no-split cases holds |
| Okurigana.SplitSurfaces | furigana_local.py:32-75 | in every case the surfaces of the split concatenate to the surface |
| Okurigana.SplitShape | furigana_local.py:61-73 | a split that happens has the root unit (surface and reading minus the suffix) first when the root is non-empty, then exactly `match_count` one-code-point units, each with furigana equal to surface, spelling the reading's last `match_count` code points |
| Okurigana.SuffixMatchesInFull | furigana_local.py:47-54 | a surface that is a suffix of the reading matches in full |
| Okurigana.FullMatchDrops | furigana_local.py:39-69 | a split that matches the whole surface happens only when the surface is a non-empty proper suffix of the reading |
| Okurigana.SplitFurigana | furigana_local.py:32-75 | the furigana of the split concatenate to the reading if and only if the surface is not a non-empty proper suffix of it; in that case they spell the surface alone |
| Okurigana.SplitExampleTaberu | furigana_local.py:43-75 | 食べる read たべる splits into 食/た, べ/べ, る/る |
| Okurigana.SplitExampleNeko | furigana_local.py:57-58 | 猫 read ねこ shares no ending and stays one unit |
| Okurigana.SplitExampleKae | furigana_local.py:61-73 | かえ read むかえ gives か/か, え/え and no root unit |
| Units.SurfacesAppend | furigana_local.py:105 | extending the result list by a list appends its surfaces |
| Units.FuriganaAppend | furigana_local.py:105 | extending the result list by a list appends its furigana |
| Units.SingletonSpells | furigana_local.py:68-69 | one unit spells its own surface and furigana |
| Units.Singles | furigana_local.py:72-73 | the suffix loop emits one unit per code point |
| Units.SinglesShape | furigana_local.py:72-73 | each suffix unit has a one-code-point surface equal to its furigana |
| Units.SinglesSnoc | furigana_local.py:72-73 | one more code point of the suffix appends one more unit |
| Units.SinglesSpell | furigana_local.py:72-73 | the suffix units spell the suffix in both surfaces and furigana |
| Units.SurfacesConcat | furigana_local.py:92-111 | when each token's units spell its text, the units of all tokens spell the concatenated texts |
| Units.FuriganaConcat | furigana_local.py:92-111 | when each token's furigana spell its reading, the furigana of all tokens spell the concatenated readings |
| Pipeline.NeedsReading | furigana_local.py:101 | the defining predicate of the annotation condition, with no contract of its own: the surface has a kanji and the `kana` feature is present and non-empty |
| Pipeline.TokenUnits | furigana_local.py:93-112 | the defining function of one token's units, with no contract of its own: nothing for an empty surface, the split of the surface against the normalised reading when a reading is needed, the surface over itself otherwise; `TokenSurfaces`, `TokenFurigana` and `TokenPassThrough` state its properties |
| Pipeline.Annotated | furigana_local.py:90-112 | the defining function of the loop's result, with no contract of its own: the units of all tokens in order; `Annotate` is proved to return it and `AnnotateSurfaces`/`AnnotateFurigana*` state its properties |
| Pipeline.Annotate | furigana_local.py:77-114 | a missing analyser is the only error, with message `fugashi not installed`, and is reported first; a missing or empty text gives an empty list; otherwise the loop's result is the units of all tokens, `Annotated` |
| Pipeline.TokenPassThrough | furigana_local.py:106-112 | a non-empty token without kanji or without a reading becomes the one unit `{surface, surface}` |
| Pipeline.TokenSurfaces | furigana_local.py:93-112 | the units of a token spell its surface, and a token with an empty surface contributes no unit |
| Pipeline.TokenFurigana | furigana_local.py:97-112 | the furigana of a token spell its hiragana reading, or its surface when it needs no reading, if and only if the splitter keeps the reading whole |
| Pipeline.KanaReadingKept | furigana_local.py:101-104 | a kanji token whose reading holds no kanji always keeps its reading whole |
| Pipeline.AnnotateSurfaces | furigana_local.py:92-114 | the surfaces of the result spell the surfaces of the tokens, in order: no character is lost, reordered or duplicated |
| Pipeline.AnnotateFurigana | furigana_local.py:92-114 | when every token keeps its reading, the furigana of the result spell the tokens' expected readings in order |
| Pipeline.AnnotateFuriganaKana | furigana_local.py:92-114 | when no reading from the analyser holds a kanji, the furigana of the result spell the tokens' expected readings in order |

## Left out

- The morphological analyser (fugashi) is not modelled. Its tokens are an
  input to `Pipeline.Annotate`: each token has a surface and an optional
  katakana reading, the `kana` feature. Whether the analyser was imported is
  a boolean input.
- JSON serialisation is not modelled. `Pipeline.Annotate` returns the list
  of units or the error message as a value instead of a JSON string.
- The `try`/`except` around `get_furigana` is not modelled: Python
  exceptions and the `traceback` payload have no counterpart in the model.
- The command-line entry point (`__main__`) is not modelled: argument
  parsing, the `--file=` temporary file and stdout encoding are I/O.
- Batch mode is not part of this model because `furigana_local.py` has no
  batch code.
- Python strings may hold lone surrogate code points. Dafny's `char`
  excludes them; they are neither katakana nor kanji, so they would pass
  through every operation unchanged.
- Pipeline.Annotate: does not relate the tokens to `text`, because the
  analyser is outside the model. `AnnotateSurfaces` gives the relation
  whenever the tokens' surfaces spell the text.
