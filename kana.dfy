/** Kana normaliser and script classifier: `kata_to_hira` and `has_kanji`.
    Python strings are sequences of code points, modelled as `seq<char>`. */
module Kana {

  /** The katakana code points that `kata_to_hira` shifts: U+30A1 (ァ) to
      U+30F6 (ヶ), inclusive. */
  predicate IsShiftedKatakana(c: char)
  {
    '\U{30A1}' <= c <= '\U{30F6}'
  }

  /** A CJK Unified Ideograph: U+4E00 to U+9FFF, inclusive. */
  predicate IsKanji(c: char)
  {
    '\U{4E00}' <= c <= '\U{9FFF}'
  }

  /** The hiragana equivalent of one code point: katakana in range moves
      down by 0x60, everything else is left as it is. */
  function HiraganaOf(c: char): (h: char)
    ensures IsShiftedKatakana(c) ==> '\U{3041}' <= h <= '\U{3096}'
    ensures !IsShiftedKatakana(h)
  {
    if IsShiftedKatakana(c) then (c as int - 0x60) as char else c
  }

  /** The specification of `kata_to_hira`: every code point mapped by
      `HiraganaOf`, in order. */
  function ToHiragana(s: string): (r: string)
    ensures |r| == |s|
  {
    if s == [] then [] else ToHiragana(s[..|s| - 1]) + [HiraganaOf(s[|s| - 1])]
  }

  /** `kata_to_hira`: builds the result one code point at a time. */
  method KataToHira(kata: string) returns (result: string)
    ensures |result| == |kata|
    ensures forall i :: 0 <= i < |kata| ==>
      result[i] == if IsShiftedKatakana(kata[i]) then (kata[i] as int - 0x60) as char else kata[i]
    ensures result == ToHiragana(kata)
  {
    if kata == [] {
      return [];
    }
    result := [];
    for i := 0 to |kata|
      invariant result == ToHiragana(kata[..i])
    {
      var code := kata[i];
      if '\U{30A1}' <= code <= '\U{30F6}' {
        result := result + [(code as int - 0x60) as char];
      } else {
        result := result + [code];
      }
      assert kata[..i + 1][..i] == kata[..i];
    }
    assert kata[..|kata|] == kata;
    forall i | 0 <= i < |kata|
      ensures result[i] == HiraganaOf(kata[i])
    {
      ToHiraganaAt(kata, i);
    }
  }

  /** `ToHiragana` keeps the length and maps the code point at each index
      on its own. */
  lemma {:induction false} ToHiraganaAt(s: string, i: nat)
    requires i < |s|
    ensures |ToHiragana(s)| == |s|
    ensures ToHiragana(s)[i] == HiraganaOf(s[i])
    decreases |s|
  {
    if i < |s| - 1 {
      ToHiraganaAt(s[..|s| - 1], i);
    } else if |s| > 1 {
      ToHiraganaAt(s[..|s| - 1], 0);
    }
  }

  /** After normalisation no code point of the shifted katakana range is
      left, so normalising twice is normalising once. */
  lemma {:induction false} ToHiraganaIdempotent(s: string)
    ensures forall i :: 0 <= i < |ToHiragana(s)| ==> !IsShiftedKatakana(ToHiragana(s)[i])
    ensures ToHiragana(ToHiragana(s)) == ToHiragana(s)
    decreases |s|
  {
    if s != [] {
      var s' := s[..|s| - 1];
      ToHiraganaIdempotent(s');
      var t := ToHiragana(s);
      assert t[..|t| - 1] == ToHiragana(s');
      forall i | 0 <= i < |t|
        ensures !IsShiftedKatakana(t[i])
      {
        ToHiraganaAt(s, i);
      }
    }
  }

  /** `has_kanji`: whether some code point of `text` is a kanji. */
  function HasKanji(text: string): (b: bool)
    ensures b <==> exists i :: 0 <= i < |text| && IsKanji(text[i])
  {
    if text == [] then false
    else
      assert forall i :: 0 <= i < |text| - 1 ==> text[..|text| - 1][i] == text[i];
      HasKanji(text[..|text| - 1]) || IsKanji(text[|text| - 1])
  }

  /** Normalisation neither creates nor removes kanji: kanji are outside
      the shifted range, and the shifted range lands outside the kanji. */
  lemma {:induction false} ToHiraganaKeepsKanji(s: string)
    ensures HasKanji(ToHiragana(s)) == HasKanji(s)
  {
    var t := ToHiragana(s);
    if s != [] {
      ToHiraganaAt(s, 0);
    }
    forall i | 0 <= i < |s|
      ensures IsKanji(t[i]) == IsKanji(s[i])
    {
      ToHiraganaAt(s, i);
    }
  }
}
