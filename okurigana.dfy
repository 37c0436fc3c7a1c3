/** The okurigana splitter, `split_okurigana`: separates a kanji root from
    the kana ending that its surface and its reading share. */
module Okurigana {
  import opened Units

  /** The code point `j` places before the end of `s`. */
  function FromEnd(s: string, j: nat): char
    requires j < |s|
  {
    s[|s| - 1 - j]
  }

  /** The last `k` code points of `s` and `r` agree. */
  predicate IsCommonSuffix(s: string, r: string, k: nat)
  {
    k <= |s| && k <= |r| && forall j :: 0 <= j < k ==> FromEnd(s, j) == FromEnd(r, j)
  }

  /** `k` is the length of the longest common suffix of `s` and `r`: the
      last `k` code points agree, and the pair before them either differs
      or does not exist. */
  predicate IsLongestCommonSuffix(s: string, r: string, k: nat)
  {
    IsCommonSuffix(s, r, k)
    && (k < |s| && k < |r| ==> FromEnd(s, k) != FromEnd(r, k))
  }

  /** Extends a common suffix of length `k` one code point at a time, as
      far as it goes. */
  function MatchFrom(s: string, r: string, k: nat): (m: nat)
    requires IsCommonSuffix(s, r, k)
    ensures k <= m
    ensures IsLongestCommonSuffix(s, r, m)
    decreases |s| - k
  {
    if k < |s| && k < |r| && s[|s| - 1 - k] == r[|r| - 1 - k] then
      MatchFrom(s, r, k + 1)
    else k
  }

  /** The number of trailing code points `s` and `r` have in common. */
  function CommonSuffixLen(s: string, r: string): (k: nat)
    ensures IsLongestCommonSuffix(s, r, k)
  {
    MatchFrom(s, r, 0)
  }

  /** The longest common suffix is unique, so any counter that stops where
      `IsLongestCommonSuffix` says has computed `CommonSuffixLen`. */
  lemma CommonSuffixUnique(s: string, r: string, k: nat)
    requires IsLongestCommonSuffix(s, r, k)
    ensures k == CommonSuffixLen(s, r)
  {
  }

  /** A common suffix, read as strings: the two tails are equal. */
  lemma CommonSuffixEqual(s: string, r: string, k: nat)
    requires IsCommonSuffix(s, r, k)
    ensures s[|s| - k..] == r[|r| - k..]
  {
    var a, b := s[|s| - k..], r[|r| - k..];
    forall i | 0 <= i < k
      ensures a[i] == b[i]
    {
      assert FromEnd(s, k - 1 - i) == FromEnd(r, k - 1 - i);
    }
  }

  /** The cases in which `split_okurigana` returns its inputs as one unit:
      an empty side, identical strings, or no shared trailing code point. */
  predicate Unsplit(surface: string, reading: string)
  {
    surface == [] || reading == [] || surface == reading || CommonSuffixLen(surface, reading) == 0
  }

  /** The root unit, present only when the root surface is non-empty. */
  function RootUnit(rootS: string, rootR: string): seq<Unit>
  {
    if rootS != [] then [Unit(rootS, rootR)] else []
  }

  /** What `split_okurigana` emits once `match_count` is known to be `m`:
      the root unit, then one unit per code point of the matched suffix. */
  function Emitted(surface: string, reading: string, m: nat): seq<Unit>
    requires m <= |surface| && m <= |reading|
  {
    RootUnit(surface[..|surface| - m], reading[..|reading| - m]) + Singles(surface[|surface| - m..])
  }

  /** The specification of `split_okurigana`. */
  function Split(surface: string, reading: string): seq<Unit>
  {
    if surface == [] || reading == [] then [Unit(surface, reading)]
    else if surface == reading then [Unit(surface, reading)]
    else
      var m := CommonSuffixLen(surface, reading);
      if m == 0 then [Unit(surface, reading)]
      else Emitted(surface, reading, m)
  }

  /** The counting loop of `split_okurigana`: walks back from the ends of
      both strings while the code points agree. */
  method CountMatch(surface: string, reading: string) returns (matchCount: nat)
    ensures IsLongestCommonSuffix(surface, reading, matchCount)
    ensures matchCount == CommonSuffixLen(surface, reading)
  {
    var sLen, rLen := |surface|, |reading|;
    matchCount := 0;
    while matchCount < sLen && matchCount < rLen
      invariant IsCommonSuffix(surface, reading, matchCount)
    {
      var sChar := surface[sLen - 1 - matchCount];
      var rChar := reading[rLen - 1 - matchCount];
      if sChar == rChar {
        matchCount := matchCount + 1;
      } else {
        break;
      }
    }
    CommonSuffixUnique(surface, reading, matchCount);
  }

  /** The emitting half of `split_okurigana`: the root unit when its
      surface is non-empty, then one unit per matched code point. */
  method EmitSplit(surface: string, reading: string, matchCount: nat) returns (res: seq<Unit>)
    requires matchCount <= |surface| && matchCount <= |reading|
    ensures res == Emitted(surface, reading, matchCount)
  {
    var sLen, rLen := |surface|, |reading|;
    var rootS := surface[..sLen - matchCount];
    var rootR := reading[..rLen - matchCount];
    var suffix := surface[sLen - matchCount..];
    res := [];
    if rootS != [] {
      res := res + [Unit(rootS, rootR)];
    }
    ghost var root := res;
    for i := 0 to |suffix|
      invariant res == root + Singles(suffix[..i])
    {
      var ch := suffix[i];
      res := res + [Unit([ch], [ch])];
      assert suffix[..i + 1] == suffix[..i] + [ch];
      SinglesSnoc(suffix[..i], ch);
    }
    assert suffix[..|suffix|] == suffix;
  }

  /** `split_okurigana`: returns the inputs whole in the no-split cases,
      otherwise counts the matched suffix and emits the split. */
  method SplitOkurigana(surface: string, reading: string) returns (res: seq<Unit>)
    ensures res == Split(surface, reading)
  {
    if surface == [] || reading == [] {
      return [Unit(surface, reading)];
    }
    if surface == reading {
      return [Unit(surface, reading)];
    }
    var matchCount := CountMatch(surface, reading);
    if matchCount == 0 {
      return [Unit(surface, reading)];
    }
    res := EmitSplit(surface, reading, matchCount);
  }

  /** Whatever `m` is, the emitted surfaces spell the surface: the root
      surface followed by the matched suffix. */
  lemma EmittedSurfaces(surface: string, reading: string, m: nat)
    requires m <= |surface| && m <= |reading|
    ensures Surfaces(Emitted(surface, reading, m)) == surface
  {
    var rootS, suffix := surface[..|surface| - m], surface[|surface| - m..];
    var root := RootUnit(rootS, reading[..|reading| - m]);
    SurfacesAppend(root, Singles(suffix));
    SinglesSpell(suffix);
    if rootS != [] {
      SingletonSpells(root[0]);
    }
    assert rootS + suffix == surface;
  }

  /** With a root unit, the emitted furigana are the root reading followed
      by the matched suffix; they spell the reading when that suffix is a
      common suffix. */
  lemma EmittedFuriganaWithRoot(surface: string, reading: string, m: nat)
    requires m < |surface| && m <= |reading|
    requires surface[|surface| - m..] == reading[|reading| - m..]
    ensures Furigana(Emitted(surface, reading, m)) == reading
  {
    var rootR, suffix := reading[..|reading| - m], surface[|surface| - m..];
    var root := RootUnit(surface[..|surface| - m], rootR);
    FuriganaAppend(root, Singles(suffix));
    SinglesSpell(suffix);
    SingletonSpells(root[0]);
    assert rootR + suffix == reading;
  }

  /** Without a root unit (the whole surface matched) the emitted furigana
      spell the surface alone. */
  lemma EmittedFuriganaRootless(surface: string, reading: string)
    requires |surface| <= |reading|
    ensures Furigana(Emitted(surface, reading, |surface|)) == surface
  {
    assert surface[|surface| - |surface|..] == surface;
    FuriganaAppend([], Singles(surface));
    SinglesSpell(surface);
  }

  /** No split: the inputs come back as one unit. */
  lemma SplitWhole(surface: string, reading: string)
    requires Unsplit(surface, reading)
    ensures Split(surface, reading) == [Unit(surface, reading)]
  {
  }

  /** A split that happens emits with `m` the longest common suffix. */
  lemma SplitEmits(surface: string, reading: string)
    requires !Unsplit(surface, reading)
    ensures Split(surface, reading) == Emitted(surface, reading, CommonSuffixLen(surface, reading))
  {
  }

  /** Round trip of surfaces: the surfaces of the split, in order, spell
      the original surface in every case. */
  lemma SplitSurfaces(surface: string, reading: string)
    ensures Surfaces(Split(surface, reading)) == surface
  {
    if Unsplit(surface, reading) {
      SplitWhole(surface, reading);
      SingletonSpells(Unit(surface, reading));
    } else {
      SplitEmits(surface, reading);
      EmittedSurfaces(surface, reading, CommonSuffixLen(surface, reading));
    }
  }

  /** Shape of a split that happens: an optional root unit first, then
      exactly `CommonSuffixLen` units, each with a one-code-point surface
      equal to its furigana, which together spell the shared suffix of the
      surface and the reading. The root unit is there exactly when not all
      of the surface matched. */
  lemma SplitShape(surface: string, reading: string)
    requires !Unsplit(surface, reading)
    ensures var res, m := Split(surface, reading), CommonSuffixLen(surface, reading);
      && 0 < m <= |surface|
      && |res| == m + (if m < |surface| then 1 else 0)
      && (m < |surface| ==> res[0] == Unit(surface[..|surface| - m], reading[..|reading| - m]))
      && (forall u :: u in res[|res| - m..] ==> |u.surface| == 1 && u.furigana == u.surface)
      && Surfaces(res[|res| - m..]) == reading[|reading| - m..]
  {
    var m := CommonSuffixLen(surface, reading);
    var suffix := surface[|surface| - m..];
    var root := RootUnit(surface[..|surface| - m], reading[..|reading| - m]);
    var res := Split(surface, reading);
    SplitEmits(surface, reading);
    assert res == root + Singles(suffix);
    assert |root| == (if m < |surface| then 1 else 0);
    assert res[|res| - m..] == Singles(suffix);
    SinglesSpell(suffix);
    SinglesShape(suffix);
    CommonSuffixEqual(surface, reading, m);
  }

  /** `split_okurigana` returns its inputs unchanged as one unit exactly in
      the no-split cases (empty side, equal strings, `match_count == 0`). */
  lemma SplitWholeIff(surface: string, reading: string)
    ensures Split(surface, reading) == [Unit(surface, reading)] <==> Unsplit(surface, reading)
  {
    if !Unsplit(surface, reading) {
      SplitShape(surface, reading);
    }
  }

  /** The surface is a non-empty proper suffix of the reading: the only
      case in which `split_okurigana` loses part of the reading. */
  predicate DropsRootReading(surface: string, reading: string)
  {
    0 < |surface| < |reading| && surface == reading[|reading| - |surface|..]
  }

  /** A surface that is a suffix of the reading matches in full. */
  lemma SuffixMatchesInFull(surface: string, reading: string)
    requires |surface| <= |reading| && surface == reading[|reading| - |surface|..]
    ensures CommonSuffixLen(surface, reading) == |surface|
  {
  }

  /** A split that matches the whole surface is the dropping case. */
  lemma FullMatchDrops(surface: string, reading: string)
    requires !Unsplit(surface, reading)
    requires CommonSuffixLen(surface, reading) == |surface|
    ensures DropsRootReading(surface, reading)
  {
    CommonSuffixEqual(surface, reading, |surface|);
    assert surface[|surface| - |surface|..] == surface;
  }

  /** The furigana of the split spell the reading exactly when the surface
      is not a non-empty proper suffix of it; in that case the root unit is
      skipped, the root reading is lost, and the furigana spell only the
      surface. */
  lemma SplitFurigana(surface: string, reading: string)
    ensures Furigana(Split(surface, reading)) == reading <==> !DropsRootReading(surface, reading)
    ensures DropsRootReading(surface, reading) ==> Furigana(Split(surface, reading)) == surface
  {
    if DropsRootReading(surface, reading) {
      SuffixMatchesInFull(surface, reading);
      SplitEmits(surface, reading);
      EmittedFuriganaRootless(surface, reading);
    } else if Unsplit(surface, reading) {
      SplitWhole(surface, reading);
      SingletonSpells(Unit(surface, reading));
    } else {
      var m := CommonSuffixLen(surface, reading);
      if m == |surface| {
        FullMatchDrops(surface, reading);
      }
      CommonSuffixEqual(surface, reading, m);
      SplitEmits(surface, reading);
      EmittedFuriganaWithRoot(surface, reading, m);
    }
  }

  /** 食べる read たべる: root 食 over た, then べ and る over themselves. */
  lemma SplitExampleTaberu()
    ensures Split("食べる", "たべる") == [Unit("食", "た"), Unit("べ", "べ"), Unit("る", "る")]
  {
    var s, r := "食べる", "たべる";
    assert MatchFrom(s, r, 2) == 2;
    assert CommonSuffixLen(s, r) == 2;
    assert s[..1] == "食" && r[..1] == "た" && s[1..] == "べる";
    assert Singles("べる") == [Unit("べ", "べ"), Unit("る", "る")];
  }

  /** 猫 read ねこ: nothing shared at the end, so one unit. */
  lemma SplitExampleNeko()
    ensures Split("猫", "ねこ") == [Unit("猫", "ねこ")]
  {
  }

  /** かえ read むかえ: the whole surface matches, no root unit is emitted,
      and the reading's む appears nowhere in the result. */
  lemma SplitExampleKae()
    ensures Split("かえ", "むかえ") == [Unit("か", "か"), Unit("え", "え")]
  {
  }
}
