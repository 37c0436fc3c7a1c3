/** The annotation unit: one piece of the written text together with the
    furigana displayed over it, and the two concatenations that the
    alignment properties are stated in. */
module Units {

  /** `{"surface": ..., "furigana": ...}`: a piece of the text and its reading. */
  datatype Unit = Unit(surface: string, furigana: string)

  /** The surfaces of the first `n` units, concatenated in order. */
  function SurfacesTo(us: seq<Unit>, n: nat): string
    requires n <= |us|
  {
    if n == 0 then [] else SurfacesTo(us, n - 1) + us[n - 1].surface
  }
  /** The surfaces of `us`, concatenated in order. */
  function Surfaces(us: seq<Unit>): string
  {
    SurfacesTo(us, |us|)
  }
  /** The furigana of the first `n` units, concatenated in order. */
  function FuriganaTo(us: seq<Unit>, n: nat): string
    requires n <= |us|
  {
    if n == 0 then [] else FuriganaTo(us, n - 1) + us[n - 1].furigana
  }
  /** The furigana of `us`, concatenated in order. */
  function Furigana(us: seq<Unit>): string
  {
    FuriganaTo(us, |us|)
  }

  /** Units appended after the first `n` do not change their surfaces. */
  lemma {:induction false} SurfacesPrefix(a: seq<Unit>, b: seq<Unit>, n: nat)
    requires n <= |a|
    ensures SurfacesTo(a + b, n) == SurfacesTo(a, n)
  {
    if n > 0 {
      SurfacesPrefix(a, b, n - 1);
      assert (a + b)[n - 1] == a[n - 1];
    }
  }
  /** The surfaces of `a + b` up to unit `|a| + k`: all of `a`, then the
      first `k` of `b`. */
  lemma {:induction false} SurfacesAppendTo(a: seq<Unit>, b: seq<Unit>, k: nat)
    requires k <= |b|
    ensures SurfacesTo(a + b, |a| + k) == SurfacesTo(a, |a|) + SurfacesTo(b, k)
  {
    if k == 0 {
      SurfacesPrefix(a, b, |a|);
    } else {
      SurfacesAppendTo(a, b, k - 1);
      assert (a + b)[|a| + k - 1] == b[k - 1];
      Associative(SurfacesTo(a, |a|), SurfacesTo(b, k - 1), b[k - 1].surface);
    }
  }
  /** Units appended after the first `n` do not change their furigana. */
  lemma {:induction false} FuriganaPrefix(a: seq<Unit>, b: seq<Unit>, n: nat)
    requires n <= |a|
    ensures FuriganaTo(a + b, n) == FuriganaTo(a, n)
  {
    if n > 0 {
      FuriganaPrefix(a, b, n - 1);
      assert (a + b)[n - 1] == a[n - 1];
    }
  }
  /** The furigana of `a + b` up to unit `|a| + k`: all of `a`, then the
      first `k` of `b`. */
  lemma {:induction false} FuriganaAppendTo(a: seq<Unit>, b: seq<Unit>, k: nat)
    requires k <= |b|
    ensures FuriganaTo(a + b, |a| + k) == FuriganaTo(a, |a|) + FuriganaTo(b, k)
  {
    if k == 0 {
      FuriganaPrefix(a, b, |a|);
    } else {
      FuriganaAppendTo(a, b, k - 1);
      assert (a + b)[|a| + k - 1] == b[k - 1];
      Associative(FuriganaTo(a, |a|), FuriganaTo(b, k - 1), b[k - 1].furigana);
    }
  }
  /** String concatenation is associative. */
  lemma Associative(x: string, y: string, z: string)
    ensures (x + y) + z == x + (y + z)
  {
  }

  /** Concatenating surfaces distributes over appending unit sequences. */
  lemma SurfacesAppend(a: seq<Unit>, b: seq<Unit>)
    ensures Surfaces(a + b) == Surfaces(a) + Surfaces(b)
  {
    SurfacesAppendTo(a, b, |b|);
  }
  /** Concatenating furigana distributes over appending unit sequences. */
  lemma FuriganaAppend(a: seq<Unit>, b: seq<Unit>)
    ensures Furigana(a + b) == Furigana(a) + Furigana(b)
  {
    FuriganaAppendTo(a, b, |b|);
  }
  /** A single unit spells its own surface and furigana. */
  lemma SingletonSpells(u: Unit)
    ensures Surfaces([u]) == u.surface
    ensures Furigana([u]) == u.furigana
  {
    assert SurfacesTo([u], 0) == [] && FuriganaTo([u], 0) == [];
    assert [u][0] == u;
  }

  /** One single-character unit per character of `s`, each annotated with
      itself: the shape of the okurigana part of a split. */
  function Singles(s: string): (us: seq<Unit>)
    ensures |us| == |s|
  {
    seq(|s|, i requires 0 <= i < |s| => Unit([s[i]], [s[i]]))
  }

  /** Every unit of `Singles(s)` has a one-character surface equal to its
      furigana. */
  lemma SinglesShape(s: string)
    ensures forall u :: u in Singles(s) ==> |u.surface| == 1 && u.furigana == u.surface
  {
  }

  /** Appending a character appends its single-character unit. */
  lemma SinglesSnoc(s: string, c: char)
    ensures Singles(s + [c]) == Singles(s) + [Unit([c], [c])]
  {
  }
  /** The first `n` units of `Singles(s)` spell the first `n` characters. */
  lemma {:induction false} SinglesSpellTo(s: string, n: nat)
    requires n <= |s|
    ensures SurfacesTo(Singles(s), n) == s[..n]
    ensures FuriganaTo(Singles(s), n) == s[..n]
  {
    if n > 0 {
      SinglesSpellTo(s, n - 1);
      assert s[..n] == s[..n - 1] + [s[n - 1]];
    }
  }
  /** Both the surfaces and the furigana of `Singles(s)` spell out `s`. */
  lemma SinglesSpell(s: string)
    ensures Surfaces(Singles(s)) == s
    ensures Furigana(Singles(s)) == s
  {
    SinglesSpellTo(s, |s|);
    assert s[..|s|] == s;
  }

  /** The units of the first `n` items of `xs`, item `x` contributing
      `f(x)`, in order. */
  function ConcatUnitsTo<T>(f: T -> seq<Unit>, xs: seq<T>, n: nat): seq<Unit>
    requires n <= |xs|
  {
    if n == 0 then [] else ConcatUnitsTo(f, xs, n - 1) + f(xs[n - 1])
  }

  /** The strings `g(x)` of the first `n` items of `xs`, concatenated. */
  function ConcatStringsTo<T>(g: T -> string, xs: seq<T>, n: nat): string
    requires n <= |xs|
  {
    if n == 0 then [] else ConcatStringsTo(g, xs, n - 1) + g(xs[n - 1])
  }

  /** When the units of every item spell `g` of it, the units of all items
      spell the concatenation of the `g`s. */
  lemma {:induction false} SurfacesConcat<T>(f: T -> seq<Unit>, g: T -> string, xs: seq<T>, n: nat)
    requires n <= |xs|
    requires forall i :: 0 <= i < n ==> Surfaces(f(xs[i])) == g(xs[i])
    ensures Surfaces(ConcatUnitsTo(f, xs, n)) == ConcatStringsTo(g, xs, n)
  {
    if n > 0 {
      SurfacesConcat(f, g, xs, n - 1);
      SurfacesAppend(ConcatUnitsTo(f, xs, n - 1), f(xs[n - 1]));
    }
  }

  /** When the furigana of every item's units spell `g` of it, the furigana
      of all items spell the concatenation of the `g`s. */
  lemma {:induction false} FuriganaConcat<T>(f: T -> seq<Unit>, g: T -> string, xs: seq<T>, n: nat)
    requires n <= |xs|
    requires forall i :: 0 <= i < n ==> Furigana(f(xs[i])) == g(xs[i])
    ensures Furigana(ConcatUnitsTo(f, xs, n)) == ConcatStringsTo(g, xs, n)
  {
    if n > 0 {
      FuriganaConcat(f, g, xs, n - 1);
      FuriganaAppend(ConcatUnitsTo(f, xs, n - 1), f(xs[n - 1]));
    }
  }
}
