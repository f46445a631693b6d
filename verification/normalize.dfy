/** The comparison key `_norm_key` / `normalize_key`: strip, collapse
    whitespace runs to one space, NFKD, drop combining marks, casefold. */
module Normalize {
  import opened Runtime
  import opened Text

  /** The key of a text that may be None. Only the whitespace steps are
      modelled concretely; the Unicode steps are `lib.decompose` and
      `lib.casefold`. */
  function NormKey(lib: Lib, s: Option<string>): (r: string)
    // None is read as the empty text, and so is a blank one
    ensures AllSpace(s.GetOr([])) ==> r == Fold(lib, [])
  {
    SquashBlank(s.GetOr([]));
    Fold(lib, Squash(s.GetOr([])))
  }

  /** The Unicode steps only ever see a stripped, single-spaced text. */
  lemma NormKeyFoldsCanonical(lib: Lib, s: Option<string>)
    ensures exists t :: Canonical(t) && NormKey(lib, s) == Fold(lib, t)
  {
    assert Canonical(Squash(s.GetOr([])));
  }

  /** `_norm_key` of a present text, as a function value. */
  function KeyOf(lib: Lib): string -> string {
    s => NormKey(lib, Some(s))
  }

  /** A missing or blank text has the empty key. */
  lemma NormKeyBlank(lib: Lib, s: Option<string>)
    requires EmptyStable(lib) && AllSpace(s.GetOr([]))
    ensures NormKey(lib, s) == []
  {
    SquashBlank(s.GetOr([]));
  }

  /** The Unicode part of the key. */
  function Fold(lib: Lib, s: string): string {
    lib.casefold(lib.decompose(s))
  }

  /** The key only sees the text after stripping and collapsing whitespace. */
  lemma NormKeyOfSquash(lib: Lib, s: string)
    ensures NormKey(lib, Some(Squash(s))) == NormKey(lib, Some(s))
  {
    SquashIdempotent(s);
  }

  /** Stripping the text first (as every caller that does `s.strip()`
      before taking the key does) does not change the key. */
  lemma NormKeyOfTrim(lib: Lib, s: string)
    ensures NormKey(lib, Some(Trim(s))) == NormKey(lib, Some(s))
  {
    var t := Trim(s);
    assert SkipSpaces(t, 0) == 0 by { if t != [] { assert !IsSpace(t[0]); } }
    assert BackSpaces(t, |t|) == |t| by { if t != [] { assert !IsSpace(t[|t| - 1]); } }
    assert Trim(t) == t;
  }

  /** When the Unicode fold maps single-spaced texts to single-spaced texts
      and is idempotent on them, the key is idempotent. */
  lemma NormKeyIdempotentWhen(lib: Lib, s: string)
    requires forall x :: Canonical(x) ==> Canonical(Fold(lib, x)) && Fold(lib, Fold(lib, x)) == Fold(lib, x)
    ensures NormKey(lib, Some(NormKey(lib, Some(s)))) == NormKey(lib, Some(s))
  {
    var k := NormKey(lib, Some(s));
    SquashFixpoint(k);
  }

  /** The key is not idempotent in general: NFKD turns U+00B4 (acute accent)
      into a space followed by a combining mark, so after the mark is dropped
      the key of "a ´b" holds two adjacent spaces, which a second pass
      collapses. */
  lemma NormKeyNotIdempotent(lib: Lib)
    requires lib.decompose("a \U{B4}b") == "a  b" && lib.casefold("a  b") == "a  b"
    requires lib.decompose("a b") == "a b" && lib.casefold("a b") == "a b"
    ensures NormKey(lib, Some(NormKey(lib, Some("a \U{B4}b")))) != NormKey(lib, Some("a \U{B4}b"))
  {
    var s := "a \U{B4}b";
    assert Canonical(s) by {
      assert !IsSpace(s[0]) && !IsSpace(s[2]) && !IsSpace(s[3]);
    }
    SquashFixpoint(s);
    assert NormKey(lib, Some(s)) == "a  b";
    SquashDoubleSpace();
  }

  lemma SquashDoubleSpace()
    ensures Squash("a  b") == "a b"
  {
    var t := "a  b";
    assert !IsSpace(t[0]) && IsSpace(t[1]) && IsSpace(t[2]) && !IsSpace(t[3]);
    assert SkipSpaces(t, 0) == 0;
    assert BackSpaces(t, 4) == 4;
    assert Trim(t) == t;
    assert CollapseFrom(t, 4) == [];
    assert CollapseFrom(t, 3) == "b";
    assert SkipSpaces(t, 3) == 3;
    assert SkipSpaces(t, 1) == 3;
    assert CollapseFrom(t, 1) == " b";
    assert CollapseFrom(t, 0) == "a b";
  }
}
