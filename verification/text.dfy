/** Python string primitives used throughout the core, over `string`
    (a sequence of Unicode scalar values, as Python's `str` is). */
module Text {
  import opened Runtime

  /** `str.isspace()`, which is also what `str.strip()`, `str.split()` and the
      `\s` class of `re` use for `str` patterns. */
  predicate IsSpace(c: char) {
    || ('\t' <= c <= '\r')
    || ('\U{1C}' <= c <= ' ')
    || c == '\U{85}' || c == '\U{A0}' || c == '\U{1680}'
    || ('\U{2000}' <= c <= '\U{200A}')
    || c == '\U{2028}' || c == '\U{2029}' || c == '\U{202F}' || c == '\U{205F}' || c == '\U{3000}'
  }

  predicate AllSpace(s: string) {
    forall i :: 0 <= i < |s| ==> IsSpace(s[i])
  }

  /** The first position at or after `i` that does not hold whitespace. */
  function SkipSpaces(s: string, i: nat): (j: nat)
    requires i <= |s|
    ensures i <= j <= |s|
    ensures forall k :: i <= k < j ==> IsSpace(s[k])
    ensures j < |s| ==> !IsSpace(s[j])
    decreases |s| - i
  {
    if i < |s| && IsSpace(s[i]) then SkipSpaces(s, i + 1) else i
  }

  /** The first position at or after `i` that holds whitespace. */
  function SkipWord(s: string, i: nat): (j: nat)
    requires i <= |s|
    ensures i <= j <= |s|
    ensures forall k :: i <= k < j ==> !IsSpace(s[k])
    ensures j < |s| ==> IsSpace(s[j])
    decreases |s| - i
  {
    if i < |s| && !IsSpace(s[i]) then SkipWord(s, i + 1) else i
  }

  /** The end of `s[..j]` once its trailing whitespace is removed. */
  function BackSpaces(s: string, j: nat): (i: nat)
    requires j <= |s|
    ensures i <= j
    ensures forall k :: i <= k < j ==> IsSpace(s[k])
    ensures i > 0 ==> !IsSpace(s[i - 1])
    decreases j
  {
    if j > 0 && IsSpace(s[j - 1]) then BackSpaces(s, j - 1) else j
  }

  /** `s.strip()`: the text between the leading and the trailing whitespace. */
  function Trim(s: string): (r: string)
    ensures |r| <= |s|
    ensures r != [] ==> !IsSpace(r[0]) && !IsSpace(r[|r| - 1])
  {
    var i := SkipSpaces(s, 0);
    if i == |s| then []
    else
      var j := BackSpaces(s, |s|);
      assert !IsSpace(s[i]);
      s[i..j]
  }

  /** Stripping leaves nothing exactly when the text is blank. Kept out of
      `Trim`'s contract so that callers that never ask do not pay for it. */
  lemma TrimBlank(s: string)
    ensures Trim(s) == [] <==> AllSpace(s)
  {
  }

  /** A text that neither starts nor ends with whitespace is left alone by
      stripping. */
  lemma TrimFixpoint(s: string)
    requires s != [] ==> !IsSpace(s[0]) && !IsSpace(s[|s| - 1])
    ensures Trim(s) == s
  {
    if s != [] {
      assert SkipSpaces(s, 0) == 0;
      assert BackSpaces(s, |s|) == |s|;
      assert s[0..|s|] == s;
    }
  }

  /** Every whitespace character is a plain space and no two are adjacent. */
  predicate SingleSpaced(s: string) {
    && (forall i :: 0 <= i < |s| && IsSpace(s[i]) ==> s[i] == ' ')
    && (forall i :: 0 <= i < |s| - 1 && IsSpace(s[i]) ==> !IsSpace(s[i + 1]))
  }

  /** What `re.sub(r"\s+", " ", s.strip())` produces. */
  predicate Canonical(s: string) {
    && (s != [] ==> !IsSpace(s[0]) && !IsSpace(s[|s| - 1]))
    && SingleSpaced(s)
  }

  /** `re.sub(r"\s+", " ", s[i..])`: every maximal whitespace run becomes
      one space. */
  function CollapseFrom(s: string, i: nat): (r: string)
    requires i <= |s|
    ensures SingleSpaced(r)
    ensures r == [] <==> i == |s|
    ensures r != [] ==> (IsSpace(r[0]) <==> IsSpace(s[i]))
    ensures r != [] ==> (IsSpace(r[|r| - 1]) <==> IsSpace(s[|s| - 1]))
    decreases |s| - i
  {
    if i == |s| then []
    else if IsSpace(s[i]) then [' '] + CollapseFrom(s, SkipSpaces(s, i))
    else [s[i]] + CollapseFrom(s, i + 1)
  }

  function Collapse(s: string): (r: string)
    ensures SingleSpaced(r)
  {
    CollapseFrom(s, 0)
  }

  /** The whitespace treatment shared by every normalisation in the core:
      strip, then collapse runs. */
  function Squash(s: string): (r: string)
    ensures Canonical(r)
  {
    Collapse(Trim(s))
  }

  lemma SquashBlank(s: string)
    ensures Squash(s) == [] <==> AllSpace(s)
  {
    TrimBlank(s);
  }

  lemma {:induction false} CollapseFromFixpoint(s: string, i: nat)
    requires i <= |s| && SingleSpaced(s)
    ensures CollapseFrom(s, i) == s[i..]
    decreases |s| - i
  {
    if i < |s| {
      CollapseFromFixpoint(s, i + 1);
      if IsSpace(s[i]) {
        assert SkipSpaces(s, i) == i + 1 by {
          if i + 1 < |s| { assert !IsSpace(s[i + 1]); }
        }
      }
      assert s[i..] == [s[i]] + s[i + 1..];
    }
  }

  /** A canonical text is left alone by `Squash`. */
  lemma SquashFixpoint(s: string)
    requires Canonical(s)
    ensures Squash(s) == s
  {
    if s != [] {
      assert SkipSpaces(s, 0) == 0;
      assert BackSpaces(s, |s|) == |s|;
      assert Trim(s) == s[0..|s|] == s;
    }
    CollapseFromFixpoint(s, 0);
  }

  /** `Squash` is idempotent: the whitespace normalisation can be applied any
      number of times. */
  lemma SquashIdempotent(s: string)
    ensures Squash(Squash(s)) == Squash(s)
  {
    SquashFixpoint(Squash(s));
  }

  /** `t.split()`: the maximal whitespace-free runs, in order. */
  function Words(t: string): seq<string>
    decreases |t|
  {
    var j := SkipSpaces(t, 0);
    if j == |t| then []
    else
      var e := SkipWord(t, j);
      [t[j..e]] + Words(t[e..])
  }

  /** Every piece `split` yields is a word. */
  lemma {:induction false} WordsAreWords(t: string)
    ensures forall k :: 0 <= k < |Words(t)| ==> Word(Words(t)[k])
    decreases |t|
  {
    var j := SkipSpaces(t, 0);
    if j < |t| {
      var e := SkipWord(t, j);
      assert Word(t[j..e]);
      WordsAreWords(t[e..]);
    }
  }

  /** `s.split()`. */
  function Split(s: string): (r: seq<string>)
    ensures forall k :: 0 <= k < |r| ==> Word(r[k])
    ensures r == [] <==> AllSpace(s)
  {
    var j := SkipSpaces(s, 0);
    assert j == |s| <==> AllSpace(s) by {
      if j < |s| {
        assert !IsSpace(s[j]);
      }
    }
    WordsAreWords(s);
    Words(s)
  }

  /** A non-empty run of non-whitespace characters, as `split()` yields. */
  predicate Word(w: string) {
    w != [] && forall i :: 0 <= i < |w| ==> !IsSpace(w[i])
  }

  /** Skipping a word in a suffix is skipping it in the whole text. */
  lemma {:induction false} SkipWordDrop(s: string, a: nat, k: nat)
    requires a + k <= |s|
    ensures SkipWord(s[a..], k) == SkipWord(s, a + k) - a
    decreases |s| - a - k
  {
    if a + k < |s| {
      assert s[a..][k] == s[a + k];
      if !IsSpace(s[a + k]) {
        SkipWordDrop(s, a, k + 1);
      }
    }
  }

  /** Leading whitespace adds no word. */
  lemma WordsLeading(s: string)
    ensures Words(s) == Words(s[SkipSpaces(s, 0)..])
  {
    var a := SkipSpaces(s, 0);
    if a < |s| {
      WordsFromWordStart(s, a);
    } else {
      assert s[a..] == [];
    }
  }

  /** The words of a suffix that starts at a word: that word, then the words
      after it. */
  lemma WordsFromWordStart(s: string, a: nat)
    requires a < |s| && !IsSpace(s[a])
    ensures Words(s[a..]) == [s[a..SkipWord(s, a)]] + Words(s[SkipWord(s, a)..])
  {
    var u := s[a..];
    var e := SkipWord(s, a);
    SkipWordDrop(s, a, 0);
    SuffixFacts(s, a, e);
    assert SkipSpaces(u, 0) == 0;
  }

  lemma SuffixFacts(s: string, a: nat, e: nat)
    requires a < e <= |s|
    ensures s[a..][0] == s[a]
    ensures s[a..][0..e - a] == s[a..e]
    ensures s[a..][e - a..] == s[e..]
  {
  }

  lemma {:induction false} SkipSpacesTrailing(x: string, t: string, i: nat)
    requires AllSpace(t) && i <= |x|
    ensures SkipSpaces(x + t, i) == if SkipSpaces(x, i) == |x| then |x + t| else SkipSpaces(x, i)
    decreases |x + t| - i
  {
    if i < |x| {
      assert (x + t)[i] == x[i];
      if IsSpace(x[i]) {
        SkipSpacesTrailing(x, t, i + 1);
      }
    } else {
      SkipSpacesTail(x + t, i);
    }
  }

  /** From a position where only whitespace remains, skipping reaches the end. */
  lemma {:induction false} SkipSpacesTail(s: string, i: nat)
    requires i <= |s| && forall k :: i <= k < |s| ==> IsSpace(s[k])
    ensures SkipSpaces(s, i) == |s|
    decreases |s| - i
  {
    if i < |s| {
      SkipSpacesTail(s, i + 1);
    }
  }

  lemma {:induction false} SkipWordTrailing(x: string, t: string, i: nat)
    requires AllSpace(t) && i <= |x|
    ensures SkipWord(x + t, i) == SkipWord(x, i)
    decreases |x| - i
  {
    if i < |x| {
      assert (x + t)[i] == x[i];
      if !IsSpace(x[i]) {
        SkipWordTrailing(x, t, i + 1);
      }
    } else if t != [] {
      assert (x + t)[i] == t[0];
    }
  }

  /** Trailing whitespace adds no word. */
  lemma {:induction false} WordsTrailing(x: string, t: string)
    requires AllSpace(t)
    ensures Words(x + t) == Words(x)
    decreases |x|
  {
    SkipSpacesTrailing(x, t, 0);
    var j := SkipSpaces(x, 0);
    if j < |x| {
      SkipWordTrailing(x, t, j);
      var e := SkipWord(x, j);
      assert (x + t)[j..e] == x[j..e];
      assert (x + t)[e..] == x[e..] + t;
      WordsTrailing(x[e..], t);
    }
  }

  /** `s.strip().split() == s.split()`. */
  lemma SplitOfTrim(s: string)
    ensures Split(Trim(s)) == Split(s)
  {
    var a := SkipSpaces(s, 0);
    WordsLeading(s);
    if a < |s| {
      var b := BackSpaces(s, |s|);
      TrimIsSlice(s);
      WordsTrailingFrom(s, a, b);
    } else {
      assert Trim(s) == [];
      assert s[a..] == [];
    }
  }

  /** The stripped text of a text with a non-blank character. */
  lemma TrimIsSlice(s: string)
    requires SkipSpaces(s, 0) < |s|
    ensures SkipSpaces(s, 0) < BackSpaces(s, |s|)
    ensures Trim(s) == s[SkipSpaces(s, 0)..BackSpaces(s, |s|)]
  {
  }

  /** `strip()` removes whitespace only, and only at the two ends: the
      stripped text is a slice of the text with nothing but whitespace
      before and after it. */
  lemma TrimStrips(s: string)
    ensures exists a, b :: 0 <= a <= b <= |s| && Trim(s) == s[a..b] && AllSpace(s[..a]) && AllSpace(s[b..])
  {
    var a := SkipSpaces(s, 0);
    if a == |s| {
      assert Trim(s) == s[a..a] && AllSpace(s[..a]) && AllSpace(s[a..]);
    } else {
      TrimIsSlice(s);
      var b := BackSpaces(s, |s|);
      assert Trim(s) == s[a..b] && AllSpace(s[..a]) && AllSpace(s[b..]);
    }
  }

  /** The words from `a` on are those up to `b` when only whitespace follows
      `b`. */
  lemma WordsTrailingFrom(s: string, a: nat, b: nat)
    requires a <= b <= |s| && forall k :: b <= k < |s| ==> IsSpace(s[k])
    ensures Words(s[a..]) == Words(s[a..b])
  {
    assert s[a..] == s[a..b] + s[b..];
    assert AllSpace(s[b..]);
    WordsTrailing(s[a..b], s[b..]);
  }

  /** From the start of a word, skipping the word stops at its end. */
  lemma {:induction false} SkipWordOverWord(w: string, t: string, i: nat)
    requires Word(w) && i <= |w| && t != [] && IsSpace(t[0])
    ensures SkipWord(w + t, i) == |w|
    decreases |w| - i
  {
    if i < |w| {
      assert (w + t)[i] == w[i];
      SkipWordOverWord(w, t, i + 1);
    } else {
      assert (w + t)[i] == t[0];
    }
  }

  /** `(w + " " + rest).split() == [w] + rest.split()` for a word `w` and a
      text `rest` that starts with a non-whitespace character. */
  lemma SplitCons(w: string, rest: string)
    requires Word(w) && rest != [] && !IsSpace(rest[0])
    ensures Split(w + " " + rest) == [w] + Split(rest)
  {
    var s := w + " " + rest;
    assert s == w + (" " + rest);
    SkipWordOverWord(w, " " + rest, 0);
    assert s[0] == w[0];
    assert s[0..|w|] == w;
    assert s[|w|..] == " " + rest;
    WordsLeading(" " + rest);
    assert (" " + rest)[1..] == rest;
  }

  /** `SkipSpaces` stops at the first non-whitespace position. */
  lemma {:induction false} SkipSpacesAt(s: string, i: nat, j: nat)
    requires i <= j <= |s|
    requires forall k :: i <= k < j ==> IsSpace(s[k])
    requires j < |s| ==> !IsSpace(s[j])
    ensures SkipSpaces(s, i) == j
    decreases j - i
  {
    if i < j {
      SkipSpacesAt(s, i + 1, j);
    }
  }

  /** A leading space adds no word: `(" " + x).split() == x.split()`. */
  lemma SplitSpaceCons(x: string)
    ensures Split(" " + x) == Split(x)
  {
    var s := " " + x;
    var b := SkipSpaces(x, 0);
    assert forall k :: 0 <= k < |x| ==> s[k + 1] == x[k];
    SkipSpacesAt(s, 0, b + 1);
    assert s[b + 1..] == x[b..];
    WordsLeading(s);
    WordsLeading(x);
  }

  /** A single word splits to itself. */
  lemma SplitWord(w: string)
    requires Word(w)
    ensures Split(w) == [w]
  {
    assert SkipSpaces(w, 0) == 0;
    assert SkipWord(w, 0) == |w|;
    assert w[0..|w|] == w;
    assert w[|w|..] == [];
    assert Words([]) == [];
  }

  /** Joining words with single spaces and splitting again gives the words
      back. */
  lemma {:induction false} SplitJoinSpace(ws: seq<string>)
    requires forall k :: 0 <= k < |ws| ==> Word(ws[k])
    ensures Split(JoinSpace(ws)) == ws
    decreases |ws|
  {
    if |ws| == 1 {
      SplitWord(ws[0]);
    } else if |ws| > 1 {
      JoinSpaceStart(ws[1..]);
      SplitCons(ws[0], JoinSpace(ws[1..]));
      SplitJoinSpace(ws[1..]);
      assert ws == [ws[0]] + ws[1..];
    }
  }

  /** A join of words starts with a non-whitespace character. */
  lemma {:induction false} JoinSpaceStart(ws: seq<string>)
    requires |ws| >= 1 && forall k :: 0 <= k < |ws| ==> Word(ws[k])
    ensures ws[0] != [] && JoinSpace(ws) != [] && JoinSpace(ws)[0] == ws[0][0]
  {
  }

  /** `" ".join(ws)`. */
  function JoinSpace(ws: seq<string>): string
    decreases |ws|
  {
    if ws == [] then []
    else if |ws| == 1 then ws[0]
    else ws[0] + " " + JoinSpace(ws[1..])
  }

  /** `s.startswith(p)`. */
  predicate StartsWith(s: string, p: string) {
    |p| <= |s| && s[..|p|] == p
  }

  /** `p in s` for strings: `p` occurs in `s` as a contiguous substring. */
  predicate Contains(s: string, p: string) {
    exists i :: 0 <= i <= |s| && StartsWith(s[i..], p)
  }

  lemma ContainsPrefix(s: string, p: string)
    requires StartsWith(s, p)
    ensures Contains(s, p)
  {
    assert s[0..] == s;
  }

  /** `s.lstrip(c)` for a single character `c`. */
  function LStripChar(s: string, c: char): (r: string)
    ensures |r| <= |s| && r == s[|s| - |r|..]
    ensures forall i :: 0 <= i < |s| - |r| ==> s[i] == c
    ensures r != [] ==> r[0] != c
    decreases |s|
  {
    if |s| > 0 && s[0] == c then
      var r := LStripChar(s[1..], c);
      assert s[1..][|s| - 1 - |r|..] == s[|s| - |r|..];
      r
    else s
  }

  /** `s.rstrip(c)` for a single character `c`. */
  function RStripChar(s: string, c: char): (r: string)
    ensures |r| <= |s| && r == s[..|r|]
    ensures forall i :: |r| <= i < |s| ==> s[i] == c
    ensures r != [] ==> r[|r| - 1] != c
    decreases |s|
  {
    if |s| > 0 && s[|s| - 1] == c then RStripChar(s[..|s| - 1], c) else s
  }

  /** Position of the first `c` in `s`, if any. */
  function IndexOf(s: string, c: char): (r: Option<nat>)
    ensures r.Some? ==> r.value < |s| && s[r.value] == c && c !in s[..r.value]
    ensures r.None? <==> c !in s
    decreases |s|
  {
    if s == [] then None
    else if s[0] == c then Some(0)
    else match IndexOf(s[1..], c)
      case None => None
      case Some(k) => Some(k + 1)
  }

  /** `s.split(sep)` for a one-character separator: the pieces between
      separators, empty ones included. */
  function SplitOn(s: string, sep: char): (r: seq<string>)
    ensures |r| >= 1
    ensures forall k :: 0 <= k < |r| ==> sep !in r[k]
    decreases |s|
  {
    match IndexOf(s, sep)
    case None => [s]
    case Some(k) => [s[..k]] + SplitOn(s[k + 1..], sep)
  }

  /** `sep.join(ps)` for a one-character separator. */
  function JoinOn(ps: seq<string>, sep: char): string
    decreases |ps|
  {
    if ps == [] then []
    else if |ps| == 1 then ps[0]
    else ps[0] + [sep] + JoinOn(ps[1..], sep)
  }

  /** Splitting on a separator and joining the pieces back with it gives
      the text back. */
  lemma {:induction false} SplitOnJoinOn(s: string, sep: char)
    ensures JoinOn(SplitOn(s, sep), sep) == s
    decreases |s|
  {
    match IndexOf(s, sep)
    case None =>
    case Some(k) =>
      var rest := SplitOn(s[k + 1..], sep);
      SplitOnJoinOn(s[k + 1..], sep);
      assert SplitOn(s, sep) == [s[..k]] + rest;
      assert s == s[..k] + [sep] + s[k + 1..];
  }
}
