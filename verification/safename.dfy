/** `safe_name`: turn arbitrary text into a file or folder name. Strip the
    text, replace every maximal run of characters outside an allowed set by
    one "_", turn every whitespace run into one space, and keep the first
    150 characters.

    The three copies differ only in the allowed set. crm_lib/utils.py allows
    ASCII letters and digits, `.`, `_`, a backslash, `-`, the Spanish
    accented vowels and eñes, and the space; crm_project/utils/helpers.py
    the same without the backslash. In crm.py the class text `\\-á` is a
    range, so it allows every character from the backslash (U+005C) to `á`
    (U+00E1), and does not allow `-`. */
module SafeNames {
  import opened Runtime
  import opened Text

  /** Which copy's character class. */
  datatype CharSet = CrmRange | LibLiteral | ProjectLiteral

  /** The maximal output length, `s[:150]`. */
  const MaxLen := 150

  /** The characters every copy allows. */
  predicate Common(c: char) {
    || ('A' <= c <= 'Z') || ('a' <= c <= 'z') || ('0' <= c <= '9')
    || c == '.' || c == '_' || c == ' '
    || c == 'á' || c == 'é' || c == 'í' || c == 'ó' || c == 'ú'
    || c == 'Á' || c == 'É' || c == 'Í' || c == 'Ó' || c == 'Ú'
    || c == 'ñ' || c == 'Ñ'
  }

  /** Membership in a copy's character class. */
  predicate Allowed(v: CharSet, c: char) {
    match v
    case CrmRange => Common(c) || ('\\' <= c <= 'á')
    case LibLiteral => Common(c) || c == '\\' || c == '-'
    case ProjectLiteral => Common(c) || c == '-'
  }

  /** A copy's class as a character test. */
  function Keep(v: CharSet): char -> bool {
    c => Allowed(v, c)
  }

  /** The first position at or after `i` holding a character that passes
      `ok`, or the end: the run the class's `+` consumes. Stated for any test
      `ok` so that the proofs about runs need not look inside the class. */
  function SkipBad(ok: char -> bool, s: string, i: nat): (j: nat)
    requires i <= |s|
    ensures i <= j <= |s|
    ensures forall k :: i <= k < j ==> !ok(s[k])
    ensures j < |s| ==> ok(s[j])
    decreases |s| - i
  {
    if i < |s| && !ok(s[i]) then SkipBad(ok, s, i + 1) else i
  }

  /** The substitution for the test `ok`, without a contract, so that the
      lemmas about runs below unfold it cheaply. */
  function Sub(ok: char -> bool, s: string, i: nat): string
    requires i <= |s|
    decreases |s| - i
  {
    if i == |s| then []
    else if ok(s[i]) then [s[i]] + Sub(ok, s, i + 1)
    else ['_'] + Sub(ok, s, SkipBad(ok, s, i))
  }

  lemma {:induction false} SubFacts(ok: char -> bool, s: string, i: nat)
    requires i <= |s| && ok('_')
    ensures |Sub(ok, s, i)| <= |s| - i
    ensures Sub(ok, s, i) == [] <==> i == |s|
    ensures forall k :: 0 <= k < |Sub(ok, s, i)| ==> ok(Sub(ok, s, i)[k])
    ensures Sub(ok, s, i) != [] ==> Sub(ok, s, i)[|Sub(ok, s, i)| - 1] == (if ok(s[|s| - 1]) then s[|s| - 1] else '_')
    decreases |s| - i
  {
    if i < |s| {
      var j := if ok(s[i]) then i + 1 else SkipBad(ok, s, i);
      SubFacts(ok, s, j);
      var c := if ok(s[i]) then s[i] else '_';
      assert Sub(ok, s, i) == [c] + Sub(ok, s, j);
      if j == |s| {
        assert Sub(ok, s, i) == [c];
        assert ok(s[i]) ==> i == |s| - 1;
        assert !ok(s[i]) ==> !ok(s[|s| - 1]);
      }
    }
  }

  /** `SAFE_NAME_RE.sub("_", s[i..])`. */
  function SubFrom(v: CharSet, s: string, i: nat): (r: string)
    requires i <= |s|
    ensures |r| <= |s| - i
    ensures r == [] <==> i == |s|
    ensures forall k :: 0 <= k < |r| ==> Allowed(v, r[k])
    ensures r != [] ==> r[0] == (if Allowed(v, s[i]) then s[i] else '_')
    ensures r != [] ==> r[|r| - 1] == (if Allowed(v, s[|s| - 1]) then s[|s| - 1] else '_')
  {
    SubFacts(Keep(v), s, i);
    Sub(Keep(v), s, i)
  }

  /** Skipping a disallowed run does not depend on what comes before. */
  lemma {:induction false} SkipBadShift(ok: char -> bool, p: string, t: string, i: nat)
    requires i <= |t|
    ensures SkipBad(ok, p + t, |p| + i) == |p| + SkipBad(ok, t, i)
    decreases |t| - i
  {
    if i < |t| {
      assert (p + t)[|p| + i] == t[i];
      if !ok(t[i]) {
        SkipBadShift(ok, p, t, i + 1);
      }
    }
  }

  /** Nor does the substitution of a suffix. */
  lemma {:induction false} SubShift(ok: char -> bool, p: string, t: string, i: nat)
    requires i <= |t|
    ensures Sub(ok, p + t, |p| + i) == Sub(ok, t, i)
    decreases |t| - i
  {
    if i < |t| {
      var s := p + t;
      assert s[|p| + i] == t[i];
      if ok(t[i]) {
        SubShift(ok, p, t, i + 1);
        assert Sub(ok, s, |p| + i) == [t[i]] + Sub(ok, s, |p| + i + 1);
      } else {
        var j := SkipBad(ok, t, i);
        SkipBadShift(ok, p, t, i);
        SubShift(ok, p, t, j);
        assert Sub(ok, s, |p| + i) == ['_'] + Sub(ok, s, |p| + j);
      }
    } else {
      assert |p + t| == |p| + i;
    }
  }

  /** A prefix of allowed characters is copied as it is. */
  lemma {:induction false} SubAllowed(ok: char -> bool, x: string, t: string)
    requires forall k :: 0 <= k < |x| ==> ok(x[k])
    ensures Sub(ok, x + t, 0) == x + Sub(ok, t, 0)
  {
    if x != [] {
      var u := x[1..] + t;
      var w := Sub(ok, t, 0);
      SubAllowed(ok, x[1..], t);
      assert Sub(ok, u, 0) == x[1..] + w;
      assert x + t == [x[0]] + u;
      assert (x + t)[0] == x[0] && ok(x[0]);
      assert Sub(ok, x + t, 0) == [x[0]] + Sub(ok, x + t, 1);
      SubShift(ok, [x[0]], u, 0);
      assert Sub(ok, x + t, 1) == Sub(ok, u, 0);
      assert x + w == [x[0]] + (x[1..] + w);
    } else {
      assert x + t == t;
    }
  }

  /** A disallowed run followed by an allowed character or by the end
      becomes one "_". */
  lemma SubRun(ok: char -> bool, b: string, y: string)
    requires b != [] && forall k :: 0 <= k < |b| ==> !ok(b[k])
    requires y != [] ==> ok(y[0])
    ensures Sub(ok, b + y, 0) == "_" + Sub(ok, y, 0)
  {
    var t := b + y;
    var j := SkipBad(ok, t, 0);
    assert forall k :: 0 <= k < |b| ==> !ok(t[k]);
    assert j == |b| by {
      if y == [] {
        assert |t| == |b|;
      } else {
        assert t[|b|] == y[0];
      }
    }
    assert t[0] == b[0];
    SubShift(ok, b, y, 0);
  }

  /** The substitution replaces a whole run of disallowed characters by one
      "_" and copies allowed ones: after an allowed prefix `x`, a non-empty
      disallowed run `b` that is followed by an allowed character or by the
      end becomes a single "_". */
  lemma SubFromRun(v: CharSet, x: string, b: string, y: string)
    requires forall k :: 0 <= k < |x| ==> Allowed(v, x[k])
    requires b != [] && forall k :: 0 <= k < |b| ==> !Allowed(v, b[k])
    requires y != [] ==> Allowed(v, y[0])
    ensures SubFrom(v, x + b + y, 0) == x + "_" + SubFrom(v, y, 0)
  {
    var ok := Keep(v);
    assert x + b + y == x + (b + y);
    SubAllowed(ok, x, b + y);
    SubRun(ok, b, y);
  }

  /** `s[:150]`. */
  function Truncate(s: string): (r: string)
    ensures |r| <= MaxLen
    ensures |s| <= MaxLen ==> r == s
    ensures r == s[..|r|]
  {
    if |s| <= MaxLen then s else s[..MaxLen]
  }

  /** What the routine promises of a name: at most 150 characters, all
      allowed, whitespace only as single plain spaces, and none in front. */
  ghost predicate SafeText(v: CharSet, r: string) {
    && |r| <= MaxLen
    && (forall k :: 0 <= k < |r| ==> Allowed(v, r[k]))
    && SingleSpaced(r)
    && (r != [] ==> !IsSpace(r[0]))
  }

  /** Collapsing whitespace only introduces spaces, so it keeps any
      character property that the space has. */
  lemma {:induction false} CollapseFromKeeps(v: CharSet, s: string, i: nat)
    requires i <= |s|
    requires forall k :: i <= k < |s| ==> Allowed(v, s[k])
    ensures forall k :: 0 <= k < |CollapseFrom(s, i)| ==> Allowed(v, CollapseFrom(s, i)[k])
    ensures |CollapseFrom(s, i)| <= |s| - i
    decreases |s| - i
  {
    if i < |s| {
      if IsSpace(s[i]) {
        CollapseFromKeeps(v, s, SkipSpaces(s, i));
      } else {
        CollapseFromKeeps(v, s, i + 1);
      }
    }
  }

  /** The text before truncation. */
  function Cleaned(v: CharSet, s: string): string {
    Collapse(SubFrom(v, Trim(s), 0))
  }

  /** The cleaned text is canonical and made of allowed characters. */
  lemma CleanedShape(v: CharSet, s: string)
    ensures Canonical(Cleaned(v, s))
    ensures forall k :: 0 <= k < |Cleaned(v, s)| ==> Allowed(v, Cleaned(v, s)[k])
    ensures |Cleaned(v, s)| <= |Trim(s)|
  {
    var t := Trim(s);
    var u := SubFrom(v, t, 0);
    CollapseFromKeeps(v, u, 0);
  }

  /** `safe_name(s)` of the copy whose class is `v`. */
  function SafeName(v: CharSet, s: Option<string>): (r: string)
    ensures s.None? ==> r == []
    ensures |r| <= MaxLen
  {
    match s
    case None => []
    case Some(x) => Truncate(Cleaned(v, x))
  }

  /** Every name the routine returns has the promised shape, so in
      particular never contains "/". */
  lemma SafeNameSafe(v: CharSet, s: Option<string>)
    ensures SafeText(v, SafeName(v, s))
    ensures '/' !in SafeName(v, s)
  {
    if s.Some? {
      var c := Cleaned(v, s.value);
      CleanedShape(v, s.value);
      TruncateKeepsShape(v, c);
    }
    NoSlash(v, SafeName(v, s));
  }

  /** Cutting a canonical text of allowed characters keeps the shape. */
  lemma TruncateKeepsShape(v: CharSet, c: string)
    requires Canonical(c) && forall k :: 0 <= k < |c| ==> Allowed(v, c[k])
    ensures SafeText(v, Truncate(c))
  {
    var r := Truncate(c);
    assert forall k :: 0 <= k < |r| ==> r[k] == c[k];
  }

  /** No class allows "/". */
  lemma NoSlash(v: CharSet, r: string)
    requires forall k :: 0 <= k < |r| ==> Allowed(v, r[k])
    ensures '/' !in r
  {
    assert !Allowed(v, '/');
  }

  /** The result for a stripped text whose substitution `t` needs no
      whitespace collapsing or truncation. */
  lemma SafeNameOf(v: CharSet, s: string, t: string)
    requires Trim(s) == s && SubFrom(v, s, 0) == t
    requires SingleSpaced(t) && |t| <= MaxLen
    ensures SafeName(v, Some(s)) == t
  {
    CollapseFromFixpoint(t, 0);
    assert t[0..] == t;
  }

  /** A name of allowed characters is its own substitution. */
  lemma {:induction false} SubFromFixpoint(v: CharSet, s: string, i: nat)
    requires i <= |s|
    requires forall k :: 0 <= k < |s| ==> Allowed(v, s[k])
    ensures SubFrom(v, s, i) == s[i..]
    decreases |s| - i
  {
    if i < |s| {
      SubFromFixpoint(v, s, i + 1);
      assert s[i..] == [s[i]] + s[i + 1..];
    }
  }

  /** A name that already has the promised shape and does not end in a
      space comes back unchanged. */
  lemma SafeNameFixpoint(v: CharSet, s: string)
    requires SafeText(v, s)
    requires s != [] ==> s[|s| - 1] != ' '
    ensures SafeName(v, Some(s)) == s
  {
    TrimFixpoint(s);
    SubFromFixpoint(v, s, 0);
    assert s[0..] == s;
    CollapseFromFixpoint(s, 0);
  }

  /** So sanitising twice is sanitising once, unless the cut at 150
      characters left a trailing space, which the second pass strips. */
  lemma SafeNameIdempotent(v: CharSet, s: Option<string>)
    ensures var r := SafeName(v, s);
      r != [] && r[|r| - 1] == ' ' <==> SafeName(v, Some(r)) != r
  {
    var r := SafeName(v, s);
    if r != [] && r[|r| - 1] == ' ' {
      TrimShorter(r);
      CleanedShape(v, r);
    } else {
      SafeNameSafe(v, s);
      SafeNameFixpoint(v, r);
    }
  }

  /** Stripping a text that ends in whitespace shortens it. */
  lemma TrimShorter(s: string)
    requires s != [] && IsSpace(s[|s| - 1])
    ensures |Trim(s)| < |s|
  {
  }

  /** The discrepancy in crm.py: its range excludes `-`, so a hyphenated
      name loses its hyphen, which the other copies keep. */
  lemma CrmRangeDropsHyphen()
    ensures !Allowed(CrmRange, '-') && SafeName(CrmRange, Some("a-b")) == "a_b"
  {
    TrimFixpoint("a-b");
    assert SubFrom(CrmRange, "a-b", 0) == "a_b";
    SafeNameOf(CrmRange, "a-b", "a_b");
  }

  /** The range also lets characters through that no copy lists, such as a
      brace. */
  lemma CrmRangeKeepsBrace()
    ensures Allowed(CrmRange, '{') && SafeName(CrmRange, Some("a{b")) == "a{b"
  {
    TrimFixpoint("a{b");
    assert SubFrom(CrmRange, "a{b", 0) == "a{b";
    SafeNameOf(CrmRange, "a{b", "a{b");
  }

  /** With a literal class a hyphenated name keeps its hyphen. */
  lemma LiteralClassKeepsHyphen(v: CharSet)
    requires v != CrmRange
    ensures SafeName(v, Some("a-b")) == "a-b"
  {
    var t := "a-b";
    TrimFixpoint(t);
    assert forall k :: 0 <= k < |t| ==> Allowed(v, t[k]);
    SubFromFixpoint(v, t, 0);
    assert t[0..] == t;
    SafeNameOf(v, t, t);
  }

  /** With a literal class a brace is replaced. */
  lemma LiteralClassReplacesBrace(v: CharSet)
    requires v != CrmRange
    ensures SafeName(v, Some("a{b")) == "a_b"
  {
    var t := "a{b";
    TrimFixpoint(t);
    assert SubFrom(v, t, 2) == "b";
    assert SkipBad(Keep(v), t, 1) == 2;
    assert SubFrom(v, t, 1) == "_b";
    assert SubFrom(v, t, 0) == "a_b";
    SafeNameOf(v, t, "a_b");
  }
}
