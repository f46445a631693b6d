/** `_parse_query(q)` of crm.py: a search query is a comma-separated list
    of OR-groups; inside a group, `"..."` marks a phrase, a word starting
    with `-` or `!` is excluded, and every other word is required. Phrases
    and words are normalised with `keyOf` (`_norm_key` in crm.py); a word
    whose key is empty is dropped. */
module Query {
  import opened Runtime
  import opened Text

  /** One OR-group: `{"req": …, "phrases": …, "exclude": …}`. */
  datatype Group = Group(req: seq<string>, phrases: seq<string>, exclude: seq<string>)

  /** `re.findall(r'"([^"]+)"', s)` and `re.sub(r'"[^"]+"', " ", s)` in one
      left-to-right scan: a quote followed by at least one non-quote and a
      closing quote is a phrase, replaced by one space; any other character,
      an unmatched quote included, is copied. */
  function Scan(s: string): (r: (seq<string>, string))
    ensures forall k :: 0 <= k < |r.0| ==> r.0[k] != [] && '"' !in r.0[k]
    decreases |s|
  {
    if s == [] then ([], [])
    else if s[0] == '"' then
      match IndexOf(s[1..], '"')
      case Some(k) =>
        if k > 0 then
          var rest := Scan(s[k + 2..]);
          ([s[1..k + 1]] + rest.0, " " + rest.1)
        else
          var rest := Scan(s[1..]);
          (rest.0, [s[0]] + rest.1)
      case None =>
        var rest := Scan(s[1..]);
        (rest.0, [s[0]] + rest.1)
    else
      var rest := Scan(s[1..]);
      (rest.0, [s[0]] + rest.1)
  }

  /** Text without quotes has no phrases and is its own base. */
  lemma {:induction false} ScanPlain(p: string, rest: string)
    requires '"' !in p
    ensures Scan(p + rest) == (Scan(rest).0, p + Scan(rest).1)
    decreases |p|
  {
    if p != [] {
      ScanPlain(p[1..], rest);
      var x := p + rest;
      assert x[0] == p[0] && p[0] != '"';
      assert x[1..] == p[1..] + rest;
      assert Scan(x) == (Scan(x[1..]).0, [x[0]] + Scan(x[1..]).1);
      assert p + Scan(rest).1 == [p[0]] + (p[1..] + Scan(rest).1);
    } else {
      assert p + rest == rest && p + Scan(rest).1 == Scan(rest).1;
    }
  }

  /** A quoted phrase is extracted and replaced by a single space. */
  lemma ScanQuoted(w: string, rest: string)
    requires w != [] && '"' !in w
    ensures Scan("\"" + w + "\"" + rest) == ([w] + Scan(rest).0, " " + Scan(rest).1)
  {
    var s := "\"" + w + "\"" + rest;
    assert s[1..] == w + "\"" + rest;
    IndexOfAfter(w, rest);
    assert s[1..|w| + 1] == w;
    assert s[|w| + 2..] == rest;
  }

  /** The first quote after a quote-free prefix. */
  lemma IndexOfAfter(w: string, rest: string)
    requires '"' !in w
    ensures IndexOf(w + "\"" + rest, '"') == Some(|w|)
  {
    var s := w + "\"" + rest;
    assert s[|w|] == '"';
    assert s[..|w|] == w;
    if '"' in s[..|w|] {
      assert false;
    }
  }

  /** `t.startswith("-") or t.startswith("!")`. */
  predicate Negated(t: string) {
    t != [] && (t[0] == '-' || t[0] == '!')
  }

  /** `t[1:]` for a negated word, the word itself otherwise. */
  function Unsigned(t: string): string {
    if Negated(t) then t[1..] else t
  }

  /** The loop over the words of a group: each word's key goes to the
      excluded terms when the word is negated (with its sign removed) and to
      the required terms otherwise, and is dropped when it is empty. */
  function Collect(keyOf: string -> string, words: seq<string>): (seq<string>, seq<string>)
    decreases |words|
  {
    if words == [] then ([], [])
    else
      var t := words[0];
      var neg := Negated(t);
      var tt := keyOf(Unsigned(t));
      var rest := Collect(keyOf, words[1..]);
      if tt == [] then rest
      else if neg then (rest.0, [tt] + rest.1)
      else ([tt] + rest.0, rest.1)
  }

  /** The terms of two runs of words are those of the first run followed by
      those of the second. */
  lemma {:induction false} CollectAppend(keyOf: string -> string, a: seq<string>, b: seq<string>)
    ensures Collect(keyOf, a + b) == (Collect(keyOf, a).0 + Collect(keyOf, b).0, Collect(keyOf, a).1 + Collect(keyOf, b).1)
    decreases |a|
  {
    if a == [] {
      assert a + b == b;
      assert Collect(keyOf, a) == ([], []);
      assert [] + Collect(keyOf, b).0 == Collect(keyOf, b).0;
      assert [] + Collect(keyOf, b).1 == Collect(keyOf, b).1;
    } else {
      CollectAppend(keyOf, a[1..], b);
      assert (a + b)[0] == a[0];
      assert (a + b)[1..] == a[1..] + b;
      var x := Collect(keyOf, a[1..]);
      var y := Collect(keyOf, b);
      var t := a[0];
      var tt := keyOf(Unsigned(t));
      assert [tt] + (x.0 + y.0) == ([tt] + x.0) + y.0;
      assert [tt] + (x.1 + y.1) == ([tt] + x.1) + y.1;
      if tt == [] {
        assert Collect(keyOf, a) == x;
      } else if Negated(t) {
        assert Collect(keyOf, a) == (x.0, [tt] + x.1);
      } else {
        assert Collect(keyOf, a) == ([tt] + x.0, x.1);
      }
    }
  }

  /** The terms of one word. */
  function TermsOfWord(keyOf: string -> string, t: string): (seq<string>, seq<string>) {
    var k := keyOf(Unsigned(t));
    if k == [] then ([], []) else if Negated(t) then ([], [k]) else ([k], [])
  }

  lemma CollectOne(keyOf: string -> string, t: string)
    ensures Collect(keyOf, [t]) == TermsOfWord(keyOf, t)
  {
    assert [t][1..] == [];
    assert Collect(keyOf, []) == ([], []);
    var tt := keyOf(Unsigned(t));
    assert [tt] + [] == [tt];
    if Negated(t) {
      assert Collect(keyOf, [t]) == ([], if tt == [] then [] else [tt]);
    } else {
      assert Collect(keyOf, [t]) == (if tt == [] then [] else [tt], []);
    }
  }

  /** Every term comes from a word, and every word with a non-empty key
      gives a term. */
  lemma {:induction false} CollectMembers(keyOf: string -> string, words: seq<string>, x: string)
    ensures |Collect(keyOf, words).0| + |Collect(keyOf, words).1| <= |words|
    ensures x in Collect(keyOf, words).0 <==>
      x != [] && exists m :: 0 <= m < |words| && !Negated(words[m]) && x == keyOf(words[m])
    ensures x in Collect(keyOf, words).1 <==>
      x != [] && exists m :: 0 <= m < |words| && Negated(words[m]) && x == keyOf(Unsigned(words[m]))
    decreases |words|
  {
    if words != [] {
      CollectMembers(keyOf, words[1..], x);
      assert forall m :: 0 <= m < |words| - 1 ==> words[1..][m] == words[m + 1];
      assert words == [words[0]] + words[1..];
      CollectAppend(keyOf, [words[0]], words[1..]);
      CollectOne(keyOf, words[0]);
      if x in Collect(keyOf, words).0 && x !in Collect(keyOf, words[1..]).0 {
        assert x == keyOf(words[0]) && !Negated(words[0]);
      }
      if x in Collect(keyOf, words).1 && x !in Collect(keyOf, words[1..]).1 {
        assert x == keyOf(Unsigned(words[0])) && Negated(words[0]);
      }
    }
  }

  /** The contract of `Terms`, proved of `Collect` element by element. */
  lemma CollectFacts(keyOf: string -> string, words: seq<string>)
    ensures |Collect(keyOf, words).0| + |Collect(keyOf, words).1| <= |words|
    ensures forall k :: 0 <= k < |Collect(keyOf, words).0| ==> Collect(keyOf, words).0[k] != []
    ensures forall k :: 0 <= k < |Collect(keyOf, words).1| ==> Collect(keyOf, words).1[k] != []
    ensures forall x :: x in Collect(keyOf, words).0 ==>
      exists m :: 0 <= m < |words| && !Negated(words[m]) && x == keyOf(words[m])
    ensures forall x :: x in Collect(keyOf, words).1 ==>
      exists m :: 0 <= m < |words| && Negated(words[m]) && x == keyOf(Unsigned(words[m]))
    ensures forall m :: 0 <= m < |words| && !Negated(words[m]) && keyOf(words[m]) != [] ==>
      keyOf(words[m]) in Collect(keyOf, words).0
    ensures forall m :: 0 <= m < |words| && Negated(words[m]) && keyOf(Unsigned(words[m])) != [] ==>
      keyOf(Unsigned(words[m])) in Collect(keyOf, words).1
  {
    var r := Collect(keyOf, words);
    CollectMembers(keyOf, words, []);
    forall x | x in r.0
      ensures exists m :: 0 <= m < |words| && !Negated(words[m]) && x == keyOf(words[m])
    {
      CollectMembers(keyOf, words, x);
    }
    forall x | x in r.1
      ensures exists m :: 0 <= m < |words| && Negated(words[m]) && x == keyOf(Unsigned(words[m]))
    {
      CollectMembers(keyOf, words, x);
    }
    forall m | 0 <= m < |words| && !Negated(words[m]) && keyOf(words[m]) != []
      ensures keyOf(words[m]) in r.0
    {
      CollectMembers(keyOf, words, keyOf(words[m]));
    }
    forall m | 0 <= m < |words| && Negated(words[m]) && keyOf(Unsigned(words[m])) != []
      ensures keyOf(Unsigned(words[m])) in r.1
    {
      CollectMembers(keyOf, words, keyOf(Unsigned(words[m])));
    }
  }

  /** `Collect` with its meaning: the required and the excluded terms of a
      group's words. */
  function Terms(keyOf: string -> string, words: seq<string>): (r: (seq<string>, seq<string>))
    ensures |r.0| + |r.1| <= |words|
    ensures forall k :: 0 <= k < |r.0| ==> r.0[k] != []
    ensures forall k :: 0 <= k < |r.1| ==> r.1[k] != []
    // every required term is the key of a word that is not negated, and
    // every excluded term the key of a negated word without its sign
    ensures forall x :: x in r.0 ==>
      exists m :: 0 <= m < |words| && !Negated(words[m]) && x == keyOf(words[m])
    ensures forall x :: x in r.1 ==>
      exists m :: 0 <= m < |words| && Negated(words[m]) && x == keyOf(Unsigned(words[m]))
    // and, conversely, no word with a non-empty key is lost
    ensures forall m :: 0 <= m < |words| && !Negated(words[m]) && keyOf(words[m]) != [] ==>
      keyOf(words[m]) in r.0
    ensures forall m :: 0 <= m < |words| && Negated(words[m]) && keyOf(Unsigned(words[m])) != [] ==>
      keyOf(Unsigned(words[m])) in r.1
  {
    CollectFacts(keyOf, words);
    Collect(keyOf, words)
  }

  /** The terms keep the order of their words: those of two runs of words
      are the first run's followed by the second's, and a single word gives
      its own key, if non-empty, as a required or (sign removed) excluded
      term. */
  lemma TermsAppend(keyOf: string -> string, a: seq<string>, b: seq<string>)
    ensures Terms(keyOf, a + b) == (Terms(keyOf, a).0 + Terms(keyOf, b).0, Terms(keyOf, a).1 + Terms(keyOf, b).1)
    ensures |a| == 1 ==> Terms(keyOf, a) == TermsOfWord(keyOf, a[0])
  {
    CollectAppend(keyOf, a, b);
    if |a| == 1 {
      assert a == [a[0]];
      CollectOne(keyOf, a[0]);
    }
  }

  /** The keys of a list of texts, in order. */
  function KeysOf(keyOf: string -> string, ws: seq<string>): (r: seq<string>)
    ensures |r| == |ws|
    ensures forall k :: 0 <= k < |ws| ==> r[k] == keyOf(ws[k])
  {
    if ws == [] then [] else [keyOf(ws[0])] + KeysOf(keyOf, ws[1..])
  }

  /** Words that are all required terms: none negated, none with an empty
      key. */
  predicate PlainWords(keyOf: string -> string, ws: seq<string>) {
    forall m :: 0 <= m < |ws| ==> !Negated(ws[m]) && keyOf(ws[m]) != []
  }

  /** One comma-separated part of the query, already stripped. */
  function ParseGroup(keyOf: string -> string, part: string): (g: Group)
    // a part without quotes has no phrases, and its words are read as is
    ensures '"' !in part ==> g.phrases == [] && (g.req, g.exclude) == Terms(keyOf, Split(part))
  {
    var sc := Scan(part);
    var terms := Terms(keyOf, Split(sc.1));
    assert '"' !in part ==> sc == ([], part) by {
      if '"' !in part {
        ScanPlain(part, []);
        assert part + [] == part;
      }
    }
    Group(terms.0, KeysOf(keyOf, sc.0), terms.1)
  }

  /** A part that starts with a quoted phrase: the phrase's key comes first
      among the phrases, and the terms are those of the rest of the part. */
  lemma ParseGroupQuoted(keyOf: string -> string, w: string, rest: string)
    requires w != [] && '"' !in w
    ensures var g := ParseGroup(keyOf, rest);
      ParseGroup(keyOf, "\"" + w + "\"" + rest) == Group(g.req, [keyOf(w)] + g.phrases, g.exclude)
  {
    var sc := Scan(rest);
    ScanQuoted(w, rest);
    SplitSpaceCons(sc.1);
    assert KeysOf(keyOf, [w] + sc.0) == [keyOf(w)] + KeysOf(keyOf, sc.0);
  }

  /** `[f(p) for p in parts if f(p)]`. */
  function KeptBy(f: string -> string, parts: seq<string>): seq<string>
    decreases |parts|
  {
    if parts == [] then []
    else if f(parts[0]) != [] then [f(parts[0])] + KeptBy(f, parts[1..])
    else KeptBy(f, parts[1..])
  }

  lemma {:induction false} KeptByAppend(f: string -> string, a: seq<string>, b: seq<string>)
    ensures KeptBy(f, a + b) == KeptBy(f, a) + KeptBy(f, b)
    decreases |a|
  {
    if a == [] {
      assert a + b == b;
    } else {
      KeptByAppend(f, a[1..], b);
      assert (a + b)[0] == a[0];
      assert (a + b)[1..] == a[1..] + b;
      if f(a[0]) != [] {
        assert [f(a[0])] + (KeptBy(f, a[1..]) + KeptBy(f, b)) == ([f(a[0])] + KeptBy(f, a[1..])) + KeptBy(f, b);
      }
    }
  }

  /** `[p.strip() for p in parts if p.strip()]`. */
  function Stripped(parts: seq<string>): seq<string>
    decreases |parts|
  {
    if parts == [] then []
    else if Trim(parts[0]) != [] then [Trim(parts[0])] + Stripped(parts[1..])
    else Stripped(parts[1..])
  }

  /** `Stripped` is `KeptBy` for `strip()`. */
  lemma {:induction false} StrippedIsKept(parts: seq<string>)
    ensures Stripped(parts) == KeptBy(Trim, parts)
    decreases |parts|
  {
    if parts != [] {
      StrippedIsKept(parts[1..]);
    }
  }

  /** The stripped parts of two runs of parts are those of the first run
      followed by those of the second. */
  lemma StrippedAppend(a: seq<string>, b: seq<string>)
    ensures Stripped(a + b) == Stripped(a) + Stripped(b)
  {
    StrippedIsKept(a + b);
    StrippedIsKept(a);
    StrippedIsKept(b);
    KeptByAppend(Trim, a, b);
  }

  /** A text is kept exactly when it is the stripped form of a non-blank
      part. */
  lemma {:induction false} StrippedMembers(parts: seq<string>, x: string)
    ensures |Stripped(parts)| <= |parts|
    ensures x in Stripped(parts) <==> exists j :: 0 <= j < |parts| && !AllSpace(parts[j]) && x == Trim(parts[j])
    decreases |parts|
  {
    if parts != [] {
      StrippedMembers(parts[1..], x);
      TrimBlank(parts[0]);
      assert forall j :: 1 <= j < |parts| ==> parts[j] == parts[1..][j - 1];
      if x == Trim(parts[0]) && !AllSpace(parts[0]) {
        assert x in Stripped(parts);
      }
    }
  }

  /** The contract of `NonBlank`, proved of `Stripped`. */
  lemma StrippedFacts(parts: seq<string>)
    ensures |Stripped(parts)| <= |parts|
    ensures Stripped(parts) == [] <==> forall k :: 0 <= k < |parts| ==> AllSpace(parts[k])
    ensures forall k :: 0 <= k < |Stripped(parts)| ==> !AllSpace(Stripped(parts)[k])
    ensures forall x :: x in Stripped(parts) <==>
      exists j :: 0 <= j < |parts| && !AllSpace(parts[j]) && x == Trim(parts[j])
  {
    var r := Stripped(parts);
    StrippedMembers(parts, []);
    forall x
      ensures x in r <==> exists j :: 0 <= j < |parts| && !AllSpace(parts[j]) && x == Trim(parts[j])
    {
      StrippedMembers(parts, x);
    }
    forall k | 0 <= k < |r|
      ensures !AllSpace(r[k])
    {
      StrippedMembers(parts, r[k]);
      var j :| 0 <= j < |parts| && !AllSpace(parts[j]) && r[k] == Trim(parts[j]);
      TrimBlank(parts[j]);
      TrimBlank(r[k]);
    }
    if r == [] {
      forall k | 0 <= k < |parts|
        ensures AllSpace(parts[k])
      {
        if !AllSpace(parts[k]) {
          StrippedMembers(parts, Trim(parts[k]));
        }
      }
    }
  }

  /** `Stripped` with its meaning. */
  function NonBlank(parts: seq<string>): (r: seq<string>)
    ensures |r| <= |parts|
    ensures r == [] <==> forall k :: 0 <= k < |parts| ==> AllSpace(parts[k])
    ensures forall k :: 0 <= k < |r| ==> !AllSpace(r[k])
    // the result is made of stripped non-blank parts, and every non-blank
    // part is in it
    ensures forall x :: x in r <==> exists j :: 0 <= j < |parts| && !AllSpace(parts[j]) && x == Trim(parts[j])
  {
    StrippedFacts(parts);
    Stripped(parts)
  }

  /** The parts keep their order: the non-blank parts of two runs of parts
      are those of the first run followed by those of the second. */
  lemma NonBlankAppend(a: seq<string>, b: seq<string>)
    ensures NonBlank(a + b) == NonBlank(a) + NonBlank(b)
  {
    StrippedAppend(a, b);
  }

  /** `_parse_query(q)`. */
  function ParseQuery(keyOf: string -> string, q: Option<string>): (r: seq<Group>)
    // one group per non-blank comma-separated part of the stripped query,
    // so there are none exactly when every part is blank
    ensures var s := Trim(q.GetOr([]));
      |r| == |NonBlank(SplitOn(s, ','))|
    ensures r == [] <==> forall p :: p in SplitOn(Trim(q.GetOr([])), ',') ==> AllSpace(p)
    // group k is parsed from the k-th non-blank part, stripped
    ensures var parts := NonBlank(SplitOn(Trim(q.GetOr([])), ','));
      forall k :: 0 <= k < |r| ==> r[k] == ParseGroup(keyOf, parts[k])
  {
    var s := Trim(q.GetOr([]));
    TrimBlank(q.GetOr([]));
    if s == [] then
      assert SplitOn(s, ',') == [s];
      []
    else
      var parts := NonBlank(SplitOn(s, ','));
      seq(|parts|, k requires 0 <= k < |parts| => ParseGroup(keyOf, parts[k]))
  }

  /** A query without commas is one group, parsed from the stripped
      query. */
  lemma OnePart(keyOf: string -> string, q: string)
    requires !AllSpace(q) && ',' !in q
    ensures ParseQuery(keyOf, Some(q)) == [ParseGroup(keyOf, Trim(q))]
  {
    var s := Trim(q);
    TrimBlank(q);
    TrimKeepsOut(q, ',');
    assert SplitOn(s, ',') == [s];
    TrimFixpoint(s);
    assert NonBlank([s]) == [s];
  }

  /** A query of one part with no quotes, commas or signs is one group that
      requires the keys of its words. */
  lemma PlainQuery(keyOf: string -> string, q: string)
    requires !AllSpace(q) && '"' !in q && ',' !in q
    requires PlainWords(keyOf, Split(q))
    ensures ParseQuery(keyOf, Some(q)) == [Group(KeysOf(keyOf, Split(q)), [], [])]
  {
    OnePart(keyOf, q);
    TrimKeepsOut(q, '"');
    var g := ParseGroup(keyOf, Trim(q));
    SplitOfTrim(q);
    PlainTerms(keyOf, Split(q));
  }

  /** Stripping never introduces a character. */
  lemma TrimKeepsOut(q: string, c: char)
    requires c !in q
    ensures c !in Trim(q)
  {
  }

  /** Plain words all go to the required terms, in order. */
  lemma {:induction false} PlainTerms(keyOf: string -> string, words: seq<string>)
    requires PlainWords(keyOf, words)
    ensures Terms(keyOf, words) == (KeysOf(keyOf, words), [])
    decreases |words|
  {
    if words != [] {
      PlainTerms(keyOf, words[1..]);
    }
  }
}
