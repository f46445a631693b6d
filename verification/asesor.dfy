/** `find_matching_asesor`: reuse the spelling of an adviser name already
    stored in the clients table when the typed name has the same key, and
    otherwise title-case the typed name.

    crm.py and crm_lib/core.py index `df["asesor"]` directly, so a table
    without that column raises KeyError; crm_project/core/__init__.py reads
    it with `df.get` inside a `try` and falls back to title case.

    As in `Catalog`, the search is stated for any key function `keyOf` and
    title-casing `title`, and instantiated with `_norm_key` and
    `TitleCase`. */
module Asesor {
  import opened Runtime
  import opened Text
  import opened Normalize
  import opened Frames
  import opened Catalog

  /** `" ".join(w.capitalize() for w in name.split())`. */
  function TitleCase(lib: Lib, name: string): string {
    var ws := Split(name);
    JoinSpace(seq(|ws|, i requires 0 <= i < |ws| => lib.capitalize(ws[i])))
  }

  /** `TitleCase` as a function value. */
  function Title(lib: Lib): string -> string {
    s => TitleCase(lib, s)
  }

  /** When capitalising keeps a word a word, the title-cased name consists
      of the capitalised words of the name, in order. */
  lemma TitleCaseWords(lib: Lib, name: string)
    requires forall w :: Word(w) ==> Word(lib.capitalize(w))
    ensures var ws := Split(name);
      Split(TitleCase(lib, name)) == seq(|ws|, i requires 0 <= i < |ws| => lib.capitalize(ws[i]))
  {
    var ws := Split(name);
    var cs := seq(|ws|, i requires 0 <= i < |ws| => lib.capitalize(ws[i]));
    WordsAreWords(name);
    assert forall k :: 0 <= k < |cs| ==> Word(cs[k]) by {
      forall k | 0 <= k < |cs| ensures Word(cs[k]) {
        assert Word(ws[k]);
      }
    }
    SplitJoinSpace(cs);
  }

  /** A blank name has no words, so it title-cases to "". */
  lemma TitleCaseBlank(lib: Lib, name: string)
    requires AllSpace(name)
    ensures TitleCase(lib, name) == []
  {
  }

  /** Title-casing only looks at the words, so stripping first changes
      nothing. */
  lemma TitleCaseOfTrim(lib: Lib, s: string)
    ensures TitleCase(lib, Trim(s)) == TitleCase(lib, s)
  {
    SplitOfTrim(s);
  }

  /** Position of the first stored value at or after `i` that is not blank
      and has key `key` (the loop over `fillna("").unique()`, which visits
      values in order of first appearance, so the first hit is the same). */
  function FirstStored(keyOf: string -> string, stored: seq<string>, key: string, i: nat): (r: Option<nat>)
    requires i <= |stored|
    ensures r.Some? ==> i <= r.value < |stored| && !AllSpace(stored[r.value]) && keyOf(stored[r.value]) == key
    ensures r.Some? ==> forall j :: i <= j < r.value ==> AllSpace(stored[j]) || keyOf(stored[j]) != key
    ensures r.None? ==> forall j :: i <= j < |stored| ==> AllSpace(stored[j]) || keyOf(stored[j]) != key
    decreases |stored| - i
  {
    if i == |stored| then None
    else
      TrimBlank(stored[i]);
      if Trim(stored[i]) != [] && keyOf(stored[i]) == key then Some(i)
      else FirstStored(keyOf, stored, key, i + 1)
  }

  /** The `asesor` column with missing values read as "". */
  function StoredAsesores(column: seq<Cell>): (r: seq<string>)
    ensures |r| == |column|
    ensures forall i :: 0 <= i < |column| ==> r[i] == FillEmpty(column[i])
  {
    seq(|column|, i requires 0 <= i < |column| => FillEmpty(column[i]))
  }

  /** The search over the stored advisers for the stripped name `s`. */
  function MatchAsesor(keyOf: string -> string, title: string -> string, s: string, stored: seq<string>): (r: string)
    // a stored, non-blank adviser with the same key is returned as stored,
    // the first one in table order
    ensures forall j :: 0 <= j < |stored| && !AllSpace(stored[j]) && keyOf(stored[j]) == keyOf(s) ==>
      exists i :: 0 <= i <= j && r == stored[i] && !AllSpace(stored[i]) && keyOf(stored[i]) == keyOf(s)
    // and when there is none the name is title-cased
    ensures (forall j :: 0 <= j < |stored| ==> AllSpace(stored[j]) || keyOf(stored[j]) != keyOf(s)) ==>
      r == title(s)
  {
    match FirstStored(keyOf, stored, keyOf(s), 0)
    case Some(j) => stored[j]
    case None => title(s)
  }

  /** `find_matching_asesor(name, df)` of crm.py and crm_lib/core.py, for a
      given key and title-casing. */
  function FindMatchingAsesorBy(keyOf: string -> string, title: string -> string, name: Option<string>, df: Frame): (r: Result<string>)
    // a blank name gives "" before the table is looked at
    ensures AllSpace(name.GetOr([])) ==> r == Ok([])
    // otherwise a table without the column raises KeyError
    ensures !AllSpace(name.GetOr([])) ==> (r.Raise? <==> !df.Has("asesor")) && (r.Raise? ==> r.error == KeyError)
    // and a table with it gives the search over the stripped name
    ensures !AllSpace(name.GetOr([])) && df.Has("asesor") ==>
      r == Ok(MatchAsesor(keyOf, title, Trim(name.GetOr([])), StoredAsesores(df.columns["asesor"])))
  {
    var n := name.GetOr([]);
    TrimBlank(n);
    var s := Trim(n);
    if s == [] then Ok([])
    else if !df.Has("asesor") then Raise(KeyError)
    else Ok(MatchAsesor(keyOf, title, s, StoredAsesores(df.columns["asesor"])))
  }

  /** `find_matching_asesor(name, df)` of crm_project/core/__init__.py: a
      missing column is read as an empty one. */
  function FindMatchingAsesorTolerantBy(keyOf: string -> string, title: string -> string, name: Option<string>, df: Frame): (r: string)
    ensures AllSpace(name.GetOr([])) ==> r == []
    ensures !AllSpace(name.GetOr([])) && !df.Has("asesor") ==> r == title(Trim(name.GetOr([])))
    ensures !AllSpace(name.GetOr([])) && df.Has("asesor") ==>
      r == MatchAsesor(keyOf, title, Trim(name.GetOr([])), StoredAsesores(df.columns["asesor"]))
  {
    var n := name.GetOr([]);
    TrimBlank(n);
    var s := Trim(n);
    if s == [] then []
    else MatchAsesor(keyOf, title, s, if df.Has("asesor") then StoredAsesores(df.columns["asesor"]) else [])
  }

  /** Where the column exists the two variants agree. */
  lemma FindMatchingAsesorVariantsAgree(keyOf: string -> string, title: string -> string, name: Option<string>, df: Frame)
    requires df.Has("asesor")
    ensures FindMatchingAsesorBy(keyOf, title, name, df) == Ok(FindMatchingAsesorTolerantBy(keyOf, title, name, df))
  {
  }

  /** Feeding a matched result back in returns it unchanged when the key
      ignores surrounding whitespace: the stored spelling is its own first
      match. */
  lemma FindMatchingAsesorStable(keyOf: string -> string, title: string -> string, name: string, df: Frame)
    requires forall x :: keyOf(Trim(x)) == keyOf(x)
    requires df.Has("asesor") && !AllSpace(name)
    requires var stored := StoredAsesores(df.columns["asesor"]);
      exists j :: 0 <= j < |stored| && !AllSpace(stored[j]) && keyOf(stored[j]) == keyOf(name)
    ensures var r := FindMatchingAsesorBy(keyOf, title, Some(name), df);
      r.Ok? && FindMatchingAsesorBy(keyOf, title, Some(r.value), df) == r
  {
    var stored := StoredAsesores(df.columns["asesor"]);
    var s := Trim(name);
    assert keyOf(s) == keyOf(name);
    var f := FirstStored(keyOf, stored, keyOf(s), 0);
    var r := stored[f.value];
    assert FindMatchingAsesorBy(keyOf, title, Some(name), df) == Ok(r);
    assert keyOf(Trim(r)) == keyOf(r);
    assert FirstStored(keyOf, stored, keyOf(Trim(r)), 0) == f;
  }

  /** `find_matching_asesor` of crm.py and crm_lib/core.py. */
  function FindMatchingAsesor(lib: Lib, name: Option<string>, df: Frame): (r: Result<string>)
    // a blank or missing name gives ""
    ensures AllSpace(name.GetOr([])) ==> r == Ok([])
    // only a non-blank name against a table without the column raises,
    // and then KeyError
    ensures r.Raise? <==> !AllSpace(name.GetOr([])) && !df.Has("asesor")
    ensures r.Raise? ==> r.error == KeyError
    // a stored adviser with the name's key makes the result a stored
    // spelling with that key
    ensures !AllSpace(name.GetOr([])) && StoredWithKey(KeyOf(lib), name.GetOr([]), df) ==>
      && r.Ok? && r.value in StoredAsesores(df.columns["asesor"])
      && NormKey(lib, Some(r.value)) == NormKey(lib, name)
    // and without one the name is title-cased
    ensures !AllSpace(name.GetOr([])) && df.Has("asesor") && !StoredWithKey(KeyOf(lib), name.GetOr([]), df) ==>
      r == Ok(TitleCase(lib, name.GetOr([])))
  {
    var n := name.GetOr([]);
    NormKeyOfTrim(lib, n);
    TitleCaseOfTrim(lib, n);
    MatchingFacts(KeyOf(lib), Title(lib), name, df);
    FindMatchingAsesorBy(KeyOf(lib), Title(lib), name, df)
  }

  /** `find_matching_asesor` of crm_project/core/__init__.py. */
  function FindMatchingAsesorTolerant(lib: Lib, name: Option<string>, df: Frame): (r: string)
    // a blank or missing name gives ""
    ensures AllSpace(name.GetOr([])) ==> r == []
    // a stored adviser with the name's key makes the result a stored
    // spelling with that key
    ensures !AllSpace(name.GetOr([])) && StoredWithKey(KeyOf(lib), name.GetOr([]), df) ==>
      && r in StoredAsesores(df.columns["asesor"])
      && NormKey(lib, Some(r)) == NormKey(lib, name)
    // and without one, or without the column, the name is title-cased
    ensures !AllSpace(name.GetOr([])) && !StoredWithKey(KeyOf(lib), name.GetOr([]), df) ==>
      r == TitleCase(lib, name.GetOr([]))
  {
    var n := name.GetOr([]);
    NormKeyOfTrim(lib, n);
    TitleCaseOfTrim(lib, n);
    MatchingFacts(KeyOf(lib), Title(lib), name, df);
    FindMatchingAsesorTolerantBy(KeyOf(lib), Title(lib), name, df)
  }

  /** The table has an `asesor` column holding a non-blank value with the
      key of `name`. */
  predicate StoredWithKey(keyOf: string -> string, name: string, df: Frame) {
    && df.Has("asesor")
    && var stored := StoredAsesores(df.columns["asesor"]);
      exists j :: 0 <= j < |stored| && !AllSpace(stored[j]) && keyOf(stored[j]) == keyOf(name)
  }

  /** The two variants for a key and a title-casing that ignore
      surrounding whitespace: a stored match gives a stored spelling with
      the name's key, and no match gives the title-cased name. */
  lemma MatchingFacts(keyOf: string -> string, title: string -> string, name: Option<string>, df: Frame)
    requires var n := name.GetOr([]); keyOf(Trim(n)) == keyOf(n) && title(Trim(n)) == title(n)
    ensures var n := name.GetOr([]); var r := FindMatchingAsesorBy(keyOf, title, name, df);
      !AllSpace(n) && StoredWithKey(keyOf, n, df) ==>
        r.Ok? && r.value in StoredAsesores(df.columns["asesor"]) && keyOf(r.value) == keyOf(n)
    ensures var n := name.GetOr([]); var r := FindMatchingAsesorBy(keyOf, title, name, df);
      !AllSpace(n) && df.Has("asesor") && !StoredWithKey(keyOf, n, df) ==> r == Ok(title(n))
    ensures var n := name.GetOr([]); var r := FindMatchingAsesorTolerantBy(keyOf, title, name, df);
      !AllSpace(n) && StoredWithKey(keyOf, n, df) ==>
        r in StoredAsesores(df.columns["asesor"]) && keyOf(r) == keyOf(n)
    ensures var n := name.GetOr([]); var r := FindMatchingAsesorTolerantBy(keyOf, title, name, df);
      !AllSpace(n) && !StoredWithKey(keyOf, n, df) ==> r == title(n)
  {
    var n := name.GetOr([]);
    if !AllSpace(n) && df.Has("asesor") {
      var stored := StoredAsesores(df.columns["asesor"]);
      var s := Trim(n);
      var m := MatchAsesor(keyOf, title, s, stored);
      if StoredWithKey(keyOf, n, df) {
        var j :| 0 <= j < |stored| && !AllSpace(stored[j]) && keyOf(stored[j]) == keyOf(n);
        var i :| 0 <= i <= j && m == stored[i] && !AllSpace(stored[i]) && keyOf(stored[i]) == keyOf(s);
        assert m in stored;
      }
    }
  }

  /** With `TitleCase`, a name nobody has stored comes back as the
      capitalised words of the typed name, however it was spaced. */
  lemma FindMatchingAsesorNew(lib: Lib, name: string, df: Frame)
    requires !AllSpace(name)
    requires df.Has("asesor") ==> var stored := StoredAsesores(df.columns["asesor"]);
      forall j :: 0 <= j < |stored| ==> AllSpace(stored[j]) || KeyOf(lib)(stored[j]) != KeyOf(lib)(name)
    ensures FindMatchingAsesorTolerant(lib, Some(name), df) == TitleCase(lib, name)
    ensures df.Has("asesor") ==> FindMatchingAsesor(lib, Some(name), df) == Ok(TitleCase(lib, name))
  {
    NormKeyOfTrim(lib, name);
    TitleCaseOfTrim(lib, name);
  }
}
