/** `canonicalize_from_catalog`: map free text onto the spelling used by a
    small catalog (statuses, branches).

    Two functions of that name exist. `Canonicalize` is the one in crm.py,
    repeated unchanged in crm_lib/utils.py: normalised exact match, then a
    synonym table, then the first strictly best similarity ratio at or above a
    threshold, then the stripped input. `CanonicalizeLiteral` is the one in
    crm_project/utils/helpers.py: exact match of stripped texts, alias lists,
    `get_close_matches`, then the input as given.

    The matching steps are stated for any key function `keyOf` and any
    similarity `ratio`; `Canonicalize` instantiates them with `_norm_key` and
    `SequenceMatcher.ratio`. */
module Catalog {
  import opened Runtime
  import opened Text
  import opened Normalize

  /** Position of the first entry at or after `i` whose key is `key`. */
  function FirstWithKey(keyOf: string -> string, xs: seq<string>, key: string, i: nat): (r: Option<nat>)
    requires i <= |xs|
    ensures r.Some? ==> i <= r.value < |xs| && keyOf(xs[r.value]) == key
    ensures r.Some? ==> forall j :: i <= j < r.value ==> keyOf(xs[j]) != key
    ensures r.None? ==> forall j :: i <= j < |xs| ==> keyOf(xs[j]) != key
    decreases |xs| - i
  {
    if i == |xs| then None
    else if keyOf(xs[i]) == key then Some(i)
    else FirstWithKey(keyOf, xs, key, i + 1)
  }

  /** The aliases of a synonym table, in iteration order. */
  function Aliases(synonyms: seq<(string, string)>): (r: seq<string>)
    ensures |r| == |synonyms|
    ensures forall p :: 0 <= p < |r| ==> r[p] == synonyms[p].0
  {
    seq(|synonyms|, p requires 0 <= p < |synonyms| => synonyms[p].0)
  }

  /** Similarity of the query key against entry `j`, in the argument order
      `SequenceMatcher(None, key, _norm_key(opt))` uses. */
  function Ratio(keyOf: string -> string, ratio: (string, string) -> real, key: string, catalog: seq<string>, j: nat): real
    requires j < |catalog|
  {
    ratio(key, keyOf(catalog[j]))
  }

  /** Entry `j` is the one the fuzzy loop settles on: its ratio is positive
      (the loop starts from 0.0 and only a strictly higher ratio selects),
      no entry scores higher, and every earlier entry scores lower. */
  ghost predicate IsFirstBest(keyOf: string -> string, ratio: (string, string) -> real, key: string, catalog: seq<string>, j: int) {
    && 0 <= j < |catalog|
    && Ratio(keyOf, ratio, key, catalog, j) > 0.0
    && (forall k :: 0 <= k < |catalog| ==> Ratio(keyOf, ratio, key, catalog, k) <= Ratio(keyOf, ratio, key, catalog, j))
    && (forall k :: 0 <= k < j ==> Ratio(keyOf, ratio, key, catalog, k) < Ratio(keyOf, ratio, key, catalog, j))
  }

  /** `best, best_r` after the fuzzy loop has seen the first `i` entries. */
  ghost predicate BestSoFar(keyOf: string -> string, ratio: (string, string) -> real, key: string, catalog: seq<string>, i: nat, best: Option<nat>, bestR: real)
    requires i <= |catalog|
  {
    match best
    case None =>
      bestR == 0.0 && forall j :: 0 <= j < i ==> Ratio(keyOf, ratio, key, catalog, j) <= 0.0
    case Some(b) =>
      && b < i
      && Ratio(keyOf, ratio, key, catalog, b) == bestR
      && bestR > 0.0
      && (forall j :: 0 <= j < i ==> Ratio(keyOf, ratio, key, catalog, j) <= bestR)
      && (forall j :: 0 <= j < b ==> Ratio(keyOf, ratio, key, catalog, j) < bestR)
  }

  /** The fuzzy loop over the entries from `i` on. */
  function FuzzyBest(keyOf: string -> string, ratio: (string, string) -> real, key: string, catalog: seq<string>, i: nat, best: Option<nat>, bestR: real): (r: (Option<nat>, real))
    requires i <= |catalog|
    requires BestSoFar(keyOf, ratio, key, catalog, i, best, bestR)
    ensures BestSoFar(keyOf, ratio, key, catalog, |catalog|, r.0, r.1)
    decreases |catalog| - i
  {
    if i == |catalog| then (best, bestR)
    else
      var q := Ratio(keyOf, ratio, key, catalog, i);
      if q > bestR then FuzzyBest(keyOf, ratio, key, catalog, i + 1, Some(i), q)
      else FuzzyBest(keyOf, ratio, key, catalog, i + 1, best, bestR)
  }

  /** What the whole fuzzy loop finds: the first best entry, or nothing when
      no entry scores above zero. */
  lemma FuzzyBestIsFirstBest(keyOf: string -> string, ratio: (string, string) -> real, key: string, catalog: seq<string>)
    ensures var (best, bestR) := FuzzyBest(keyOf, ratio, key, catalog, 0, None, 0.0);
      && (best.Some? <==> exists j :: IsFirstBest(keyOf, ratio, key, catalog, j))
      && (best.Some? ==> IsFirstBest(keyOf, ratio, key, catalog, best.value) && bestR == Ratio(keyOf, ratio, key, catalog, best.value))
  {
    var (best, bestR) := FuzzyBest(keyOf, ratio, key, catalog, 0, None, 0.0);
    if best.Some? {
      assert IsFirstBest(keyOf, ratio, key, catalog, best.value);
    }
  }

  /** The synonym step: the entry whose key matches the first matching
      alias's target, or that target verbatim. */
  function SynonymStep(keyOf: string -> string, catalog: seq<string>, synonyms: seq<(string, string)>, key: string): (r: Option<string>)
    ensures r.Some? <==> exists p :: 0 <= p < |synonyms| && keyOf(synonyms[p].0) == key
    ensures r.Some? ==> exists p :: (
      && 0 <= p < |synonyms| && keyOf(synonyms[p].0) == key
      && (forall q :: 0 <= q < p ==> keyOf(synonyms[q].0) != key)
      && (|| (r.value == synonyms[p].1 && forall j :: 0 <= j < |catalog| ==> keyOf(catalog[j]) != keyOf(synonyms[p].1))
          || exists j :: (
               && 0 <= j < |catalog| && r.value == catalog[j] && keyOf(catalog[j]) == keyOf(synonyms[p].1)
               && forall k :: 0 <= k < j ==> keyOf(catalog[k]) != keyOf(synonyms[p].1))))
  {
    var aliases := Aliases(synonyms);
    match FirstWithKey(keyOf, aliases, key, 0)
    case None => None
    case Some(p) =>
      var v := synonyms[p].1;
      match FirstWithKey(keyOf, catalog, keyOf(v), 0)
      case Some(j) => Some(catalog[j])
      case None => Some(v)
  }

  /** The matching steps of `canonicalize_from_catalog` for the stripped,
      non-blank text `s`. */
  function Match(keyOf: string -> string, ratio: (string, string) -> real, s: string, catalog: seq<string>, synonyms: seq<(string, string)>, minRatio: real): (r: string)
    // a catalog entry with the same key wins, and the first one in catalog order
    ensures forall j :: 0 <= j < |catalog| && keyOf(catalog[j]) == keyOf(s) ==>
      exists i :: 0 <= i <= j && r == catalog[i] && keyOf(catalog[i]) == keyOf(s)
    // without an exact hit, a synonym hit decides: the first alias with the
    // key, resolved against the catalog
    ensures (forall j :: 0 <= j < |catalog| ==> keyOf(catalog[j]) != keyOf(s))
            && SynonymStep(keyOf, catalog, synonyms, keyOf(s)).Some? ==>
      r == SynonymStep(keyOf, catalog, synonyms, keyOf(s)).value
    // nothing but a catalog entry, a synonym target or the text itself comes out
    ensures || r == s
            || (exists j :: 0 <= j < |catalog| && r == catalog[j])
            || (exists p :: 0 <= p < |synonyms| && r == synonyms[p].1)
    // without an exact or synonym hit, the first best entry replaces the
    // text exactly when it is non-empty and reaches the threshold
    ensures (forall j :: 0 <= j < |catalog| ==> keyOf(catalog[j]) != keyOf(s))
            && (forall p :: 0 <= p < |synonyms| ==> keyOf(synonyms[p].0) != keyOf(s)) ==>
      && ((exists j :: IsFirstBest(keyOf, ratio, keyOf(s), catalog, j) && catalog[j] != []
                      && Ratio(keyOf, ratio, keyOf(s), catalog, j) >= minRatio) ==>
            exists j :: IsFirstBest(keyOf, ratio, keyOf(s), catalog, j) && r == catalog[j])
      && ((forall j :: IsFirstBest(keyOf, ratio, keyOf(s), catalog, j) ==>
             catalog[j] == [] || Ratio(keyOf, ratio, keyOf(s), catalog, j) < minRatio) ==>
            r == s)
  {
    var key := keyOf(s);
    match FirstWithKey(keyOf, catalog, key, 0)
    case Some(j) => catalog[j]
    case None =>
      match SynonymStep(keyOf, catalog, synonyms, key)
      case Some(v) => v
      case None =>
        FuzzyBestIsFirstBest(keyOf, ratio, key, catalog);
        var (best, bestR) := FuzzyBest(keyOf, ratio, key, catalog, 0, None, 0.0);
        if best.Some? && catalog[best.value] != [] && bestR >= minRatio then catalog[best.value]
        else s
  }

  /** `canonicalize_from_catalog(raw, catalog, extra_synonyms, min_ratio)`
      of crm.py and crm_lib/utils.py, for a given key and ratio;
      `synonyms` lists the dictionary's items in iteration order (an empty
      list stands for None or an empty dictionary). */
  function CanonicalizeBy(keyOf: string -> string, ratio: (string, string) -> real, raw: Option<string>, catalog: seq<string>, synonyms: seq<(string, string)>, minRatio: real): (r: string)
    // blank or missing input gives the empty text
    ensures AllSpace(raw.GetOr([])) ==> r == []
    // a catalog entry with the same key wins, and the first one in catalog order
    ensures var s := Trim(raw.GetOr([]));
      s != [] ==> forall j :: 0 <= j < |catalog| && keyOf(catalog[j]) == keyOf(s) ==>
        exists i :: 0 <= i <= j && r == catalog[i] && keyOf(catalog[i]) == keyOf(s)
    // without an exact hit, a synonym hit decides
    ensures var s := Trim(raw.GetOr([]));
      s != [] && (forall j :: 0 <= j < |catalog| ==> keyOf(catalog[j]) != keyOf(s))
              && SynonymStep(keyOf, catalog, synonyms, keyOf(s)).Some? ==>
        r == SynonymStep(keyOf, catalog, synonyms, keyOf(s)).value
    // nothing but a catalog entry, a synonym target or the stripped input comes out
    ensures var s := Trim(raw.GetOr([]));
      || r == s
      || (exists j :: 0 <= j < |catalog| && r == catalog[j])
      || (exists p :: 0 <= p < |synonyms| && r == synonyms[p].1)
    // without an exact or synonym hit, the first best entry replaces the
    // input exactly when it is non-empty and reaches the threshold
    ensures var s := Trim(raw.GetOr([]));
      s != [] && (forall j :: 0 <= j < |catalog| ==> keyOf(catalog[j]) != keyOf(s))
              && (forall p :: 0 <= p < |synonyms| ==> keyOf(synonyms[p].0) != keyOf(s)) ==>
        && ((exists j :: IsFirstBest(keyOf, ratio, keyOf(s), catalog, j) && catalog[j] != []
                        && Ratio(keyOf, ratio, keyOf(s), catalog, j) >= minRatio) ==>
              exists j :: IsFirstBest(keyOf, ratio, keyOf(s), catalog, j) && r == catalog[j])
        && ((forall j :: IsFirstBest(keyOf, ratio, keyOf(s), catalog, j) ==>
               catalog[j] == [] || Ratio(keyOf, ratio, keyOf(s), catalog, j) < minRatio) ==>
              r == s)
  {
    TrimBlank(raw.GetOr([]));
    var s := Trim(raw.GetOr([]));
    if s == [] then s
    else Match(keyOf, ratio, s, catalog, synonyms, minRatio)
  }

  /** Every non-blank entry of a catalog whose keys are pairwise distinct
      canonicalises to itself, provided its key ignores surrounding
      whitespace. */
  lemma CanonicalizeEntry(keyOf: string -> string, ratio: (string, string) -> real, catalog: seq<string>, synonyms: seq<(string, string)>, minRatio: real, i: nat)
    requires i < |catalog| && !AllSpace(catalog[i])
    requires keyOf(Trim(catalog[i])) == keyOf(catalog[i])
    requires forall j, k :: 0 <= j < k < |catalog| ==> keyOf(catalog[j]) != keyOf(catalog[k])
    ensures CanonicalizeBy(keyOf, ratio, Some(catalog[i]), catalog, synonyms, minRatio) == catalog[i]
  {
    TrimBlank(catalog[i]);
    var s := Trim(catalog[i]);
    assert keyOf(s) == keyOf(catalog[i]);
  }

  /** `_norm_key` ignores surrounding whitespace. */
  lemma KeyOfIgnoresTrim(lib: Lib, xs: seq<string>)
    ensures forall j :: 0 <= j < |xs| ==> KeyOf(lib)(Trim(xs[j])) == KeyOf(lib)(xs[j])
  {
    forall j | 0 <= j < |xs| ensures KeyOf(lib)(Trim(xs[j])) == KeyOf(lib)(xs[j]) {
      NormKeyOfTrim(lib, xs[j]);
    }
  }

  /** `canonicalize_from_catalog` of crm.py and crm_lib/utils.py. */
  function Canonicalize(lib: Lib, raw: Option<string>, catalog: seq<string>, synonyms: seq<(string, string)>, minRatio: real): (r: string)
    // blank or missing input gives the empty text
    ensures AllSpace(raw.GetOr([])) ==> r == []
    // a stripped input that is itself listed comes out as a listed entry
    // with its key
    ensures var s := Trim(raw.GetOr([]));
      s != [] && s in catalog ==> r in catalog && NormKey(lib, Some(r)) == NormKey(lib, Some(s))
    // nothing but a catalog entry, a synonym target or the stripped input comes out
    ensures || r == Trim(raw.GetOr([]))
            || r in catalog
            || (exists p :: 0 <= p < |synonyms| && r == synonyms[p].1)
  {
    var s := Trim(raw.GetOr([]));
    assert s in catalog ==> exists j :: 0 <= j < |catalog| && KeyOf(lib)(catalog[j]) == KeyOf(lib)(s) by {
      if s in catalog {
        var j :| 0 <= j < |catalog| && catalog[j] == s;
        assert KeyOf(lib)(catalog[j]) == KeyOf(lib)(s);
      }
    }
    CanonicalizeBy(KeyOf(lib), lib.ratio, raw, catalog, synonyms, minRatio)
  }

  /** Over a catalog whose non-blank entries have pairwise distinct keys, a
      result that is a catalog entry is a fixed point, for any key that
      ignores surrounding whitespace. */
  lemma CanonicalizeByIdempotent(keyOf: string -> string, ratio: (string, string) -> real, raw: Option<string>,
                                 catalog: seq<string>, synonyms: seq<(string, string)>, minRatio: real)
    requires forall j :: 0 <= j < |catalog| ==> keyOf(Trim(catalog[j])) == keyOf(catalog[j])
    requires forall j, k :: 0 <= j < k < |catalog| ==> keyOf(catalog[j]) != keyOf(catalog[k])
    requires forall j :: 0 <= j < |catalog| ==> !AllSpace(catalog[j])
    requires CanonicalizeBy(keyOf, ratio, raw, catalog, synonyms, minRatio) in catalog
    ensures var r := CanonicalizeBy(keyOf, ratio, raw, catalog, synonyms, minRatio);
      CanonicalizeBy(keyOf, ratio, Some(r), catalog, synonyms, minRatio) == r
  {
    var r := CanonicalizeBy(keyOf, ratio, raw, catalog, synonyms, minRatio);
    var i :| 0 <= i < |catalog| && catalog[i] == r;
    CanonicalizeEntry(keyOf, ratio, catalog, synonyms, minRatio, i);
  }

  /** So for `_norm_key`: canonicalising twice is canonicalising once. */
  lemma CanonicalizeIdempotent(lib: Lib, raw: Option<string>, catalog: seq<string>, synonyms: seq<(string, string)>, minRatio: real)
    requires forall j, k :: 0 <= j < k < |catalog| ==> KeyOf(lib)(catalog[j]) != KeyOf(lib)(catalog[k])
    requires forall j :: 0 <= j < |catalog| ==> !AllSpace(catalog[j])
    requires Canonicalize(lib, raw, catalog, synonyms, minRatio) in catalog
    ensures var r := Canonicalize(lib, raw, catalog, synonyms, minRatio);
      Canonicalize(lib, Some(r), catalog, synonyms, minRatio) == r
  {
    KeyOfIgnoresTrim(lib, catalog);
    CanonicalizeByIdempotent(KeyOf(lib), lib.ratio, raw, catalog, synonyms, minRatio);
  }

  /** The status column of an import: `ESTATUS_SYNONYMS` and threshold 0.90. */
  function StatusSynonyms(): seq<(string, string)> {
    [ ("en revision", "EN REVISI\U{D3}N"),
      ("en revisi\U{F3}n", "EN REVISI\U{D3}N"),
      ("revision", "EN REVISI\U{D3}N"),
      ("revisi\U{F3}n", "EN REVISI\U{D3}N") ]
  }

  const StatusMinRatio: real := 0.90
  const BranchMinRatio: real := 0.92

  /** `_canon_est`: a status becomes a catalog status, "EN REVISIÓN" for the
      listed aliases, or the stripped text. */
  function CanonStatus(lib: Lib, x: string, statuses: seq<string>): (r: string)
    ensures r == Trim(x) || r in statuses || r == "EN REVISI\U{D3}N"
  {
    var syn := StatusSynonyms();
    assert forall p :: 0 <= p < |syn| ==> syn[p].1 == "EN REVISI\U{D3}N";
    Canonicalize(lib, Some(x), statuses, syn, StatusMinRatio)
  }

  /** `_canon_seg`: second statuses, no synonyms, threshold 0.90. */
  function CanonSecondStatus(lib: Lib, x: string, statuses: seq<string>): (r: string)
    ensures r == Trim(x) || r in statuses
  {
    Canonicalize(lib, Some(x), statuses, [], StatusMinRatio)
  }

  /** `_canon_suc`: branches, no synonyms, threshold 0.92. */
  function CanonBranch(lib: Lib, x: string, branches: seq<string>): (r: string)
    ensures r == Trim(x) || r in branches
  {
    Canonicalize(lib, Some(x), branches, [], BranchMinRatio)
  }

  /** The value of one synonym key: a list of aliases, or a single `str`,
      for which Python's `v in syns` is a substring test. */
  datatype Syns = Listed(items: seq<string>) | Joined(text: string)

  /** `v in syns`. */
  predicate Holds(syns: Syns, v: string) {
    match syns
    case Listed(items) => v in items
    case Joined(text) => Contains(text, v)
  }

  /** Position of the first alias collection containing `v`. */
  function FirstAliasOwner(aliases: seq<(string, Syns)>, v: string, i: nat): (r: Option<nat>)
    requires i <= |aliases|
    ensures r.Some? ==> i <= r.value < |aliases| && Holds(aliases[r.value].1, v)
    ensures r.Some? ==> forall j :: i <= j < r.value ==> !Holds(aliases[j].1, v)
    ensures r.None? ==> forall j :: i <= j < |aliases| ==> !Holds(aliases[j].1, v)
    decreases |aliases| - i
  {
    if i == |aliases| then None
    else if Holds(aliases[i].1, v) then Some(i)
    else FirstAliasOwner(aliases, v, i + 1)
  }

  /** `canonicalize_from_catalog(value, catalog, extra_synonyms, min_ratio)`
      of crm_project/utils/helpers.py. `aliases` lists the dictionary's items
      in order, each key with its collection of aliases. */
  function CanonicalizeLiteral(lib: Lib, value: Option<string>, catalog: seq<string>, aliases: seq<(string, Syns)>, minRatio: real): (r: string)
    ensures AllSpace(value.GetOr([])) ==> r == []
    // the exact step compares stripped texts, case and accents included
    ensures var v := Trim(value.GetOr([]));
      v != [] ==> forall j :: 0 <= j < |catalog| && Trim(catalog[j]) == v ==>
        exists i :: 0 <= i <= j && r == catalog[i] && Trim(catalog[i]) == v
    // then the first key whose aliases hold the stripped text
    ensures var v := Trim(value.GetOr([]));
      v != [] && (forall j :: 0 <= j < |catalog| ==> Trim(catalog[j]) != v) ==>
        forall p :: 0 <= p < |aliases| && Holds(aliases[p].1, v) ==>
          exists q :: 0 <= q <= p && r == aliases[q].0 && Holds(aliases[q].1, v)
    // otherwise a close catalog entry or the value as given, unstripped
    ensures var v := Trim(value.GetOr([]));
      v != [] && (forall j :: 0 <= j < |catalog| ==> Trim(catalog[j]) != v)
              && (forall p :: 0 <= p < |aliases| ==> !Holds(aliases[p].1, v)) ==>
        && (minRatio < 0.0 || minRatio > 1.0 ==> r == value.GetOr([]))
        && (CloseMatchesSound(lib) ==> r == value.GetOr([]) || (r in catalog && lib.ratio(r, v) >= minRatio))
        // and an entry at or above a valid cutoff forces a catalog entry
        && ((&& CloseMatchesSound(lib) && 0.0 <= minRatio <= 1.0
             && exists j :: 0 <= j < |catalog| && lib.ratio(catalog[j], v) >= minRatio) ==> r in catalog)
  {
    TrimBlank(value.GetOr([]));
    var v := Trim(value.GetOr([]));
    if v == [] then []
    else
      match FirstWithKey(Trim, catalog, v, 0)
      case Some(j) => catalog[j]
      case None =>
        match FirstAliasOwner(aliases, v, 0)
        case Some(p) => aliases[p].0
        case None =>
          match GetCloseMatches(lib, v, catalog, 1, minRatio)
          case Some(m) => if m != [] then assert m[0] in m; m[0] else value.GetOr([])
          case None => value.GetOr([])
  }

  /** In a catalog of distinct stripped entries, each entry is returned as
      it is, whatever the aliases and the cutoff. */
  lemma CanonicalizeLiteralEntry(lib: Lib, catalog: seq<string>, aliases: seq<(string, Syns)>, minRatio: real, k: nat)
    requires k < |catalog| && catalog[k] != []
    requires forall j :: 0 <= j < |catalog| ==> Trim(catalog[j]) == catalog[j]
    requires forall i, j :: 0 <= i < j < |catalog| ==> catalog[i] != catalog[j]
    ensures CanonicalizeLiteral(lib, Some(catalog[k]), catalog, aliases, minRatio) == catalog[k]
  {
    var r := CanonicalizeLiteral(lib, Some(catalog[k]), catalog, aliases, minRatio);
    var i :| 0 <= i <= k && r == catalog[i] && Trim(catalog[i]) == catalog[k];
    assert catalog[i] == catalog[k];
  }

  /** An alias given as a single `str` is matched by substring: "ok" is found
      in "ok, listo" although it is not the whole alias. */
  lemma JoinedAliasMatchesSubstring(lib: Lib, minRatio: real)
    ensures CanonicalizeLiteral(lib, Some("ok"), [], [("LISTO", Joined("ok, listo"))], minRatio) == "LISTO"
  {
    OkIsStripped();
    assert StartsWith("ok, listo"[0..], "ok");
  }

  /** Given as a list, the same alias must match the whole text, so "ok"
      falls through to the value as given. */
  lemma ListedAliasMatchesWhole(lib: Lib, minRatio: real)
    requires CloseMatchesSound(lib)
    ensures CanonicalizeLiteral(lib, Some("ok"), [], [("LISTO", Listed(["ok, listo"]))], minRatio) == "ok"
  {
    OkIsStripped();
    assert "ok" != "ok, listo";
  }

  lemma OkIsStripped()
    ensures Trim("ok") == "ok"
  {
    var s := "ok";
    assert SkipSpaces(s, 1) == 1;
    assert SkipSpaces(s, 0) == 0;
    assert BackSpaces(s, 2) == 2;
  }

  /** Where nothing matches, the two functions of the same name disagree on
      surrounding whitespace: crm.py returns the stripped text, helpers.py the
      text as given. */
  lemma CanonicalizeVariantsDisagreeOnFallback(lib: Lib, minRatio: real)
    requires CloseMatchesSound(lib) && 0.0 <= minRatio <= 1.0
    ensures Canonicalize(lib, Some(" x"), [], [], minRatio) == "x"
    ensures CanonicalizeLiteral(lib, Some(" x"), [], [], minRatio) == " x"
  {
    var s := " x";
    assert SkipSpaces(s, 1) == 1;
    assert SkipSpaces(s, 0) == 1;
    assert BackSpaces(s, 2) == 2;
    assert Trim(s) == "x";
  }
}
