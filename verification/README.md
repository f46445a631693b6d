# CRM core in Dafny

This project models the data-cleaning, search and access-control core of a
Streamlit CRM for client files, and proves properties of that model. The
core comes in three copies: the monolithic `crm.py`, the extracted
`crm_lib` package and the restructured `crm_project` package. The modelled
parts are:

- **Normalisation.** The comparison key `_norm_key` / `normalize_key` strips
  the text, collapses whitespace, decomposes with NFKD, drops combining
  marks and casefolds (`Normalize`, with the whitespace primitives in
  `Text`).
- **Catalogs and advisers.** `canonicalize_from_catalog` maps free text onto
  a catalog of statuses or branches. There are two different functions of
  that name (`Catalog`). `find_matching_asesor` reuses an adviser's stored
  spelling (`Asesor`).
- **Client ids.** There are four `nuevo_id_cliente` / `nuevo_id` variants
  (`Ids`). The id repair `_fix_missing_or_duplicate_ids` is in `Repair`.
- **Search.**
  - `build_text_index` (`TextIndex`);
  - the query language of `_parse_query` (`Query`);
  - the scoring ladder of `_score_match` (`Score`);
  - the ranking, fallback and limit of `robust_search` (`Search`).
- **File names.** `safe_name` with its three character classes
  (`SafeNames`).
- **Client-list labels and filters.** The dispersion test, the "(Sin
  asesor)" label and the four sidebar filters (`Labels`).
- **The user registry.** `add_user`, `delete_user`, `get_user`, and password
  hashing and verification, in all three copies (`Users`).
- **The session.** `login`, `logout`, `is_admin`, `can` and the permissions
  table (`Session`).

`Runtime` holds Python's `None` (`Option`) and escaping exceptions
(`Result`). It also holds `Lib`, a record of the library routines the core
calls but whose behaviour is Unicode data or a numeric algorithm outside
this model:

- NFKD with combining-mark removal;
- `casefold`, `lower` and `capitalize`;
- `difflib.SequenceMatcher.ratio` and `difflib.get_close_matches`;
- `int()`;
- PBKDF2.

Every function that calls one of these takes the `Lib` as a parameter. The
few facts a proof needs about a routine are predicates on the `Lib`, and
only the lemmas that need them require them. Examples: `int()` reads back
`str()`; `lower` maps only "" to "".

Several routines are stated once for any key function or scoring, so their
properties hold for every choice of the Unicode routines. Each is then
instantiated with the repository's own key `_norm_key` (`Normalize.KeyOf`)
and scoring:

- `CanonicalizeBy` as `Canonicalize`;
- `FindMatchingAsesorBy` as `FindMatchingAsesor`;
- `RobustSearchBy` as `RobustSearch`, with `_score_match`;
- `IsDispersionBy` as `IsDispersion`.

`RepairColumn` takes the reading of an id cell as a parameter, and
`FixMissingOrDuplicateIds` passes `str(x).strip()`.

## Model

| member | source | states |
|---|---|---|
| Text.TrimBlank | crm_lib/core.py:15-17 | stripping gives "" exactly when the text is all whitespace, which is the "blank name" test of the callers |
| Text.Trim | crm.py:740 | `strip()` never lengthens the text, and what it leaves neither starts nor ends with whitespace |
| Text.TrimStrips | crm.py:740 | the stripped text is a slice of the text with only whitespace before and after it, so `strip()` removes nothing else |
| Text.SquashIdempotent | crm.py:728-729 | strip-then-collapse-whitespace applied twice equals applied once |
| Text.Split | crm.py:751 | `split()` yields only non-empty whitespace-free words, and yields none exactly for a blank text |
| Text.SplitOfTrim | crm.py:740-751 | splitting the stripped name gives the same words as splitting the name |
| Text.SplitJoinSpace | crm.py:751 | joining words with one space and splitting again gives the words back (round trip) |
| Text.SplitOnJoinOn | crm.py:1036 | `q.split(",")` rejoined with "," gives the query back (round trip) |
| Text.SplitSpaceCons | crm.py:1040-1042 | a phrase replaced by one space adds no word: splitting " " + x gives the words of x |
| Text.LStripChar | crm_project/core/__init__.py:48 | `lstrip("C")` removes exactly a leading run of "C", leaving a suffix that does not start with "C" |
| Text.RStripChar | crm.py:1057 | `rstrip("*")` removes exactly a trailing run of "*", leaving a prefix that does not end with "*" |
| Decimal.NatToString | crm.py:971 | `str(n)` of a natural number is a non-empty run of digits, with a leading "0" only for 0 |
| Decimal.IntToString | crm.py:971 | `str(n)` is a non-empty run of digits, preceded by "-" exactly when the number is negative |
| Decimal.NatToStringRoundTrip | crm.py:971 | reading back the digits of `str(n)` gives `n` |
| Decimal.IntToStringInjective | crm.py:971 | different numbers render to different `C<n>` digit strings |
| Normalize.NormKey | crm.py:726-733 | `None` and a blank text both get the key of the empty text |
| Normalize.NormKeyFoldsCanonical | crm.py:727-731 | the Unicode steps only ever see a stripped, single-spaced text |
| Normalize.NormKeyBlank | crm.py:726-733 | a missing or blank text has the empty key |
| Normalize.NormKeyOfSquash | crm.py:726-733 | the key only depends on the text with whitespace stripped and collapsed |
| Normalize.NormKeyOfTrim | crm.py:726-733 | stripping before taking the key does not change it |
| Normalize.NormKeyIdempotentWhen | crm.py:726-733 | the key is idempotent whenever the Unicode fold keeps single-spaced texts single-spaced and is itself idempotent |
| Normalize.NormKeyNotIdempotent | crm.py:730-733 | with NFKD mapping U+00B4 to a space plus combining mark, the key of "a ´b" is not its own key |
| Catalog.FirstWithKey | crm.py:809-811 | finds the first entry with the given key, and reports none only when no entry has it |
| Catalog.FuzzyBest | crm.py:824-828 | the strict-improvement loop ends with the best-so-far invariant over the whole catalog |
| Catalog.FuzzyBestIsFirstBest | crm.py:824-830 | the loop selects exactly the first entry of maximal positive ratio, and nothing when every ratio is 0 or less |
| Catalog.SynonymStep | crm.py:813-821 | the first alias with the query's key decides; its target maps to the first catalog entry with the target's key, or is returned verbatim |
| Catalog.Match | crm.py:806-833 | the first exact-key entry wins; without one, the synonym step decides whenever it gives a result; otherwise the first best entry iff it is non-empty and at or above the threshold; otherwise the text. Nothing else is ever returned |
| Catalog.CanonicalizeBy | crm.py:789-833 | blank input gives ""; otherwise, on the stripped text, the first exact-key entry, else the synonym step's result whenever it gives one, else the first best entry iff non-empty and at or above the threshold, else the stripped text; only these are ever returned |
| Catalog.Canonicalize | crm.py:789-833 | with `_norm_key`: blank gives ""; a stripped input that is listed comes out as a listed entry with its key; only the stripped input, a catalog entry or a synonym target is ever returned |
| Catalog.CanonicalizeEntry | crm_lib/utils.py:32-64 | over a catalog with distinct keys, every non-blank entry canonicalises to itself |
| Catalog.CanonicalizeByIdempotent | crm.py:789-833 | when the result is a catalog entry, canonicalising it again returns it unchanged |
| Catalog.CanonicalizeIdempotent | crm_lib/utils.py:32-64 | the same idempotence for the `_norm_key` instantiation |
| Catalog.CanonStatus | crm.py:3954-3968 | a canonicalised status is the stripped text, a catalog status or "EN REVISIÓN" |
| Catalog.CanonSecondStatus | crm.py:3970-3974 | a canonicalised second status is the stripped text or a catalog entry |
| Catalog.CanonBranch | crm.py:3976-3980 | a canonicalised branch is the stripped text or a catalog branch (threshold 0.92) |
| Catalog.FirstAliasOwner | crm_project/utils/helpers.py:40-43 | finds the first synonym key whose aliases hold the value, where `in` is a substring test when the aliases are one `str` |
| Catalog.CanonicalizeLiteral | crm_project/utils/helpers.py:25-50 | blank gives ""; else exact stripped-text match first, then the first alias owner (substring `in` for a `str` of aliases), then a close catalog entry at or above the cutoff, which is always a catalog entry when some entry reaches a valid cutoff, else the value as given; an out-of-range cutoff (ValueError, caught) gives the value |
| Catalog.CanonicalizeLiteralEntry | crm_project/utils/helpers.py:25-50 | in a catalog of distinct stripped entries, every entry canonicalises to itself |
| Catalog.JoinedAliasMatchesSubstring | crm_project/utils/helpers.py:41 | "ok" is matched by the aliases "ok, listo" given as one `str` |
| Catalog.ListedAliasMatchesWhole | crm_project/utils/helpers.py:41 | given in a list, the same alias must match whole, so "ok" falls through to the value as given |
| Catalog.CanonicalizeVariantsDisagreeOnFallback | crm_project/utils/helpers.py:44-50 | at any valid cutoff, with nothing to match, the crm.py copy returns " x" stripped and the helpers.py copy returns it unstripped |
| Asesor.TitleCaseWords | crm.py:751 | the title-cased name consists of the capitalised words of the name, in order |
| Asesor.TitleCaseBlank | crm.py:751 | a blank name title-cases to "" |
| Asesor.TitleCaseOfTrim | crm.py:740-751 | title-casing the stripped name equals title-casing the name |
| Asesor.FirstStored | crm.py:745-749 | finds the first non-blank stored adviser with the key, and none only when no stored adviser qualifies |
| Asesor.MatchAsesor | crm.py:743-751 | a stored non-blank adviser with the same key is returned as stored, the first in table order; with none, the name is title-cased |
| Asesor.FindMatchingAsesorBy | crm.py:735-751 | a blank name gives "" before the table is read; otherwise a table without `asesor` raises KeyError, and one with it gives the match on the stripped name |
| Asesor.FindMatchingAsesorTolerantBy | crm_project/core/__init__.py:19-34 | a blank name gives ""; a missing column falls back to title case; otherwise the same match |
| Asesor.MatchingFacts | crm.py:740-751 | for a key and a title-casing that ignore surrounding whitespace: a stored adviser with the name's key makes the result a stored spelling with that key, and with none the name is title-cased |
| Asesor.FindMatchingAsesor | crm.py:735-751 | with `_norm_key`: blank gives ""; only a missing `asesor` column raises, with KeyError; a stored adviser with the name's key makes the result a stored spelling with that key; with none the name is title-cased |
| Asesor.FindMatchingAsesorTolerant | crm_project/core/__init__.py:19-34 | the same without raising: a missing column counts as no stored adviser |
| Asesor.FindMatchingAsesorVariantsAgree | crm_lib/core.py:14-24 | where the column exists, the raising and the tolerant variants agree |
| Asesor.FindMatchingAsesorStable | crm_lib/core.py:14-24 | feeding a matched stored spelling back in returns the same spelling |
| Asesor.FindMatchingAsesorNew | crm_project/core/__init__.py:33-34 | a name nobody has stored comes back as its capitalised words, however it was spaced |
| Ids.Collect | crm.py:954-963 | collects exactly the numbers that the ids yield |
| Ids.Max | crm.py:965 | `max` is an element of the list and bounds every element |
| Ids.NextNumber | crm.py:964-968 | the result is above every number read, and one more than some number read; with no number it is the fallback |
| Ids.NextNumberFresh | crm.py:946-971 | `C<next>` is not among the ids whenever reading `C<next>` would give `next` |
| Ids.IdStrings | crm.py:953-955 | the id column is read only from a present, non-empty frame that has it |
| Ids.StrictNum | crm.py:958 | `^C(\d+)$` on the stripped id matches exactly "C" followed by one or more digits, and gives a non-negative number |
| Ids.NextIdStrict | crm.py:946-971 | no frame, an empty frame or one without ids gives C1000; otherwise the next strict number with fallback 1000 + rows |
| Ids.StrictNumOfCid | crm.py:958-961 | the pattern reads `C<n>` back as `n` |
| Ids.NextIdStrictFresh | crm_lib/core.py:27-52 | the new id differs from every existing id, stripped |
| Ids.NextNumberAtLeast | crm.py:964-968 | a lower bound on every number read and on the fallback bounds the next number |
| Ids.NextIdLstrip | crm_project/core/__init__.py:37-57 | as the strict variant, but reading ids that start with "C" through `int(x.lstrip("C"))` |
| Ids.LstripNumOfCid | crm_project/core/__init__.py:46-48 | `int("C<n>".lstrip("C"))` is `n` when `int()` reads back `str()` |
| Ids.NextIdLstripFresh | crm_project/core/__init__.py:37-57 | the new id differs from every existing id |
| Ids.RepairNextNumber | crm.py:1558-1575 | `_nuevo_id_local` is above every number read, with fallback 1000 + rows + 1 |
| Ids.DbNumOfCid | crm_project/core/database.py:66-69 | `int("C<n>"[1:])` is `n` |
| Ids.NextIdDb | crm_project/core/database.py:60-75 | without a usable frame C1000; otherwise the next `int(x[1:])` number with base 1000 whatever the row count |
| Ids.NextIdDbFresh | crm_project/core/database.py:60-75 | the new id differs from every existing id |
| Ids.NextIdVariantsAgreeOnCanonicalIds | crm_lib/core.py:27-52 | on a column of canonical `C<n>` ids, the regex and the `lstrip` variants give the same id |
| Ids.SameReadingSameNext | crm.py:964-968 | two readings that agree on every id give the same next number |
| Repair.UsedMember | crm.py:1579-1591 | `usados` holds exactly the stripped ids of the rows already done |
| Repair.NewId | crm.py:1581-1587 | the counted-up id is `C<num>` with `num` at or above the start, neither used nor in the current column, and the first such |
| Repair.RepairColumn | crm.py:1577-1591 | afterwards every stripped id is non-blank and unique; a row keeps its cell iff its stripped id is non-blank and unused by earlier rows; every other row gets a `C<n>` absent from the later rows |
| Repair.IdColumn | crm.py:1554-1555 | the id column, or a column of "" when there is none |
| Repair.FixMissingOrDuplicateIds | crm.py:1549-1592 | a missing or empty frame comes back as is; otherwise only the id column changes, and it satisfies the repair rules |
| Repair.RepairKeepsRepaired | crm.py:1577-1591 | a column already without blank or duplicate ids is left unchanged, so repairing twice is repairing once |
| Repair.FirstOccurrencesKept | crm.py:1578-1591 | on present ids, a row keeps its id iff the id is non-blank and its first occurrence |
| TextIndex.InitialsOf | crm.py:1013 | the initials of non-empty words are their first characters, one per word |
| TextIndex.Initials | crm.py:1013 | a key's initials are the first characters of its words, in order |
| TextIndex.Head | crm.py:1016 | `n[:1]` is a prefix of at most one character, empty only for an empty key |
| TextIndex.SeenMember | crm.py:1010-1012 | a word has been seen iff one of the first `i` options' keys has it |
| TextIndex.AddTokens | crm.py:1011-1012 | adding option `i`'s words extends the inverted-index invariant by one option |
| TextIndex.AddToBucket | crm.py:1016-1017 | appending option `i` to its bucket extends the ordered-bucket invariant by one option |
| TextIndex.BuildIndex | crm.py:1005-1018 | per-option keys, word sets and initials; every word maps to exactly the options whose key has it; every first character maps, in order, to exactly the options whose key starts with it |
| TextIndex.InvExact | crm.py:1009-1012 | a word is indexed iff some key has it, and lists exactly those options |
| TextIndex.BucketsExact | crm.py:1014-1017 | a bucket exists iff some key starts with it |
| Query.Scan | crm.py:1039-1040 | the extracted phrases are non-empty and quote-free |
| Query.ScanPlain | crm.py:1039-1040 | quote-free text yields no phrase and is copied unchanged |
| Query.ScanQuoted | crm.py:1039-1040 | a quoted phrase is extracted and replaced by one space |
| Query.Terms | crm.py:1042-1049 | terms are non-empty keys; each required term is the key of an unsigned word and each excluded term the key of a signed word without its sign; every word with a non-empty key adds its term |
| Query.TermsAppend | crm.py:1042-1049 | words are read one at a time, in order: the terms of two runs of words are the concatenations, and one word gives its own term on its side |
| Query.KeysOf | crm.py:1039 | the phrase keys line up with the phrases |
| Query.ParseGroup | crm.py:1038-1051 | a part without quotes has no phrases, and its terms are read from its words |
| Query.ParseGroupQuoted | crm.py:1039-1040 | a leading quoted phrase puts its key first among the phrases and leaves the terms of the rest of the part |
| Query.NonBlank | crm.py:1036 | keeps exactly the stripped non-blank parts, and is empty iff every part is blank |
| Query.NonBlankAppend | crm.py:1036 | parts keep their order: the kept parts of two runs are those of the first followed by those of the second |
| Query.ParseQuery | crm.py:1023-1052 | one group per non-blank comma-separated part, the k-th group parsed from the k-th stripped part; no group exactly when all parts are blank |
| Query.OnePart | crm.py:1032-1036 | a query without commas is one group |
| Query.PlainQuery | crm.py:1023-1052 | a plain query of unsigned words is one group requiring the keys of its words |
| Query.PlainTerms | crm.py:1043-1049 | plain words all go to the required terms, in order |
| Score.RungOf | crm.py:1076-1088 | the rung reached is the first test of the ladder that passes: each rung iff the tests above it fail and its own passes, and none iff all fail |
| Score.Weight | crm.py:1077-1088 | the points of each rung: 2.0; 1.6 with a trailing `*` else 1.4; 1.2; 1.0; 0.8 |
| Score.LadderDescends | crm.py:1076-1088 | a rung higher on the ladder is always worth more than a lower one |
| Score.NoneExcludes | crm.py:1056-1059 | no excluded term rejects the option |
| Score.PhraseScore | crm.py:1064-1068 | the phrases score iff all occur in the key, and then 3.0 each |
| Score.ReqScore | crm.py:1071-1091 | the required terms score iff each reaches a rung, and then between 0.8 and 2.0 each |
| Score.ReqScoreAppend | crm.py:1071-1091 | the loop adds up: the points of two runs of terms are the sum of their points |
| Score.ReqScoreOne | crm.py:1071-1091 | one term scores its rung's points, and fails iff it reaches no rung |
| Score.ScoreMatch | crm.py:1054-1093 | a match iff nothing excludes, every phrase occurs and every term reaches a rung; a non-match scores 0.0; a match scores exactly 3.0 per phrase plus the required terms' points |
| Score.ExcludedNeverMatches | crm.py:1056-1059 | an excluded term found in the key rejects the option, whatever else the group holds |
| Score.StarExclusionMatchesNothing | crm.py:1057-1058 | an exclusion made only of `*` rejects every option |
| Score.EmptyGroupMatchesAll | crm.py:1054-1093 | an empty group matches every option with 0.0 |
| Score.ExactWordScoresTwo | crm.py:1076-1077 | a required term equal to one of the words scores 2.0 |
| Score.OneTermScore | crm.py:1071-1093 | a one-term group matches iff the term reaches a rung, and then scores that rung's points |
| Score.WordStartScores | crm.py:1078-1079 | a term that only starts a word scores 1.6 with a trailing `*` and 1.4 without |
| Score.InKeyScores | crm.py:1080-1081 | a term found only inside the key scores 1.2 |
| Score.InitialsScore | crm.py:1082-1083 | a term found only at the start of the initials scores 1.0 |
| Score.FuzzyScores | crm.py:1084-1088 | a term reached only by a ratio of at least 0.82 scores 0.8 |
| Search.Bonus | crm.py:1119 | the length bonus lies in [0, 0.5] |
| Search.Best | crm.py:1111-1117 | some group matches iff the flag is set; `best` is at least 0 and every matching group's score, and is 0 or a matching group's score |
| Search.Outcomes | crm.py:1110-1120 | one `(matched, key)` per option, in order |
| Search.ScoredFrom | crm.py:1109-1120 | `scored` lists the matching options in increasing position, with their keys |
| Search.ScoredComplete | crm.py:1118-1120 | every matching option is in `scored` |
| Search.Insert | crm.py:1136 | insertion keeps the list sorted and its multiset |
| Search.Sort | crm.py:1136 | the sort is a permutation, ordered by descending key then position |
| Search.SortedAll | crm.py:1136 | the adjacent order extends to every pair |
| Search.RankingOf | crm.py:1136-1137 | exactly the matching positions, by descending key then position |
| Search.Ranking | crm.py:1109-1137 | the same, stated in terms of the options' matches and keys |
| Search.Limit | crm.py:1134 | `out[:limit] if limit else out` is a prefix of the list, of Python's slice length for positive and negative limits, and the whole list for a falsy limit |
| Search.FirstPos | crm.py:1130 | `pool.index` gives the first position, and fails exactly when the value is absent |
| Search.Picked | crm.py:1127-1132 | the picked options are options, one for each close match that is a key |
| Search.PickedMembers | crm.py:1127-1132 | an option is picked iff `pool.index` selects it for some close match in the pool |
| Search.PickedAppend | crm.py:1128-1132 | the picks follow the order of the close matches |
| Search.DropQuotes | crm.py:1124 | removing `"` leaves no quote, never lengthens the text, and leaves quote-free text unchanged |
| Search.DropQuotesAppend | crm.py:1124 | removal works piece by piece, and a quote on its own is removed |
| Search.ClosePicks | crm.py:1125-1132 | at most 12 options, each of a key within ratio 0.6 of the query's key, and some whenever any key is that close |
| Search.Fallback | crm.py:1122-1134 | raises ValueError exactly for an empty option list; otherwise the close picks, or every option when none is picked, cut by the limit |
| Search.FallbackSize | crm.py:1126-1133 | without a limit the fallback lists every option or at most 12 |
| Search.At | crm.py:1137 | the options at the ranked positions |
| Search.RobustSearchBy | crm.py:1095-1138 | a falsy query or one without groups lists every option; with a match, the ranking cut by the limit; otherwise the fallback |
| Search.RobustSearch | crm.py:1095-1138 | with `_norm_key` and `_score_match`: a falsy query lists every option; only an empty option list raises, with ValueError; only options are listed; without a limit something always is |
| Search.RobustSearchListsOptions | crm.py:1122-1138 | for any key and scoring, every listed entry is an option |
| Search.NeverEmpty | crm.py:1095-1138 | without a limit and with some option, a search always lists something |
| Search.UnmatchedNotListed | crm.py:1113-1120 | an option that no group matches is never ranked |
| SafeNames.SkipBad | crm.py:699 | the run of disallowed characters ends at the first allowed one |
| SafeNames.SubFrom | crm.py:721 | the substitution yields only allowed characters, replaces a leading or trailing disallowed run by "_", and never lengthens the text |
| SafeNames.SubFromRun | crm.py:699-721 | after an allowed prefix, a whole run of disallowed characters becomes a single "_", and the rest is substituted on its own |
| SafeNames.Truncate | crm.py:723 | `s[:150]` is a prefix of at most 150 characters, and the whole text when it is short enough |
| SafeNames.CleanedShape | crm.py:720-722 | the text before truncation is canonical and made of allowed characters |
| SafeNames.SafeName | crm.py:717-723 | `None` gives "", and the result has at most 150 characters |
| SafeNames.SafeNameSafe | crm_lib/utils.py:10-16 | every result has at most 150 allowed characters, single plain spaces, no leading space and no "/" |
| SafeNames.SafeNameFixpoint | crm_project/utils/helpers.py:8-14 | a name already of that shape, not ending in a space, comes back unchanged |
| SafeNames.SafeNameIdempotent | crm.py:717-723 | sanitising twice changes the result exactly when the cut at 150 left a trailing space |
| SafeNames.CrmRangeDropsHyphen | crm.py:699 | with crm.py's class "a-b" becomes "a_b" |
| SafeNames.CrmRangeKeepsBrace | crm.py:699 | with crm.py's class a brace is allowed through |
| SafeNames.LiteralClassKeepsHyphen | crm_lib/utils.py:8 | with a literal class "a-b" is kept |
| SafeNames.LiteralClassReplacesBrace | crm_project/utils/helpers.py:6 | with a literal class "a{b" becomes "a_b" |
| Labels.IsDispersionBy | crm.py:1233-1235 | a status is dispersed iff its key is that of one of the three dispersion spellings |
| Labels.IsDispersion | crm.py:1233-1235 | with `_norm_key`, a status (a missing one read as "") is dispersed iff its key is the key of one of the three spellings |
| Labels.DispersionIgnoresSpacing | crm.py:1233-1235 | the test ignores surrounding and repeated whitespace, and every listed spelling counts |
| Labels.NormSinAsesor | crm.py:2322-2329 | "(sin asesor)" in any case after stripping becomes "(Sin asesor)"; any other text is stripped |
| Labels.NormSinAsesorIdempotent | crm.py:2322-2332 | normalising a label twice equals normalising it once |
| Labels.Labelled | crm.py:2316-2320 | a missing or empty cell takes the label; any other cell is kept |
| Labels.FilterClients | crm.py:2370-2411 | the filtered list is no longer than the table, and every listed client passes every filter |
| Labels.FilterMembers | crm.py:2370-2411 | a client is listed iff it is in the table and every filter lets it through |
| Labels.OpenFiltersKeepAll | crm.py:2373-2394 | empty or complete selections list the whole table |
| Labels.FilterIdempotent | crm.py:2411 | filtering the filtered list changes nothing |
| Users.HashThenVerify | crm.py:1824-1833 | a password verifies against the salt and hash made from it, whatever salt a later check would draw |
| Users.HashPw | crm.py:1824-1829 | a given salt is kept and only a missing one is replaced by the drawn token; the hash is the key derived from the password under the salt returned |
| Users.VerifyPw | crm.py:1831-1833 | with a stored salt the drawn token plays no part: the password verifies iff its key under that salt is the stored hash |
| Users.RehashStable | crm.py:1824-1833 | hashing again under the salt returned reproduces the salt and hash |
| Users.FirstAnswering | crm.py:1987-1988 | finds the first record answering to the name, and none only when no record does |
| Users.AddUser | crm.py:1965-1979 | a blank name or empty password, then an invalid role, then a taken name are rejected in that order without writing; success appends exactly the new record |
| Users.AddKeepsDistinct | crm_lib/auth.py:31-44 | adding keeps the records' names pairwise distinct |
| Users.DeleteUser | crm.py:1981-1993 | a blank name or an unknown user is rejected without writing; otherwise exactly the first answering record is removed, the rest keeping their order |
| Users.DeleteKeepsDistinct | crm_lib/auth.py:46-58 | deleting keeps names distinct and removes one record exactly on success |
| Users.RemoveKeepsDistinct | crm.py:1989 | popping one record keeps names distinct |
| Users.AddThenDelete | crm_project/core/auth.py:54-81 | deleting the user just added restores the records |
| Users.GetUser | crm.py:1954-1963 | returns the first record the stripped, lower-cased identifier finds, and none only when no record is found |
| Users.GetFrom | crm_project/core/auth.py:45-51 | the lookup loop returns the first record found |
| Users.AddThenGet | crm_project/core/auth.py:45-66 | the user just added is the one found by the same name |
| Session.Can | crm_project/core/auth.py:99-102 | an action is allowed iff the user is an admin and the action is `manage_users` or `delete_client` |
| Session.IsAdmin | crm_project/core/auth.py:94-96 | only a logged-in user can be an admin; the permissions table grants every listed action to an admin's role and none to any other role |
| Session.Login | crm_project/core/auth.py:105-110 | a failed login changes nothing; success sets only the logged-in user, to the found record whose password verifies; a found non-empty record with a verifying password always logs in when it has a role; it raises KeyError exactly when such a record has no role |
| Session.Logout | crm_project/core/auth.py:113-117 | nobody is logged in, and exactly the `f_` and `login_` keys are removed, the others keeping their values |
| Session.LogoutRevokes | crm_project/config/settings.py:54-57 | after logout nothing is allowed, and logging out twice equals logging out once |
| Session.AddThenLogin | crm_project/core/auth.py:54-110 | a user just added can log in with the password given, and holds the given role |
| Session.LoginGrants | crm_project/core/auth.py:94-110 | a newly added user who logs in may manage users iff their role is admin |

## Left out

- Unicode decomposition, combining-mark removal, `casefold`, `lower`, `capitalize`, `difflib` ratios and close matches, `int()` and PBKDF2 are opaque `Lib` fields, because their behaviour is Unicode data or numeric algorithms; proofs use only the facts stated about them.
- `\d` is taken as the ASCII digits only; Python's `re` also accepts other Unicode decimal digits.
- Cells are text or missing: a missing cell reads "nan" under `astype(str)`, and other scalar types are represented by their `str()` text.
- Floats are exact reals, so rounding in `len(opt) / 200.0` and in summed scores, and any tie-breaking it could change, is not modelled.
- The order of the results of `get_close_matches` is not modelled; they are assumed only to be qualifying possibilities.
- `unique()` visits values in order of first appearance; the model scans every row, which finds the same first hit.
- Import merge modes, file and Google Sheets I/O, Streamlit widgets, caching and threads are outside the core.
- The inline login and logout panels of crm.py (lines 2081-2115) are left out because they duplicate the modelled `AuthSession`.
- `selectbox_multi`, the sorting of `ASES_ALL` and `FUENTE_ALL`, and the `except` fallback that stops filtering when building a mask raises are user-interface code and are left out.
- A `None` username or text is modelled only where the source handles it with `(x or "")`; crm_project's `username.strip()` on `None` raises AttributeError, which is not modelled.
- users.json records with keys other than user, email, role, salt and hash, JSON `null` values, and a malformed hex salt (`bytes.fromhex` raising ValueError) are not modelled.
- The message texts returned beside the boolean are an `Outcome` value.
- Alias collections in `extra_synonyms` are modelled as a list or a single `str`; other containers (sets, tuples) behave as a list under `in` and are not modelled separately.
- Session.Login: rejects a password exactly when `VerifyPw` fails, but does not promise that a different password fails, because PBKDF2 is opaque here and two passwords may hash alike; `compare_digest` is modelled as equality.
- SafeNames.SafeNameIdempotent: is weaker than plain idempotence, because a 150-character cut can leave a trailing space that a second pass strips; the lemma states exactly when that happens.
- Normalize.NormKeyIdempotentWhen: holds only under its condition on the Unicode fold, because `_norm_key` is not idempotent in general (NFKD of U+00B4 yields a space, as `Normalize.NormKeyNotIdempotent` shows).
- Repair.RepairColumn: does not require repaired ids to look like `C<number>`, because the code keeps any non-blank, unused id as it is, malformed or not.
- Repair.NewId: models Python's `int(nuevo[1:]) + 1` on an id it built itself as `num + 1`.

## Findings

| source | as written | input that shows it | evidently intended | confidence | as-written member | corrected member |
|---|---|---|---|---|---|---|
| crm.py:699 | in the class `[^A-Za-z0-9._\\-áé…]` the text `\\-á` is a range from U+005C to U+00E1, so `-` is not allowed and `{`, `|`, `}`, `~` and Latin-1 symbols are | `safe_name("a-b")` gives "a_b", and `safe_name("a{b")` gives "a{b" | a literal backslash and hyphen, as in crm_lib/utils.py:8 | not executed | SafeNames.CrmRangeDropsHyphen | SafeNames.LiteralClassKeepsHyphen |
