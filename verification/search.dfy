/** `robust_search(q, idx, limit)` of crm.py: rank the options of a text
    index against a query.

    A falsy query, or one that parses to no group, returns every option.
    Otherwise an option is kept when it matches at least one group; its
    rank key is its best group score plus a small length bonus, and the
    kept options are ordered by descending key and then by position. When
    no option matches, `difflib.get_close_matches` against the keys picks
    up to 12 options (cutoff 0.6), or every option when it picks none. A
    truthy `limit` cuts the list with a Python slice. */
module Search {
  import opened Runtime
  import opened Text
  import opened Normalize
  import opened TextIndex
  import opened Query
  import opened Score

  /** `min(0.5, len(opt) / 200.0)`. */
  function Bonus(opt: string): (b: real)
    ensures 0.0 <= b <= 0.5
  {
    var x := |opt| as real / 200.0;
    if x < 0.5 then x else 0.5
  }

  /** Option `i` as `_score_match` sees it. */
  function EntryAt(idx: Index, i: nat): Entry
    requires idx.WellFormed() && i < |idx.opts|
  {
    Entry(idx.norms[i], idx.tokens[i], idx.initials[i])
  }

  /** The loop over the groups for one option, for a scoring `sm`: whether
      any group matches, and `best`, the largest of 0.0 and the scores of
      the groups that do. */
  function Best(sm: (Entry, Group) -> (bool, real), e: Entry, groups: seq<Group>): (r: (bool, real))
    ensures r.0 <==> exists k :: 0 <= k < |groups| && sm(e, groups[k]).0
    ensures r.1 >= 0.0
    ensures forall k :: 0 <= k < |groups| && sm(e, groups[k]).0 ==> sm(e, groups[k]).1 <= r.1
    ensures r.1 == 0.0 || exists k :: 0 <= k < |groups| && sm(e, groups[k]).0 && sm(e, groups[k]).1 == r.1
    ensures !r.0 ==> r.1 == 0.0
  {
    if groups == [] then (false, 0.0)
    else
      var here := sm(e, groups[0]);
      var rest := Best(sm, e, groups[1..]);
      assert forall k :: 1 <= k < |groups| ==> groups[k] == groups[1..][k - 1];
      (here.0 || rest.0, if here.0 && here.1 > rest.1 then here.1 else rest.1)
  }

  /** `_score_match` as the scoring of the search. */
  function ScoreOf(lib: Lib): (Entry, Group) -> (bool, real) {
    (e, g) => ScoreMatch(lib, e, g)
  }

  /** Whether option `i` matches some group. */
  predicate Matches(sm: (Entry, Group) -> (bool, real), idx: Index, groups: seq<Group>, i: nat)
    requires idx.WellFormed() && i < |idx.opts|
  {
    Best(sm, EntryAt(idx, i), groups).0
  }

  /** The rank key of option `i`. */
  function Key(sm: (Entry, Group) -> (bool, real), idx: Index, groups: seq<Group>, i: nat): real
    requires idx.WellFormed() && i < |idx.opts|
  {
    Best(sm, EntryAt(idx, i), groups).1 + Bonus(idx.opts[i])
  }

  /** `(matched, best + bonus)` of every option, in order. */
  function Outcomes(sm: (Entry, Group) -> (bool, real), idx: Index, groups: seq<Group>): (r: seq<(bool, real)>)
    requires idx.WellFormed()
    ensures |r| == |idx.opts|
    ensures forall i :: 0 <= i < |r| ==> r[i] == (Matches(sm, idx, groups, i), Key(sm, idx, groups, i))
  {
    seq(|idx.opts|, i requires 0 <= i < |idx.opts| => (Matches(sm, idx, groups, i), Key(sm, idx, groups, i)))
  }

  /** One entry of `scored`: `(best, i)`. */
  datatype Scored = Scored(key: real, pos: nat)

  /** `scored` from option `i` on, for the outcomes `res` of the options:
      the matching options in order, each with its key. */
  function ScoredFrom(res: seq<(bool, real)>, i: nat): (r: seq<Scored>)
    requires i <= |res|
    ensures forall k :: 0 <= k < |r| ==> i <= r[k].pos < |res| && res[r[k].pos].0 && r[k].key == res[r[k].pos].1
    ensures forall k, l :: 0 <= k < l < |r| ==> r[k].pos < r[l].pos
    decreases |res| - i
  {
    if i == |res| then []
    else
      var rest := ScoredFrom(res, i + 1);
      if res[i].0 then [Scored(res[i].1, i)] + rest else rest
  }

  /** Every matching option from `i` on is in `scored`. */
  lemma {:induction false} ScoredComplete(res: seq<(bool, real)>, i: nat, j: nat)
    requires i <= j < |res| && res[j].0
    ensures j in Positions(ScoredFrom(res, i))
    decreases |res| - i
  {
    var rest := ScoredFrom(res, i + 1);
    if j != i {
      ScoredComplete(res, i + 1, j);
    }
    if res[i].0 {
      PositionsCons(Scored(res[i].1, i), rest);
    }
  }

  lemma PositionsCons(x: Scored, rest: seq<Scored>)
    ensures Positions([x] + rest) == [x.pos] + Positions(rest)
  {
  }

  /** `(-key, pos)` ordering: a higher key first, ties by position. */
  predicate Before(a: Scored, b: Scored) {
    a.key > b.key || (a.key == b.key && a.pos < b.pos)
  }

  predicate SortedAdj(s: seq<Scored>) {
    forall k :: 0 <= k < |s| - 1 ==> Before(s[k], s[k + 1])
  }

  /** Inserting into a sorted list. */
  function Insert(x: Scored, s: seq<Scored>): (r: seq<Scored>)
    requires SortedAdj(s) && forall k :: 0 <= k < |s| ==> s[k].pos != x.pos
    ensures multiset(r) == multiset(s) + multiset{x}
    ensures |r| == |s| + 1
    ensures SortedAdj(r)
    ensures r[0] == x || (s != [] && r[0] == s[0])
    decreases |s|
  {
    if s == [] || Before(x, s[0]) then [x] + s
    else
      var rest := Insert(x, s[1..]);
      assert s == [s[0]] + s[1..];
      assert Before(s[0], rest[0]);
      [s[0]] + rest
  }

  /** `scored.sort(key=lambda x: (-x[0], x[1]))`. */
  function Sort(s: seq<Scored>): (r: seq<Scored>)
    requires forall k, l :: 0 <= k < l < |s| ==> s[k].pos != s[l].pos
    ensures multiset(r) == multiset(s)
    ensures SortedAdj(r)
    decreases |s|
  {
    if s == [] then []
    else
      var rest := Sort(s[1..]);
      RestAvoids(s, rest);
      assert s == [s[0]] + s[1..];
      Insert(s[0], rest)
  }

  /** A reordering of the tail holds no entry at the head's position. */
  lemma RestAvoids(s: seq<Scored>, rest: seq<Scored>)
    requires s != [] && forall k, l :: 0 <= k < l < |s| ==> s[k].pos != s[l].pos
    requires multiset(rest) == multiset(s[1..])
    ensures forall k :: 0 <= k < |rest| ==> rest[k].pos != s[0].pos
  {
    forall k | 0 <= k < |rest| ensures rest[k].pos != s[0].pos {
      assert rest[k] in multiset(s[1..]);
      var m :| 0 <= m < |s[1..]| && s[1..][m] == rest[k];
      assert s[m + 1] == rest[k];
    }
  }

  /** Adjacent order is order: every earlier entry comes before every
      later one. */
  lemma {:induction false} SortedAll(s: seq<Scored>, k: nat, l: nat)
    requires SortedAdj(s) && k < l < |s|
    ensures Before(s[k], s[l])
    decreases l - k
  {
    if k + 1 < l {
      SortedAll(s, k + 1, l);
    }
  }

  /** `out[:limit] if limit else out`, with Python's slice for a negative
      limit. */
  function Limit(out: seq<string>, limit: Option<int>): (r: seq<string>)
    // always a prefix of the list
    ensures r <= out
    // all of it for a falsy limit
    ensures limit.None? || limit.value == 0 ==> r == out
    // the first `limit` entries for a positive one
    ensures limit.Some? && limit.value > 0 ==> |r| == if limit.value < |out| then limit.value else |out|
    // all but the last `-limit` entries for a negative one
    ensures limit.Some? && limit.value < 0 ==> |r| == if -limit.value < |out| then |out| + limit.value else 0
  {
    if limit.None? || limit.value == 0 then out
    else if limit.value > 0 then out[..if limit.value < |out| then limit.value else |out|]
    else out[..if -limit.value < |out| then |out| + limit.value else 0]
  }

  /** `pool.index(val)`: the first position of `val`, if any. */
  function FirstPos(pool: seq<string>, val: string): (r: Option<nat>)
    ensures r.Some? ==>
      r.value < |pool| && pool[r.value] == val && forall j :: 0 <= j < r.value ==> pool[j] != val
    ensures r.None? <==> val !in pool
    decreases |pool|
  {
    if pool == [] then None
    else if pool[0] == val then Some(0)
    else match FirstPos(pool[1..], val)
      case None => None
      case Some(j) => Some(j + 1)
  }

  /** The options at the first positions of the close matches, skipping a
      match not in the pool. */
  function Picked(idx: Index, close: seq<string>): (r: seq<string>)
    requires idx.WellFormed()
    ensures |r| <= |close|
    ensures forall k :: 0 <= k < |r| ==> r[k] in idx.opts
    ensures (exists k :: 0 <= k < |close| && close[k] in idx.norms) ==> r != []
    // when every match is in the pool, one option per match
    ensures (forall k :: 0 <= k < |close| ==> close[k] in idx.norms) ==> |r| == |close|
  {
    if close == [] then []
    else
      var rest := Picked(idx, close[1..]);
      match FirstPos(idx.norms, close[0])
      case None => rest
      case Some(j) => [idx.opts[j]] + rest
  }

  /** The option `pool.index(val)` selects. */
  function OptionOf(idx: Index, val: string): string
    requires idx.WellFormed() && val in idx.norms
  {
    idx.opts[FirstPos(idx.norms, val).value]
  }

  /** The picks of two runs of matches are those of the first run followed
      by those of the second. */
  lemma {:induction false} PickedAppend(idx: Index, a: seq<string>, b: seq<string>)
    requires idx.WellFormed()
    ensures Picked(idx, a + b) == Picked(idx, a) + Picked(idx, b)
    decreases |a|
  {
    if a == [] {
      assert a + b == b;
    } else {
      PickedAppend(idx, a[1..], b);
      assert (a + b)[0] == a[0];
      assert (a + b)[1..] == a[1..] + b;
      if a[0] in idx.norms {
        assert [OptionOf(idx, a[0])] + (Picked(idx, a[1..]) + Picked(idx, b))
            == ([OptionOf(idx, a[0])] + Picked(idx, a[1..])) + Picked(idx, b);
      }
    }
  }

  /** An option is picked exactly when it is the one `pool.index` selects
      for some close match in the pool. */
  lemma {:induction false} PickedMembers(idx: Index, close: seq<string>, x: string)
    requires idx.WellFormed()
    ensures x in Picked(idx, close) <==>
      exists k :: 0 <= k < |close| && close[k] in idx.norms && x == OptionOf(idx, close[k])
    decreases |close|
  {
    if close != [] {
      PickedMembers(idx, close[1..], x);
      assert forall k :: 1 <= k < |close| ==> close[k] == close[1..][k - 1];
      if close[0] in idx.norms && x == OptionOf(idx, close[0]) {
        assert x in Picked(idx, close);
      }
    }
  }

  /** `re.sub(r'"', "", q)`: the characters of `q` other than `"`. */
  function Unquote(q: string): string
    decreases |q|
  {
    if q == [] then [] else (if q[0] == '"' then [] else [q[0]]) + Unquote(q[1..])
  }

  lemma {:induction false} UnquoteAppend(a: string, b: string)
    ensures Unquote(a + b) == Unquote(a) + Unquote(b)
    decreases |a|
  {
    if a == [] {
      assert a + b == b;
    } else {
      UnquoteAppend(a[1..], b);
      assert (a + b)[0] == a[0];
      assert (a + b)[1..] == a[1..] + b;
      var h: string := if a[0] == '"' then [] else [a[0]];
      var x, y := Unquote(a[1..]), Unquote(b);
      assert h + (x + y) == (h + x) + y;
    }
  }

  lemma {:induction false} UnquoteFacts(q: string)
    ensures '"' !in Unquote(q) && |Unquote(q)| <= |q|
    ensures '"' !in q ==> Unquote(q) == q
    decreases |q|
  {
    if q != [] {
      UnquoteFacts(q[1..]);
      if '"' !in q {
        assert '"' !in q[1..];
        assert q == [q[0]] + q[1..];
      }
    }
  }

  /** `re.sub(r'"', "", q)`. */
  function DropQuotes(q: string): (r: string)
    ensures '"' !in r && |r| <= |q|
    // text without quotes is kept as it is
    ensures '"' !in q ==> r == q
  {
    UnquoteFacts(q);
    Unquote(q)
  }

  /** Removing quotes works piece by piece, so every other character is
      kept, in order, and a quote is dropped. */
  lemma DropQuotesAppend(a: string, b: string)
    ensures DropQuotes(a + b) == DropQuotes(a) + DropQuotes(b)
    ensures DropQuotes("\"") == []
  {
    UnquoteAppend(a, b);
    assert "\""[1..] == [];
  }

  /** The cutoff and the largest count of the fallback. */
  const CloseCutoff: real := 0.6
  const CloseMax := 12

  /** The key the fallback compares against: the query without quotes. */
  function FallbackKey(keyOf: string -> string, q: string): string {
    keyOf(DropQuotes(q))
  }

  /** `min(12, len(pool))`. */
  function CloseCount(idx: Index): nat {
    if CloseMax < |idx.norms| then CloseMax else |idx.norms|
  }

  /** What `get_close_matches` returns for the query's key over the pool. */
  function CloseOf(keyOf: string -> string, lib: Lib, q: string, idx: Index): seq<string> {
    lib.closeMatches(FallbackKey(keyOf, q), idx.norms, CloseCount(idx), CloseCutoff)
  }

  /** The picks are at most 12 options of keys within ratio 0.6 of the
      query's key, and some whenever any key is that close. */
  lemma CloseOfPicks(keyOf: string -> string, lib: Lib, q: string, idx: Index)
    requires idx.WellFormed() && |idx.opts| > 0
    ensures var r := Picked(idx, CloseOf(keyOf, lib, q, idx));
      CloseMatchesSound(lib) ==>
      && |r| <= CloseMax
      && (forall x :: x in r ==>
            exists j :: 0 <= j < |idx.opts| && x == idx.opts[j] && lib.ratio(idx.norms[j], FallbackKey(keyOf, q)) >= CloseCutoff)
      && ((exists j :: 0 <= j < |idx.opts| && lib.ratio(idx.norms[j], FallbackKey(keyOf, q)) >= CloseCutoff) ==>
            r != [])
  {
    if !CloseMatchesSound(lib) {
      return;
    }
    var close := CloseOf(keyOf, lib, q, idx);
    var r := Picked(idx, close);
    forall x | x in r
      ensures exists j :: 0 <= j < |idx.opts| && x == idx.opts[j] && lib.ratio(idx.norms[j], FallbackKey(keyOf, q)) >= CloseCutoff
    {
      PickedMembers(idx, close, x);
      var k :| 0 <= k < |close| && close[k] in idx.norms && x == OptionOf(idx, close[k]);
      assert close[k] in close;
      var j := FirstPos(idx.norms, close[k]).value;
      assert idx.norms[j] == close[k];
    }
    if exists j :: 0 <= j < |idx.opts| && lib.ratio(idx.norms[j], FallbackKey(keyOf, q)) >= CloseCutoff {
      var j :| 0 <= j < |idx.opts| && lib.ratio(idx.norms[j], FallbackKey(keyOf, q)) >= CloseCutoff;
      assert idx.norms[j] in idx.norms;
      assert |close| >= 1;
      assert close[0] in close;
    }
  }

  /** The options the fallback picks: those of the keys `get_close_matches`
      returns for the query's key, with `n = min(12, len(pool))` and cutoff
      0.6, over a non-empty pool. */
  function ClosePicks(keyOf: string -> string, lib: Lib, q: string, idx: Index): (r: seq<string>)
    requires idx.WellFormed() && |idx.opts| > 0
    ensures forall k :: 0 <= k < |r| ==> r[k] in idx.opts
    // at most 12, each the option of a key within ratio 0.6 of the query's
    // key, and some whenever any key is that close
    ensures CloseMatchesSound(lib) ==>
      && |r| <= CloseMax
      && (forall x :: x in r ==>
            exists j :: 0 <= j < |idx.opts| && x == idx.opts[j] && lib.ratio(idx.norms[j], FallbackKey(keyOf, q)) >= CloseCutoff)
      && ((exists j :: 0 <= j < |idx.opts| && lib.ratio(idx.norms[j], FallbackKey(keyOf, q)) >= CloseCutoff) ==>
            r != [])
  {
    CloseOfPicks(keyOf, lib, q, idx);
    Picked(idx, CloseOf(keyOf, lib, q, idx))
  }

  /** The fallback when nothing matches: `get_close_matches` raises for an
      empty option list (n = 0). */
  function Fallback(keyOf: string -> string, lib: Lib, q: string, idx: Index, limit: Option<int>): (r: Result<seq<string>>)
    requires idx.WellFormed()
    ensures r.Raise? <==> |idx.opts| == 0
    ensures r.Raise? ==> r.error == ValueError
    ensures r.Ok? ==> forall k :: 0 <= k < |r.value| ==> r.value[k] in idx.opts
    // with no limit the result is never empty
    ensures r.Ok? && (limit.None? || limit.value == 0) ==> r.value != []
    // the picked options, or every option when none is picked, cut by the
    // limit
    ensures r.Ok? ==> (
      && |idx.opts| > 0
      && var picks := ClosePicks(keyOf, lib, q, idx);
         r.value == Limit(if picks == [] then idx.opts else picks, limit))
  {
    match GetCloseMatches(lib, FallbackKey(keyOf, q), idx.norms, CloseCount(idx), CloseCutoff)
    case None => Raise(ValueError)
    case Some(close) =>
      var out := Picked(idx, close);
      var out' := if out == [] then idx.opts else out;
      Ok(Limit(out', limit))
  }

  /** Without a limit, the fallback lists at most 12 options, or all of
      them. */
  lemma FallbackSize(keyOf: string -> string, lib: Lib, q: string, idx: Index)
    requires idx.WellFormed() && CloseMatchesSound(lib)
    ensures var r := Fallback(keyOf, lib, q, idx, None);
      r.Ok? ==> r.value == idx.opts || |r.value| <= CloseMax
  {
  }

  /** The positions of a list of entries. */
  function Positions(s: seq<Scored>): (r: seq<nat>)
    ensures |r| == |s| && forall k :: 0 <= k < |s| ==> r[k] == s[k].pos
  {
    seq(|s|, k requires 0 <= k < |s| => s[k].pos)
  }

  /** Reordering keeps the positions present. */
  lemma SamePositions(a: seq<Scored>, b: seq<Scored>, i: nat)
    requires multiset(a) == multiset(b)
    ensures i in Positions(a) <==> i in Positions(b)
  {
    if i in Positions(a) {
      var k :| 0 <= k < |a| && a[k].pos == i;
      assert a[k] in multiset(b);
      var m :| 0 <= m < |b| && b[m] == a[k];
      assert Positions(b)[m] == i;
    }
    if i in Positions(b) {
      var k :| 0 <= k < |b| && b[k].pos == i;
      assert b[k] in multiset(a);
      var m :| 0 <= m < |a| && a[m] == b[k];
      assert Positions(a)[m] == i;
    }
  }

  /** The positions in `scored` are exactly the matching options. */
  lemma ScoredPositions(res: seq<(bool, real)>, i: nat)
    requires i < |res|
    ensures i in Positions(ScoredFrom(res, 0)) <==> res[i].0
  {
    if res[i].0 {
      ScoredComplete(res, 0, i);
    }
  }

  /** Every entry of the sorted list is an entry of `scored`. */
  lemma SortedEntries(res: seq<(bool, real)>, sorted: seq<Scored>, k: nat)
    requires multiset(sorted) == multiset(ScoredFrom(res, 0)) && k < |sorted|
    ensures sorted[k].pos < |res| && sorted[k].key == res[sorted[k].pos].1
  {
    assert sorted[k] in multiset(ScoredFrom(res, 0));
  }

  /** `[i for _, i in sorted(scored)]` for the outcomes `res`. */
  function RankingOf(res: seq<(bool, real)>): (r: seq<nat>)
    // exactly the matching options
    ensures forall i :: 0 <= i < |res| ==> (i in r <==> res[i].0)
    ensures forall k :: 0 <= k < |r| ==> r[k] < |res|
    // by descending key, then by position
    ensures forall k, l :: 0 <= k < l < |r| ==>
      res[r[k]].1 > res[r[l]].1 || (res[r[k]].1 == res[r[l]].1 && r[k] < r[l])
  {
    var scored := ScoredFrom(res, 0);
    var sorted := Sort(scored);
    var r := Positions(sorted);
    assert forall i :: 0 <= i < |res| ==> (i in r <==> res[i].0) by {
      forall i | 0 <= i < |res| ensures i in r <==> res[i].0 {
        ScoredPositions(res, i);
        SamePositions(sorted, scored, i);
      }
    }
    assert forall k :: 0 <= k < |r| ==> r[k] < |res| && sorted[k].key == res[r[k]].1 by {
      forall k | 0 <= k < |r| ensures r[k] < |res| && sorted[k].key == res[r[k]].1 {
        SortedEntries(res, sorted, k);
      }
    }
    assert forall k, l :: 0 <= k < l < |r| ==> Before(sorted[k], sorted[l]) by {
      forall k, l | 0 <= k < l < |r| ensures Before(sorted[k], sorted[l]) {
        SortedAll(sorted, k, l);
      }
    }
    r
  }

  /** The ranked positions of the matching options. */
  function Ranking(sm: (Entry, Group) -> (bool, real), idx: Index, groups: seq<Group>): (r: seq<nat>)
    requires idx.WellFormed()
    // exactly the matching options
    ensures forall i :: 0 <= i < |idx.opts| ==> (i in r <==> Matches(sm, idx, groups, i))
    ensures forall k :: 0 <= k < |r| ==> r[k] < |idx.opts|
    // by descending key, then by position
    ensures forall k, l :: 0 <= k < l < |r| ==>
      Key(sm, idx, groups, r[k]) > Key(sm, idx, groups, r[l]) ||
      (Key(sm, idx, groups, r[k]) == Key(sm, idx, groups, r[l]) && r[k] < r[l])
  {
    RankingOf(Outcomes(sm, idx, groups))
  }

  /** The options at the ranked positions. */
  function At(idx: Index, rk: seq<nat>): (r: seq<string>)
    requires forall k :: 0 <= k < |rk| ==> rk[k] < |idx.opts|
    ensures |r| == |rk| && forall k :: 0 <= k < |rk| ==> r[k] == idx.opts[rk[k]]
  {
    seq(|rk|, k requires 0 <= k < |rk| => idx.opts[rk[k]])
  }

  /** `robust_search(q, idx, limit)` for the key function `keyOf` and the
      scoring `sm`. */
  function RobustSearchBy(keyOf: string -> string, sm: (Entry, Group) -> (bool, real), lib: Lib,
                          q: Option<string>, idx: Index, limit: Option<int>): (r: Result<seq<string>>)
    requires idx.WellFormed()
    // a falsy query, or one without groups, lists every option, ignoring
    // the limit
    ensures q.None? || q.value == [] || ParseQuery(keyOf, q) == [] ==> r == Ok(idx.opts)
    // when some option matches, the result is the ranking, cut by the limit
    ensures (q.Some? && q.value != [] && ParseQuery(keyOf, q) != [] &&
             exists i :: 0 <= i < |idx.opts| && Matches(sm, idx, ParseQuery(keyOf, q), i)) ==>
      r == Ok(Limit(At(idx, Ranking(sm, idx, ParseQuery(keyOf, q))), limit))
    // otherwise it is the fallback
    ensures (q.Some? && q.value != [] && ParseQuery(keyOf, q) != [] &&
             forall i :: 0 <= i < |idx.opts| ==> !Matches(sm, idx, ParseQuery(keyOf, q), i)) ==>
      r == Fallback(keyOf, lib, q.value, idx, limit)
  {
    if q.None? || q.value == [] then Ok(idx.opts)
    else
      var groups := ParseQuery(keyOf, q);
      if groups == [] then Ok(idx.opts)
      else
        var rk := Ranking(sm, idx, groups);
        if rk == [] then Fallback(keyOf, lib, q.value, idx, limit)
        else
          assert rk[0] in rk;
          Ok(Limit(At(idx, rk), limit))
  }

  /** `robust_search` of crm.py: queries and options keyed by `_norm_key`,
      scored by `_score_match` with the library's ratio. */
  function RobustSearch(lib: Lib, q: Option<string>, idx: Index, limit: Option<int>): (r: Result<seq<string>>)
    requires idx.WellFormed()
    // a falsy query lists every option
    ensures q.None? || q.value == [] ==> r == Ok(idx.opts)
    // only an empty option list can make it raise, and then ValueError
    ensures r.Raise? ==> |idx.opts| == 0 && r.error == ValueError
    // whatever it lists is one of the options
    ensures r.Ok? ==> forall k :: 0 <= k < |r.value| ==> r.value[k] in idx.opts
    // with no limit and some option, something is always listed
    ensures |idx.opts| > 0 && limit.None? ==> r.Ok? && r.value != []
  {
    RobustSearchRaises(KeyOf(lib), ScoreOf(lib), lib, q, idx, limit);
    RobustSearchListsOptions(KeyOf(lib), ScoreOf(lib), lib, q, idx, limit);
    if |idx.opts| > 0 then
      NeverEmpty(KeyOf(lib), ScoreOf(lib), lib, q, idx);
      RobustSearchBy(KeyOf(lib), ScoreOf(lib), lib, q, idx, limit)
    else
      RobustSearchBy(KeyOf(lib), ScoreOf(lib), lib, q, idx, limit)
  }

  /** A ranked list cut by the limit lists options only. */
  lemma LimitAtIn(idx: Index, rk: seq<nat>, limit: Option<int>)
    requires forall k :: 0 <= k < |rk| ==> rk[k] < |idx.opts|
    ensures var out := Limit(At(idx, rk), limit);
      forall k :: 0 <= k < |out| ==> out[k] in idx.opts
  {
    var all := At(idx, rk);
    var out := Limit(all, limit);
    forall k | 0 <= k < |out| ensures out[k] in idx.opts {
      assert out[k] == all[k] == idx.opts[rk[k]];
    }
  }

  /** Only an empty option list can make the search raise: the ranking
      never does, and the fallback raises only then. */
  lemma RobustSearchRaises(keyOf: string -> string, sm: (Entry, Group) -> (bool, real), lib: Lib,
                           q: Option<string>, idx: Index, limit: Option<int>)
    requires idx.WellFormed()
    ensures var r := RobustSearchBy(keyOf, sm, lib, q, idx, limit);
      r.Raise? ==> |idx.opts| == 0 && r.error == ValueError
  {
  }

  /** The search lists options only. */
  lemma RobustSearchListsOptions(keyOf: string -> string, sm: (Entry, Group) -> (bool, real), lib: Lib,
                                 q: Option<string>, idx: Index, limit: Option<int>)
    requires idx.WellFormed()
    ensures var r := RobustSearchBy(keyOf, sm, lib, q, idx, limit);
      r.Ok? ==> forall k :: 0 <= k < |r.value| ==> r.value[k] in idx.opts
  {
    if q.Some? && q.value != [] {
      var groups := ParseQuery(keyOf, q);
      if groups != [] {
        LimitAtIn(idx, Ranking(sm, idx, groups), limit);
      }
    }
  }

  /** With no limit and a non-empty option list, a query always finds
      something. */
  lemma NeverEmpty(keyOf: string -> string, sm: (Entry, Group) -> (bool, real), lib: Lib, q: Option<string>, idx: Index)
    requires idx.WellFormed() && |idx.opts| > 0
    ensures var r := RobustSearchBy(keyOf, sm, lib, q, idx, None);
      r.Ok? && r.value != []
  {
    if q.Some? && q.value != [] {
      var groups := ParseQuery(keyOf, q);
      if groups != [] {
        var rk := Ranking(sm, idx, groups);
        if rk != [] {
          assert rk[0] in rk;
        }
      }
    }
  }

  /** An option that no group of the query matches is never listed when
      some other option matches. */
  lemma UnmatchedNotListed(keyOf: string -> string, lib: Lib, q: string, idx: Index, i: nat)
    requires idx.WellFormed() && i < |idx.opts|
    requires forall k :: 0 <= k < |ParseQuery(keyOf, Some(q))| ==>
      !ScoreMatch(lib, EntryAt(idx, i), ParseQuery(keyOf, Some(q))[k]).0
    ensures i !in Ranking(ScoreOf(lib), idx, ParseQuery(keyOf, Some(q)))
  {
    var groups := ParseQuery(keyOf, Some(q));
    assert !Matches(ScoreOf(lib), idx, groups, i);
  }
}
