/** `_score_match(opt_norm, opt_tokens, opt_initials, group)` of crm.py: does
    one option match one OR-group, and how well.

    An excluded term (its trailing `*`s removed) that starts one of the
    option's words or occurs in its key rejects the option. Every phrase
    must occur in the key, for 3.0 each. Every required term must reach the
    first rung of a ladder that applies to it: an exact word 2.0, the start
    of a word 1.6 for a term ending in `*` and 1.4 otherwise, a substring of
    the key 1.2, the start of the initials 1.0, a `difflib` ratio against
    the key of at least 0.82 for 0.8. Scores are exact reals here. */
module Score {
  import opened Runtime
  import opened Text
  import opened Query

  /** The option as the index holds it. */
  datatype Entry = Entry(norm: string, tokens: set<string>, initials: string)

  /** `difflib` ratio a required term needs against the key. */
  const FuzzyCutoff: real := 0.82

  /** `x.rstrip("*")`. */
  function Base(term: string): string {
    RStripChar(term, '*')
  }

  /** `any(t.startswith(b) for t in tokens)`. */
  predicate StartsSomeWord(e: Entry, b: string) {
    exists t :: t in e.tokens && StartsWith(t, b)
  }

  /** The excluded term `ex` rejects the option. */
  predicate Excludes(e: Entry, ex: string) {
    StartsSomeWord(e, Base(ex)) || Contains(e.norm, Base(ex))
  }

  /** The rungs of the ladder for a required term. */
  datatype Rung = ExactWord | WordStart | InKey | InitialsStart | Fuzzy

  /** The first rung the required term `req` reaches, if any. */
  function RungOf(lib: Lib, e: Entry, req: string): (r: Option<Rung>)
    // each rung is taken exactly when it applies and no earlier one does
    ensures r == Some(ExactWord) <==> Base(req) in e.tokens
    ensures r == Some(WordStart) <==> Base(req) !in e.tokens && StartsSomeWord(e, Base(req))
    ensures r == Some(InKey) <==>
      && Base(req) !in e.tokens
      && !StartsSomeWord(e, Base(req))
      && Contains(e.norm, Base(req))
    ensures r == Some(InitialsStart) <==>
      && Base(req) !in e.tokens
      && !StartsSomeWord(e, Base(req))
      && !Contains(e.norm, Base(req))
      && StartsWith(e.initials, Base(req))
    ensures r == Some(Fuzzy) <==>
      && Base(req) !in e.tokens
      && !StartsSomeWord(e, Base(req))
      && !Contains(e.norm, Base(req))
      && !StartsWith(e.initials, Base(req))
      && lib.ratio(Base(req), e.norm) >= FuzzyCutoff
    ensures r.None? <==>
      && Base(req) !in e.tokens
      && !StartsSomeWord(e, Base(req))
      && !Contains(e.norm, Base(req))
      && !StartsWith(e.initials, Base(req))
      && lib.ratio(Base(req), e.norm) < FuzzyCutoff
  {
    var b := Base(req);
    if b in e.tokens then Some(ExactWord)
    else if StartsSomeWord(e, b) then Some(WordStart)
    else if Contains(e.norm, b) then Some(InKey)
    else if StartsWith(e.initials, b) then Some(InitialsStart)
    else if lib.ratio(b, e.norm) >= FuzzyCutoff then Some(Fuzzy)
    else None
  }

  /** `req.endswith("*")`. */
  predicate EndsWithStar(req: string) {
    |req| > 0 && req[|req| - 1] == '*'
  }

  /** The position of a rung on the ladder, top first. */
  function Step(rung: Rung): nat {
    match rung
    case ExactWord => 0
    case WordStart => 1
    case InKey => 2
    case InitialsStart => 3
    case Fuzzy => 4
  }

  /** The points of a rung; only the word-start rung looks at the `*`. */
  function Weight(rung: Rung, req: string): (w: real)
    ensures 0.8 <= w <= 2.0
    ensures rung == ExactWord ==> w == 2.0
    ensures rung == WordStart ==> w == (if EndsWithStar(req) then 1.6 else 1.4)
    ensures rung == InKey ==> w == 1.2
    ensures rung == InitialsStart ==> w == 1.0
    ensures rung == Fuzzy ==> w == 0.8
  {
    match rung
    case ExactWord => 2.0
    case WordStart => if EndsWithStar(req) then 1.6 else 1.4
    case InKey => 1.2
    case InitialsStart => 1.0
    case Fuzzy => 0.8
  }

  /** The loop over the excluded terms: true when none rejects. */
  function NoneExcludes(e: Entry, exs: seq<string>): (r: bool)
    ensures r <==> forall k :: 0 <= k < |exs| ==> !Excludes(e, exs[k])
  {
    if exs == [] then true
    else !Excludes(e, exs[0]) && NoneExcludes(e, exs[1..])
  }

  /** The loop over the phrases: their points, or None at the first one
      missing from the key. */
  function PhraseScore(e: Entry, phs: seq<string>): (r: Option<real>)
    ensures r.Some? <==> forall k :: 0 <= k < |phs| ==> Contains(e.norm, phs[k])
    ensures r.Some? ==> r.value == 3.0 * |phs| as real
  {
    if phs == [] then Some(0.0)
    else if !Contains(e.norm, phs[0]) then None
    else match PhraseScore(e, phs[1..])
      case None => None
      case Some(s) => Some(3.0 + s)
  }

  /** The loop over the required terms, for any choice of each term's rung:
      the sum of their rung points, or None at the first term without a
      rung. */
  function SumBy(rungOf: string -> Option<Rung>, reqs: seq<string>): (r: Option<real>)
    ensures r.Some? <==> forall k :: 0 <= k < |reqs| ==> rungOf(reqs[k]).Some?
    ensures r.Some? ==> 0.8 * |reqs| as real <= r.value <= 2.0 * |reqs| as real
  {
    if reqs == [] then Some(0.0)
    else match rungOf(reqs[0])
      case None => None
      case Some(rung) =>
        match SumBy(rungOf, reqs[1..])
        case None => None
        case Some(s) => Some(Weight(rung, reqs[0]) + s)
  }

  /** The points of two runs of terms add up. */
  lemma {:induction false} SumByAppend(rungOf: string -> Option<Rung>, a: seq<string>, b: seq<string>)
    requires SumBy(rungOf, a).Some? && SumBy(rungOf, b).Some?
    ensures SumBy(rungOf, a + b) == Some(SumBy(rungOf, a).value + SumBy(rungOf, b).value)
    decreases |a|
  {
    if a == [] {
      assert a + b == b;
    } else {
      SumByAppend(rungOf, a[1..], b);
      assert (a + b)[0] == a[0];
      assert (a + b)[1..] == a[1..] + b;
    }
  }

  /** The loop over the required terms of `_score_match`. */
  function ReqScore(lib: Lib, e: Entry, reqs: seq<string>): (r: Option<real>)
    ensures r.Some? <==> forall k :: 0 <= k < |reqs| ==> RungOf(lib, e, reqs[k]).Some?
    ensures r.Some? ==> 0.8 * |reqs| as real <= r.value <= 2.0 * |reqs| as real
  {
    SumBy(req => RungOf(lib, e, req), reqs)
  }

  /** `_score_match(...)`: `(matched, score)`. */
  function ScoreMatch(lib: Lib, e: Entry, g: Group): (r: (bool, real))
    // the option matches exactly when no excluded term rejects it, every
    // phrase occurs in its key and every required term reaches a rung
    ensures r.0 <==>
      && (forall k :: 0 <= k < |g.exclude| ==> !Excludes(e, g.exclude[k]))
      && (forall k :: 0 <= k < |g.phrases| ==> Contains(e.norm, g.phrases[k]))
      && (forall k :: 0 <= k < |g.req| ==> RungOf(lib, e, g.req[k]).Some?)
    // a rejected option scores 0.0
    ensures !r.0 ==> r.1 == 0.0
    // a match scores 3.0 per phrase and between 0.8 and 2.0 per required term
    ensures r.0 ==>
      3.0 * |g.phrases| as real + 0.8 * |g.req| as real <= r.1 <= 3.0 * |g.phrases| as real + 2.0 * |g.req| as real
    // and precisely: the phrase points plus the rung points of the terms
    ensures r.0 ==> r.1 == 3.0 * |g.phrases| as real + ReqScore(lib, e, g.req).value
  {
    if !NoneExcludes(e, g.exclude) then (false, 0.0)
    else match PhraseScore(e, g.phrases)
      case None => (false, 0.0)
      case Some(p) =>
        match ReqScore(lib, e, g.req)
        case None => (false, 0.0)
        case Some(q) => (true, p + q)
  }

  /** An excluded term that occurs in the key rejects the option, whatever
      the rest of the group says. */
  lemma ExcludedNeverMatches(lib: Lib, e: Entry, g: Group, k: nat)
    requires k < |g.exclude| && Contains(e.norm, Base(g.exclude[k]))
    ensures ScoreMatch(lib, e, g) == (false, 0.0)
  {
  }

  /** An exclusion that is only `*`s strips to "", which occurs in every
      key, so such a group matches nothing. */
  lemma StarExclusionMatchesNothing(lib: Lib, e: Entry, g: Group, k: nat)
    requires k < |g.exclude| && forall i :: 0 <= i < |g.exclude[k]| ==> g.exclude[k][i] == '*'
    ensures !ScoreMatch(lib, e, g).0
  {
    assert Base(g.exclude[k]) == [];
    ContainsPrefix(e.norm, []);
  }

  /** A group with nothing in it matches every option with score 0.0. */
  lemma EmptyGroupMatchesAll(lib: Lib, e: Entry)
    ensures ScoreMatch(lib, e, Group([], [], [])) == (true, 0.0)
  {
  }

  /** A required term that is one of the option's words scores the top
      rung, 2.0. */
  lemma ExactWordScoresTwo(lib: Lib, e: Entry, req: string)
    requires '*' !in req && req in e.tokens
    ensures ScoreMatch(lib, e, Group([req], [], [])) == (true, 2.0)
  {
    assert Base(req) == req;
  }

  /** Every step down the ladder loses points, so an earlier rung always
      outscores a later one. */
  lemma LadderDescends(a: Rung, b: Rung, req: string)
    requires Step(a) < Step(b)
    ensures Weight(a, req) > Weight(b, req)
  {
  }

  /** The rung points of two runs of required terms add up. */
  lemma ReqScoreAppend(lib: Lib, e: Entry, a: seq<string>, b: seq<string>)
    requires ReqScore(lib, e, a).Some? && ReqScore(lib, e, b).Some?
    ensures ReqScore(lib, e, a + b) == Some(ReqScore(lib, e, a).value + ReqScore(lib, e, b).value)
  {
    SumByAppend(req => RungOf(lib, e, req), a, b);
  }

  /** One required term scores its rung's points, or fails when it reaches
      none; with `ReqScoreAppend` this gives the score of any list of
      terms as the sum of their rung points. */
  lemma ReqScoreOne(lib: Lib, e: Entry, req: string)
    ensures ReqScore(lib, e, [req]) ==
      (if RungOf(lib, e, req).Some? then Some(Weight(RungOf(lib, e, req).value, req)) else None)
  {
    assert [req][1..] == [];
  }

  /** A group with one required term matches exactly when the term reaches a
      rung, and then scores that rung's points. */
  lemma OneTermScore(lib: Lib, e: Entry, req: string)
    ensures ScoreMatch(lib, e, Group([req], [], [])) ==
      (if RungOf(lib, e, req).Some? then (true, Weight(RungOf(lib, e, req).value, req)) else (false, 0.0))
  {
    ReqScoreOne(lib, e, req);
  }

  /** A required term that starts one of the option's words without being
      one scores 1.6 when it ends in `*` and 1.4 otherwise. */
  lemma WordStartScores(lib: Lib, e: Entry, req: string)
    requires Base(req) !in e.tokens && StartsSomeWord(e, Base(req))
    ensures ScoreMatch(lib, e, Group([req], [], [])) == (true, if EndsWithStar(req) then 1.6 else 1.4)
  {
    OneTermScore(lib, e, req);
  }

  /** A required term found only inside the key scores 1.2. */
  lemma InKeyScores(lib: Lib, e: Entry, req: string)
    requires Base(req) !in e.tokens && !StartsSomeWord(e, Base(req)) && Contains(e.norm, Base(req))
    ensures ScoreMatch(lib, e, Group([req], [], [])) == (true, 1.2)
  {
    OneTermScore(lib, e, req);
  }

  /** A required term found only at the start of the initials scores 1.0. */
  lemma InitialsScore(lib: Lib, e: Entry, req: string)
    requires Base(req) !in e.tokens && !StartsSomeWord(e, Base(req)) && !Contains(e.norm, Base(req))
    requires StartsWith(e.initials, Base(req))
    ensures ScoreMatch(lib, e, Group([req], [], [])) == (true, 1.0)
  {
    OneTermScore(lib, e, req);
  }

  /** A required term reached only by the `difflib` ratio scores 0.8. */
  lemma FuzzyScores(lib: Lib, e: Entry, req: string)
    requires Base(req) !in e.tokens && !StartsSomeWord(e, Base(req)) && !Contains(e.norm, Base(req))
    requires !StartsWith(e.initials, Base(req)) && lib.ratio(Base(req), e.norm) >= FuzzyCutoff
    ensures ScoreMatch(lib, e, Group([req], [], [])) == (true, 0.8)
  {
    OneTermScore(lib, e, req);
  }
}
