/** The Python runtime as seen by the CRM core.

    Values the Python code may receive as `None` are `Option`s; exceptions the
    code lets escape are `Raise`d `Result`s. Library routines whose behaviour is
    Unicode data or a numeric algorithm outside this model are fields of `Lib`:
    every function of the core that calls one of them takes the `Lib` as a
    parameter, and the few facts a proof needs about them are stated as
    predicates over a `Lib` and required only by the lemmas that use them.
 */
module Runtime {

  datatype Option<+T> = None | Some(value: T) {
    /** `x or default` for a Python value that may be None. */
    function GetOr(default: T): T {
      match this
      case Some(v) => v
      case None => default
    }
  }

  /** Exceptions that escape a modelled routine. */
  datatype Exception = KeyError | ValueError

  datatype Result<+T> = Ok(value: T) | Raise(error: Exception)

  /** Library routines treated as uninterpreted. */
  datatype Lib = Lib(
    /** `unicodedata.normalize("NFKD", s)` followed by dropping every
        character for which `unicodedata.combining` is non-zero. */
    decompose: string -> string,
    /** `str.casefold()` (full Unicode case folding). */
    casefold: string -> string,
    /** `str.lower()`. */
    lower: string -> string,
    /** `str.capitalize()`. */
    capitalize: string -> string,
    /** `difflib.SequenceMatcher(None, a, b).ratio()`; not assumed symmetric. */
    ratio: (string, string) -> real,
    /** `difflib.get_close_matches(word, possibilities, n, cutoff)` when it
        does not raise. */
    closeMatches: (string, seq<string>, nat, real) -> seq<string>,
    /** Python `int(s)`: `None` when it raises ValueError. */
    parseInt: string -> Option<int>,
    /** `hashlib.pbkdf2_hmac("sha256", password, salt, 100_000).hex()`. */
    pbkdf2: (string, string) -> string
  )

  /** The decomposition and the fold map the empty text to itself. */
  ghost predicate EmptyStable(lib: Lib) {
    lib.decompose([]) == [] && lib.casefold([]) == []
  }

  /** What `get_close_matches` promises: at most `n` results, each one a
      possibility whose ratio against the word reaches the cutoff, and none
      at all only when no possibility reaches it (for `n >= 1`). The order of
      the results is not modelled. */
  ghost predicate CloseMatchesSound(lib: Lib) {
    forall w: string, ps: seq<string>, n: nat, c: real {:trigger lib.closeMatches(w, ps, n, c)} ::
      var r := lib.closeMatches(w, ps, n, c);
      && |r| <= n
      && (forall x :: x in r ==> x in ps && lib.ratio(x, w) >= c)
      && (n >= 1 && (exists p :: p in ps && lib.ratio(p, w) >= c) ==> |r| >= 1)
  }

  /** `difflib.get_close_matches`, including the two ValueError checks it
      makes before it looks at the possibilities. */
  function GetCloseMatches(lib: Lib, word: string, possibilities: seq<string>, n: int, cutoff: real): (r: Option<seq<string>>)
    ensures r.None? <==> n <= 0 || cutoff < 0.0 || cutoff > 1.0
    ensures CloseMatchesSound(lib) && r.Some? ==>
      |r.value| <= n && forall x :: x in r.value ==> x in possibilities && lib.ratio(x, word) >= cutoff
  {
    if n <= 0 || cutoff < 0.0 || cutoff > 1.0 then None
    else Some(lib.closeMatches(word, possibilities, n, cutoff))
  }
}
