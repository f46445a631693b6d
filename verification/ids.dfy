/** Next client id: `"C"` followed by one more than the largest number read
    from the existing ids, or a fallback when no id yields a number.

    Four readings of "the number of an id" exist in the repository:
    - crm.py and crm_lib/core.py `nuevo_id_cliente`: the stripped id must
      match `^C(\d+)$`; fallback 1000 + number of rows.
    - crm_project/core/__init__.py `nuevo_id_cliente`: the id must start with
      "C" and `int(id.lstrip("C"))` must succeed; fallback 1000 + rows.
    - the local `_nuevo_id_local` of crm.py's id repair: as the previous one,
      fallback 1000 + rows + 1.
    - crm_project/core/database.py `ClienteDB.nuevo_id`: the id must start
      with "C" and `int(id[1:])` must succeed; no fallback (1000). */
module Ids {
  import opened Runtime
  import opened Text
  import opened Decimal
  import opened Frames

  /** `f"C{n}"`. */
  function Cid(n: int): string {
    "C" + IntToString(n)
  }

  /** Python's `int()` reads back what `str()` writes; a fact about the
      runtime that freshness proofs over `lib.parseInt` need. */
  ghost predicate IntReadBack(lib: Lib) {
    forall n {:trigger lib.parseInt(IntToString(n))} :: lib.parseInt(IntToString(n)) == Some(n)
  }

  /** Numbers read from the ids, in order, skipping ids that yield none. */
  function Collect(parse: string -> Option<int>, xs: seq<string>): (r: seq<int>)
    ensures forall i :: 0 <= i < |xs| && parse(xs[i]).Some? ==> parse(xs[i]).value in r
    ensures forall n :: n in r ==> exists i :: 0 <= i < |xs| && parse(xs[i]) == Some(n)
    decreases |xs|
  {
    if xs == [] then []
    else
      var rest := Collect(parse, xs[1..]);
      assert forall i :: 1 <= i < |xs| ==> xs[i] == xs[1..][i - 1];
      match parse(xs[0])
      case Some(n) => [n] + rest
      case None => rest
  }

  function Max(ns: seq<int>): (m: int)
    requires ns != []
    ensures m in ns && forall n :: n in ns ==> n <= m
    decreases |ns|
  {
    if |ns| == 1 then ns[0]
    else
      var m := Max(ns[1..]);
      assert ns == [ns[0]] + ns[1..];
      if ns[0] > m then ns[0] else m
  }

  /** `max(nums) + 1` when some id yields a number, else `fallback`. */
  function NextNumber(parse: string -> Option<int>, xs: seq<string>, fallback: int): (r: int)
    // every number read is below the result
    ensures forall i :: 0 <= i < |xs| && parse(xs[i]).Some? ==> parse(xs[i]).value < r
    // and the result is one above a number read, or the fallback when none is
    ensures (exists i :: 0 <= i < |xs| && parse(xs[i]).Some?) ==>
      exists i :: 0 <= i < |xs| && parse(xs[i]) == Some(r - 1)
    ensures (forall i :: 0 <= i < |xs| ==> parse(xs[i]).None?) ==> r == fallback
  {
    var nums := Collect(parse, xs);
    if nums == [] then fallback else Max(nums) + 1
  }

  /** If reading the id `Cid(r)` would give `r`, that id is not among the
      existing ones: either it would have made the largest number at least
      `r`, or it would have made `nums` non-empty. */
  lemma NextNumberFresh(parse: string -> Option<int>, xs: seq<string>, fallback: int, view: string -> string)
    requires var r := NextNumber(parse, xs, fallback);
      forall i :: 0 <= i < |xs| && view(xs[i]) == Cid(r) ==> parse(xs[i]) == Some(r)
    ensures forall i :: 0 <= i < |xs| ==> view(xs[i]) != Cid(NextNumber(parse, xs, fallback))
  {
  }

  /** `NextNumberFresh` for ids compared as they are. */
  lemma NextNumberFreshAsIs(parse: string -> Option<int>, xs: seq<string>, fallback: int)
    requires var r := NextNumber(parse, xs, fallback);
      forall i :: 0 <= i < |xs| && xs[i] == Cid(r) ==> parse(xs[i]) == Some(r)
    ensures forall i :: 0 <= i < |xs| ==> xs[i] != Cid(NextNumber(parse, xs, fallback))
  {
  }

  /** The id column read with `astype(str)`, when the frame is usable. */
  function IdStrings(df: Option<Frame>): (r: seq<string>)
    ensures df.Some? && !df.value.Empty() && df.value.Has("id") ==> r == AsStrs(df.value.columns["id"])
    ensures df.None? || df.value.Empty() || !df.value.Has("id") ==> r == []
  {
    if df.Some? && !df.value.Empty() && df.value.Has("id") then AsStrs(df.value.columns["id"]) else []
  }

  /** crm.py / crm_lib: the number captured by `^C(\d+)$` on the stripped id. */
  function StrictNum(x: string): (r: Option<int>)
    ensures r.Some? <==> var t := Trim(x); |t| >= 2 && t[0] == 'C' && AllDigits(t[1..])
    ensures r.Some? ==> r.value >= 0
  {
    var t := Trim(x);
    if |t| >= 2 && t[0] == 'C' && AllDigits(t[1..]) then Some(DigitsValue(t[1..])) else None
  }

  /** `nuevo_id_cliente(df)` of crm.py and crm_lib/core.py. */
  function NextIdStrict(df: Option<Frame>): (r: string)
    ensures df.None? || df.value.Empty() || !df.value.Has("id") ==> r == Cid(1000)
    ensures df.Some? && !df.value.Empty() && df.value.Has("id") ==>
      r == Cid(NextNumber(StrictNum, IdStrings(df), 1000 + df.value.height))
  {
    if df.Some? && !df.value.Empty() && df.value.Has("id") then Cid(NextNumber(StrictNum, IdStrings(df), 1000 + df.value.height))
    else Cid(1000)
  }

  /** The rendering of a non-negative number is read back by the strict
      pattern, stripped or not. */
  lemma StrictNumOfCid(n: nat)
    ensures Trim(Cid(n)) == Cid(n)
    ensures StrictNum(Cid(n)) == Some(n)
  {
    var c := Cid(n);
    assert c[1..] == NatToString(n);
    assert IsDigit(c[|c| - 1]) by {
      assert c[|c| - 1] == NatToString(n)[|NatToString(n)| - 1];
    }
    TrimFixpoint(c);
    NatToStringRoundTrip(n);
  }

  /** The strict generator never hands out an id that, once stripped, is
      already in the column. */
  lemma NextIdStrictFresh(df: Option<Frame>)
    ensures var xs := IdStrings(df);
      forall i :: 0 <= i < |xs| ==> Trim(xs[i]) != NextIdStrict(df)
  {
    var xs := IdStrings(df);
    if df.Some? && !df.value.Empty() && df.value.Has("id") {
      var r := NextNumber(StrictNum, xs, 1000 + df.value.height);
      NextNumberAtLeast(StrictNum, xs, 1000 + df.value.height, 0);
      forall i | 0 <= i < |xs| && Trim(xs[i]) == Cid(r) ensures StrictNum(xs[i]) == Some(r) {
        StrictNumOfTrim(xs[i]);
        StrictNumOfCid(r);
      }
      NextNumberFresh(StrictNum, xs, 1000 + df.value.height, Trim);
    }
  }

  /** The strict reading only sees the stripped id. */
  lemma StrictNumOfTrim(x: string)
    ensures StrictNum(Trim(x)) == StrictNum(x)
  {
    TrimFixpoint(Trim(x));
  }

  /** A lower bound on every number read and on the fallback bounds the
      next number. */
  lemma NextNumberAtLeast(parse: string -> Option<int>, xs: seq<string>, fallback: int, lo: int)
    requires fallback >= lo
    requires forall i :: 0 <= i < |xs| && parse(xs[i]).Some? ==> parse(xs[i]).value >= lo
    ensures NextNumber(parse, xs, fallback) >= lo
  {
    var r := NextNumber(parse, xs, fallback);
    if exists i :: 0 <= i < |xs| && parse(xs[i]).Some? {
      var i :| 0 <= i < |xs| && parse(xs[i]) == Some(r - 1);
    }
  }

  /** crm_project: `int(x.lstrip("C"))` for an id that starts with "C". */
  function LstripNum(lib: Lib): string -> Option<int> {
    x => LstripRead(lib, x)
  }

  function LstripRead(lib: Lib, x: string): Option<int> {
    if StartsWith(x, "C") then lib.parseInt(LStripChar(x, 'C')) else None
  }

  /** `nuevo_id_cliente(df)` of crm_project/core/__init__.py. */
  function NextIdLstrip(lib: Lib, df: Option<Frame>): (r: string)
    ensures df.None? || df.value.Empty() || !df.value.Has("id") ==> r == Cid(1000)
    ensures df.Some? && !df.value.Empty() && df.value.Has("id") ==>
      r == Cid(NextNumber(LstripNum(lib), IdStrings(df), 1000 + df.value.height))
  {
    if df.Some? && !df.value.Empty() && df.value.Has("id") then Cid(NextNumber(LstripNum(lib), IdStrings(df), 1000 + df.value.height))
    else Cid(1000)
  }

  /** Reading `Cid(n)` by stripping the leading "C"s gives `n` back. */
  lemma LstripNumOfCid(lib: Lib, n: int)
    requires IntReadBack(lib)
    ensures LstripNum(lib)(Cid(n)) == Some(n)
    ensures LstripRead(lib, Cid(n)) == Some(n)
  {
    var c := Cid(n);
    assert c[1..] == IntToString(n);
    assert LStripChar(c, 'C') == LStripChar(c[1..], 'C');
    assert IntToString(n)[0] != 'C';
    assert LStripChar(c, 'C') == IntToString(n);
    assert lib.parseInt(IntToString(n)) == Some(n);
  }

  /** The crm_project generator never hands out an id already in the
      column, when `int()` reads back `str()`. */
  lemma NextIdLstripFresh(lib: Lib, df: Option<Frame>)
    requires IntReadBack(lib)
    ensures var xs := IdStrings(df);
      forall i :: 0 <= i < |xs| ==> xs[i] != NextIdLstrip(lib, df)
  {
    var xs := IdStrings(df);
    if df.Some? && !df.value.Empty() && df.value.Has("id") {
      var r := NextNumber(LstripNum(lib), xs, 1000 + df.value.height);
      LstripNumOfCid(lib, r);
      NextNumberFreshAt(LstripNum(lib), xs, 1000 + df.value.height);
    }
  }

  /** The next number's id is fresh when reading it back gives the number. */
  lemma NextNumberFreshAt(parse: string -> Option<int>, xs: seq<string>, fallback: int)
    requires parse(Cid(NextNumber(parse, xs, fallback))) == Some(NextNumber(parse, xs, fallback))
    ensures forall i :: 0 <= i < |xs| ==> xs[i] != Cid(NextNumber(parse, xs, fallback))
  {
  }

  /** `_nuevo_id_local(df)` inside crm.py's id repair, for the id column as
      text; the repair only calls it on a non-empty frame with an id column. */
  function RepairNextNumber(lib: Lib, xs: seq<string>): (r: int)
    ensures forall i :: 0 <= i < |xs| && LstripNum(lib)(xs[i]).Some? ==> LstripNum(lib)(xs[i]).value < r
    ensures (forall i :: 0 <= i < |xs| ==> LstripNum(lib)(xs[i]).None?) ==> r == 1000 + |xs| + 1
  {
    NextNumber(LstripNum(lib), xs, 1000 + |xs| + 1)
  }

  /** database.py: `int(x[1:])` for an id that starts with "C". */
  function DbNum(lib: Lib): string -> Option<int> {
    x => if StartsWith(x, "C") then lib.parseInt(x[1..]) else None
  }

  /** Reading `Cid(n)` past its "C" gives `n` back. */
  lemma DbNumOfCid(lib: Lib, n: int)
    requires IntReadBack(lib)
    ensures DbNum(lib)(Cid(n)) == Some(n)
  {
    var c := Cid(n);
    assert c[1..] == IntToString(n);
    assert StartsWith(c, "C");
    assert lib.parseInt(IntToString(n)) == Some(n);
  }

  /** `ClienteDB.nuevo_id(df)` of crm_project/core/database.py: without a
      readable id the base stays 1000, whatever the number of rows; a
      missing frame fails `df.empty` inside the `try` and also gives 1000. */
  function NextIdDb(lib: Lib, df: Option<Frame>): (r: string)
    ensures df.None? || df.value.Empty() || !df.value.Has("id") ==> r == Cid(1000)
    ensures df.Some? && !df.value.Empty() && df.value.Has("id") ==>
      r == Cid(NextNumber(DbNum(lib), IdStrings(df), 1000))
  {
    if df.Some? && !df.value.Empty() && df.value.Has("id") then Cid(NextNumber(DbNum(lib), IdStrings(df), 1000))
    else Cid(1000)
  }

  /** The database generator never hands out an id already in the column,
      when `int()` reads back `str()`. */
  lemma NextIdDbFresh(lib: Lib, df: Option<Frame>)
    requires IntReadBack(lib)
    ensures var xs := IdStrings(df);
      forall i :: 0 <= i < |xs| ==> xs[i] != NextIdDb(lib, df)
  {
    var xs := IdStrings(df);
    if df.Some? && !df.value.Empty() && df.value.Has("id") {
      var r := NextNumber(DbNum(lib), xs, 1000);
      DbNumOfCid(lib, r);
      NextNumberFreshAsIs(DbNum(lib), xs, 1000);
    }
  }

  /** On a column of ids that are all `C` followed by plain digits, the two
      `nuevo_id_cliente` variants agree. */
  lemma NextIdVariantsAgreeOnCanonicalIds(lib: Lib, df: Frame, nums: seq<nat>)
    requires IntReadBack(lib)
    requires df.Has("id") && |df.columns["id"]| == |nums|
    requires forall i :: 0 <= i < |nums| ==> df.columns["id"][i] == Some(Cid(nums[i]))
    ensures NextIdStrict(Some(df)) == NextIdLstrip(lib, Some(df))
  {
    var xs := IdStrings(Some(df));
    if !df.Empty() {
      forall i | 0 <= i < |xs| ensures StrictNum(xs[i]) == LstripNum(lib)(xs[i]) {
        StrictNumOfCid(nums[i]);
        LstripNumOfCid(lib, nums[i]);
      }
      SameReadingSameNext(StrictNum, LstripNum(lib), xs, 1000 + df.height);
    }
  }

  /** Two readings that agree on every id give the same next number. */
  lemma {:induction false} SameReadingSameNext(p: string -> Option<int>, q: string -> Option<int>, xs: seq<string>, fallback: int)
    requires forall i :: 0 <= i < |xs| ==> p(xs[i]) == q(xs[i])
    ensures NextNumber(p, xs, fallback) == NextNumber(q, xs, fallback)
  {
    SameReadingSameCollect(p, q, xs);
  }

  lemma {:induction false} SameReadingSameCollect(p: string -> Option<int>, q: string -> Option<int>, xs: seq<string>)
    requires forall i :: 0 <= i < |xs| ==> p(xs[i]) == q(xs[i])
    ensures Collect(p, xs) == Collect(q, xs)
    decreases |xs|
  {
    if xs != [] {
      assert p(xs[0]) == q(xs[0]);
      SameReadingSameCollect(p, q, xs[1..]);
    }
  }
}
