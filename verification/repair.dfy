/** `_fix_missing_or_duplicate_ids` of crm.py: walk the rows in order,
    keep an id whose stripped text is non-blank and not yet used, and give
    every other row a new `C<n>` id.

    `usados` holds the stripped ids kept so far and the ids handed out so
    far. A new id starts from `_nuevo_id_local` over the column as it is at
    that moment (earlier rows already repaired) and counts up until it is
    neither in `usados` nor equal to a cell of the current column. */
module Repair {
  import opened Runtime
  import opened Text
  import opened Decimal
  import opened Frames
  import opened Ids

  /** `str(df.at[i, "id"]).strip()`. */
  function Cur(c: Cell): string {
    Trim(AsStr(c))
  }

  /** `Cur` as a function value. The repair below is stated for any reading
      `cur` of a cell that reads a handed-out id back as itself, and
      instantiated with `CurOf()`. */
  function CurOf(): Cell -> string {
    c => Cur(c)
  }

  /** A handed-out `C<n>` reads back as itself. */
  ghost predicate ReadsCids(cur: Cell -> string) {
    forall n :: cur(Some(Cid(n))) == Cid(n)
  }

  /** `usados` once the first `k` rows are done. */
  function Used(cur: Cell -> string, out: seq<Cell>, k: nat): set<string>
    requires k <= |out|
  {
    if k == 0 then {} else Used(cur, out, k - 1) + {cur(out[k - 1])}
  }

  /** `usados` holds exactly the stripped ids of the rows done. */
  lemma {:induction false} UsedMember(cur: Cell -> string, out: seq<Cell>, k: nat, x: string)
    requires k <= |out|
    ensures x in Used(cur, out, k) <==> exists j :: 0 <= j < k && cur(out[j]) == x
  {
    if k > 0 {
      UsedMember(cur, out, k - 1, x);
    }
  }

  /** `usados` depends only on the rows done. */
  lemma {:induction false} UsedPrefix(cur: Cell -> string, a: seq<Cell>, b: seq<Cell>, k: nat)
    requires k <= |a| && k <= |b|
    requires forall j :: 0 <= j < k ==> a[j] == b[j]
    ensures Used(cur, a, k) == Used(cur, b, k)
  {
    if k > 0 {
      UsedPrefix(cur, a, b, k - 1);
    }
  }

  /** The repaired column's invariant: every stripped id is non-blank and no
      two rows share one. */
  ghost predicate Repaired(cur: Cell -> string, ids: seq<Cell>) {
    && (forall i :: 0 <= i < |ids| ==> cur(ids[i]) != [])
    && (forall i, j :: 0 <= i < j < |ids| ==> cur(ids[i]) != cur(ids[j]))
  }

  /** Which rows keep their cell: exactly those whose stripped id is
      non-blank and not among the stripped ids the earlier rows ended with. */
  ghost predicate KeepRule(cur: Cell -> string, col: seq<Cell>, out: seq<Cell>) {
    && |out| == |col|
    && forall i :: 0 <= i < |col| ==>
         (out[i] == col[i] <==> cur(col[i]) != [] && cur(col[i]) !in Used(cur, out, i))
  }

  /** A row that does not keep its cell gets some `C<n>`, different from the
      cells of all later rows as they were before the repair. */
  ghost predicate FreshRule(col: seq<Cell>, out: seq<Cell>)
    requires |out| == |col|
  {
    forall i :: 0 <= i < |col| && out[i] != col[i] ==>
      && (exists n :: out[i] == Some(Cid(n)))
      && (forall j :: i < j < |col| ==> col[j] != out[i])
  }

  /** The texts of the present cells. */
  function Values(cs: seq<Cell>): set<string> {
    set j | 0 <= j < |cs| && cs[j].Some? :: cs[j].value
  }

  lemma CidInjective(a: int, b: int)
    requires Cid(a) == Cid(b)
    ensures a == b
  {
    assert Cid(a)[1..] == IntToString(a);
    assert Cid(b)[1..] == IntToString(b);
    IntToStringInjective(a, b);
  }

  /** One above the number `x` spells as `C<n>`, or 0 when it spells none. */
  ghost function CidAbove(x: string): (b: int)
    ensures forall n :: Cid(n) == x ==> n < b
  {
    if exists n :: Cid(n) == x then
      var n :| Cid(n) == x;
      assert forall m :: Cid(m) == x ==> m == n by {
        forall m | Cid(m) == x ensures m == n {
          CidInjective(m, n);
        }
      }
      n + 1
    else 0
  }

  /** A number above every `n` whose `Cid(n)` is in `s`; it bounds the
      counting loop. */
  ghost function CidBound(s: set<string>): (b: int)
    ensures forall n :: Cid(n) in s ==> n < b
    decreases s
  {
    if s == {} then 0
    else
      var x :| x in s;
      var rest := CidBound(s - {x});
      var here := CidAbove(x);
      var b := if rest > here then rest else here;
      assert forall n :: Cid(n) in s ==> n < b by {
        forall n | Cid(n) in s ensures n < b {
          if Cid(n) != x {
            assert Cid(n) in s - {x};
          }
        }
      }
      b
  }

  /** `Cid(n)` stays clear of surrounding whitespace. */
  lemma CurOfCid(n: int)
    ensures Cur(Some(Cid(n))) == Cid(n)
  {
    var c := Cid(n);
    var d := IntToString(n);
    assert c[|c| - 1] == d[|d| - 1];
    assert IsDigit(d[|d| - 1]) by {
      if n < 0 {
        assert d[|d| - 1] == d[1..][|d| - 2];
      }
    }
    TrimFixpoint(c);
  }

  /** So `CurOf()` qualifies as a reading for the repair. */
  lemma CurOfReadsCids()
    ensures ReadsCids(CurOf())
  {
    forall n ensures CurOf()(Some(Cid(n))) == Cid(n) {
      CurOfCid(n);
    }
  }

  /** The id a row without a usable id receives: counting up from `start`
      (`_nuevo_id_local` of the current column), the first `C<n>` that is
      neither in `used` nor a cell of the column. Python reads `nuevo[1:]`
      back with `int()`, which gives `num` again; the count is written as
      `num + 1` directly. */
  method NewId(start: int, used: set<string>, current: seq<Cell>) returns (num: int, nuevo: string)
    ensures nuevo == Cid(num)
    ensures nuevo !in used && Some(nuevo) !in current
    ensures num >= start
    ensures forall m :: start <= m < num ==> Cid(m) in used || Some(Cid(m)) in current
  {
    num := start;
    ghost var bound := CidBound(used + Values(current));
    while Cid(num) in used || Some(Cid(num)) in current
      invariant num >= start
      invariant forall m :: start <= m < num ==> Cid(m) in used || Some(Cid(m)) in current
      decreases bound - num
    {
      if Some(Cid(num)) in current {
        var j :| 0 <= j < |current| && current[j] == Some(Cid(num));
        assert Cid(num) in Values(current);
      }
      num := num + 1;
    }
    nuevo := Cid(num);
  }

  /** The rows from `i` on are untouched. */
  ghost predicate Untouched(col: seq<Cell>, out: seq<Cell>, i: nat)
    requires |out| == |col|
  {
    forall j :: i <= j < |col| ==> out[j] == col[j]
  }

  /** The first `i` rows of `out` satisfy `Repaired`. */
  ghost predicate RepairedUpTo(cur: Cell -> string, out: seq<Cell>, i: nat)
    requires i <= |out|
  {
    && (forall j :: 0 <= j < i ==> cur(out[j]) != [])
    && (forall j, k :: 0 <= j < k < i ==> cur(out[j]) != cur(out[k]))
  }

  /** `KeepRule` for the first `i` rows. */
  ghost predicate KeptUpTo(cur: Cell -> string, col: seq<Cell>, out: seq<Cell>, i: nat)
    requires i <= |col| && |out| == |col|
  {
    forall j :: 0 <= j < i ==>
      (out[j] == col[j] <==> cur(col[j]) != [] && cur(col[j]) !in Used(cur, out, j))
  }

  /** `FreshRule` for the first `i` rows. */
  ghost predicate GivenUpTo(col: seq<Cell>, out: seq<Cell>, i: nat)
    requires i <= |col| && |out| == |col|
  {
    forall j :: 0 <= j < i && out[j] != col[j] ==>
      && (exists n :: out[j] == Some(Cid(n)))
      && (forall k :: j < k < |col| ==> col[k] != out[j])
  }

  /** What the row loop keeps true after the first `i` rows. */
  ghost predicate LoopInv(cur: Cell -> string, col: seq<Cell>, out: seq<Cell>, i: nat) {
    && i <= |col| && |out| == |col|
    && Untouched(col, out, i)
    && RepairedUpTo(cur, out, i)
    && KeptUpTo(cur, col, out, i)
    && GivenUpTo(col, out, i)
  }

  /** Row `i` keeps its usable id. */
  lemma StepKeep(cur: Cell -> string, col: seq<Cell>, out: seq<Cell>, i: nat)
    requires LoopInv(cur, col, out, i) && i < |col|
    requires cur(col[i]) != [] && cur(col[i]) !in Used(cur, out, i)
    ensures LoopInv(cur, col, out, i + 1)
    ensures Used(cur, out, i + 1) == Used(cur, out, i) + {cur(out[i])}
  {
    assert out[i] == col[i];
    UsedMember(cur, out, i, cur(col[i]));
    KeptGrows(cur, col, out, i);
    RepairedGrows(cur, out, i);
  }

  lemma KeptGrows(cur: Cell -> string, col: seq<Cell>, out: seq<Cell>, i: nat)
    requires i < |col| && |out| == |col| && KeptUpTo(cur, col, out, i)
    requires out[i] == col[i] && cur(col[i]) != [] && cur(col[i]) !in Used(cur, out, i)
    ensures KeptUpTo(cur, col, out, i + 1)
  {
  }

  lemma RepairedGrows(cur: Cell -> string, out: seq<Cell>, i: nat)
    requires i < |out| && RepairedUpTo(cur, out, i)
    requires cur(out[i]) != [] && forall j :: 0 <= j < i ==> cur(out[j]) != cur(out[i])
    ensures RepairedUpTo(cur, out, i + 1)
  {
  }

  /** Row `i` receives the new id `Cid(n)`: the rows up to `i` stay
      repaired and the later rows untouched. */
  lemma StepAssignPrefix(cur: Cell -> string, col: seq<Cell>, out: seq<Cell>, i: nat, n: int)
    requires ReadsCids(cur)
    requires LoopInv(cur, col, out, i) && i < |col|
    requires Cid(n) !in Used(cur, out, i)
    ensures var out' := out[i := Some(Cid(n))];
      RepairedUpTo(cur, out', i + 1) && Untouched(col, out', i + 1)
  {
    var out' := out[i := Some(Cid(n))];
    assert cur(out'[i]) == Cid(n);
    UsedMember(cur, out, i, Cid(n));
    assert forall j :: 0 <= j < i ==> out'[j] == out[j];
  }

  /** Row `i` receives the new id `Cid(n)`: the keep and fresh rules. */
  lemma StepAssignRules(cur: Cell -> string, col: seq<Cell>, out: seq<Cell>, i: nat, n: int)
    requires LoopInv(cur, col, out, i) && i < |col|
    requires cur(col[i]) == [] || cur(col[i]) in Used(cur, out, i)
    requires Some(Cid(n)) !in out
    ensures var out' := out[i := Some(Cid(n))];
      KeptUpTo(cur, col, out', i + 1) && GivenUpTo(col, out', i + 1)
  {
    var out' := out[i := Some(Cid(n))];
    assert out[i] == col[i];
    forall j | 0 <= j <= i ensures Used(cur, out', j) == Used(cur, out, j) {
      UsedPrefix(cur, out', out, j);
    }
    forall k | i < k < |col| ensures col[k] != out'[i] {
      assert out[k] == col[k];
    }
  }

  /** Row `i` receives the new id `Cid(n)`, which `usados` then holds. */
  lemma StepAssign(cur: Cell -> string, col: seq<Cell>, out: seq<Cell>, i: nat, n: int)
    requires ReadsCids(cur)
    requires LoopInv(cur, col, out, i) && i < |col|
    requires cur(out[i]) == [] || cur(out[i]) in Used(cur, out, i)
    requires Cid(n) !in Used(cur, out, i) && Some(Cid(n)) !in out
    ensures LoopInv(cur, col, out[i := Some(Cid(n))], i + 1)
    ensures Used(cur, out[i := Some(Cid(n))], i + 1) == Used(cur, out, i) + {Cid(n)}
  {
    var out' := out[i := Some(Cid(n))];
    assert out[i] == col[i];
    StepAssignPrefix(cur, col, out, i, n);
    StepAssignRules(cur, col, out, i, n);
    UsedPrefix(cur, out', out, i);
    assert cur(out'[i]) == Cid(n);
  }

  /** The id column of crm.py's repair: rows in order, each kept or given a
      new id counted up from `_nuevo_id_local` of the column so far. */
  method RepairColumn(lib: Lib, cur: Cell -> string, col: seq<Cell>) returns (out: seq<Cell>)
    requires ReadsCids(cur)
    ensures |out| == |col|
    ensures Repaired(cur, out)
    ensures KeepRule(cur, col, out)
    ensures FreshRule(col, out)
  {
    out := col;
    var used: set<string> := {};
    var i := 0;
    while i < |col|
      invariant LoopInv(cur, col, out, i)
      invariant used == Used(cur, out, i)
    {
      var id := cur(out[i]);
      if id == [] || id in used {
        var num, nuevo := NewId(RepairNextNumber(lib, AsStrs(out)), used, out);
        StepAssign(cur, col, out, i, num);
        out := out[i := Some(nuevo)];
        used := used + {nuevo};
      } else {
        StepKeep(cur, col, out, i);
        used := used + {id};
      }
      i := i + 1;
    }
  }

  /** The column the repair works on: the id column, or `df["id"] = ""`
      when there is none. */
  function IdColumn(df: Frame): (r: seq<Cell>)
    ensures |r| == df.height || (df.Has("id") && r == df.columns["id"])
  {
    if df.Has("id") then df.columns["id"] else seq(df.height, _ => Some([]))
  }

  /** `_fix_missing_or_duplicate_ids(df)`: a missing or empty frame is
      returned as is; otherwise only the id column changes, and it ends up
      repaired by the keep and fresh rules. */
  method FixMissingOrDuplicateIds(lib: Lib, df: Option<Frame>) returns (r: Option<Frame>)
    requires df.Some? ==> df.value.Valid()
    ensures df.None? || df.value.Empty() ==> r == df
    ensures df.Some? && !df.value.Empty() ==>
      && r.Some? && r.value.Valid()
      && r.value.height == df.value.height
      && r.value.columns.Keys == df.value.columns.Keys + {"id"}
      && (forall c :: c in df.value.columns && c != "id" ==> r.value.columns[c] == df.value.columns[c])
      && Repaired(CurOf(), r.value.columns["id"])
      && KeepRule(CurOf(), IdColumn(df.value), r.value.columns["id"])
      && FreshRule(IdColumn(df.value), r.value.columns["id"])
  {
    if df.None? || df.value.Empty() {
      return df;
    }
    var f := df.value;
    var col := IdColumn(f);
    CurOfReadsCids();
    var ids := RepairColumn(lib, CurOf(), col);
    r := Some(Frame(f.height, f.columns["id" := ids]));
  }

  /** A column that already satisfies the invariant is left as it is, so
      repairing twice is repairing once. */
  lemma {:induction false} RepairKeepsRepaired(cur: Cell -> string, col: seq<Cell>, out: seq<Cell>)
    requires Repaired(cur, col) && KeepRule(cur, col, out)
    ensures out == col
  {
    forall i | 0 <= i < |col| ensures out[i] == col[i] {
      KeptPrefix(cur, col, out, i);
    }
  }

  lemma {:induction false} KeptPrefix(cur: Cell -> string, col: seq<Cell>, out: seq<Cell>, i: nat)
    requires Repaired(cur, col) && KeepRule(cur, col, out) && i < |col|
    ensures forall j :: 0 <= j <= i ==> out[j] == col[j]
    decreases i
  {
    if i > 0 {
      KeptPrefix(cur, col, out, i - 1);
    }
    UsedPrefix(cur, out, col, i);
    UsedMember(cur, col, i, cur(col[i]));
  }

  /** On a column of present ids that read as themselves, a row keeps its id
      exactly when the id is non-blank and its first occurrence. */
  lemma FirstOccurrencesKept(cur: Cell -> string, col: seq<Cell>, out: seq<Cell>)
    requires ReadsCids(cur)
    requires forall i :: 0 <= i < |col| ==> col[i].Some? && cur(col[i]) == col[i].value
    requires KeepRule(cur, col, out) && FreshRule(col, out)
    ensures forall i :: 0 <= i < |col| ==>
      (out[i] == col[i] <==> cur(col[i]) != [] && forall j :: 0 <= j < i ==> cur(col[j]) != cur(col[i]))
  {
    forall i | 0 <= i < |col|
      ensures out[i] == col[i] <==> cur(col[i]) != [] && forall j :: 0 <= j < i ==> cur(col[j]) != cur(col[i])
    {
      FirstOccurrenceAt(cur, col, out, i);
    }
  }

  lemma FirstOccurrenceAt(cur: Cell -> string, col: seq<Cell>, out: seq<Cell>, i: nat)
    requires ReadsCids(cur)
    requires forall i :: 0 <= i < |col| ==> col[i].Some? && cur(col[i]) == col[i].value
    requires KeepRule(cur, col, out) && FreshRule(col, out) && i < |col|
    ensures out[i] == col[i] <==> cur(col[i]) != [] && forall j :: 0 <= j < i ==> cur(col[j]) != cur(col[i])
  {
    var v := cur(col[i]);
    UsedMember(cur, out, i, v);
    if out[i] == col[i] {
      // an earlier equal id would already be in `usados`
      forall j | 0 <= j < i ensures cur(col[j]) != v {
        if cur(col[j]) == v {
          EarlierValueUsed(cur, col, out, j, i);
        }
      }
    } else if v != [] {
      // v was used by an earlier row; a handed-out id differs from col[i]
      var j :| 0 <= j < i && cur(out[j]) == v;
      assert out[j] == col[j];
    }
  }

  /** On such a column, the value of an earlier row is in `usados` by the
      time a later row with the same value is reached. */
  lemma EarlierValueUsed(cur: Cell -> string, col: seq<Cell>, out: seq<Cell>, j: nat, i: nat)
    requires forall i :: 0 <= i < |col| ==> col[i].Some? && cur(col[i]) == col[i].value
    requires KeepRule(cur, col, out)
    requires j < i < |col| && cur(col[j]) == cur(col[i]) && cur(col[i]) != []
    ensures cur(col[i]) in Used(cur, out, i)
  {
    UsedMember(cur, out, i, cur(col[i]));
    UsedMember(cur, out, j, cur(col[j]));
    if out[j] == col[j] {
      assert cur(out[j]) == cur(col[i]);
    } else {
      var k :| 0 <= k < j && cur(out[k]) == cur(col[j]);
      assert cur(out[k]) == cur(col[i]);
    }
  }
}
