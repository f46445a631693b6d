/** The part of a pandas DataFrame the core looks at: named columns of
    cells, all of one height. A cell is text or missing (NaN / None); other
    scalar types are represented by their `str()` text. */
module Frames {
  import opened Runtime

  type Cell = Option<string>

  datatype Frame = Frame(height: nat, columns: map<string, seq<Cell>>) {
    ghost predicate Valid() {
      forall c :: c in columns ==> |columns[c]| == height
    }

    /** `df.empty`: no rows or no columns. */
    predicate Empty() {
      height == 0 || |columns| == 0
    }

    predicate Has(name: string) {
      name in columns
    }
  }

  /** `series.astype(str)` of one cell: a missing value reads "nan". */
  function AsStr(c: Cell): string {
    match c
    case Some(s) => s
    case None => "nan"
  }

  /** `series.fillna("")` of one cell. */
  function FillEmpty(c: Cell): string {
    c.GetOr([])
  }

  /** `series.astype(str)`. */
  function AsStrs(cs: seq<Cell>): (r: seq<string>)
    ensures |r| == |cs|
    ensures forall i :: 0 <= i < |cs| ==> r[i] == AsStr(cs[i])
  {
    seq(|cs|, i requires 0 <= i < |cs| => AsStr(cs[i]))
  }
}
