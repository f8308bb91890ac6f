/**
 * A pandas data frame as the pipeline sees it: named columns of cells, all of one
 * height. A cell is missing (NaN), a number, or a text value.
 */
module Frames {

  /** One cell. Integral float64 values (21.0) are identified with the integer. */
  datatype Cell = Null | Num(n: int) | Str(s: string)

  datatype Table = Table(cols: map<string, seq<Cell>>, height: nat)

  /** Every column has one cell per row. */
  predicate Valid(t: Table)
  {
    forall c :: c in t.cols ==> |t.cols[c]| == t.height
  }

  /** Cell `i` of column `c`; missing when the column is absent. */
  function At(t: Table, c: string, i: nat): Cell
  {
    if c in t.cols && i < |t.cols[c]| then t.cols[c][i] else Null
  }

  /** `series.map(f)` applied cell by cell. */
  function MapColumn(s: seq<Cell>, f: Cell -> Cell): (r: seq<Cell>)
    ensures |r| == |s|
    ensures forall i :: 0 <= i < |s| ==> r[i] == f(s[i])
  {
    seq(|s|, i requires 0 <= i < |s| => f(s[i]))
  }

  /** `a.fillna(b)` on one cell: the cell of `b` only where `a` is missing. */
  function FillNa(a: Cell, b: Cell): Cell
  {
    if a == Null then b else a
  }

  /** The number a cell contributes to a pandas `sum`: NaN is skipped. */
  function Amount(c: Cell): int
  {
    if c.Num? then c.n else 0
  }
}
