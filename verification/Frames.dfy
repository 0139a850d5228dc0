/** Nullable numeric columns and the column-oriented frames that queries pass around. */
module Frames {

  /** One float column cell; Missing stands for NaN / NULL. */
  datatype Cell = Missing | Num(v: real)

  type Series = seq<Cell>

  /** Series.shift(k): row i holds what row i - k held. */
  function Shift(s: Series, k: nat): (r: Series)
    ensures |r| == |s|
  {
    seq(|s|, i requires 0 <= i < |s| => if i < k then Missing else s[i - k])
  }

  predicate Above(x: Cell, y: Cell) { x.Num? && y.Num? && x.v > y.v }

  predicate AtMost(x: Cell, y: Cell) { x.Num? && y.Num? && x.v <= y.v }

  datatype RawFrame = Frame(rows: nat, columns: map<string, Series>) {
    predicate Valid() { forall m :: m in columns ==> |columns[m]| == rows }
  }

  type Frame = f: RawFrame | f.Valid() witness Frame(0, map[])

  /** The rows lo, .., hi - 1 of a frame. */
  function Rows(f: Frame, lo: nat, hi: nat): (g: Frame)
    requires lo <= hi <= f.rows
  {
    Frame(hi - lo, map m | m in f.columns :: f.columns[m][lo..hi])
  }

  /** The cell of the last row, Missing when the column does not exist. */
  function Latest(f: Frame, name: string): Cell
    requires f.rows > 0
  {
    if name in f.columns then f.columns[name][f.rows - 1] else Missing
  }
}
