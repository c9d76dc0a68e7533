/**
 * The part of pandas the feature builder relies on: a DataFrame as an ordered
 * index and an ordered list of named columns, `shift`, column assignment
 * `frame[key] = values` and `concat(..., axis=1)`.
 */
module Frames {
  import opened Wrappers

  /** An index label; timestamps are abstracted to integers. */
  type Label = int

  /** An observation. The model only moves observations around, never computes with them. */
  type Value = real

  /** A named column; `None` stands for a missing observation (NaN). */
  datatype Column = Column(name: string, values: seq<Option<Value>>)

  /** A DataFrame: its index and its columns, in order. Names may repeat, as after a concat. */
  datatype Frame = Frame(index: seq<Label>, columns: seq<Column>)

  function ColumnNames(cs: seq<Column>): seq<string>
  {
    seq(|cs|, i requires 0 <= i < |cs| => cs[i].name)
  }

  /** Every column has one entry per index label. */
  predicate WellShaped(f: Frame)
  {
    forall c :: c in f.columns ==> |c.values| == |f.index|
  }

  /** `f` is a well-shaped frame on the given index. */
  predicate Conforms(f: Frame, index: seq<Label>)
  {
    f.index == index && WellShaped(f)
  }

  function Missing(n: nat): seq<Option<Value>>
  {
    seq(n, _ => None)
  }

  /**
   * pandas `Series.shift(periods)`: row `i` takes the observation of row
   * `i - periods`; rows with no such source row become missing. A negative
   * `periods` moves observations backward (towards the start).
   */
  function Shift(values: seq<Option<Value>>, periods: int): (r: seq<Option<Value>>)
    ensures |r| == |values|
    ensures forall i :: 0 <= i < |r| ==>
      r[i] == if 0 <= i - periods < |values| then values[i - periods] else None
  {
    var n := |values|;
    if periods >= 0 then
      var p := if periods < n then periods else n;
      Missing(p) + values[..n - p]
    else
      var p := if -periods < n then -periods else n;
      values[p..] + Missing(p)
  }

  /** `DataFrame.shift(periods)`: every column shifted, names and index kept. */
  function ShiftFrame(f: Frame, periods: int): Frame
  {
    Frame(f.index, seq(|f.columns|, j requires 0 <= j < |f.columns| =>
      Column(f.columns[j].name, Shift(f.columns[j].values, periods))))
  }

  /**
   * Column assignment `f[name] = values`: every column called `name` is
   * replaced; when there is none, the column is appended after the others.
   */
  function SetColumn(f: Frame, name: string, values: seq<Option<Value>>): (r: Frame)
    ensures r.index == f.index
    ensures name in ColumnNames(r.columns)
    ensures name in ColumnNames(f.columns) ==> |r.columns| == |f.columns|
    ensures name in ColumnNames(f.columns) ==> forall j :: 0 <= j < |f.columns| ==>
      r.columns[j] == (if f.columns[j].name == name then Column(name, values) else f.columns[j])
    ensures name !in ColumnNames(f.columns) ==>
      |r.columns| == |f.columns| + 1 && r.columns[..|f.columns|] == f.columns &&
      r.columns[|f.columns|] == Column(name, values)
  {
    if name in ColumnNames(f.columns) then
      var cs := seq(|f.columns|, j requires 0 <= j < |f.columns| =>
        if f.columns[j].name == name then Column(name, values) else f.columns[j]);
      assert name in ColumnNames(cs) by {
        var j :| 0 <= j < |f.columns| && ColumnNames(f.columns)[j] == name;
        assert ColumnNames(cs)[j] == name;
      }
      Frame(f.index, cs)
    else
      var cs := f.columns + [Column(name, values)];
      assert ColumnNames(cs)[|f.columns|] == name;
      Frame(f.index, cs)
  }

  /** `pd.concat([a, b], axis=1)` of two frames on one index: the columns of `b` follow those of `a`. */
  function Concat(a: Frame, b: Frame): Frame
    requires a.index == b.index
  {
    Frame(a.index, a.columns + b.columns)
  }
}
