/**
 * The supervised-matrix builder of giotto-time: from a time series and a list
 * of features it builds the feature matrix X, one block of columns per
 * feature, and the target matrix y, one backward shift of the series per step
 * of the forecast horizon.
 */
module FeatureCreation {
  import opened Wrappers
  import opened Frames
  import opened Decimal
  import opened Features

  /** The two ways the builder raises `ValueError`. */
  datatype Error =
    /** Two features share an output name; carries the list of output names. */
    | DuplicateOutputNames(names: seq<string>)
    /** A frame without exactly one column was stored under the single column `key`. */
    | ColumnCountMismatch(key: string, width: nat)

  /** No element occurs twice. */
  predicate Distinct<T(==)>(s: seq<T>)
  {
    forall i, j :: 0 <= i < j < |s| ==> s[i] != s[j]
  }

  /** Python's `set(s)`. */
  function Elements<T>(s: seq<T>): set<T>
  {
    set x | x in s
  }

  lemma {:induction false} ElementsAtMost<T>(s: seq<T>)
    ensures |Elements(s)| <= |s|
  {
    if |s| > 0 {
      assert Elements(s) == {s[0]} + Elements(s[1..]);
      ElementsAtMost(s[1..]);
    }
  }

  /** The set of a list is as large as the list exactly when no element repeats. */
  lemma {:induction false} ElementsDistinct<T>(s: seq<T>)
    ensures |Elements(s)| == |s| <==> Distinct(s)
  {
    if |s| > 0 {
      var rest := s[1..];
      assert Elements(s) == {s[0]} + Elements(rest);
      ElementsDistinct(rest);
      ElementsAtMost(rest);
      if s[0] in rest {
        assert Elements(s) == Elements(rest);
        var j :| 0 <= j < |rest| && rest[j] == s[0];
        assert s[0] == s[j + 1];
      } else {
        assert Distinct(rest) ==> Distinct(s) by {
          if Distinct(rest) {
            forall i, j | 0 <= i < j < |s| ensures s[i] != s[j] {
              if i > 0 { assert s[i] == rest[i - 1] && s[j] == rest[j - 1]; }
              else { assert s[j] == rest[j - 1]; }
            }
          }
        }
        assert Distinct(s) ==> Distinct(rest) by {
          if Distinct(s) {
            forall i, j | 0 <= i < j < |rest| ensures rest[i] != rest[j] {
              assert rest[i] == s[i + 1] && rest[j] == s[j + 1];
            }
          }
        }
      }
    }
  }

  /**
   * `check_feature_names`: passes when the output names are pairwise
   * distinct, and otherwise raises with the list of names.
   */
  function CheckFeatureNames(fs: seq<Feature>): (r: Outcome<Error>)
    ensures r.Pass? <==> Distinct(OutputNames(fs))
    ensures r.Fail? ==> r.error == DuplicateOutputNames(OutputNames(fs))
  {
    var names := OutputNames(fs);
    ElementsDistinct(names);
    if |Elements(names)| != |names| then Fail(DuplicateOutputNames(names)) else Pass
  }

  /** A duplicate name is exactly two positions holding the same output name. */
  lemma CheckFeatureNamesRejects(fs: seq<Feature>, i: nat, j: nat)
    requires i < j < |fs| && fs[i].outputName == fs[j].outputName
    ensures CheckFeatureNames(fs) == Fail(DuplicateOutputNames(OutputNames(fs)))
  {
    assert OutputNames(fs)[i] == OutputNames(fs)[j];
  }

  // ---------------------------------------------------------------- X

  /** The columns of X: the output columns of each feature, in the order of the list. */
  function FeatureColumns(fs: seq<Feature>, ts: Frame): seq<Column>
  {
    if |fs| == 0 then [] else fs[0].transform(ts).columns + FeatureColumns(fs[1..], ts)
  }

  /** Every feature's output is a well-shaped frame on the index of `ts`. */
  predicate OutputsConform(fs: seq<Feature>, ts: Frame)
  {
    forall i :: 0 <= i < |fs| ==> Conforms(fs[i].transform(ts), ts.index)
  }

  /** Adding one feature at the end adds its columns at the end. */
  lemma {:induction false} FeatureColumnsSnoc(fs: seq<Feature>, f: Feature, ts: Frame)
    ensures FeatureColumns(fs + [f], ts) == FeatureColumns(fs, ts) + f.transform(ts).columns
  {
    if |fs| == 0 {
      assert FeatureColumns([f], ts) == f.transform(ts).columns + FeatureColumns([], ts);
    } else {
      assert (fs + [f])[1..] == fs[1..] + [f];
      FeatureColumnsSnoc(fs[1..], f, ts);
    }
  }

  /** The columns of a list are those of a prefix followed by those of the rest. */
  lemma {:induction false} FeatureColumnsSplit(fs: seq<Feature>, i: nat, ts: Frame)
    requires i <= |fs|
    ensures FeatureColumns(fs, ts) == FeatureColumns(fs[..i], ts) + FeatureColumns(fs[i..], ts)
  {
    if i > 0 {
      assert fs[..i][1..] == fs[1..][..i - 1];
      assert fs[i..] == fs[1..][i - 1..];
      FeatureColumnsSplit(fs[1..], i - 1, ts);
    } else {
      assert fs[i..] == fs;
    }
  }

  /**
   * The output of feature `i` sits in X as one contiguous block, right after
   * the columns of the features before it.
   */
  lemma FeatureBlock(fs: seq<Feature>, i: nat, ts: Frame)
    requires i < |fs|
    ensures var start, block := |FeatureColumns(fs[..i], ts)|, fs[i].transform(ts).columns;
      start + |block| <= |FeatureColumns(fs, ts)| &&
      FeatureColumns(fs, ts)[start..start + |block|] == block
  {
    FeatureColumnsSplit(fs, i, ts);
    assert fs[i..][1..] == fs[i + 1..];
  }

  /** When every output conforms, every column of X has one entry per index label. */
  lemma {:induction false} FeatureColumnsShaped(fs: seq<Feature>, ts: Frame)
    requires OutputsConform(fs, ts)
    ensures forall c :: c in FeatureColumns(fs, ts) ==> |c.values| == |ts.index|
  {
    if |fs| > 0 {
      assert Conforms(fs[0].transform(ts), ts.index);
      assert OutputsConform(fs[1..], ts) by {
        forall i | 0 <= i < |fs[1..]| ensures Conforms(fs[1..][i].transform(ts), ts.index) {
          assert fs[1..][i] == fs[i + 1];
        }
      }
      FeatureColumnsShaped(fs[1..], ts);
    }
  }

  // ---------------------------------------------------------------- y

  /** The name `f"y_{k}"` of the k-th target column. */
  function YName(k: nat): string
  {
    "y_" + DecimalString(k)
  }

  /** Different horizon steps get different column names. */
  lemma YNameInjective(j: nat, k: nat)
    ensures YName(j) == YName(k) ==> j == k
  {
    assert YName(j)[2..] == DecimalString(j);
    assert YName(k)[2..] == DecimalString(k);
    DecimalStringInjective(j, k);
  }

  /** `len(range(horizon))`. */
  function RangeLength(horizon: int): nat
  {
    if horizon > 0 then horizon else 0
  }

  /**
   * `y` is the target matrix of a univariate `ts` for `horizon`: it shares the
   * index of `ts`, has one column per step `k` of `range(horizon)` in
   * increasing order, and column `k` is `y_k`, the series shifted back by `k`.
   */
  ghost predicate IsShiftMatrix(y: Frame, ts: Frame, horizon: int)
  {
    y.index == ts.index &&
    |y.columns| == RangeLength(horizon) &&
    forall k :: 0 <= k < |y.columns| ==>
      |ts.columns| == 1 && y.columns[k] == Column(YName(k), Shift(ts.columns[0].values, -k))
  }

  /** The target matrix is determined by the series and the horizon alone. */
  lemma ShiftMatrixUnique(y1: Frame, y2: Frame, ts: Frame, horizon: int)
    requires IsShiftMatrix(y1, ts, horizon) && IsShiftMatrix(y2, ts, horizon)
    ensures y1 == y2
  {
  }

  /** The column names of the target matrix are pairwise distinct. */
  lemma ShiftMatrixNamesDistinct(y: Frame, ts: Frame, horizon: int)
    requires IsShiftMatrix(y, ts, horizon)
    ensures Distinct(ColumnNames(y.columns))
  {
    forall i, j | 0 <= i < j < |y.columns|
      ensures ColumnNames(y.columns)[i] != ColumnNames(y.columns)[j]
    {
      YNameInjective(i, j);
    }
  }

  /**
   * Row `i` of `y_k` is row `i + k` of the series, and missing in the last
   * `k` rows; in particular `y_0` is the series itself.
   */
  lemma ShiftMatrixAt(y: Frame, ts: Frame, horizon: int, k: nat, i: nat)
    requires IsShiftMatrix(y, ts, horizon) && k < |y.columns| && i < |y.columns[k].values|
    ensures |y.columns[k].values| == |ts.columns[0].values|
    ensures y.columns[k].values[i] ==
      if i + k < |ts.columns[0].values| then ts.columns[0].values[i + k] else None
    ensures y.columns[0].values == ts.columns[0].values
  {
  }

  /** Each target column is the previous one shifted back by one more step. */
  lemma ShiftMatrixStaircase(y: Frame, ts: Frame, horizon: int, k: nat)
    requires IsShiftMatrix(y, ts, horizon) && k + 1 < |y.columns|
    ensures y.columns[k + 1].values == Shift(y.columns[k].values, -1)
  {
  }

  // ---------------------------------------------------------------- builder

  /** `FeatureCreation`: a validated list of features and a forecast horizon. */
  class FeatureCreation {
    const timeSeriesFeatures: seq<Feature>
    const horizon: int

    /** The object invariant established by construction: output names are distinct. */
    ghost predicate Valid()
      reads this
    {
      Distinct(OutputNames(timeSeriesFeatures))
    }

    /** Stores the configuration once `check_feature_names` has passed. */
    constructor (horizon: int, timeSeriesFeatures: seq<Feature>)
      requires CheckFeatureNames(timeSeriesFeatures).Pass?
      ensures Valid()
      ensures this.horizon == horizon && this.timeSeriesFeatures == timeSeriesFeatures
    {
      this.timeSeriesFeatures := timeSeriesFeatures;
      this.horizon := horizon;
    }

    /**
     * `FeatureCreation(horizon, time_series_features)`: validates the names
     * first; a rejected list raises and leaves no object.
     */
    static method New(horizon: int, timeSeriesFeatures: seq<Feature>)
      returns (r: Result<FeatureCreation, Error>)
      ensures r.Failure? <==> !Distinct(OutputNames(timeSeriesFeatures))
      ensures r.Failure? ==> r.error == DuplicateOutputNames(OutputNames(timeSeriesFeatures))
      ensures r.Success? ==> fresh(r.value) && r.value.Valid()
      ensures r.Success? ==> r.value.horizon == horizon && r.value.timeSeriesFeatures == timeSeriesFeatures
    {
      var check := CheckFeatureNames(timeSeriesFeatures);
      if check.Fail? {
        return Failure(check.error);
      }
      var fc := new FeatureCreation(horizon, timeSeriesFeatures);
      return Success(fc);
    }

    /**
     * `_create_y_shifts`: raises exactly when there is a step to store and the
     * series is not a single column; otherwise returns the target matrix.
     */
    method CreateYShifts(ts: Frame) returns (r: Result<Frame, Error>)
      ensures r.Failure? <==> horizon > 0 && |ts.columns| != 1
      ensures r.Failure? ==> r.error == ColumnCountMismatch(YName(0), |ts.columns|)
      ensures r.Success? ==> IsShiftMatrix(r.value, ts, horizon)
      ensures r.Success? ==> Distinct(ColumnNames(r.value.columns))
      ensures r.Success? && WellShaped(ts) ==> WellShaped(r.value)
    {
      var y := Frame(ts.index, []);
      var k := 0;
      while k < horizon
        invariant 0 <= k <= RangeLength(horizon)
        invariant k > 0 ==> |ts.columns| == 1
        invariant y.index == ts.index && |y.columns| == k
        invariant forall j :: 0 <= j < k ==>
          y.columns[j] == Column(YName(j), Shift(ts.columns[0].values, -j))
      {
        var shifted := ShiftFeature(-k, "shift_" + DecimalString(k)).transform(ts);
        if |shifted.columns| != 1 {
          return Failure(ColumnCountMismatch(YName(k), |shifted.columns|));
        }
        assert shifted.columns[0].values == Shift(ts.columns[0].values, -k);
        forall j | 0 <= j < k ensures ColumnNames(y.columns)[j] != YName(k) {
          YNameInjective(j, k);
        }
        y := SetColumn(y, YName(k), shifted.columns[0].values);
        k := k + 1;
      }
      assert IsShiftMatrix(y, ts, horizon);
      ShiftMatrixNamesDistinct(y, ts, horizon);
      return Success(y);
    }

    /**
     * `_create_x_features`: a frame on the index of `ts` holding the output
     * columns of every feature, in the order of the feature list.
     */
    method CreateXFeatures(ts: Frame) returns (x: Frame)
      requires OutputsConform(timeSeriesFeatures, ts)
      ensures x.index == ts.index
      ensures x.columns == FeatureColumns(timeSeriesFeatures, ts)
      ensures WellShaped(x)
    {
      var fs := timeSeriesFeatures;
      x := Frame(ts.index, []);
      for i := 0 to |fs|
        invariant x.index == ts.index
        invariant x.columns == FeatureColumns(fs[..i], ts)
      {
        var transformed := fs[i].transform(ts);
        assert Conforms(transformed, ts.index);
        x := Concat(x, transformed);
        FeatureColumnsSnoc(fs[..i], fs[i], ts);
        assert fs[..i + 1] == fs[..i] + [fs[i]];
      }
      assert fs[..|fs|] == fs;
      FeatureColumnsShaped(fs, ts);
    }

    /**
     * `fit_transform`: the pair (X, y); X depends only on the features and
     * the series, y only on the horizon and the series.
     */
    method FitTransform(ts: Frame) returns (r: Result<(Frame, Frame), Error>)
      requires OutputsConform(timeSeriesFeatures, ts)
      ensures r.Failure? <==> horizon > 0 && |ts.columns| != 1
      ensures r.Failure? ==> r.error == ColumnCountMismatch(YName(0), |ts.columns|)
      ensures r.Success? ==> r.value.0 == Frame(ts.index, FeatureColumns(timeSeriesFeatures, ts))
      ensures r.Success? ==> IsShiftMatrix(r.value.1, ts, horizon)
    {
      var x := CreateXFeatures(ts);
      var y := CreateYShifts(ts);
      if y.Failure? {
        return Failure(y.error);
      }
      return Success((x, y.value));
    }
  }
}
