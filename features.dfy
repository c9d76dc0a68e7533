/**
 * The interface of a time-series feature as the feature builder uses it: an
 * output name and a transformation of a frame (its `fit_transform`).
 */
module Features {
  import opened Frames

  /** A time-series feature: the transformation is code outside this model, so it is a parameter. */
  datatype Feature = Feature(outputName: string, transform: Frame -> Frame)

  function OutputNames(fs: seq<Feature>): seq<string>
  {
    seq(|fs|, i requires 0 <= i < |fs| => fs[i].outputName)
  }

  /** `ShiftFeature(periods, output_name)`, assumed to behave as pandas `shift(periods)`. */
  function ShiftFeature(periods: int, outputName: string): (f: Feature)
    ensures f.outputName == outputName
    ensures forall fr :: f.transform(fr).index == fr.index
    ensures forall fr :: |f.transform(fr).columns| == |fr.columns|
    ensures forall fr: Frame, j :: 0 <= j < |fr.columns| ==>
      f.transform(fr).columns[j].values == Shift(fr.columns[j].values, periods)
  {
    Feature(outputName, fr => ShiftFrame(fr, periods))
  }
}
