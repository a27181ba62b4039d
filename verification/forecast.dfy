/** The arithmetic app.py (lines 113-141) wraps around the fitted trend:
    the base sample, the factor back to full resolution, the clamped growth
    area under the radius's square root and the percentage in the results.
    The three regression lines are fitted by scikit-learn; their values at
    the target year are an input here. */
module Forecast {
  import opened Wrappers
  import Pipeline
  import Arith

  /** `YEAR_TO_PREDICT`. */
  const YEAR_TO_PREDICT: nat := 2030

  /** The three regression lines of app.py:101-103 evaluated at
      `YEAR_TO_PREDICT` (app.py:109-111), in resized-image units. */
  datatype Trend = Trend(area: real, cx: real, cy: real)

  /** The `results` dictionary of app.py:138-142, together with the area
      whose square root (over pi) is the radius of the growth circle. */
  datatype Report = Report(lastYear: nat, predictedYear: nat, areaIncreasePercent: real, growthArea: real)

  /* ---------------------------------------------------------------------- */
  /* Back to full resolution                                                  */
  /* ---------------------------------------------------------------------- */

  /** `scale_factor = original_w / resized_w` (app.py:118). */
  function ScaleFactor(a: Pipeline.Analysis): (s: real)
    requires Pipeline.ValidAnalysis(a)
    ensures s * (a.resized.w as real) == a.original.w as real
    ensures s > 0.0
  {
    (a.original.w as real) / (a.resized.w as real)
  }

  lemma RatioAtLeast(s: real, rw: real, ow: real)
    requires rw > 0.0 && s * rw == ow && rw * 100.0 <= ow * 30.0
    ensures 30.0 * s >= 100.0
  {
    if 30.0 * s < 100.0 {
      Arith.MulPos(100.0 - 30.0 * s, rw);
    }
  }

  /** Since the analysis width is at most 30% of the original, the factor
      back to full resolution is at least 100/30. */
  lemma ScaleAtLeast(a: Pipeline.Analysis)
    requires Pipeline.ValidAnalysis(a)
    ensures 30.0 * ScaleFactor(a) >= 100.0
  {
    Pipeline.ResizeIsFloor(a.original);
    RatioAtLeast(ScaleFactor(a), a.resized.w as real, a.original.w as real);
  }

  /** `area_increase_hr` clamped at zero (app.py:114, 123-124): the
      predicted increase of the urban area over the base sample, rescaled
      to full resolution, or 0 when the trend does not grow. */
  function GrowthArea(a: Pipeline.Analysis, t: Trend): (g: real)
    requires Pipeline.ValidAnalysis(a)
    ensures g >= 0.0
    ensures g > 0.0 <==> t.area > a.last.area as real
  {
    var s := ScaleFactor(a);
    var increase := t.area - a.last.area as real;
    if increase <= 0.0 then 0.0
    else
      Arith.MulPos(increase, s);
      Arith.MulPos(increase * s, s);
      assert increase * (s * s) == (increase * s) * s;
      increase * (s * s)
  }

  /** A growing trend's area, measured in full-resolution pixels, relates to
      the increase in resized pixels as the squares of the two widths: the
      area scales quadratically. */
  lemma GrowthScalesQuadratically(a: Pipeline.Analysis, t: Trend)
    requires Pipeline.ValidAnalysis(a)
    requires t.area >= a.last.area as real
    ensures GrowthArea(a, t) * ((a.resized.w as real) * (a.resized.w as real))
            == (t.area - a.last.area as real) * ((a.original.w as real) * (a.original.w as real))
  {
    var s := ScaleFactor(a);
    var rw := a.resized.w as real;
    var ow := a.original.w as real;
    var increase := t.area - a.last.area as real;
    if increase > 0.0 {
      assert GrowthArea(a, t) == increase * (s * s);
      calc {
        increase * (s * s) * (rw * rw);
        increase * ((s * rw) * (s * rw));
        increase * (ow * ow);
      }
    }
  }

  /* ---------------------------------------------------------------------- */
  /* The results                                                              */
  /* ---------------------------------------------------------------------- */

  /** `p` is the increase from `base` to `predicted`, in percent of `base`. */
  predicate IsPercentIncrease(p: real, predicted: real, base: real) {
    p * base == 100.0 * (predicted - base)
  }

  /** `(predicted_area / last_data['area'] - 1) * 100` (app.py:141). The base
      sample's area is positive, so the division is defined. */
  function IncreasePercent(a: Pipeline.Analysis, t: Trend): (p: real)
    requires Pipeline.ValidAnalysis(a)
    ensures IsPercentIncrease(p, t.area, a.last.area as real)
  {
    var base := a.last.area as real;
    assert Pipeline.ValidSample(a.samples[|a.samples| - 1], a.resized);
    assert (t.area / base) * base == t.area;
    (t.area / base - 1.0) * 100.0
  }

  /** The percentage is positive, zero or negative as the predicted area is
      above, at or below the base sample's. */
  lemma PercentSign(a: Pipeline.Analysis, t: Trend)
    requires Pipeline.ValidAnalysis(a)
    ensures IncreasePercent(a, t) > 0.0 <==> t.area > a.last.area as real
    ensures IncreasePercent(a, t) == 0.0 <==> t.area == a.last.area as real
  {
    var p := IncreasePercent(a, t);
    var base := a.last.area as real;
    assert Pipeline.ValidSample(a.samples[|a.samples| - 1], a.resized);
    if p > 0.0 {
      Arith.MulPos(p, base);
    } else if p < 0.0 {
      Arith.MulPos(-p, base);
    }
  }

  /** The last sample of a year-sorted sequence carries its latest year. */
  lemma SortedLastIsLatest(s: seq<Pipeline.Sample>)
    requires |s| > 0 && Pipeline.YearsSorted(s)
    ensures Pipeline.IsLatestYear(s[|s| - 1].year, s)
  {
    var n := |s| - 1;
    assert forall i :: 0 <= i < |s| ==> s[i].year <= s[n].year;
  }

  /** The results of app.py:113-142 for an analysis and the trend fitted to
      it. */
  function Predict(a: Pipeline.Analysis, t: Trend): (r: Report)
    requires Pipeline.ValidAnalysis(a)
    ensures r.predictedYear == YEAR_TO_PREDICT
    ensures Pipeline.IsLatestYear(r.lastYear, a.samples)
    ensures IsPercentIncrease(r.areaIncreasePercent, t.area, a.last.area as real)
    ensures r.growthArea >= 0.0
    ensures r.growthArea > 0.0 <==> t.area > a.last.area as real
  {
    SortedLastIsLatest(a.samples);
    Report(a.last.year, YEAR_TO_PREDICT, IncreasePercent(a, t), GrowthArea(a, t))
  }

  /** `run_analysis_and_prediction` without the drawing: the analysis, then
      the trend `fit` computes from the sorted samples, then the results. */
  function Run(world: Pipeline.World, listing: Option<seq<string>>, fit: seq<Pipeline.Sample> -> Trend)
    : (r: Result<Report, Pipeline.Error>)
    requires Pipeline.WellFormed(world)
    ensures r.Ok? <==> Pipeline.Analyse(world, listing).Ok?
    ensures r.Err? ==> r.error == Pipeline.Analyse(world, listing).error
    ensures r.Ok? ==> r.value.predictedYear == YEAR_TO_PREDICT
    ensures r.Ok? ==> Pipeline.IsLatestYear(r.value.lastYear, Pipeline.Collected(world, listing.value).value.samples)
  {
    match Pipeline.Analyse(world, listing)
    case Err(e) => Err(e)
    case Ok(a) =>
      Pipeline.AnalyseValid(world, listing.value);
      Pipeline.BaseSampleIsLatest(world, listing.value);
      Ok(Predict(a, fit(a.samples)))
  }
}
