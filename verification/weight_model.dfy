/**
 * The weight predictor (`predict_weight`): the guard, the feature derivation,
 * the missing-weight filter, the future day, the recent net-calorie average and
 * the evaluation of the fitted linear model.
 *
 * Dates are day numbers. The regressor is a parameter `fit` that maps the
 * training rows to the coefficients of a linear model; nothing is assumed
 * about how it chooses them.
 */
module WeightModel {
  import opened Maybes
  import opened Stats

  /** One stored row of the history: its date, calorie totals and (possibly missing) weight. */
  datatype Entry = Entry(date: int, intake: real, burned: real, weight: Maybe<real>)

  /** A row after feature derivation: days since the earliest date, net calories, weight. */
  datatype Featured = Featured(day: int, net: real, weight: Maybe<real>)

  /** A row handed to the regressor: the two features and the target weight. */
  datatype Sample = Sample(day: int, net: real, weight: real)

  /** A fitted model `weight = intercept + dayCoef * day + netCoef * net`. */
  datatype Linear = Linear(intercept: real, dayCoef: real, netCoef: real) {
    function Eval(day: int, net: real): real
    {
      intercept + dayCoef * day as real + netCoef * net
    }
  }

  /**
   * What the predictor hands back. `Forecast` and `NeedMoreData` are the two
   * shapes of the returned pair; `NoTrainingRows` stands for the regressor being
   * called with no rows at all, where the library raises instead of returning.
   */
  datatype Prediction = Forecast(weight: real) | NeedMoreData(message: string) | NoTrainingRows

  /** Fewest rows the guard lets through. */
  const MinRows := 3

  /** Horizon used when the caller gives none. */
  const DefaultTargetDays := 7

  /** How many of the most recent net-calorie values are averaged. */
  const RecentWindow := 3

  const NeedMoreDataMessage := "Need more data (at least 3 days) to predict."

  /** Earliest date over every row. */
  function Earliest(entries: seq<Entry>): (d: int)
    requires |entries| > 0
    ensures exists i :: 0 <= i < |entries| && entries[i].date == d
    ensures forall i :: 0 <= i < |entries| ==> d <= entries[i].date
  {
    if |entries| == 1 then entries[0].date
    else
      var rest := Earliest(entries[1..]);
      assert forall i :: 1 <= i < |entries| ==> entries[i] == entries[1..][i - 1];
      if entries[0].date <= rest then entries[0].date else rest
  }

  /**
   * Derives `days_since_start` and `net_calories` for every row. The origin is
   * the earliest date over ALL rows, including the ones dropped afterwards for a
   * missing weight, so every day is non-negative and some row sits at day 0.
   */
  function Featurize(entries: seq<Entry>): (f: seq<Featured>)
    requires |entries| > 0
    ensures |f| == |entries|
    ensures forall i :: 0 <= i < |f| ==> f[i].day == entries[i].date - Earliest(entries) >= 0
    ensures exists i :: 0 <= i < |f| && f[i].day == 0
    ensures forall i :: 0 <= i < |f| ==>
              f[i].net == entries[i].intake - entries[i].burned && f[i].weight == entries[i].weight
  {
    var origin := Earliest(entries);
    var f := seq(|entries|, i requires 0 <= i < |entries| =>
      Featured(entries[i].date - origin, entries[i].intake - entries[i].burned, entries[i].weight));
    ghost var k :| 0 <= k < |entries| && entries[k].date == origin;
    assert f[k].day == 0;
    f
  }

  /** The gap between any two rows' days is the gap between their dates. */
  lemma FeaturizeKeepsGaps(entries: seq<Entry>, i: int, j: int)
    requires 0 <= i < |entries| && 0 <= j < |entries|
    ensures Featurize(entries)[i].day - Featurize(entries)[j].day == entries[i].date - entries[j].date
  {
  }

  /**
   * Non-negative days, one day at 0 and date-preserving gaps pin the days
   * down: any such assignment is exactly the one `Featurize` computes.
   */
  lemma DaysAreDetermined(entries: seq<Entry>, days: seq<int>)
    requires |entries| > 0 && |days| == |entries|
    requires forall i :: 0 <= i < |days| ==> days[i] >= 0
    requires exists i :: 0 <= i < |days| && days[i] == 0
    requires forall i, j :: 0 <= i < |days| && 0 <= j < |days| ==>
               days[i] - days[j] == entries[i].date - entries[j].date
    ensures forall i :: 0 <= i < |days| ==> days[i] == Featurize(entries)[i].day
  {
    var f := Featurize(entries);
    var k :| 0 <= k < |days| && days[k] == 0;
    var m :| 0 <= m < |f| && f[m].day == 0;
    assert days[m] - days[k] == entries[m].date - entries[k].date == f[m].day - f[k].day;
  }

  /** The training row a featured row contributes: one if its weight is present, none otherwise. */
  function Contribution(r: Featured): seq<Sample>
  {
    match r.weight
    case Just(w) => [Sample(r.day, r.net, w)]
    case Nothing => []
  }

  /**
   * Drops the rows whose weight is missing, keeping the others in their order.
   * Every kept row comes from a weighted row with the same features, and
   * nothing is kept exactly when no row has a weight (`DropMissingKeepsWeighted`
   * gives the converse: every weighted row is kept).
   */
  function DropMissing(f: seq<Featured>): (t: seq<Sample>)
    ensures |t| <= |f|
    ensures forall k :: 0 <= k < |t| ==>
              exists i :: 0 <= i < |f| && f[i] == Featured(t[k].day, t[k].net, Just(t[k].weight))
    ensures |t| == 0 <==> forall i :: 0 <= i < |f| ==> f[i].weight.Nothing?
  {
    if |f| == 0 then []
    else
      var rest := DropMissing(f[1..]);
      assert forall i :: 1 <= i < |f| ==> f[i] == f[1..][i - 1];
      Contribution(f[0]) + rest
  }

  /** Every row that has a weight is kept, with its features. */
  lemma {:induction false} DropMissingKeepsWeighted(f: seq<Featured>, i: int)
    requires 0 <= i < |f| && f[i].weight.Just?
    ensures Sample(f[i].day, f[i].net, f[i].weight.value) in DropMissing(f)
  {
    if i > 0 {
      assert f[1..][i - 1] == f[i];
      DropMissingKeepsWeighted(f[1..], i - 1);
    }
  }

  /** Dropping is done row by row: it distributes over concatenation, so relative order is kept. */
  lemma {:induction false} DropMissingAppend(a: seq<Featured>, b: seq<Featured>)
    ensures DropMissing(a + b) == DropMissing(a) + DropMissing(b)
  {
    if |a| == 0 {
      assert a + b == b;
    } else {
      assert (a + b)[1..] == a[1..] + b;
      DropMissingAppend(a[1..], b);
    }
  }

  /** With every weight present nothing is dropped: row i becomes training row i. */
  lemma {:induction false} DropMissingKeepsAllWeighted(f: seq<Featured>)
    requires forall i :: 0 <= i < |f| ==> f[i].weight.Just?
    ensures |DropMissing(f)| == |f|
    ensures forall i :: 0 <= i < |f| ==>
              DropMissing(f)[i] == Sample(f[i].day, f[i].net, f[i].weight.value)
  {
    if |f| > 0 {
      var rest := f[1..];
      assert forall i :: 0 <= i < |rest| ==> rest[i] == f[i + 1];
      DropMissingKeepsAllWeighted(rest);
      var head := Sample(f[0].day, f[0].net, f[0].weight.value);
      assert Contribution(f[0]) == [head];
      var t, tr := DropMissing(f), DropMissing(rest);
      assert t == [head] + tr;
      forall i | 0 <= i < |f|
        ensures t[i] == Sample(f[i].day, f[i].net, f[i].weight.value)
      {
        if i > 0 {
          assert t[i] == tr[i - 1];
        }
      }
    }
  }

  /** Training row `s` is input row `e` with its features measured from `origin`. */
  predicate SampleOf(e: Entry, origin: int, s: Sample)
  {
    e.weight == Just(s.weight) && s.day == e.date - origin && s.net == e.intake - e.burned
  }

  /**
   * The rows the regressor is trained on: each comes from a weighted input row,
   * with its days measured from the earliest date over all input rows, and the
   * set is empty exactly when no input row has a weight.
   */
  function Training(entries: seq<Entry>): (t: seq<Sample>)
    requires |entries| > 0
    ensures forall k :: 0 <= k < |t| ==>
              exists i :: 0 <= i < |entries| && SampleOf(entries[i], Earliest(entries), t[k])
    ensures |t| == 0 <==> forall i :: 0 <= i < |entries| ==> entries[i].weight.Nothing?
  {
    var origin := Earliest(entries);
    var f := Featurize(entries);
    var t := DropMissing(f);
    forall k | 0 <= k < |t|
      ensures exists i :: 0 <= i < |entries| && SampleOf(entries[i], origin, t[k])
    {
      var i :| 0 <= i < |f| && f[i] == Featured(t[k].day, t[k].net, Just(t[k].weight));
      assert SampleOf(entries[i], origin, t[k]);
    }
    t
  }

  /** Every weighted input row is a training row, its day measured from the earliest date over all rows. */
  lemma {:induction false} TrainingKeepsWeighted(entries: seq<Entry>, i: int)
    requires 0 <= i < |entries| && entries[i].weight.Just?
    ensures Sample(entries[i].date - Earliest(entries), entries[i].intake - entries[i].burned,
                   entries[i].weight.value) in Training(entries)
  {
    var f := Featurize(entries);
    DropMissingKeepsWeighted(f, i);
    var row := Sample(entries[i].date - Earliest(entries), entries[i].intake - entries[i].burned,
                      entries[i].weight.value);
    assert row == Sample(f[i].day, f[i].net, f[i].weight.value);
  }

  /** Largest day among the training rows. */
  function LatestDay(t: seq<Sample>): (d: int)
    requires |t| > 0
    ensures exists i :: 0 <= i < |t| && t[i].day == d
    ensures forall i :: 0 <= i < |t| ==> t[i].day <= d
  {
    if |t| == 1 then t[0].day
    else
      var rest := LatestDay(t[1..]);
      assert forall i :: 1 <= i < |t| ==> t[i] == t[1..][i - 1];
      if rest <= t[0].day then t[0].day else rest
  }

  /** The day to predict for: `targetDays` after the latest retained day. */
  function FutureDay(t: seq<Sample>, targetDays: int): (d: int)
    requires |t| > 0
    ensures exists i :: 0 <= i < |t| && d == t[i].day + targetDays
    ensures forall i :: 0 <= i < |t| ==> t[i].day + targetDays <= d
  {
    LatestDay(t) + targetDays
  }

  /** A non-negative horizon never predicts for a day before a training day. */
  lemma FutureDayNotBeforeTraining(t: seq<Sample>, targetDays: int)
    requires |t| > 0 && targetDays >= 0
    ensures forall i :: 0 <= i < |t| ==> t[i].day <= FutureDay(t, targetDays)
    ensures forall i :: 0 <= i < |t| ==> t[i].day < FutureDay(t, DefaultTargetDays)
  {
  }

  /** Net calories of the last min(3, n) training rows, in storage order. */
  function RecentNets(t: seq<Sample>): (r: seq<real>)
    ensures |r| == if |t| < RecentWindow then |t| else RecentWindow
    ensures forall i :: 0 <= i < |r| ==> r[i] == t[|t| - |r| + i].net
  {
    var k := if |t| < RecentWindow then |t| else RecentWindow;
    seq(k, i requires 0 <= i < k => t[|t| - k + i].net)
  }

  /**
   * Mean net calories of the most recent (by storage position) training rows:
   * the mean of the last three, or of all of them when there are fewer; so it
   * lies between the smallest and the largest of those values.
   */
  function RecentAverageNet(t: seq<Sample>): (a: real)
    requires |t| > 0
    ensures |t| >= 3 ==> a == (t[|t| - 3].net + t[|t| - 2].net + t[|t| - 1].net) / 3.0
    ensures |t| == 2 ==> a == (t[0].net + t[1].net) / 2.0
    ensures |t| == 1 ==> a == t[0].net
    ensures exists i :: |t| - RecentWindow <= i < |t| && 0 <= i && t[i].net <= a
    ensures exists i :: |t| - RecentWindow <= i < |t| && 0 <= i && a <= t[i].net
  {
    var r := RecentNets(t);
    var a := Mean(r);
    SumOfShort(r);
    MeanBetweenExtremes(r);
    var lo :| lo in r && lo == Min(r);
    var hi :| hi in r && hi == Max(r);
    var i :| 0 <= i < |r| && r[i] == lo;
    var j :| 0 <= j < |r| && r[j] == hi;
    assert t[|t| - |r| + i].net <= a;
    assert a <= t[|t| - |r| + j].net;
    a
  }

  /** Only the last three training rows matter to the average: older rows can be prepended freely. */
  lemma RecentAverageIgnoresOlderRows(older: seq<Sample>, t: seq<Sample>)
    requires |t| >= RecentWindow
    ensures RecentAverageNet(older + t) == RecentAverageNet(t)
  {
    assert RecentNets(older + t) == RecentNets(t);
  }

  /**
   * "Last three" is by storage position, not by date: the same rows stored in a
   * different order can give a different average.
   */
  lemma RecentAverageDependsOnStorageOrder()
    ensures var a := Sample(0, 100.0, 70.0);
            var b := Sample(1, 200.0, 70.0);
            var c := Sample(2, 300.0, 70.0);
            var d := Sample(3, 400.0, 70.0);
            RecentAverageNet([a, b, c, d]) == 300.0 && RecentAverageNet([d, a, b, c]) == 200.0
  {
    var a := Sample(0, 100.0, 70.0);
    var b := Sample(1, 200.0, 70.0);
    var c := Sample(2, 300.0, 70.0);
    var d := Sample(3, 400.0, 70.0);
    var later := [200.0, 300.0, 400.0];
    var earlier := [100.0, 200.0, 300.0];
    assert RecentNets([a, b, c, d]) == later;
    assert RecentNets([d, a, b, c]) == earlier;
    assert Sum(later[2..]) == 400.0;
    assert Sum(later[1..]) == 700.0;
    assert Sum(later) == 900.0;
    assert Sum(earlier[2..]) == 300.0;
    assert Sum(earlier[1..]) == 500.0;
    assert Sum(earlier) == 600.0;
  }

  /**
   * The predictor as written. Fewer than three rows of ANY kind gives the
   * "need more data" message; otherwise the features are derived, rows without
   * a weight are dropped, the model is fitted and evaluated at
   * (future day, recent average net calories), and the value is rounded to two
   * decimals.
   */
  function Predict(entries: seq<Entry>, fit: seq<Sample> -> Linear, targetDays: int := DefaultTargetDays): (p: Prediction)
    ensures p.NeedMoreData? <==> |entries| < MinRows
    ensures p.NeedMoreData? ==> p.message == NeedMoreDataMessage
    ensures p.NoTrainingRows? <==>
              |entries| >= MinRows && forall i :: 0 <= i < |entries| ==> entries[i].weight.Nothing?
    ensures p.Forecast? ==> IsCents(p.weight)
  {
    if |entries| < MinRows then NeedMoreData(NeedMoreDataMessage)
    else
      var t := Training(entries);
      if |t| == 0 then NoTrainingRows
      else
        var model := fit(t);
        Forecast(Round2(model.Eval(FutureDay(t, targetDays), RecentAverageNet(t))))
  }

  /**
   * Three or more rows of which at least one has a weight give a forecast: the
   * model fitted to the weighted rows, evaluated at the future day and the
   * recent average, to within the two-decimal rounding.
   */
  lemma ForecastIsFittedModelValue(entries: seq<Entry>, targetDays: int, fit: seq<Sample> -> Linear)
    requires |entries| >= MinRows
    requires exists i :: 0 <= i < |entries| && entries[i].weight.Just?
    ensures Predict(entries, fit, targetDays).Forecast?
    ensures var t := Training(entries);
            && |t| > 0
            && var v := fit(t).Eval(FutureDay(t, targetDays), RecentAverageNet(t));
               v - 0.005 <= Predict(entries, fit, targetDays).weight <= v + 0.005
  {
  }

  /** The guard looks at the row count only: below three rows the weights and the regressor are irrelevant. */
  lemma ShortHistoryIgnoresContents(a: seq<Entry>, b: seq<Entry>, targetDays: int,
                                    fitA: seq<Sample> -> Linear, fitB: seq<Sample> -> Linear)
    requires |a| < MinRows && |b| < MinRows
    ensures Predict(a, fitA, targetDays) == Predict(b, fitB, targetDays)
  {
  }

  /**
   * The origin includes rows dropped for a missing weight: when the earliest row
   * has no weight, no training row sits at day 0.
   */
  lemma OriginCountsDroppedRows()
    ensures var e := [Entry(10, 2000.0, 500.0, Nothing),
                      Entry(12, 2100.0, 400.0, Just(70.0)),
                      Entry(13, 1900.0, 300.0, Just(70.2))];
            Training(e) == [Sample(2, 1700.0, 70.0), Sample(3, 1600.0, 70.2)]
  {
    var e := [Entry(10, 2000.0, 500.0, Nothing),
              Entry(12, 2100.0, 400.0, Just(70.0)),
              Entry(13, 1900.0, 300.0, Just(70.2))];
    assert Earliest(e[2..]) == 13;
    assert Earliest(e[1..]) == 12;
    assert Earliest(e) == 10;
    var f := Featurize(e);
    var r0, r1, r2 := Featured(0, 1500.0, Nothing), Featured(2, 1700.0, Just(70.0)), Featured(3, 1600.0, Just(70.2));
    assert f[0] == r0 && f[1] == r1 && f[2] == r2;
    assert f == [r0, r1, r2];
    assert [r0, r1, r2][1..] == [r1, r2];
    assert [r1, r2][1..] == [r2];
    assert [r2][1..] == [];
    assert DropMissing([r2]) == [Sample(3, 1600.0, 70.2)];
    assert DropMissing([r1, r2]) == [Sample(2, 1700.0, 70.0), Sample(3, 1600.0, 70.2)];
  }

  /**
   * The guard runs before the missing-weight rows are dropped: three rows of
   * which none has a weight pass it, and the regressor is then called with no rows.
   */
  lemma GuardPassesUnweightedHistory(targetDays: int, fit: seq<Sample> -> Linear)
    ensures Predict([Entry(0, 0.0, 0.0, Nothing), Entry(1, 0.0, 0.0, Nothing), Entry(2, 0.0, 0.0, Nothing)],
                    fit, targetDays) == NoTrainingRows
  {
  }

  /**
   * The guard as evidently intended: fewer than three WEIGHTED rows gives the
   * "need more data" message, so a forecast always rests on at least three
   * training rows and the regressor is never called without rows.
   */
  function PredictChecked(entries: seq<Entry>, fit: seq<Sample> -> Linear, targetDays: int := DefaultTargetDays): (p: Prediction)
    ensures p.NeedMoreData? <==> |entries| == 0 || |Training(entries)| < MinRows
    ensures !p.NoTrainingRows?
    ensures p.Forecast? ==> IsCents(p.weight) && |Training(entries)| >= MinRows
  {
    if |entries| == 0 then NeedMoreData(NeedMoreDataMessage)
    else
      var t := Training(entries);
      if |t| < MinRows then NeedMoreData(NeedMoreDataMessage)
      else
        var model := fit(t);
        Forecast(Round2(model.Eval(FutureDay(t, targetDays), RecentAverageNet(t))))
  }

  /** Wherever the corrected guard lets the history through, it forecasts what the original does. */
  lemma PredictCheckedAgreesWhenEnoughWeights(entries: seq<Entry>, targetDays: int, fit: seq<Sample> -> Linear)
    requires |entries| > 0 && |Training(entries)| >= MinRows
    ensures PredictChecked(entries, fit, targetDays) == Predict(entries, fit, targetDays)
  {
    assert |entries| >= |Training(entries)| by {
      assert |Featurize(entries)| == |entries|;
    }
  }
}
