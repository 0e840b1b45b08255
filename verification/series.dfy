/** `calc_node_stats` (nodes/nodestats.py): the per-user-agent daily mean of
    distinct peer counts, the sum of all means, and each user agent's share
    of that sum. Means and ratios are exact rationals. */
module SeriesStats {
  import opened Common

  /** One series of the API response: the user-agent tag and the daily
      counts, with the timestamps already dropped. */
  datatype Series = Series(ua: string, counts: seq<nat>)

  /** One row `[ua, daily_mean, daily_ratio]` of the source. */
  datatype UaStat = UaStat(ua: string, mean: real, ratio: real)

  /** `ua_stats, daily_mean_sum`. */
  datatype UaSummary = UaSummary(stats: seq<UaStat>, meanSum: real)

  function Means(stats: seq<UaStat>): (ms: seq<real>)
    ensures |ms| == |stats|
    ensures forall i :: 0 <= i < |stats| ==> ms[i] == stats[i].mean
  {
    seq(|stats|, i requires 0 <= i < |stats| => stats[i].mean)
  }

  function Ratios(stats: seq<UaStat>): (rs: seq<real>)
    ensures |rs| == |stats|
    ensures forall i :: 0 <= i < |stats| ==> rs[i] == stats[i].ratio
  {
    seq(|stats|, i requires 0 <= i < |stats| => stats[i].ratio)
  }

  /** `statistics.mean`: fails on no data; otherwise the value whose
      `n`-fold is the total. */
  function Mean(xs: seq<nat>): (r: Result<real>)
    ensures r.Ok? <==> |xs| > 0
    ensures r.Err? ==> r.error == EmptyMean
    ensures r.Ok? ==> r.value * |xs| as real == SumNat(xs) as real
    ensures r.Ok? ==> 0.0 <= r.value && (r.value == 0.0 <==> SumNat(xs) == 0)
  {
    if |xs| == 0 then Err(EmptyMean)
    else
      var n := |xs| as real;
      var m := SumNat(xs) as real / n;
      assert m * n == SumNat(xs) as real;
      Ok(m)
  }

  /** The first loop of the source: one mean per series, failing on the first
      series without observations. */
  function DailyMeans(data: seq<Series>): (r: Result<seq<real>>)
    ensures r.Ok? <==> forall i :: 0 <= i < |data| ==> |data[i].counts| > 0
    ensures r.Err? ==> r.error == EmptyMean
    ensures r.Ok? ==> |r.value| == |data|
    ensures r.Ok? ==> forall i :: 0 <= i < |data| ==> r.value[i] == Mean(data[i].counts).value
    decreases |data|
  {
    if |data| == 0 then Ok([])
    else
      var m :- Mean(data[0].counts);
      var rest :- DailyMeans(data[1..]);
      assert forall i :: 0 < i < |data| ==> data[i] == data[1..][i - 1];
      Ok([m] + rest)
  }

  ghost predicate AllObserved(data: seq<Series>)
  {
    forall i :: 0 <= i < |data| ==> |data[i].counts| > 0
  }

  ghost predicate SomePeers(data: seq<Series>)
  {
    exists i :: 0 <= i < |data| && SumNat(data[i].counts) > 0
  }

  /** The second loop of the source: each mean paired with its share. */
  function WithRatios(data: seq<Series>, means: seq<real>, total: real): (stats: seq<UaStat>)
    requires |means| == |data| && (|data| > 0 ==> total != 0.0)
    ensures |stats| == |data|
    ensures Means(stats) == means
    ensures forall i :: 0 <= i < |data| ==> stats[i].ua == data[i].ua && stats[i].ratio == means[i] / total
  {
    seq(|data|, i requires 0 <= i < |data| => UaStat(data[i].ua, means[i], means[i] / total))
  }

  /** Both loops of `calc_node_stats`. With no series at all nothing is
      divided, so the result is empty with a zero sum. */
  function CalcNodeStats(data: seq<Series>): (r: Result<UaSummary>)
    ensures r.Ok? <==> AllObserved(data) && (|data| == 0 || SomePeers(data))
    ensures r.Err? ==> r.error == (if AllObserved(data) then ZeroDivision else EmptyMean)
    ensures r.Ok? ==> |r.value.stats| == |data|
    ensures r.Ok? ==> forall i :: 0 <= i < |data| ==>
                        && r.value.stats[i].ua == data[i].ua
                        && r.value.stats[i].mean == Mean(data[i].counts).value
    ensures r.Ok? ==> r.value.meanSum == Sum(Means(r.value.stats))
    ensures r.Ok? && |data| > 0 ==> r.value.meanSum > 0.0
    ensures r.Ok? && |data| > 0 ==> forall i :: 0 <= i < |data| ==>
                        r.value.stats[i].ratio == r.value.stats[i].mean / r.value.meanSum
  {
    var means :- DailyMeans(data);
    var total := Sum(means);
    ZeroTotalIffNoPeers(data, means);
    AllMeansNonNegative(data, means);
    SumBoundsTerms(means);
    if |data| > 0 && total == 0.0 then Err(ZeroDivision)
    else
      var stats := WithRatios(data, means, total);
      assert forall i :: 0 <= i < |data| ==> stats[i].mean == means[i] by {
        forall i | 0 <= i < |data|
          ensures stats[i].mean == means[i]
        {
          assert Means(stats)[i] == stats[i].mean;
        }
      }
      Ok(UaSummary(stats, total))
  }

  lemma AllMeansNonNegative(data: seq<Series>, means: seq<real>)
    requires DailyMeans(data) == Ok(means)
    ensures AllNonNegative(means)
  {
    forall i | 0 <= i < |means|
      ensures 0.0 <= means[i]
    {
      assert means[i] == Mean(data[i].counts).value;
    }
  }

  lemma ZeroTotalIffNoPeers(data: seq<Series>, means: seq<real>)
    requires DailyMeans(data) == Ok(means)
    ensures Sum(means) == 0.0 <==> !SomePeers(data)
  {
    AllMeansNonNegative(data, means);
    SumZeroIffAllZero(means);
    forall i | 0 <= i < |data|
      ensures means[i] == 0.0 <==> SumNat(data[i].counts) == 0
    {
      assert means[i] == Mean(data[i].counts).value;
    }
  }

  /** A sum of non-negative terms vanishes exactly when every term does. */
  lemma {:induction false} SumZeroIffAllZero(xs: seq<real>)
    requires AllNonNegative(xs)
    ensures Sum(xs) == 0.0 <==> forall i :: 0 <= i < |xs| ==> xs[i] == 0.0
    decreases |xs|
  {
    SumBoundsTerms(xs);
    if |xs| > 0 {
      SumBoundsTerms(xs[1..]);
      SumZeroIffAllZero(xs[1..]);
      assert forall i :: 0 < i < |xs| ==> xs[i] == xs[1..][i - 1];
    }
  }

  /** The ratios of a non-empty result add up to one. */
  lemma RatiosSumToOne(data: seq<Series>)
    requires CalcNodeStats(data).Ok? && |data| > 0
    ensures Sum(Ratios(CalcNodeStats(data).value.stats)) == 1.0
  {
    var s := CalcNodeStats(data).value;
    SharesOfWhole(s.stats, s.meanSum);
  }

  /** Rows whose ratios are their means over the sum of the means have
      ratios adding up to one. */
  lemma SharesOfWhole(stats: seq<UaStat>, total: real)
    requires total != 0.0 && total == Sum(Means(stats))
    requires forall i :: 0 <= i < |stats| ==> stats[i].ratio == stats[i].mean / total
    ensures Sum(Ratios(stats)) == 1.0
  {
    var ms, rs := Means(stats), Ratios(stats);
    SumScaled(ms, rs, total);
    assert Sum(rs) == total / total;
  }

  /** Every ratio is a share between zero and one. */
  lemma RatiosAreShares(data: seq<Series>)
    requires CalcNodeStats(data).Ok?
    ensures forall i :: 0 <= i < |data| ==>
              0.0 <= CalcNodeStats(data).value.stats[i].ratio <= 1.0
  {
    var s := CalcNodeStats(data).value;
    var means := DailyMeans(data).value;
    AllMeansNonNegative(data, means);
    SumBoundsTerms(means);
    forall i | 0 <= i < |data|
      ensures 0.0 <= s.stats[i].ratio <= 1.0
    {
      assert s.stats[i].mean == means[i];
      ShareBounds(means[i], s.meanSum);
    }
  }
}
