/** nodes/get_node_average.py, the older report: user agents whose tag
    mentions one of four versions are picked out, sorted by daily mean
    (largest first), given their percentage of the sum of all means, and
    printed as dcrd entries, then dcrwallet entries, then the rest as
    "Others". */
module Legacy {
  import opened Common
  import opened Strings
  import opened Sorting
  import opened SeriesStats
  import opened Rounding
  import opened Months

  const InterestedVersions: seq<string> := ["1.4.0", "1.5.0", "1.5.1", "1.6.0"]

  /** `[useragent, mean]`. */
  datatype UaMean = UaMean(ua: string, mean: real)

  /** `[useragent, mean, percentage]`. */
  datatype VersionStat = VersionStat(ua: string, mean: real, percentage: real)

  function MeanOf(u: UaMean): real { u.mean }

  function StatMean(v: VersionStat): real { v.mean }

  function Percentage(v: VersionStat): real { v.percentage }

  function Strip(v: VersionStat): UaMean { UaMean(v.ua, v.mean) }

  /** The first loop: every series with its daily mean. */
  function UaMeans(data: seq<Series>): (r: Result<seq<UaMean>>)
    ensures r.Ok? <==> AllObserved(data)
    ensures r.Err? ==> r.error == EmptyMean
    ensures r.Ok? ==> |r.value| == |data|
    ensures r.Ok? ==> forall i :: 0 <= i < |data| ==>
                        r.value[i] == UaMean(data[i].ua, Mean(data[i].counts).value)
  {
    var means :- DailyMeans(data);
    Ok(seq(|data|, i requires 0 <= i < |data| => UaMean(data[i].ua, means[i])))
  }

  /** How many of `versions` occur in `ua`. */
  function MatchCount(ua: string, versions: seq<string>): nat
    decreases |versions|
  {
    if |versions| == 0 then 0
    else MatchCount(ua, versions[..|versions| - 1]) + (if Contains(versions[|versions| - 1], ua) then 1 else 0)
  }

  /** The inner loop: `u` is appended once per version its tag mentions. */
  function Copies(u: UaMean, versions: seq<string>): (r: seq<UaMean>)
    ensures |r| == MatchCount(u.ua, versions)
    ensures forall k :: 0 <= k < |r| ==> r[k] == u
    decreases |versions|
  {
    if |versions| == 0 then []
    else Copies(u, versions[..|versions| - 1]) + (if Contains(versions[|versions| - 1], u.ua) then [u] else [])
  }

  /** The filtering loop, without the running total. */
  function Interested(ums: seq<UaMean>, versions: seq<string>): seq<UaMean>
    decreases |ums|
  {
    if |ums| == 0 then []
    else Interested(ums[..|ums| - 1], versions) + Copies(ums[|ums| - 1], versions)
  }

  /** `mean / (totalcount / 100)`: the percentage `part` is of `total`. */
  function PercentOf(part: real, total: real): real
    requires total != 0.0
  {
    part / (total / 100.0)
  }

  /** The last loop: every selected row with its percentage. */
  function WithPercent(us: seq<UaMean>, total: real): (vs: seq<VersionStat>)
    requires |us| > 0 ==> total != 0.0
    ensures |vs| == |us|
    ensures forall i :: 0 <= i < |us| ==>
              vs[i].ua == us[i].ua && vs[i].mean == us[i].mean && vs[i].percentage == PercentOf(us[i].mean, total)
  {
    seq(|us|, i requires 0 <= i < |us| => VersionStat(us[i].ua, us[i].mean, PercentOf(us[i].mean, total)))
  }

  /** Whether any series' tag mentions one of `versions`. */
  ghost predicate AnyInterested(data: seq<Series>, versions: seq<string>)
  {
    exists i :: 0 <= i < |data| && MatchCount(data[i].ua, versions) > 0
  }

  /** `calc_node_version_stats`. */
  function CalcNodeVersionStats(data: seq<Series>): (r: Result<seq<VersionStat>>)
    ensures r.Ok? <==> AllObserved(data) && (!AnyInterested(data, InterestedVersions) || SomePeers(data))
    ensures r.Err? ==> r.error == (if AllObserved(data) then ZeroDivision else EmptyMean)
    ensures r.Ok? ==> SortedDesc(r.value, StatMean)
    ensures r.Ok? ==> multiset(Strips(r.value)) == multiset(Interested(UaMeans(data).value, InterestedVersions))
    ensures r.Ok? && |r.value| > 0 ==> Sum(DailyMeans(data).value) != 0.0
    ensures r.Ok? ==> forall i :: 0 <= i < |r.value| ==>
                        r.value[i].percentage == PercentOf(r.value[i].mean, Sum(DailyMeans(data).value))
  {
    VersionStats(data, InterestedVersions)
  }

  /** The body of `calc_node_version_stats` for any list of versions. */
  function VersionStats(data: seq<Series>, versions: seq<string>): (r: Result<seq<VersionStat>>)
    ensures r.Ok? <==> AllObserved(data) && (!AnyInterested(data, versions) || SomePeers(data))
    ensures r.Err? ==> r.error == (if AllObserved(data) then ZeroDivision else EmptyMean)
    ensures r.Ok? ==> SortedDesc(r.value, StatMean)
    ensures r.Ok? ==> multiset(Strips(r.value)) == multiset(Interested(UaMeans(data).value, versions))
    ensures r.Ok? && |r.value| > 0 ==> Sum(DailyMeans(data).value) != 0.0
    ensures r.Ok? ==> forall i :: 0 <= i < |r.value| ==>
                        r.value[i].percentage == PercentOf(r.value[i].mean, Sum(DailyMeans(data).value))
  {
    var ums :- UaMeans(data);
    var means := DailyMeans(data).value;
    InterestedNonEmptyIff(data, ums, versions);
    ZeroTotalIffNoPeers(data, means);
    SharesOf(ums, Sum(means), versions)
  }

  /** The selection, the sort and the last loop, given the total of all
      means: it fails only when something is selected and the total is 0. */
  function SharesOf(ums: seq<UaMean>, total: real, versions: seq<string>): (r: Result<seq<VersionStat>>)
    ensures r.Ok? <==> |Interested(ums, versions)| == 0 || total != 0.0
    ensures r.Err? ==> r.error == ZeroDivision
    ensures r.Ok? ==> SortedDesc(r.value, StatMean)
    ensures r.Ok? ==> multiset(Strips(r.value)) == multiset(Interested(ums, versions))
    ensures r.Ok? && |r.value| > 0 ==> total != 0.0
    ensures r.Ok? ==> forall i :: 0 <= i < |r.value| ==> r.value[i].percentage == PercentOf(r.value[i].mean, total)
  {
    var selected := Interested(ums, versions);
    var sorted := SortDesc(selected, MeanOf);
    assert |sorted| == |multiset(sorted)| == |selected|;
    if |sorted| > 0 && total == 0.0 then Err(ZeroDivision)
    else
      SortDescCorrect(selected, MeanOf);
      StripsWithPercent(sorted, total);
      PercentKeepsOrder(sorted, total);
      Ok(WithPercent(sorted, total))
  }

  lemma PercentKeepsOrder(us: seq<UaMean>, total: real)
    requires |us| > 0 ==> total != 0.0
    requires SortedDesc(us, MeanOf)
    ensures SortedDesc(WithPercent(us, total), StatMean)
  {
    var vs := WithPercent(us, total);
    forall i, j | 0 <= i < j < |vs|
      ensures StatMean(vs[i]) >= StatMean(vs[j])
    {
      assert MeanOf(us[i]) >= MeanOf(us[j]);
    }
  }

  function Strips(vs: seq<VersionStat>): (us: seq<UaMean>)
    ensures |us| == |vs|
    ensures forall i :: 0 <= i < |vs| ==> us[i] == Strip(vs[i])
  {
    seq(|vs|, i requires 0 <= i < |vs| => Strip(vs[i]))
  }

  lemma StripsWithPercent(us: seq<UaMean>, total: real)
    requires |us| > 0 ==> total != 0.0
    ensures Strips(WithPercent(us, total)) == us
  {
  }

  lemma {:induction false} InterestedLength(ums: seq<UaMean>, versions: seq<string>)
    ensures |Interested(ums, versions)| == 0 <==> forall i :: 0 <= i < |ums| ==> MatchCount(ums[i].ua, versions) == 0
    decreases |ums|
  {
    if |ums| > 0 {
      var init := ums[..|ums| - 1];
      InterestedLength(init, versions);
      assert forall i :: 0 <= i < |init| ==> init[i] == ums[i];
    }
  }

  lemma InterestedNonEmptyIff(data: seq<Series>, ums: seq<UaMean>, versions: seq<string>)
    requires UaMeans(data) == Ok(ums)
    ensures |Interested(ums, versions)| > 0 <==> AnyInterested(data, versions)
  {
    InterestedLength(ums, versions);
    assert forall i :: 0 <= i < |ums| ==> ums[i].ua == data[i].ua;
  }

  // ---------------------------------------------------------------------
  // Properties of the selection.

  /** A user agent is selected exactly when its tag mentions an interested
      version, and then once per version it mentions. */
  lemma {:induction false} InterestedCount(ums: seq<UaMean>, versions: seq<string>, u: UaMean)
    ensures multiset(Interested(ums, versions))[u] == multiset(ums)[u] * MatchCount(u.ua, versions)
    decreases |ums|
  {
    if |ums| > 0 {
      var init, last := ums[..|ums| - 1], ums[|ums| - 1];
      var m := MatchCount(u.ua, versions);
      InterestedCount(init, versions, u);
      InterestedSnoc(ums, versions);
      CountSnoc(ums, u);
      CopiesCount(last, versions, u);
      MulSucc(multiset(init)[u], m);
      assert multiset(Interested(ums, versions))[u]
             == multiset(Interested(init, versions))[u] + multiset(Copies(last, versions))[u];
    }
  }

  /** One more row adds its copies to the selection. */
  lemma InterestedSnoc(ums: seq<UaMean>, versions: seq<string>)
    requires |ums| > 0
    ensures multiset(Interested(ums, versions))
            == multiset(Interested(ums[..|ums| - 1], versions)) + multiset(Copies(ums[|ums| - 1], versions))
  {
  }

  /** One more row adds one to its own count. */
  lemma CountSnoc(ums: seq<UaMean>, u: UaMean)
    requires |ums| > 0
    ensures multiset(ums)[u] == multiset(ums[..|ums| - 1])[u] + if ums[|ums| - 1] == u then 1 else 0
  {
    assert ums == ums[..|ums| - 1] + [ums[|ums| - 1]];
  }

  /** `u` occurs among the copies of `w` once per version when `w` is `u`,
      and not at all otherwise. */
  lemma CopiesCount(w: UaMean, versions: seq<string>, u: UaMean)
    ensures multiset(Copies(w, versions))[u] == if w == u then MatchCount(u.ua, versions) else 0
  {
    var c := Copies(w, versions);
    if w == u {
      assert c == seq(|c|, k => u);
      CountOfConstant(u, |c|);
    } else {
      assert u !in c;
    }
  }

  lemma MulSucc(a: nat, m: nat)
    ensures (a + 1) * m == a * m + m
  {
  }

  lemma {:induction false} CountOfConstant(u: UaMean, n: nat)
    ensures multiset(seq(n, k => u))[u] == n
    decreases n
  {
    if n > 0 {
      assert seq(n, k => u) == seq(n - 1, k => u) + [u];
      CountOfConstant(u, n - 1);
    }
  }

  /** When no tag mentions two versions, the selected means add up to no
      more than all means. */
  lemma {:induction false} InterestedSumBound(ums: seq<UaMean>, versions: seq<string>)
    requires forall i :: 0 <= i < |ums| ==> 0.0 <= ums[i].mean && MatchCount(ums[i].ua, versions) <= 1
    ensures 0.0 <= KeySum(Interested(ums, versions), MeanOf) <= KeySum(ums, MeanOf)
    decreases |ums|
  {
    if |ums| > 0 {
      var init, last := ums[..|ums| - 1], ums[|ums| - 1];
      assert forall i :: 0 <= i < |init| ==> init[i] == ums[i];
      InterestedSumBound(init, versions);
      ButLast(ums);
      KeySumAppend(init, last, MeanOf);
      assert 0.0 <= last.mean;
      var c := Copies(last, versions);
      assert Interested(ums, versions) == Interested(init, versions) + c;
      if |c| == 1 {
        assert c == [last];
        KeySumAppend(Interested(init, versions), last, MeanOf);
      } else {
        assert c == [];
        assert Interested(init, versions) + [] == Interested(init, versions);
      }
    }
  }

  lemma {:induction false} KeySumPercent(us: seq<UaMean>, total: real)
    requires total != 0.0
    ensures KeySum(WithPercent(us, total), Percentage) == PercentOf(KeySum(us, MeanOf), total)
    decreases |us|
  {
    if |us| > 0 {
      var vs := WithPercent(us, total);
      assert vs[1..] == WithPercent(us[1..], total);
      KeySumPercent(us[1..], total);
      SharesAdd(us[0].mean, KeySum(us[1..], MeanOf), total / 100.0);
    }
  }

  lemma SumMeansIsKeySum(data: seq<Series>, ums: seq<UaMean>)
    requires UaMeans(data) == Ok(ums)
    ensures KeySum(ums, MeanOf) == Sum(DailyMeans(data).value)
  {
    var means := DailyMeans(data).value;
    assert forall i :: 0 <= i < |ums| ==> MeanOf(ums[i]) == means[i];
    KeySumIsSum(ums, means);
  }

  lemma {:induction false} KeySumIsSum(ums: seq<UaMean>, means: seq<real>)
    requires |ums| == |means|
    requires forall i :: 0 <= i < |ums| ==> MeanOf(ums[i]) == means[i]
    ensures KeySum(ums, MeanOf) == Sum(means)
    decreases |ums|
  {
    if |ums| > 0 {
      KeySumIsSum(ums[1..], means[1..]);
    }
  }

  /** When no tag mentions two versions, the percentages add up to at most
      100. */
  lemma PercentagesAtMost100(data: seq<Series>)
    requires CalcNodeVersionStats(data).Ok?
    requires forall i :: 0 <= i < |data| ==> MatchCount(data[i].ua, InterestedVersions) <= 1
    ensures 0.0 <= KeySum(CalcNodeVersionStats(data).value, Percentage) <= 100.0
  {
    SharesAtMost100(data, InterestedVersions);
  }

  lemma SharesAtMost100(data: seq<Series>, versions: seq<string>)
    requires VersionStats(data, versions).Ok?
    requires forall i :: 0 <= i < |data| ==> MatchCount(data[i].ua, versions) <= 1
    ensures 0.0 <= KeySum(VersionStats(data, versions).value, Percentage) <= 100.0
  {
    var ums := UaMeans(data).value;
    var total := Sum(DailyMeans(data).value);
    RowsOfMeans(data, ums);
    InterestedSumBound(ums, versions);
    assert VersionStats(data, versions) == SharesOf(ums, total, versions);
    PercentShareBound(ums, total, versions);
  }

  /** The rows of the first loop keep the tags, have non-negative means,
      and their means add up to the sum of the daily means. */
  lemma RowsOfMeans(data: seq<Series>, ums: seq<UaMean>)
    requires UaMeans(data) == Ok(ums)
    ensures forall i :: 0 <= i < |ums| ==> ums[i].ua == data[i].ua && 0.0 <= ums[i].mean
    ensures KeySum(ums, MeanOf) == Sum(DailyMeans(data).value)
  {
    var means := DailyMeans(data).value;
    AllMeansNonNegative(data, means);
    assert forall i :: 0 <= i < |ums| ==> ums[i].mean == means[i];
    SumMeansIsKeySum(data, ums);
  }

  /** Percentages of a selection whose means add up to at most the total
      add up to at most 100. */
  lemma PercentShareBound(ums: seq<UaMean>, total: real, versions: seq<string>)
    requires SharesOf(ums, total, versions).Ok?
    requires 0.0 <= KeySum(Interested(ums, versions), MeanOf) <= total
    ensures 0.0 <= KeySum(SharesOf(ums, total, versions).value, Percentage) <= 100.0
  {
    var selected := Interested(ums, versions);
    var sorted := SortDesc(selected, MeanOf);
    KeySumSort(selected, MeanOf, MeanOf);
    assert |sorted| == |multiset(sorted)| == |selected|;
    if |sorted| > 0 {
      assert SharesOf(ums, total, versions).value == WithPercent(sorted, total);
      KeySumPercent(sorted, total);
      ShareBounds(KeySum(sorted, MeanOf), total);
      PercentOfShare(KeySum(sorted, MeanOf), total);
    } else {
      assert SharesOf(ums, total, versions).value == [];
    }
  }

  lemma PercentOfShare(part: real, total: real)
    requires 0.0 < total && 0.0 <= part / total <= 1.0
    ensures 0.0 <= PercentOf(part, total) <= 100.0
  {
    assert PercentOf(part, total) == 100.0 * (part / total);
  }

  // ---------------------------------------------------------------------
  // The legacy printout, as a sequence of entries.

  /** One "<round(percentage, 2)>%  <third field of the tag>, " item. */
  datatype LegacyEntry = LegacyEntry(percent: real, version: string)

  datatype LegacyLine = LegacyLine(monthName: string, entries: seq<LegacyEntry>, others: real)

  /** `useragent.split("/")[2]`, which fails on a tag with fewer than two
      slashes. */
  function TagField(ua: string): (r: Result<string>)
    ensures r.Ok? <==> CountChar(ua, '/') >= 2
    ensures r.Err? ==> r.error == IndexOutOfRange
  {
    SplitLength(ua, '/');
    var fields := Split(ua, '/');
    if |fields| > 2 then Ok(fields[2]) else Err(IndexOutOfRange)
  }

  /** One of the two printing loops: the entries whose tag mentions `marker`. */
  function EntriesFor(vs: seq<VersionStat>, marker: string): (r: Result<seq<LegacyEntry>>)
    decreases |vs|
  {
    if |vs| == 0 then Ok([])
    else
      var init :- EntriesFor(vs[..|vs| - 1], marker);
      var v := vs[|vs| - 1];
      if Contains(marker, v.ua) then
        var field :- TagField(v.ua);
        Ok(init + [LegacyEntry(RoundHalfEven(v.percentage, 2), field)])
      else Ok(init)
  }

  /** Every entry whose tag mentions `marker` has two slashes. */
  ghost predicate Printable(vs: seq<VersionStat>, marker: string)
  {
    forall i :: 0 <= i < |vs| && Contains(marker, vs[i].ua) ==> CountChar(vs[i].ua, '/') >= 2
  }

  /** The sum of all percentages, listed or not, as the first loop adds them. */
  function PercentSum(vs: seq<VersionStat>): real
    decreases |vs|
  {
    if |vs| == 0 then 0.0 else PercentSum(vs[..|vs| - 1]) + vs[|vs| - 1].percentage
  }

  /** The legacy `print_node_stats`. */
  function PrintLegacy(vs: seq<VersionStat>, month: int): (r: Result<LegacyLine>)
    requires 1 <= month <= 12
    ensures r.Ok? <==> Printable(vs, "dcrd") && Printable(vs, "dcrwallet")
    ensures r.Err? ==> r.error == IndexOutOfRange
    ensures r.Ok? ==> r.value.monthName == MonthName(month)
                      && r.value.others == RoundHalfEven(100.0 - KeySum(vs, Percentage), 2)
    ensures r.Ok? ==> && |r.value.entries| == |Mentioning(vs, "dcrd")| + |Mentioning(vs, "dcrwallet")|
                      && DescribesAll(r.value.entries[..|Mentioning(vs, "dcrd")|], Mentioning(vs, "dcrd"))
                      && DescribesAll(r.value.entries[|Mentioning(vs, "dcrd")|..], Mentioning(vs, "dcrwallet"))
  {
    EntriesForSpec(vs, "dcrd");
    EntriesForSpec(vs, "dcrwallet");
    PercentSumIsKeySum(vs);
    var d :- EntriesFor(vs, "dcrd");
    var w :- EntriesFor(vs, "dcrwallet");
    assert (d + w)[..|d|] == d && (d + w)[|d|..] == w;
    Ok(LegacyLine(MonthName(month), d + w, RoundHalfEven(100.0 - PercentSum(vs), 2)))
  }

  /** The rows whose tag mentions `marker`, in list order. */
  function Mentioning(vs: seq<VersionStat>, marker: string): seq<VersionStat>
    decreases |vs|
  {
    if |vs| == 0 then []
    else Mentioning(vs[..|vs| - 1], marker) + (if Contains(marker, vs[|vs| - 1].ua) then [vs[|vs| - 1]] else [])
  }

  /** A row is kept exactly when it is in the list and its tag mentions the marker. */
  lemma {:induction false} MentioningMembers(vs: seq<VersionStat>, marker: string, v: VersionStat)
    ensures v in Mentioning(vs, marker) <==> v in vs && Contains(marker, v.ua)
    decreases |vs|
  {
    if |vs| > 0 {
      ButLast(vs);
      MentioningMembers(vs[..|vs| - 1], marker, v);
    }
  }

  /** The printed entry of a row: its percentage rounded to two places and
      the third `/`-separated field of its tag. */
  predicate Describes(e: LegacyEntry, v: VersionStat)
  {
    && |Split(v.ua, '/')| > 2
    && e.version == Split(v.ua, '/')[2]
    && e.percent == RoundHalfEven(v.percentage, 2)
  }

  predicate DescribesAll(es: seq<LegacyEntry>, vs: seq<VersionStat>)
  {
    |es| == |vs| && forall k :: 0 <= k < |vs| ==> Describes(es[k], vs[k])
  }

  /** The entries of one loop: one for each row whose tag mentions the
      marker, in order, labelled with the tag's third field. */
  lemma {:induction false} EntriesForSpec(vs: seq<VersionStat>, marker: string)
    ensures EntriesFor(vs, marker).Ok? <==> Printable(vs, marker)
    ensures EntriesFor(vs, marker).Err? ==> EntriesFor(vs, marker).error == IndexOutOfRange
    ensures EntriesFor(vs, marker).Ok? ==> DescribesAll(EntriesFor(vs, marker).value, Mentioning(vs, marker))
    decreases |vs|
  {
    if |vs| > 0 {
      var init := vs[..|vs| - 1];
      var v := vs[|vs| - 1];
      EntriesForSpec(init, marker);
      assert forall i :: 0 <= i < |init| ==> init[i] == vs[i];
      if EntriesFor(vs, marker).Ok? && Contains(marker, v.ua) {
        var es := EntriesFor(init, marker).value;
        var e := LegacyEntry(RoundHalfEven(v.percentage, 2), TagField(v.ua).value);
        assert EntriesFor(vs, marker).value == es + [e];
        EntriesAppend(es, Mentioning(init, marker), e, v);
      }
    }
  }

  /** One more described row at the end keeps the lists in step. */
  lemma EntriesAppend(es: seq<LegacyEntry>, fs: seq<VersionStat>, e: LegacyEntry, v: VersionStat)
    requires DescribesAll(es, fs) && Describes(e, v)
    ensures DescribesAll(es + [e], fs + [v])
  {
    assert forall k :: 0 <= k < |es| ==> (es + [e])[k] == es[k] && (fs + [v])[k] == fs[k];
  }

  lemma {:induction false} PercentSumIsKeySum(vs: seq<VersionStat>)
    ensures PercentSum(vs) == KeySum(vs, Percentage)
    decreases |vs|
  {
    if |vs| > 0 {
      var init := vs[..|vs| - 1];
      PercentSumIsKeySum(init);
      assert vs == init + [vs[|vs| - 1]];
      KeySumAppend(init, vs[|vs| - 1], Percentage);
    }
  }

  /** Rounding keeps a non-negative number non-negative. */
  lemma RoundNonNegative(x: real, d: nat)
    requires 0.0 <= x
    ensures 0.0 <= RoundHalfEven(x, d)
  {
    RoundHalfEvenDecimal(x, d);
    var n := RoundHalfEvenInt(Scaled(x, d));
    assert 0.0 <= Scaled(x, d);
    assert n >= 0;
  }

  /** When no tag mentions two versions, "Others" is never negative. */
  lemma OthersNonNegative(data: seq<Series>, month: int)
    requires 1 <= month <= 12
    requires CalcNodeVersionStats(data).Ok?
    requires forall i :: 0 <= i < |data| ==> MatchCount(data[i].ua, InterestedVersions) <= 1
    requires PrintLegacy(CalcNodeVersionStats(data).value, month).Ok?
    ensures 0.0 <= PrintLegacy(CalcNodeVersionStats(data).value, month).value.others
  {
    PercentagesAtMost100(data);
    OthersOfShares(CalcNodeVersionStats(data).value, month);
  }

  /** Percentages adding up to at most 100 leave a non-negative rest. */
  lemma OthersOfShares(vs: seq<VersionStat>, month: int)
    requires 1 <= month <= 12
    requires KeySum(vs, Percentage) <= 100.0
    requires PrintLegacy(vs, month).Ok?
    ensures 0.0 <= PrintLegacy(vs, month).value.others
  {
    var rest := 100.0 - KeySum(vs, Percentage);
    assert PrintLegacy(vs, month).value.others == RoundHalfEven(rest, 2);
    RoundNonNegative(rest, 2);
  }
}
