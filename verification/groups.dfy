/** `calc_node_group_stats` (nodes/nodestats.py) with the tracked-groups
    table passed in: user agents found in the inverted table are collected
    under their group name, each group's means are summed and divided by the
    sum of all means, the groups are sorted by that ratio (largest first) and
    whatever share is left over is reported as untracked. */
module Groups {
  import opened Common
  import opened Sorting
  import opened Multidict
  import opened SeriesStats

  /** `GroupStats(name, avg_nodes, avg_nodes_ratio, stats)`. */
  datatype GroupStat = GroupStat(name: string, avgNodes: real, avgNodesRatio: real, stats: seq<UaStat>)

  /** `Stats(group_stats, untracked_ratio)`. */
  datatype Stats = Stats(groupStats: seq<GroupStat>, untrackedRatio: real)

  /** One entry of the temporary `grouped_stats` dict. */
  datatype Bucket = Bucket(name: string, members: seq<UaStat>)

  function RatioOf(g: GroupStat): real { g.avgNodesRatio }

  function NameOf(g: GroupStat): string { g.name }

  /** `ua_to_group.get(ua)` as the test `if gname:` sees it: a missing user
      agent and a group with an empty name both read as "". */
  function GroupOf(lookup: map<string, string>, ua: string): string
  {
    if ua in lookup then lookup[ua] else ""
  }

  // ---------------------------------------------------------------------
  // Reference views of the input, by filtering.

  /** The rows that belong to group `name`, in input order. */
  function Members(lookup: map<string, string>, stats: seq<UaStat>, name: string): seq<UaStat>
    decreases |stats|
  {
    if |stats| == 0 then []
    else
      var last := stats[|stats| - 1];
      Members(lookup, stats[..|stats| - 1], name)
        + (if name != "" && GroupOf(lookup, last.ua) == name then [last] else [])
  }

  /** The rows that belong to some group, in input order. */
  function Tracked(lookup: map<string, string>, stats: seq<UaStat>): seq<UaStat>
    decreases |stats|
  {
    if |stats| == 0 then []
    else
      var last := stats[|stats| - 1];
      Tracked(lookup, stats[..|stats| - 1]) + (if GroupOf(lookup, last.ua) != "" then [last] else [])
  }

  /** The group name of every tracked row, in input order. */
  function TrackedNames(lookup: map<string, string>, stats: seq<UaStat>): seq<string>
    decreases |stats|
  {
    if |stats| == 0 then []
    else
      var g := GroupOf(lookup, stats[|stats| - 1].ua);
      TrackedNames(lookup, stats[..|stats| - 1]) + (if g != "" then [g] else [])
  }

  /** First occurrences only, in order. */
  function Dedup(s: seq<string>): seq<string>
    decreases |s|
  {
    if |s| == 0 then []
    else
      var d := Dedup(s[..|s| - 1]);
      if s[|s| - 1] in d then d else d + [s[|s| - 1]]
  }

  // ---------------------------------------------------------------------
  // The first loop: `grouped_stats.setdefault(gname, []).append(uas)`.

  function AddToBucket(bs: seq<Bucket>, name: string, u: UaStat): seq<Bucket>
    decreases |bs|
  {
    if |bs| == 0 then [Bucket(name, [u])]
    else if bs[0].name == name then [Bucket(name, bs[0].members + [u])] + bs[1..]
    else [bs[0]] + AddToBucket(bs[1..], name, u)
  }

  function GroupByName(lookup: map<string, string>, stats: seq<UaStat>): seq<Bucket>
    decreases |stats|
  {
    if |stats| == 0 then []
    else
      var bs := GroupByName(lookup, stats[..|stats| - 1]);
      var u := stats[|stats| - 1];
      var g := GroupOf(lookup, u.ua);
      if g != "" then AddToBucket(bs, g, u) else bs
  }

  function Names(bs: seq<Bucket>): (ns: seq<string>)
    ensures |ns| == |bs|
    ensures forall k :: 0 <= k < |bs| ==> ns[k] == bs[k].name
  {
    seq(|bs|, k requires 0 <= k < |bs| => bs[k].name)
  }

  /** The members of the first bucket called `name`, or none. */
  function BucketMembers(bs: seq<Bucket>, name: string): seq<UaStat>
    decreases |bs|
  {
    if |bs| == 0 then []
    else if bs[0].name == name then bs[0].members
    else BucketMembers(bs[1..], name)
  }

  /** The sum of the means of every bucketed row. */
  function BucketTotal(bs: seq<Bucket>): real
    decreases |bs|
  {
    if |bs| == 0 then 0.0 else Sum(Means(bs[0].members)) + BucketTotal(bs[1..])
  }

  // ---------------------------------------------------------------------
  // The second loop, the sort and the untracked remainder.

  function MakeGroups(bs: seq<Bucket>, dailyMeanSum: real): (gs: seq<GroupStat>)
    requires |bs| > 0 ==> dailyMeanSum != 0.0
    ensures |gs| == |bs|
    ensures forall k :: 0 <= k < |bs| ==>
              && gs[k].name == bs[k].name
              && gs[k].stats == bs[k].members
              && gs[k].avgNodes == Sum(Means(bs[k].members))
              && gs[k].avgNodesRatio == gs[k].avgNodes / dailyMeanSum
    decreases |bs|
  {
    if |bs| == 0 then []
    else
      var avg := Sum(Means(bs[0].members));
      [GroupStat(bs[0].name, avg, avg / dailyMeanSum, bs[0].members)] + MakeGroups(bs[1..], dailyMeanSum)
  }

  /** What the group list says about the input rows: one group per
      distinct non-empty group name met, holding exactly that group's rows
      in input order, with their summed mean and its share of `dailyMeanSum`. */
  ghost predicate DescribesGroups(gs: seq<GroupStat>, lookup: map<string, string>, uaStats: seq<UaStat>, dailyMeanSum: real)
  {
    && DistinctBy(gs, NameOf)
    && (|gs| > 0 ==> dailyMeanSum != 0.0)
    && (forall k :: 0 <= k < |gs| ==>
          && gs[k].name != ""
          && gs[k].stats == Members(lookup, uaStats, gs[k].name)
          && |gs[k].stats| > 0
          && gs[k].avgNodes == Sum(Means(gs[k].stats))
          && gs[k].avgNodesRatio == gs[k].avgNodes / dailyMeanSum)
    && Complete(gs, lookup, uaStats)
  }

  /** Every tracked row's group has an entry. */
  ghost predicate Complete(gs: seq<GroupStat>, lookup: map<string, string>, uaStats: seq<UaStat>)
  {
    forall i :: 0 <= i < |uaStats| && GroupOf(lookup, uaStats[i].ua) != "" ==>
      exists k :: 0 <= k < |gs| && gs[k].name == GroupOf(lookup, uaStats[i].ua)
  }

  /** The whole of `calc_node_group_stats` after the table is loaded. */
  function CalcNodeGroupStats(uaStats: seq<UaStat>, dailyMeanSum: real, trackedGroups: Multidict): (r: Result<Stats>)
    ensures !NoDuplicates(Elements(trackedGroups)) ==> r == Err(InverseMultidict(trackedGroups).error)
    ensures NoDuplicates(Elements(trackedGroups)) ==>
              var lookup := InverseMultidict(trackedGroups).value;
              (r.Err? <==> dailyMeanSum == 0.0 && |TrackedNames(lookup, uaStats)| > 0)
              && (r.Err? ==> r.error == ZeroDivision)
    ensures r.Ok? ==>
              && SortedDesc(r.value.groupStats, RatioOf)
              && DescribesGroups(r.value.groupStats, InverseMultidict(trackedGroups).value, uaStats, dailyMeanSum)
              && r.value.untrackedRatio == 1.0 - KeySum(r.value.groupStats, RatioOf)
  {
    var lookup :- InverseMultidict(trackedGroups);
    var buckets := GroupByName(lookup, uaStats);
    GroupByNameNames(lookup, uaStats);
    DedupSpec(TrackedNames(lookup, uaStats));
    if |buckets| > 0 && dailyMeanSum == 0.0 then
      Err(ZeroDivision)
    else
      var groups := MakeGroups(buckets, dailyMeanSum);
      SortedGroups(lookup, uaStats, dailyMeanSum);
      Ok(Stats(SortDesc(groups, RatioOf), 1.0 - KeySum(groups, RatioOf)))
  }

  lemma SortedGroups(lookup: map<string, string>, uaStats: seq<UaStat>, d: real)
    requires |GroupByName(lookup, uaStats)| > 0 ==> d != 0.0
    ensures var groups := MakeGroups(GroupByName(lookup, uaStats), d);
            var sorted := SortDesc(groups, RatioOf);
            && SortedDesc(sorted, RatioOf)
            && DescribesGroups(sorted, lookup, uaStats, d)
            && KeySum(sorted, RatioOf) == KeySum(groups, RatioOf)
  {
    var groups := MakeGroups(GroupByName(lookup, uaStats), d);
    var sorted := SortDesc(groups, RatioOf);
    GroupsFacts(lookup, uaStats, d);
    SortDescCorrect(groups, RatioOf);
    SortDistinct(groups, RatioOf, NameOf);
    KeySumSort(groups, RatioOf, RatioOf);
    SortedFacts(lookup, uaStats, d, groups, sorted);
  }

  /** `main`'s pipeline from the raw series to the group report. */
  function NodeStats(data: seq<Series>, trackedGroups: Multidict): (r: Result<Stats>)
    ensures r.Ok? ==> CalcNodeStats(data).Ok?
    ensures CalcNodeStats(data).Err? ==> r == Err(CalcNodeStats(data).error)
    ensures r.Err? <==> CalcNodeStats(data).Err? || !NoDuplicates(Elements(trackedGroups))
    ensures CalcNodeStats(data).Ok? ==>
              r == CalcNodeGroupStats(CalcNodeStats(data).value.stats, CalcNodeStats(data).value.meanSum, trackedGroups)
  {
    var s :- CalcNodeStats(data);
    assert InverseMultidict(trackedGroups).Ok? && |s.stats| == 0 ==>
             TrackedNames(InverseMultidict(trackedGroups).value, s.stats) == [];
    CalcNodeGroupStats(s.stats, s.meanSum, trackedGroups)
  }

  // ---------------------------------------------------------------------
  // Proofs.

  lemma {:induction false} DedupSpec(s: seq<string>)
    ensures forall x :: x in Dedup(s) <==> x in s
    ensures forall i, j :: 0 <= i < j < |Dedup(s)| ==> Dedup(s)[i] != Dedup(s)[j]
    decreases |s|
  {
    if |s| > 0 {
      DedupSpec(s[..|s| - 1]);
      assert s == s[..|s| - 1] + [s[|s| - 1]];
    }
  }

  lemma {:induction false} TrackedNamesNonEmpty(lookup: map<string, string>, stats: seq<UaStat>)
    ensures forall x :: x in TrackedNames(lookup, stats) ==> x != ""
    ensures forall i :: 0 <= i < |stats| && GroupOf(lookup, stats[i].ua) != "" ==>
              GroupOf(lookup, stats[i].ua) in TrackedNames(lookup, stats)
    decreases |stats|
  {
    if |stats| > 0 {
      TrackedNamesNonEmpty(lookup, stats[..|stats| - 1]);
      assert forall i :: 0 <= i < |stats| - 1 ==> stats[i] == stats[..|stats| - 1][i];
    }
  }

  /** A name that some row carries has at least that row as member. */
  lemma {:induction false} MembersNonEmpty(lookup: map<string, string>, stats: seq<UaStat>, name: string)
    requires name in TrackedNames(lookup, stats)
    ensures |Members(lookup, stats, name)| > 0
    decreases |stats|
  {
    var init := stats[..|stats| - 1];
    if name !in TrackedNames(lookup, init) {
      assert GroupOf(lookup, stats[|stats| - 1].ua) == name;
    } else {
      MembersNonEmpty(lookup, init, name);
    }
  }

  lemma {:induction false} AddToBucketNames(bs: seq<Bucket>, name: string, u: UaStat)
    ensures Names(AddToBucket(bs, name, u)) == if name in Names(bs) then Names(bs) else Names(bs) + [name]
    decreases |bs|
  {
    if |bs| > 0 {
      AddToBucketNames(bs[1..], name, u);
      assert Names(bs) == [bs[0].name] + Names(bs[1..]);
      if bs[0].name != name {
        assert Names(AddToBucket(bs, name, u)) == [bs[0].name] + Names(AddToBucket(bs[1..], name, u));
      } else {
        assert Names(AddToBucket(bs, name, u)) == [name] + Names(bs[1..]);
      }
    }
  }

  lemma {:induction false} AddToBucketMembers(bs: seq<Bucket>, name: string, u: UaStat, m: string)
    ensures BucketMembers(AddToBucket(bs, name, u), m) == BucketMembers(bs, m) + (if m == name then [u] else [])
    decreases |bs|
  {
    if |bs| > 0 && bs[0].name != name {
      AddToBucketMembers(bs[1..], name, u, m);
    }
  }

  lemma {:induction false} AddToBucketTotal(bs: seq<Bucket>, name: string, u: UaStat)
    ensures BucketTotal(AddToBucket(bs, name, u)) == BucketTotal(bs) + u.mean
    decreases |bs|
  {
    if |bs| == 0 {
      var r := AddToBucket(bs, name, u);
      assert r == [Bucket(name, [u])];
      assert Means([u]) == [u.mean];
      assert Sum([u.mean]) == u.mean + Sum([]) by {
        assert [u.mean][1..] == [];
      }
      assert r[1..] == [];
      assert BucketTotal(r) == Sum(Means([u])) + BucketTotal([]);
    } else if bs[0].name == name {
      var ms := bs[0].members;
      assert Means(ms + [u]) == Means(ms) + [u.mean];
      SumConcat(Means(ms), [u.mean]);
      assert AddToBucket(bs, name, u)[1..] == bs[1..];
    } else {
      AddToBucketTotal(bs[1..], name, u);
      assert AddToBucket(bs, name, u)[1..] == AddToBucket(bs[1..], name, u);
    }
  }

  /** Buckets appear in the order their names are first met. */
  lemma {:induction false} GroupByNameNames(lookup: map<string, string>, stats: seq<UaStat>)
    ensures Names(GroupByName(lookup, stats)) == Dedup(TrackedNames(lookup, stats))
    decreases |stats|
  {
    if |stats| > 0 {
      var init := stats[..|stats| - 1];
      GroupByNameNames(lookup, init);
      var g := GroupOf(lookup, stats[|stats| - 1].ua);
      if g != "" {
        AddToBucketNames(GroupByName(lookup, init), g, stats[|stats| - 1]);
        var tn := TrackedNames(lookup, stats);
        assert tn == TrackedNames(lookup, init) + [g];
        assert tn[..|tn| - 1] == TrackedNames(lookup, init);
        assert tn[|tn| - 1] == g;
        assert GroupByName(lookup, stats) == AddToBucket(GroupByName(lookup, init), g, stats[|stats| - 1]);
        assert Dedup(tn) == if g in Dedup(TrackedNames(lookup, init)) then Dedup(TrackedNames(lookup, init))
                            else Dedup(TrackedNames(lookup, init)) + [g];
      } else {
        assert TrackedNames(lookup, stats) == TrackedNames(lookup, init) + [];
        assert TrackedNames(lookup, init) + [] == TrackedNames(lookup, init);
        assert GroupByName(lookup, stats) == GroupByName(lookup, init);
      }
    }
  }

  /** Every bucket holds exactly the rows of its group. */
  lemma {:induction false} GroupByNameMembers(lookup: map<string, string>, stats: seq<UaStat>, m: string)
    ensures BucketMembers(GroupByName(lookup, stats), m) == Members(lookup, stats, m)
    decreases |stats|
  {
    if |stats| > 0 {
      var init := stats[..|stats| - 1];
      GroupByNameMembers(lookup, init, m);
      var g := GroupOf(lookup, stats[|stats| - 1].ua);
      if g != "" {
        AddToBucketMembers(GroupByName(lookup, init), g, stats[|stats| - 1], m);
      } else if m == "" {
        MembersOfEmpty(lookup, init);
      }
    }
  }

  lemma {:induction false} MembersOfEmpty(lookup: map<string, string>, stats: seq<UaStat>)
    ensures Members(lookup, stats, "") == []
    decreases |stats|
  {
    if |stats| > 0 {
      MembersOfEmpty(lookup, stats[..|stats| - 1]);
    }
  }

  lemma {:induction false} GroupByNameTotal(lookup: map<string, string>, stats: seq<UaStat>)
    ensures BucketTotal(GroupByName(lookup, stats)) == Sum(Means(Tracked(lookup, stats)))
    decreases |stats|
  {
    if |stats| > 0 {
      var init := stats[..|stats| - 1];
      var u := stats[|stats| - 1];
      GroupByNameTotal(lookup, init);
      if GroupOf(lookup, u.ua) != "" {
        AddToBucketTotal(GroupByName(lookup, init), GroupOf(lookup, u.ua), u);
        assert Tracked(lookup, stats) == Tracked(lookup, init) + [u];
        assert Means(Tracked(lookup, init) + [u]) == Means(Tracked(lookup, init)) + [u.mean];
        SumConcat(Means(Tracked(lookup, init)), [u.mean]);
        assert Sum([u.mean]) == u.mean + Sum([]) by {
          assert [u.mean][1..] == [];
        }
        assert GroupByName(lookup, stats) == AddToBucket(GroupByName(lookup, init), GroupOf(lookup, u.ua), u);
      } else {
        assert Tracked(lookup, stats) == Tracked(lookup, init) + [];
        assert Tracked(lookup, init) + [] == Tracked(lookup, init);
        assert GroupByName(lookup, stats) == GroupByName(lookup, init);
      }
    }
  }

  /** With distinct names, each bucket is the one `BucketMembers` finds. */
  lemma {:induction false} BucketMembersAt(bs: seq<Bucket>, k: nat)
    requires k < |bs|
    requires forall i, j :: 0 <= i < j < |bs| ==> bs[i].name != bs[j].name
    ensures BucketMembers(bs, bs[k].name) == bs[k].members
    decreases k
  {
    if k > 0 {
      BucketMembersAt(bs[1..], k - 1);
    }
  }

  /** The unsorted groups already describe the input. */
  lemma GroupsFacts(lookup: map<string, string>, stats: seq<UaStat>, d: real)
    requires |GroupByName(lookup, stats)| > 0 ==> d != 0.0
    ensures DescribesGroups(MakeGroups(GroupByName(lookup, stats), d), lookup, stats, d)
  {
    var bs := GroupByName(lookup, stats);
    var tn := TrackedNames(lookup, stats);
    GroupByNameNames(lookup, stats);
    DedupSpec(tn);
    TrackedNamesNonEmpty(lookup, stats);
    assert forall k :: 0 <= k < |bs| ==> bs[k].name == Dedup(tn)[k];
    GroupsDistinct(bs, d);
    GroupsContents(lookup, stats, d);
    GroupsComplete(lookup, stats, d);
  }

  lemma GroupsDistinct(bs: seq<Bucket>, d: real)
    requires |bs| > 0 ==> d != 0.0
    requires forall i, j :: 0 <= i < j < |bs| ==> bs[i].name != bs[j].name
    ensures DistinctBy(MakeGroups(bs, d), NameOf)
  {
    var gs := MakeGroups(bs, d);
    forall i, j | 0 <= i < j < |gs|
      ensures NameOf(gs[i]) != NameOf(gs[j])
    {
      assert gs[i].name == bs[i].name && gs[j].name == bs[j].name;
    }
  }

  /** Each group holds exactly its rows, at least one of them. */
  lemma GroupsContents(lookup: map<string, string>, stats: seq<UaStat>, d: real)
    requires |GroupByName(lookup, stats)| > 0 ==> d != 0.0
    ensures var gs := MakeGroups(GroupByName(lookup, stats), d);
            forall k :: 0 <= k < |gs| ==>
              gs[k].name != "" && gs[k].stats == Members(lookup, stats, gs[k].name) && |gs[k].stats| > 0
  {
    var bs := GroupByName(lookup, stats);
    var gs := MakeGroups(bs, d);
    var tn := TrackedNames(lookup, stats);
    GroupByNameNames(lookup, stats);
    DedupSpec(tn);
    TrackedNamesNonEmpty(lookup, stats);
    forall k | 0 <= k < |gs|
      ensures gs[k].name != "" && gs[k].stats == Members(lookup, stats, gs[k].name) && |gs[k].stats| > 0
    {
      assert bs[k].name == Names(bs)[k];
      assert bs[k].name in Dedup(tn);
      BucketMembersAt(bs, k);
      GroupByNameMembers(lookup, stats, bs[k].name);
      MembersNonEmpty(lookup, stats, bs[k].name);
    }
  }

  lemma GroupsComplete(lookup: map<string, string>, stats: seq<UaStat>, d: real)
    requires |GroupByName(lookup, stats)| > 0 ==> d != 0.0
    ensures Complete(MakeGroups(GroupByName(lookup, stats), d), lookup, stats)
  {
    var bs := GroupByName(lookup, stats);
    var gs := MakeGroups(bs, d);
    var tn := TrackedNames(lookup, stats);
    GroupByNameNames(lookup, stats);
    DedupSpec(tn);
    TrackedNamesNonEmpty(lookup, stats);
    forall i | 0 <= i < |stats| && GroupOf(lookup, stats[i].ua) != ""
      ensures exists k :: 0 <= k < |gs| && gs[k].name == GroupOf(lookup, stats[i].ua)
    {
      var x := GroupOf(lookup, stats[i].ua);
      assert x in tn;
      var k :| 0 <= k < |Dedup(tn)| && Dedup(tn)[k] == x;
      assert Names(bs)[k] == x;
      assert gs[k].name == x;
    }
  }

  /** A permutation of a group list describes the input as well. */
  lemma SortedFacts(lookup: map<string, string>, stats: seq<UaStat>, d: real, groups: seq<GroupStat>, sorted: seq<GroupStat>)
    requires multiset(sorted) == multiset(groups)
    requires DescribesGroups(groups, lookup, stats, d)
    requires DistinctBy(sorted, NameOf)
    ensures DescribesGroups(sorted, lookup, stats, d)
  {
    assert |sorted| == |multiset(sorted)| == |groups|;
    forall k | 0 <= k < |sorted|
      ensures sorted[k] in groups
    {
      assert sorted[k] in multiset(groups);
    }
    forall i | 0 <= i < |stats| && GroupOf(lookup, stats[i].ua) != ""
      ensures exists k :: 0 <= k < |sorted| && sorted[k].name == GroupOf(lookup, stats[i].ua)
    {
      var k :| 0 <= k < |groups| && groups[k].name == GroupOf(lookup, stats[i].ua);
      assert groups[k] in multiset(sorted);
      var l :| 0 <= l < |sorted| && sorted[l] == groups[k];
    }
  }

  // ---------------------------------------------------------------------
  // The untracked remainder.

  /** The group ratios add up to the tracked rows' share of the whole. */
  lemma {:induction false} MakeGroupsRatioSum(bs: seq<Bucket>, d: real)
    requires d != 0.0
    ensures KeySum(MakeGroups(bs, d), RatioOf) == BucketTotal(bs) / d
    decreases |bs|
  {
    if |bs| > 0 {
      var gs := MakeGroups(bs, d);
      var a, b := Sum(Means(bs[0].members)), BucketTotal(bs[1..]);
      assert gs[1..] == MakeGroups(bs[1..], d);
      assert RatioOf(gs[0]) == a / d;
      MakeGroupsRatioSum(bs[1..], d);
      assert KeySum(gs, RatioOf) == a / d + b / d;
      SharesAdd(a, b, d);
    }
  }

  /** The tracked rows carry no more than all rows, and no less than nothing. */
  lemma {:induction false} TrackedSumBounds(lookup: map<string, string>, stats: seq<UaStat>)
    requires AllNonNegative(Means(stats))
    ensures 0.0 <= Sum(Means(Tracked(lookup, stats))) <= Sum(Means(stats))
    decreases |stats|
  {
    if |stats| > 0 {
      var init, u := stats[..|stats| - 1], stats[|stats| - 1];
      assert Means(stats) == Means(init) + [u.mean];
      assert AllNonNegative(Means(init)) by {
        forall i | 0 <= i < |init|
          ensures 0.0 <= Means(init)[i]
        {
          assert Means(init)[i] == Means(stats)[i];
        }
      }
      TrackedSumBounds(lookup, init);
      SumConcat(Means(init), [u.mean]);
      assert Sum([u.mean]) == u.mean + Sum([]) by {
        assert [u.mean][1..] == [];
      }
      assert 0.0 <= u.mean by {
        assert Means(stats)[|stats| - 1] == u.mean;
      }
      if GroupOf(lookup, u.ua) != "" {
        assert Tracked(lookup, stats) == Tracked(lookup, init) + [u];
        assert Means(Tracked(lookup, init) + [u]) == Means(Tracked(lookup, init)) + [u.mean];
        SumConcat(Means(Tracked(lookup, init)), [u.mean]);
      } else {
        assert Tracked(lookup, stats) == Tracked(lookup, init) + [];
        assert Tracked(lookup, init) + [] == Tracked(lookup, init);
      }
    }
  }

  /** When `dailyMeanSum` is the sum of non-negative means, the groups' shares
      add up to the tracked rows' share, and the untracked ratio is a share
      between zero and one. */
  lemma UntrackedIsShare(uaStats: seq<UaStat>, dailyMeanSum: real, trackedGroups: Multidict)
    requires AllNonNegative(Means(uaStats)) && dailyMeanSum == Sum(Means(uaStats))
    requires CalcNodeGroupStats(uaStats, dailyMeanSum, trackedGroups).Ok?
    ensures var lookup := InverseMultidict(trackedGroups).value;
            var st := CalcNodeGroupStats(uaStats, dailyMeanSum, trackedGroups).value;
            dailyMeanSum != 0.0 ==> KeySum(st.groupStats, RatioOf) == Sum(Means(Tracked(lookup, uaStats))) / dailyMeanSum
    ensures 0.0 <= CalcNodeGroupStats(uaStats, dailyMeanSum, trackedGroups).value.untrackedRatio <= 1.0
  {
    var lookup := InverseMultidict(trackedGroups).value;
    var bs := GroupByName(lookup, uaStats);
    var st := CalcNodeGroupStats(uaStats, dailyMeanSum, trackedGroups).value;
    TrackedSumBounds(lookup, uaStats);
    GroupByNameTotal(lookup, uaStats);
    KeySumSort(MakeGroups(bs, dailyMeanSum), RatioOf, RatioOf);
    if dailyMeanSum == 0.0 {
      GroupByNameNames(lookup, uaStats);
      assert |bs| == 0;
    } else {
      MakeGroupsRatioSum(bs, dailyMeanSum);
      ShareBounds(BucketTotal(bs), dailyMeanSum);
    }
  }

  /** Through the whole pipeline the untracked ratio is a share in [0, 1]. */
  lemma NodeStatsUntrackedIsShare(data: seq<Series>, trackedGroups: Multidict)
    requires NodeStats(data, trackedGroups).Ok?
    ensures 0.0 <= NodeStats(data, trackedGroups).value.untrackedRatio <= 1.0
  {
    var s := CalcNodeStats(data).value;
    assert AllNonNegative(Means(s.stats)) by {
      forall i | 0 <= i < |s.stats|
        ensures 0.0 <= Means(s.stats)[i]
      {
        assert s.stats[i].mean == Mean(data[i].counts).value;
      }
    }
    UntrackedIsShare(s.stats, s.meanSum, trackedGroups);
  }
}
