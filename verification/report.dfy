/** `print_node_stats` (nodes/nodestats.py): the one-line monthly summary.
    Every group whose name contains "dcrd" is listed, then every group whose
    name contains "dcrwallet", each with its concisely rounded percentage,
    and the untracked share closes the line as "others". The line is modelled
    as its sequence of entries; turning a number into text is a parameter. */
module Report {
  import opened Common
  import opened Strings
  import opened Sorting
  import opened SeriesStats
  import opened Groups
  import opened Rounding
  import opened Months

  const Header: string := "Average version distribution for "
  const DcrdMarker: string := "dcrd"
  const DcrwalletMarker: string := "dcrwallet"

  /** One "<percent>% <group name>, " item. */
  datatype Entry = Entry(percent: real, name: string)

  datatype ReportLine = ReportLine(monthName: string, entries: seq<Entry>, othersPercent: real)

  /** `fmt_percent` without the text conversion, with zero kept as zero. */
  function FmtPercent(f: real): (p: real)
    ensures p == 0.0 <==> f == 0.0
    ensures (p > 0.0) == (f > 0.0)
    ensures f != 0.0 ==> Change(100.0 * f, p) <= Sensitivity
  {
    ConciseRoundOrZero(100.0 * f)
  }

  function EntryOf(g: GroupStat): Entry
  {
    Entry(FmtPercent(g.avgNodesRatio), g.name)
  }

  // ---------------------------------------------------------------------
  // The loop, as written: one pass filling two strings.

  function Collect(gs: seq<GroupStat>): (r: (seq<Entry>, seq<Entry>))
    decreases |gs|
  {
    if |gs| == 0 then ([], [])
    else
      var (d, w) := Collect(gs[..|gs| - 1]);
      var g := gs[|gs| - 1];
      (if Contains(DcrdMarker, g.name) then d + [EntryOf(g)] else d,
       if Contains(DcrwalletMarker, g.name) then w + [EntryOf(g)] else w)
  }

  /** The report with zero shares shown as "0%". */
  function ReportOf(stats: Stats, month: int): (r: ReportLine)
    requires 1 <= month <= 12
    ensures r.monthName == MonthName(month)
    ensures r.entries == Entries(Family(stats.groupStats, DcrdMarker)) + Entries(Family(stats.groupStats, DcrwalletMarker))
    ensures r.othersPercent == FmtPercent(stats.untrackedRatio)
    ensures r.othersPercent == 0.0 <==> stats.untrackedRatio == 0.0
    ensures stats.untrackedRatio != 0.0 ==> Change(100.0 * stats.untrackedRatio, r.othersPercent) <= Sensitivity
  {
    CollectIsFamilies(stats.groupStats);
    var (d, w) := Collect(stats.groupStats);
    ReportLine(MonthName(month), d + w, FmtPercent(stats.untrackedRatio))
  }

  // ---------------------------------------------------------------------
  // Reference view: the two families by filtering.

  /** The groups whose name contains `marker`, in order. */
  function Family(gs: seq<GroupStat>, marker: string): seq<GroupStat>
    decreases |gs|
  {
    if |gs| == 0 then []
    else (if Contains(marker, gs[0].name) then [gs[0]] else []) + Family(gs[1..], marker)
  }

  function Entries(gs: seq<GroupStat>): (es: seq<Entry>)
    ensures |es| == |gs|
    ensures forall i :: 0 <= i < |gs| ==> es[i] == EntryOf(gs[i])
  {
    seq(|gs|, i requires 0 <= i < |gs| => EntryOf(gs[i]))
  }

  lemma {:induction false} FamilyAppend(gs: seq<GroupStat>, g: GroupStat, marker: string)
    ensures Family(gs + [g], marker) == Family(gs, marker) + (if Contains(marker, g.name) then [g] else [])
    decreases |gs|
  {
    var tail := if Contains(marker, g.name) then [g] else [];
    if |gs| == 0 {
      assert [g][1..] == [];
      assert Family([g], marker) == tail + Family([], marker);
      assert gs + [g] == [g];
    } else {
      var head := if Contains(marker, gs[0].name) then [gs[0]] else [];
      assert (gs + [g])[0] == gs[0];
      assert (gs + [g])[1..] == gs[1..] + [g];
      FamilyAppend(gs[1..], g, marker);
      calc {
        Family(gs + [g], marker);
        head + Family(gs[1..] + [g], marker);
        head + (Family(gs[1..], marker) + tail);
        (head + Family(gs[1..], marker)) + tail;
        Family(gs, marker) + tail;
      }
    }
  }

  /** The single loop builds exactly the two filtered families. */
  lemma {:induction false} CollectIsFamilies(gs: seq<GroupStat>)
    ensures Collect(gs) == (Entries(Family(gs, DcrdMarker)), Entries(Family(gs, DcrwalletMarker)))
    decreases |gs|
  {
    if |gs| > 0 {
      var init, g := gs[..|gs| - 1], gs[|gs| - 1];
      assert gs == init + [g];
      CollectIsFamilies(init);
      FamilyStep(init, g, DcrdMarker);
      FamilyStep(init, g, DcrwalletMarker);
    }
  }

  lemma FamilyStep(init: seq<GroupStat>, g: GroupStat, marker: string)
    ensures Entries(Family(init + [g], marker))
            == if Contains(marker, g.name) then Entries(Family(init, marker)) + [EntryOf(g)] else Entries(Family(init, marker))
  {
    FamilyAppend(init, g, marker);
    if Contains(marker, g.name) {
      assert Entries(Family(init, marker) + [g]) == Entries(Family(init, marker)) + [EntryOf(g)];
    } else {
      assert Family(init, marker) + [] == Family(init, marker);
    }
  }

  /** A group is in a family exactly when it is one of the groups and its
      name contains the marker. */
  lemma {:induction false} FamilyMembers(gs: seq<GroupStat>, marker: string, g: GroupStat)
    ensures g in Family(gs, marker) <==> g in gs && Contains(marker, g.name)
    decreases |gs|
  {
    if |gs| > 0 {
      FamilyMembers(gs[1..], marker, g);
      assert gs == [gs[0]] + gs[1..];
    }
  }

  /** A family of a list sorted by share is sorted by share. */
  lemma {:induction false} FamilySorted(gs: seq<GroupStat>, marker: string)
    requires SortedDesc(gs, RatioOf)
    ensures SortedDesc(Family(gs, marker), RatioOf)
    decreases |gs|
  {
    if |gs| > 0 {
      assert SortedDesc(gs[1..], RatioOf) by {
        forall i, j | 0 <= i < j < |gs[1..]|
          ensures RatioOf(gs[1..][i]) >= RatioOf(gs[1..][j])
        {
          assert gs[1..][i] == gs[i + 1] && gs[1..][j] == gs[j + 1];
        }
      }
      FamilySorted(gs[1..], marker);
      var rest := Family(gs[1..], marker);
      forall j | 0 <= j < |rest|
        ensures RatioOf(gs[0]) >= RatioOf(rest[j])
      {
        FamilyMembers(gs[1..], marker, rest[j]);
        var k :| 0 <= k < |gs[1..]| && gs[1..][k] == rest[j];
        assert gs[1..][k] == gs[k + 1];
      }
    }
  }

  /** A group whose name contains both markers is listed twice; one whose
      name contains neither is not listed but still counts as tracked. */
  lemma ListedTimes(stats: Stats, month: int, g: GroupStat)
    requires 1 <= month <= 12
    requires g in stats.groupStats
    ensures Contains(DcrdMarker, g.name) && Contains(DcrwalletMarker, g.name) ==>
              EntryOf(g) in Entries(Family(stats.groupStats, DcrdMarker))
              && EntryOf(g) in Entries(Family(stats.groupStats, DcrwalletMarker))
    ensures !Contains(DcrdMarker, g.name) && !Contains(DcrwalletMarker, g.name) ==>
              forall e :: e in ReportOf(stats, month).entries ==> e.name != g.name
  {
    var gs := stats.groupStats;
    if Contains(DcrdMarker, g.name) && Contains(DcrwalletMarker, g.name) {
      ListedUnder(gs, DcrdMarker, g);
      ListedUnder(gs, DcrwalletMarker, g);
    }
    if !Contains(DcrdMarker, g.name) && !Contains(DcrwalletMarker, g.name) {
      NotListedUnder(gs, DcrdMarker, g.name);
      NotListedUnder(gs, DcrwalletMarker, g.name);
      var d, w := Entries(Family(gs, DcrdMarker)), Entries(Family(gs, DcrwalletMarker));
      assert ReportOf(stats, month).entries == d + w;
      forall e: Entry | e in d + w
        ensures e.name != g.name
      {
        assert e in d || e in w;
      }
    }
  }

  /** A group whose name contains the marker has an entry under it. */
  lemma ListedUnder(gs: seq<GroupStat>, marker: string, g: GroupStat)
    requires g in gs && Contains(marker, g.name)
    ensures EntryOf(g) in Entries(Family(gs, marker))
  {
    FamilyMembers(gs, marker, g);
    var f := Family(gs, marker);
    var i :| 0 <= i < |f| && f[i] == g;
    assert Entries(f)[i] == EntryOf(g);
  }

  /** No entry under a marker carries a name without the marker. */
  lemma NotListedUnder(gs: seq<GroupStat>, marker: string, name: string)
    requires !Contains(marker, name)
    ensures forall e :: e in Entries(Family(gs, marker)) ==> e.name != name
  {
    var f := Family(gs, marker);
    forall e | e in Entries(f)
      ensures e.name != name
    {
      var n :| 0 <= n < |f| && Entries(f)[n] == e;
      FamilyMembers(gs, marker, f[n]);
    }
  }

  // ---------------------------------------------------------------------
  // As written: `fmt_percent` divides by zero on a zero share.

  /** `fmt_percent` as written, without the text conversion. */
  function FmtPercentAsWritten(f: real): (r: Result<real>)
    ensures r.Ok? <==> f != 0.0
    ensures r.Ok? ==> r.value == FmtPercent(f)
  {
    ConciseRound(100.0 * f)
  }

  /** The loop as written, failing on the first listed group with a zero share. */
  function CollectAsWritten(gs: seq<GroupStat>): Result<(seq<Entry>, seq<Entry>)>
    decreases |gs|
  {
    if |gs| == 0 then Ok(([], []))
    else
      var dw :- CollectAsWritten(gs[..|gs| - 1]);
      var g := gs[|gs| - 1];
      var d :- if Contains(DcrdMarker, g.name)
               then (var p :- FmtPercentAsWritten(g.avgNodesRatio); Ok(dw.0 + [Entry(p, g.name)]))
               else Ok(dw.0);
      var w :- if Contains(DcrwalletMarker, g.name)
               then (var p :- FmtPercentAsWritten(g.avgNodesRatio); Ok(dw.1 + [Entry(p, g.name)]))
               else Ok(dw.1);
      Ok((d, w))
  }

  /** A group that would be listed. */
  ghost predicate Listed(g: GroupStat)
  {
    Contains(DcrdMarker, g.name) || Contains(DcrwalletMarker, g.name)
  }

  /** `print_node_stats` as written: it fails exactly when a listed group or
      the untracked remainder has a zero share, and otherwise prints the
      report. */
  function PrintNodeStats(stats: Stats, month: int): (r: Result<ReportLine>)
    requires 1 <= month <= 12
    ensures r.Ok? <==> stats.untrackedRatio != 0.0
                       && forall i :: 0 <= i < |stats.groupStats| && Listed(stats.groupStats[i]) ==>
                            stats.groupStats[i].avgNodesRatio != 0.0
    ensures r.Err? ==> r.error == ZeroDivision
    ensures r.Ok? ==> r.value == ReportOf(stats, month)
  {
    CollectAsWrittenAgrees(stats.groupStats);
    var dw :- CollectAsWritten(stats.groupStats);
    var others :- FmtPercentAsWritten(stats.untrackedRatio);
    Ok(ReportLine(MonthName(month), dw.0 + dw.1, others))
  }

  lemma {:induction false} CollectAsWrittenAgrees(gs: seq<GroupStat>)
    ensures CollectAsWritten(gs).Ok? <==> forall i :: 0 <= i < |gs| && Listed(gs[i]) ==> gs[i].avgNodesRatio != 0.0
    ensures CollectAsWritten(gs).Err? ==> CollectAsWritten(gs).error == ZeroDivision
    ensures CollectAsWritten(gs).Ok? ==> CollectAsWritten(gs).value == Collect(gs)
    decreases |gs|
  {
    if |gs| > 0 {
      var init := gs[..|gs| - 1];
      CollectAsWrittenAgrees(init);
      assert forall i :: 0 <= i < |init| ==> init[i] == gs[i];
    }
  }

  /** All peers tracked under one "dcrd" group: the share of the group is 1
      and the remainder 0, so the printout as written fails, while the
      corrected report lists "100% dcrd" and "0% others". */
  lemma AllTrackedFails()
    ensures var stats := Stats([GroupStat("dcrd", 10.0, 1.0, [])], 0.0);
            && PrintNodeStats(stats, 3) == Err(ZeroDivision)
            && ReportOf(stats, 3).entries == [Entry(100.0, "dcrd")]
            && ReportOf(stats, 3).othersPercent == 0.0
  {
    var stats := Stats([GroupStat("dcrd", 10.0, 1.0, [])], 0.0);
    assert Contains(DcrdMarker, "dcrd") by {
      assert IsPrefix(DcrdMarker, "dcrd");
    }
    assert !Contains(DcrwalletMarker, "dcrd") by {
      assert !IsPrefix(DcrwalletMarker, "dcrd");
      assert !IsPrefix(DcrwalletMarker, "dcrd"[1..]);
      assert !IsPrefix(DcrwalletMarker, "dcrd"[1..][1..]);
      assert !IsPrefix(DcrwalletMarker, "dcrd"[1..][1..][1..]);
      assert !IsPrefix(DcrwalletMarker, "dcrd"[1..][1..][1..][1..]);
    }
    assert stats.groupStats[1..] == [];
    assert Family(stats.groupStats, DcrdMarker) == [stats.groupStats[0]];
    assert Family(stats.groupStats, DcrwalletMarker) == [];
    Row(100.0, 10000, 1000, 100);
    assert FmtPercent(1.0) == 100.0;
  }

  // ---------------------------------------------------------------------
  // The printed text, with number formatting as a parameter.

  function EntryText(e: Entry, show: real -> string): string
  {
    show(e.percent) + "% " + e.name + ", "
  }

  function EntriesText(es: seq<Entry>, show: real -> string): string
    decreases |es|
  {
    if |es| == 0 then "" else EntryText(es[0], show) + EntriesText(es[1..], show)
  }

  function Render(line: ReportLine, show: real -> string): string
  {
    Header + line.monthName + ": " + EntriesText(line.entries, show) + show(line.othersPercent) + "% others."
  }

  lemma {:induction false} EntriesTextSplit(es: seq<Entry>, show: real -> string, i: nat)
    requires i < |es|
    ensures EntriesText(es, show) == EntriesText(es[..i], show) + EntryText(es[i], show) + EntriesText(es[i + 1..], show)
    decreases i
  {
    if i > 0 {
      EntriesTextSplit(es[1..], show, i - 1);
      assert es[1..][..i - 1] == es[..i][1..];
      assert es[1..][i - 1] == es[i];
      assert es[1..][i..] == es[i + 1..];
    } else {
      assert es[..0] == [];
      assert es[1..] == es[i + 1..];
    }
  }

  lemma OccursInMiddle(needle: string, a: string, b: string)
    ensures Contains(needle, a + needle + b)
  {
    var hay := a + needle + b;
    assert hay[|a|..|a| + |needle|] == needle;
    assert OccursAt(needle, hay, |a|);
    ContainsIffOccurs(needle, hay);
  }

  /** The printed line opens with the month header, shows every entry's
      text and closes with the others share. */
  lemma RenderShowsEntries(line: ReportLine, show: real -> string)
    ensures IsPrefix(Header + line.monthName + ": ", Render(line, show))
    ensures forall i :: 0 <= i < |line.entries| ==> Contains(EntryText(line.entries[i], show), Render(line, show))
    ensures Contains(show(line.othersPercent) + "% others.", Render(line, show))
  {
    var head := Header + line.monthName + ": ";
    var body := EntriesText(line.entries, show);
    var tail := show(line.othersPercent) + "% others.";
    assert Render(line, show) == head + body + tail;
    assert (head + body + tail)[..|head|] == head;
    forall i | 0 <= i < |line.entries|
      ensures Contains(EntryText(line.entries[i], show), Render(line, show))
    {
      EntriesTextSplit(line.entries, show, i);
      var pre := EntriesText(line.entries[..i], show);
      var post := EntriesText(line.entries[i + 1..], show);
      assert Render(line, show) == (head + pre) + EntryText(line.entries[i], show) + (post + tail);
      OccursInMiddle(EntryText(line.entries[i], show), head + pre, post + tail);
    }
    assert Render(line, show) == (head + body) + tail + "";
    OccursInMiddle(tail, head + body, "");
  }
}
