/**
 * Highlight detection after peak finding: which smoothed series is searched,
 * the left-to-right merge of nearby extrema, the valley look-back search, and
 * the chart session whose highlight lists are cleared and refilled.
 */
module Highlights {
  import opened Wrappers

  /** Extrema at most this many seconds after the current period's end join it. */
  const MergeWindow: real := 10.0

  /** A valley is searched for in the half-open window [p - 30, p) before a peak p. */
  const ValleySearchWindow: real := 30.0

  // ---------------------------------------------------------------- series selection

  /** The three rate columns a chart can show. */
  datatype RateKind = ChatRate | PogsRate | AverageRate

  /** The column name a highlight period carries. */
  function RateName(kind: RateKind): (name: string)
    ensures |name| > 0
  {
    match kind
    case ChatRate => "chat_rate"
    case PogsRate => "pogs_rate"
    case AverageRate => "average_rate"
  }

  /** The series searched: average when ticked, else pogs when ticked, else chat. */
  function SelectedRate(averageChecked: bool, pogsChecked: bool): (kind: RateKind)
    ensures kind == AverageRate <==> averageChecked
    ensures kind == PogsRate <==> !averageChecked && pogsChecked
    ensures kind == ChatRate <==> !averageChecked && !pogsChecked
  {
    if averageChecked then AverageRate
    else if pogsChecked then PogsRate
    else ChatRate
  }

  // ---------------------------------------------------------------- merging extrema

  /** The indices first..last (inclusive) of the extrema that form one period. */
  datatype Group = Group(first: nat, last: nat)

  /** Groups that cover 0..n-1 in order, each non-empty and each starting right after the previous one. */
  predicate Partition(gs: seq<Group>, n: nat)
  {
    && (n == 0 <==> gs == [])
    && (gs != [] ==> gs[0].first == 0 && gs[|gs| - 1].last == n - 1)
    && (forall g :: 0 <= g < |gs| ==> gs[g].first <= gs[g].last < n)
    && (forall g, h :: 0 <= g && h == g + 1 < |gs| ==> gs[h].first == gs[g].last + 1)
  }

  /**
   * How the merge loop groups the first n extrema: a new extremum joins the
   * current group when it is at most MergeWindow after the group's end, which
   * is always the previous extremum.
   */
  function GroupsOf(ts: seq<real>, n: nat): (gs: seq<Group>)
    requires n <= |ts|
    ensures Partition(gs, n)
  {
    if n == 0 then []
    else if n == 1 then [Group(0, 0)]
    else
      var gs := GroupsOf(ts, n - 1);
      var last := gs[|gs| - 1];
      if ts[n - 1] - ts[n - 2] <= MergeWindow then
        var r := gs[..|gs| - 1] + [Group(last.first, n - 1)];
        assert forall g :: 0 <= g < |gs| - 1 ==> r[g] == gs[g];
        r
      else
        var r := gs + [Group(n - 1, n - 1)];
        assert forall g :: 0 <= g < |gs| ==> r[g] == gs[g];
        r
  }

  /** Between two periods the gap from one extremum to the next exceeds MergeWindow. */
  lemma {:induction false} GapBetweenGroups(ts: seq<real>, n: nat)
    requires n <= |ts|
    ensures forall g, h :: 0 <= g && h == g + 1 < |GroupsOf(ts, n)| ==>
              ts[GroupsOf(ts, n)[h].first] - ts[GroupsOf(ts, n)[g].last] > MergeWindow
  {
    if n > 1 {
      GapBetweenGroups(ts, n - 1);
      var gs := GroupsOf(ts, n - 1);
      var r := GroupsOf(ts, n);
      if ts[n - 1] - ts[n - 2] <= MergeWindow {
        assert forall g :: 0 <= g < |gs| - 1 ==> r[g] == gs[g];
      } else {
        assert forall g :: 0 <= g < |gs| ==> r[g] == gs[g];
      }
    }
  }

  /** Inside a period every step from one extremum to the next is at most MergeWindow. */
  lemma {:induction false} StepsWithinGroup(ts: seq<real>, n: nat)
    requires n <= |ts|
    ensures forall g, i :: 0 <= g < |GroupsOf(ts, n)| && GroupsOf(ts, n)[g].first < i <= GroupsOf(ts, n)[g].last ==>
              ts[i] - ts[i - 1] <= MergeWindow
  {
    if n > 1 {
      StepsWithinGroup(ts, n - 1);
      var gs := GroupsOf(ts, n - 1);
      var r := GroupsOf(ts, n);
      var joined := ts[n - 1] - ts[n - 2] <= MergeWindow;
      forall g, i | 0 <= g < |r| && r[g].first < i <= r[g].last
        ensures ts[i] - ts[i - 1] <= MergeWindow
      {
        if g < |gs| - 1 || (!joined && g < |gs|) {
          assert r[g] == gs[g];
        } else if joined && i < n - 1 {
          assert r[g].first == gs[g].first && gs[g].last == n - 2;
        }
      }
    }
  }

  /** Groups come in index order: an earlier group ends before a later one starts. */
  lemma {:induction false} GroupsIncreasing(ts: seq<real>, n: nat, g: nat, h: nat)
    requires n <= |ts| && g < h < |GroupsOf(ts, n)|
    ensures GroupsOf(ts, n)[g].last < GroupsOf(ts, n)[h].first
    decreases h - g
  {
    if g + 1 < h {
      GroupsIncreasing(ts, n, g + 1, h);
    }
  }

  /** Every one of the first n extrema lies in exactly one group. */
  lemma ExactlyOneGroup(ts: seq<real>, n: nat, i: nat)
    requires i < n <= |ts|
    ensures exists g :: 0 <= g < |GroupsOf(ts, n)| && GroupsOf(ts, n)[g].first <= i <= GroupsOf(ts, n)[g].last
    ensures forall g, h :: 0 <= g < h < |GroupsOf(ts, n)| ==>
              !(GroupsOf(ts, n)[g].first <= i <= GroupsOf(ts, n)[g].last && GroupsOf(ts, n)[h].first <= i <= GroupsOf(ts, n)[h].last)
  {
    var gs := GroupsOf(ts, n);
    forall g, h | 0 <= g < h < |gs|
      ensures gs[g].last < gs[h].first
    {
      GroupsIncreasing(ts, n, g, h);
    }
    CoveredBy(ts, n, |gs| - 1, i);
  }

  lemma {:induction false} CoveredBy(ts: seq<real>, n: nat, g: nat, i: nat)
    requires n <= |ts| && g < |GroupsOf(ts, n)| && i <= GroupsOf(ts, n)[g].last
    ensures exists h :: 0 <= h <= g && GroupsOf(ts, n)[h].first <= i <= GroupsOf(ts, n)[h].last
  {
    var gs := GroupsOf(ts, n);
    if i < gs[g].first {
      CoveredBy(ts, n, g - 1, i);
    }
  }

  /** One merged period: the times of its first and last extremum. */
  datatype Span = Span(start: real, end: real)

  /** The period of each group, in order. */
  function SpansOf(ts: seq<real>, gs: seq<Group>): (spans: seq<Span>)
    requires forall g :: 0 <= g < |gs| ==> gs[g].first <= gs[g].last < |ts|
    ensures |spans| == |gs|
  {
    if gs == [] then []
    else SpansOf(ts, gs[..|gs| - 1]) + [Span(ts[gs[|gs| - 1].first], ts[gs[|gs| - 1].last])]
  }

  /** Each period runs from the time of its group's first extremum to that of its last. */
  lemma {:induction false} SpansOfAt(ts: seq<real>, gs: seq<Group>)
    requires forall g :: 0 <= g < |gs| ==> gs[g].first <= gs[g].last < |ts|
    ensures forall g :: 0 <= g < |gs| ==> SpansOf(ts, gs)[g] == Span(ts[gs[g].first], ts[gs[g].last])
  {
    if gs != [] {
      SpansOfAt(ts, gs[..|gs| - 1]);
    }
  }

  /** Python's `max(a, b)` (useMax) or `min(a, b)`: the first argument unless the second beats it. */
  function Better(a: real, b: real, useMax: bool): (r: real)
    ensures r == a || r == b
    ensures useMax ==> r >= a && r >= b
    ensures !useMax ==> r <= a && r <= b
  {
    if useMax then (if b > a then b else a) else (if b < a then b else a)
  }

  /** The running max (or min) of vs[first..last], folded left to right as the loop does. */
  function Extreme(vs: seq<real>, first: nat, last: nat, useMax: bool): (r: real)
    requires first <= last < |vs|
    ensures useMax ==> forall i :: first <= i <= last ==> vs[i] <= r
    ensures !useMax ==> forall i :: first <= i <= last ==> r <= vs[i]
    decreases last - first
  {
    if last == first then vs[first]
    else Better(Extreme(vs, first, last - 1, useMax), vs[last], useMax)
  }

  /** The running max (or min) is one of the values it ranges over. */
  lemma {:induction false} ExtremeAttained(vs: seq<real>, first: nat, last: nat, useMax: bool)
    requires first <= last < |vs|
    ensures exists i :: first <= i <= last && Extreme(vs, first, last, useMax) == vs[i]
    decreases last - first
  {
    if last == first {
      assert Extreme(vs, first, last, useMax) == vs[first];
    } else {
      ExtremeAttained(vs, first, last - 1, useMax);
      var j :| first <= j <= last - 1 && Extreme(vs, first, last - 1, useMax) == vs[j];
      if Extreme(vs, first, last, useMax) == vs[last] {
        assert first <= last <= last;
      } else {
        assert Extreme(vs, first, last, useMax) == vs[j];
      }
    }
  }

  /** The value of each group: the max (peaks) or min (valleys) of its members. */
  function ExtremesOf(vs: seq<real>, gs: seq<Group>, useMax: bool): (values: seq<real>)
    requires forall g :: 0 <= g < |gs| ==> gs[g].first <= gs[g].last < |vs|
    ensures |values| == |gs|
  {
    if gs == [] then []
    else ExtremesOf(vs, gs[..|gs| - 1], useMax) + [Extreme(vs, gs[|gs| - 1].first, gs[|gs| - 1].last, useMax)]
  }

  /** Each period's value is the running max (or min) over its group. */
  lemma {:induction false} ExtremesOfAt(vs: seq<real>, gs: seq<Group>, useMax: bool)
    requires forall g :: 0 <= g < |gs| ==> gs[g].first <= gs[g].last < |vs|
    ensures forall g :: 0 <= g < |gs| ==> ExtremesOf(vs, gs, useMax)[g] == Extreme(vs, gs[g].first, gs[g].last, useMax)
  {
    if gs != [] {
      ExtremesOfAt(vs, gs[..|gs| - 1], useMax);
    }
  }

  /** The merged periods of a list of extremum times. */
  function MergedSpans(ts: seq<real>): seq<Span>
  {
    SpansOf(ts, GroupsOf(ts, |ts|))
  }

  /** The merged values of a list of extremum values, grouped by their times. */
  function MergedValues(ts: seq<real>, vs: seq<real>, useMax: bool): seq<real>
    requires |vs| == |ts|
  {
    ExtremesOf(vs, GroupsOf(ts, |ts|), useMax)
  }

  /** Each merged period starts at the time of its group's first extremum and ends at that of its last. */
  lemma MergedSpansAt(ts: seq<real>)
    ensures |MergedSpans(ts)| == |GroupsOf(ts, |ts|)|
    ensures forall g :: 0 <= g < |MergedSpans(ts)| ==>
              MergedSpans(ts)[g] == Span(ts[GroupsOf(ts, |ts|)[g].first], ts[GroupsOf(ts, |ts|)[g].last])
  {
    SpansOfAt(ts, GroupsOf(ts, |ts|));
  }

  /** Each merged value is the running max (or min) over its group's extremum values. */
  lemma MergedValuesAt(ts: seq<real>, vs: seq<real>, useMax: bool)
    requires |vs| == |ts|
    ensures |MergedValues(ts, vs, useMax)| == |GroupsOf(ts, |ts|)|
    ensures forall g :: 0 <= g < |MergedValues(ts, vs, useMax)| ==>
              MergedValues(ts, vs, useMax)[g] == Extreme(vs, GroupsOf(ts, |ts|)[g].first, GroupsOf(ts, |ts|)[g].last, useMax)
  {
    ExtremesOfAt(vs, GroupsOf(ts, |ts|), useMax);
  }

  /** The merge loop's variables after some prefix of the extrema: closed periods, their values, the open period and its value. */
  datatype MergeState = MergeState(spans: seq<Span>, extremes: seq<real>, current: Option<Span>, currentValue: real)

  /** The loop's variables after the first n extrema, one left-to-right step at a time. */
  ghost function MergePrefix(ts: seq<real>, vs: seq<real>, n: nat, useMax: bool): MergeState
    requires n <= |ts| == |vs|
  {
    if n == 0 then MergeState([], [], None, 0.0)
    else
      var m := MergePrefix(ts, vs, n - 1, useMax);
      match m.current
      case None => MergeState(m.spans, m.extremes, Some(Span(ts[n - 1], ts[n - 1])), vs[n - 1])
      case Some(c) =>
        if ts[n - 1] - c.end <= MergeWindow then
          MergeState(m.spans, m.extremes, Some(Span(c.start, ts[n - 1])), Better(m.currentValue, vs[n - 1], useMax))
        else
          MergeState(m.spans + [c], m.extremes + [m.currentValue], Some(Span(ts[n - 1], ts[n - 1])), vs[n - 1])
  }

  /**
   * After n > 0 steps the loop has closed the periods of the groups `closed`
   * and holds `open`, which ends at extremum n - 1, as its current period.
   */
  ghost predicate OpenAt(ts: seq<real>, vs: seq<real>, n: nat, useMax: bool, closed: seq<Group>, open: Group)
    requires 0 < n <= |ts| == |vs|
    requires forall k :: 0 <= k < |closed| ==> closed[k].first <= closed[k].last < |ts|
    requires open.first <= n - 1
  {
    MergePrefix(ts, vs, n, useMax) ==
      MergeState(SpansOf(ts, closed), ExtremesOf(vs, closed, useMax),
                 Some(Span(ts[open.first], ts[n - 1])), Extreme(vs, open.first, n - 1, useMax))
  }

  /**
   * After n > 0 steps the closed periods are those of every group but the
   * last, and the open period is the last group, which ends at extremum n - 1.
   */
  ghost predicate PrefixAgrees(ts: seq<real>, vs: seq<real>, n: nat, useMax: bool)
    requires 0 < n <= |ts| == |vs|
  {
    var gs := GroupsOf(ts, n);
    gs[|gs| - 1].last == n - 1 && OpenAt(ts, vs, n, useMax, gs[..|gs| - 1], gs[|gs| - 1])
  }

  lemma {:induction false} MergePrefixGroups(ts: seq<real>, vs: seq<real>, n: nat, useMax: bool)
    requires 0 < n <= |ts| == |vs|
    ensures PrefixAgrees(ts, vs, n, useMax)
  {
    if n == 1 {
      assert GroupsOf(ts, 1) == [Group(0, 0)];
    } else {
      MergePrefixGroups(ts, vs, n - 1, useMax);
      if ts[n - 1] - ts[n - 2] <= MergeWindow {
        PrefixJoin(ts, vs, n, useMax);
      } else {
        PrefixSplit(ts, vs, n, useMax);
      }
    }
  }

  lemma PrefixJoin(ts: seq<real>, vs: seq<real>, n: nat, useMax: bool)
    requires 1 < n <= |ts| == |vs| && ts[n - 1] - ts[n - 2] <= MergeWindow
    requires PrefixAgrees(ts, vs, n - 1, useMax)
    ensures PrefixAgrees(ts, vs, n, useMax)
  {
    var gs := GroupsOf(ts, n - 1);
    JoinOpenAt(ts, vs, n, useMax);
    MergeStepJoin(ts, n - 1);
    PrefixAgreesIntro(ts, vs, n, useMax, gs[..|gs| - 1], Group(gs[|gs| - 1].first, n - 1));
  }

  /** After a join the closed groups stay as they are and the open one grows by the new extremum. */
  lemma JoinOpenAt(ts: seq<real>, vs: seq<real>, n: nat, useMax: bool)
    requires 1 < n <= |ts| == |vs| && ts[n - 1] - ts[n - 2] <= MergeWindow
    requires PrefixAgrees(ts, vs, n - 1, useMax)
    ensures OpenAt(ts, vs, n, useMax, GroupsOf(ts, n - 1)[..|GroupsOf(ts, n - 1)| - 1],
                   Group(GroupsOf(ts, n - 1)[|GroupsOf(ts, n - 1)| - 1].first, n - 1))
  {
    var gs := GroupsOf(ts, n - 1);
    var closed := gs[..|gs| - 1];
    var open := gs[|gs| - 1];
    assert OpenAt(ts, vs, n - 1, useMax, closed, open);
    MergeJoinState(ts, vs, n, useMax, closed, open);
  }

  lemma PrefixSplit(ts: seq<real>, vs: seq<real>, n: nat, useMax: bool)
    requires 1 < n <= |ts| == |vs| && ts[n - 1] - ts[n - 2] > MergeWindow
    requires PrefixAgrees(ts, vs, n - 1, useMax)
    ensures PrefixAgrees(ts, vs, n, useMax)
  {
    SplitOpenAt(ts, vs, n, useMax);
    MergeStepSplit(ts, n - 1);
    PrefixAgreesIntro(ts, vs, n, useMax, GroupsOf(ts, n - 1), Group(n - 1, n - 1));
  }

  /** After a split every group so far is closed and the new extremum alone is open. */
  lemma SplitOpenAt(ts: seq<real>, vs: seq<real>, n: nat, useMax: bool)
    requires 1 < n <= |ts| == |vs| && ts[n - 1] - ts[n - 2] > MergeWindow
    requires PrefixAgrees(ts, vs, n - 1, useMax)
    ensures OpenAt(ts, vs, n, useMax, GroupsOf(ts, n - 1), Group(n - 1, n - 1))
  {
    var gs := GroupsOf(ts, n - 1);
    var closed := gs[..|gs| - 1];
    var open := gs[|gs| - 1];
    assert gs == closed + [open];
    assert OpenAt(ts, vs, n - 1, useMax, closed, open);
    MergeSplitState(ts, vs, n, useMax, closed, open);
  }

  lemma PrefixAgreesIntro(ts: seq<real>, vs: seq<real>, n: nat, useMax: bool, closed: seq<Group>, open: Group)
    requires 0 < n <= |ts| == |vs|
    requires GroupsOf(ts, n) == closed + [open] && open.last == n - 1
    requires assert forall k :: 0 <= k < |closed| ==> (closed + [open])[k] == closed[k];
             OpenAt(ts, vs, n, useMax, closed, open)
    ensures PrefixAgrees(ts, vs, n, useMax)
  {
    DropLast(closed, open);
  }

  lemma MergeJoinState(ts: seq<real>, vs: seq<real>, n: nat, useMax: bool, closed: seq<Group>, open: Group)
    requires 1 < n <= |ts| == |vs| && ts[n - 1] - ts[n - 2] <= MergeWindow
    requires open.first <= open.last == n - 2
    requires forall k :: 0 <= k < |closed| ==> closed[k].first <= closed[k].last < |ts|
    requires OpenAt(ts, vs, n - 1, useMax, closed, open)
    ensures OpenAt(ts, vs, n, useMax, closed, Group(open.first, n - 1))
  {
  }

  lemma MergeSplitState(ts: seq<real>, vs: seq<real>, n: nat, useMax: bool, closed: seq<Group>, open: Group)
    requires 1 < n <= |ts| == |vs| && ts[n - 1] - ts[n - 2] > MergeWindow
    requires open.first <= open.last == n - 2
    requires forall k :: 0 <= k < |closed| ==> closed[k].first <= closed[k].last < |ts|
    requires OpenAt(ts, vs, n - 1, useMax, closed, open)
    requires forall k :: 0 <= k < |closed + [open]| ==> (closed + [open])[k].first <= (closed + [open])[k].last < |ts|
    ensures OpenAt(ts, vs, n, useMax, closed + [open], Group(n - 1, n - 1))
  {
    SpansSnoc(ts, closed, open);
    ExtremesSnoc(vs, closed, open, useMax);
  }

  /**
   * The merge loop: walk the extrema left to right, extending the current
   * period while the next time is within MergeWindow of its end and keeping
   * its max (or min) value, closing it otherwise; the open period is closed
   * at the end.
   */
  method MergeExtrema(times: seq<real>, values: seq<real>, useMax: bool) returns (spans: seq<Span>, extremes: seq<real>)
    requires |values| == |times|
    ensures spans == MergedSpans(times)
    ensures extremes == MergedValues(times, values, useMax)
  {
    spans := [];
    extremes := [];
    var current: Option<Span> := None;
    var currentValue: real := 0.0;
    var i := 0;
    while i < |times|
      invariant 0 <= i <= |times|
      invariant MergeState(spans, extremes, current, currentValue) == MergePrefix(times, values, i, useMax)
    {
      var t := times[i];
      var v := values[i];
      if current.None? {
        current := Some(Span(t, t));
        currentValue := v;
      } else if t - current.value.end <= MergeWindow {
        current := Some(Span(current.value.start, t));
        currentValue := Better(currentValue, v, useMax);
      } else {
        spans := spans + [current.value];
        extremes := extremes + [currentValue];
        current := Some(Span(t, t));
        currentValue := v;
      }
      i := i + 1;
    }
    if current.Some? {
      spans := spans + [current.value];
      extremes := extremes + [currentValue];
      MergeClosed(times, values, useMax);
    } else {
      assert GroupsOf(times, |times|) == [];
    }
  }

  /** Closing the open period after the last extremum yields the periods of all groups. */
  lemma MergeClosed(ts: seq<real>, vs: seq<real>, useMax: bool)
    requires 0 < |ts| == |vs|
    ensures MergePrefix(ts, vs, |ts|, useMax).current.Some?
    ensures MergePrefix(ts, vs, |ts|, useMax).spans + [MergePrefix(ts, vs, |ts|, useMax).current.value] == MergedSpans(ts)
    ensures MergePrefix(ts, vs, |ts|, useMax).extremes + [MergePrefix(ts, vs, |ts|, useMax).currentValue] == MergedValues(ts, vs, useMax)
  {
    MergePrefixGroups(ts, vs, |ts|, useMax);
    var gs := GroupsOf(ts, |ts|);
    var closed := gs[..|gs| - 1];
    var open := gs[|gs| - 1];
    assert gs == closed + [open];
    assert OpenAt(ts, vs, |ts|, useMax, closed, open);
    SpansSnoc(ts, closed, open);
    ExtremesSnoc(vs, closed, open, useMax);
  }

  lemma DropLast<T>(a: seq<T>, x: T)
    ensures (a + [x])[..|a|] == a
  {
  }

  lemma SpansSnoc(ts: seq<real>, gs: seq<Group>, g: Group)
    requires forall k :: 0 <= k < |gs| ==> gs[k].first <= gs[k].last < |ts|
    requires g.first <= g.last < |ts|
    ensures SpansOf(ts, gs + [g]) == SpansOf(ts, gs) + [Span(ts[g.first], ts[g.last])]
  {
    assert (gs + [g])[..|gs|] == gs;
  }

  lemma ExtremesSnoc(vs: seq<real>, gs: seq<Group>, g: Group, useMax: bool)
    requires forall k :: 0 <= k < |gs| ==> gs[k].first <= gs[k].last < |vs|
    requires g.first <= g.last < |vs|
    ensures ExtremesOf(vs, gs + [g], useMax) == ExtremesOf(vs, gs, useMax) + [Extreme(vs, g.first, g.last, useMax)]
  {
    assert (gs + [g])[..|gs|] == gs;
  }

  /** An extremum within MergeWindow of the previous one extends the last period. */
  lemma MergeStepJoin(ts: seq<real>, n: nat)
    requires 0 < n < |ts| && ts[n] - ts[n - 1] <= MergeWindow
    ensures GroupsOf(ts, n + 1) ==
              GroupsOf(ts, n)[..|GroupsOf(ts, n)| - 1] + [Group(GroupsOf(ts, n)[|GroupsOf(ts, n)| - 1].first, n)]
  {
  }

  /** An extremum further than MergeWindow from the previous one opens a new period. */
  lemma MergeStepSplit(ts: seq<real>, n: nat)
    requires 0 < n < |ts| && ts[n] - ts[n - 1] > MergeWindow
    ensures GroupsOf(ts, n + 1) == GroupsOf(ts, n) + [Group(n, n)]
  {
  }

  /** With times in non-decreasing order each period starts no later than it ends, and periods are more than MergeWindow apart. */
  lemma MergedSpansOrdered(ts: seq<real>)
    requires forall i, j :: 0 <= i < j < |ts| ==> ts[i] <= ts[j]
    ensures forall g :: 0 <= g < |MergedSpans(ts)| ==> MergedSpans(ts)[g].start <= MergedSpans(ts)[g].end
    ensures forall g, h :: 0 <= g && h == g + 1 < |MergedSpans(ts)| ==> MergedSpans(ts)[g].end + MergeWindow < MergedSpans(ts)[h].start
  {
    GapBetweenGroups(ts, |ts|);
    SpansOfAt(ts, GroupsOf(ts, |ts|));
  }

  /** Each merged value is the max (or min) of the values of its group's extrema and is one of them. */
  lemma MergedValueOfGroup(ts: seq<real>, vs: seq<real>, useMax: bool, g: nat, i: nat)
    requires |vs| == |ts| && g < |GroupsOf(ts, |ts|)|
    requires GroupsOf(ts, |ts|)[g].first <= i <= GroupsOf(ts, |ts|)[g].last
    ensures g < |MergedValues(ts, vs, useMax)|
    ensures useMax ==> vs[i] <= MergedValues(ts, vs, useMax)[g]
    ensures !useMax ==> MergedValues(ts, vs, useMax)[g] <= vs[i]
    ensures exists j :: GroupsOf(ts, |ts|)[g].first <= j <= GroupsOf(ts, |ts|)[g].last && MergedValues(ts, vs, useMax)[g] == vs[j]
  {
    var gs := GroupsOf(ts, |ts|);
    ExtremesOfAt(vs, gs, useMax);
    ExtremeAttained(vs, gs[g].first, gs[g].last, useMax);
  }

  // ---------------------------------------------------------------- valley search

  /** Row time t lies in the search window [peak - 30, peak) before a peak. */
  predicate InWindow(t: real, peak: real)
  {
    peak - ValleySearchWindow <= t < peak
  }

  /**
   * The row a valley search returns for a peak, among rows 0..n-1: the first
   * row of least value whose time lies in the window, or None when no row does.
   */
  function WindowMinRow(ts: seq<real>, data: seq<real>, peak: real, n: nat): (r: Option<nat>)
    requires n <= |ts| == |data|
    ensures r.None? ==> forall j :: 0 <= j < n ==> !InWindow(ts[j], peak)
    ensures r.Some? ==> r.value < n && InWindow(ts[r.value], peak)
    ensures r.Some? ==> forall j :: 0 <= j < n && InWindow(ts[j], peak) ==> data[r.value] <= data[j]
    ensures r.Some? ==> forall j :: 0 <= j < r.value && InWindow(ts[j], peak) ==> data[r.value] < data[j]
  {
    if n == 0 then None
    else
      var m := WindowMinRow(ts, data, peak, n - 1);
      if !InWindow(ts[n - 1], peak) then m
      else if m.None? || data[n - 1] < data[m.value] then Some(n - 1)
      else m
  }

  /**
   * For peaks in order over rows in time order, the valley of a later peak
   * is never on an earlier row than the valley of an earlier peak.
   */
  lemma WindowMinMonotone(ts: seq<real>, data: seq<real>, p: real, q: real)
    requires |ts| == |data|
    requires forall i, j :: 0 <= i < j < |ts| ==> ts[i] < ts[j]
    requires p <= q
    requires WindowMinRow(ts, data, p, |ts|).Some? && WindowMinRow(ts, data, q, |ts|).Some?
    ensures WindowMinRow(ts, data, p, |ts|).value <= WindowMinRow(ts, data, q, |ts|).value
  {
    var k1 := WindowMinRow(ts, data, p, |ts|).value;
    var k2 := WindowMinRow(ts, data, q, |ts|).value;
    if k2 < k1 {
      // k2 precedes k1 and k1 follows it in time, so both lie in both windows
      assert ts[k2] < ts[k1];
      assert InWindow(ts[k2], p);
      assert InWindow(ts[k1], q);
      assert false;
    }
  }

  /** The valley rows of a list of peak times, in peak order; a peak with an empty window contributes none. */
  function ValleyRows(ts: seq<real>, data: seq<real>, peaks: seq<real>): (rows: seq<nat>)
    requires |ts| == |data|
    ensures |rows| <= |peaks|
    ensures forall k :: 0 <= k < |rows| ==> rows[k] < |ts|
  {
    if peaks == [] then []
    else
      var rows := ValleyRows(ts, data, peaks[..|peaks| - 1]);
      match WindowMinRow(ts, data, peaks[|peaks| - 1], |ts|)
      case None => rows
      case Some(k) => rows + [k]
  }

  /** Every valley is the window minimum of some peak. */
  lemma {:induction false} ValleyOfSomePeak(ts: seq<real>, data: seq<real>, peaks: seq<real>, k: nat)
    requires |ts| == |data| && k < |ValleyRows(ts, data, peaks)|
    ensures exists p :: 0 <= p < |peaks| && WindowMinRow(ts, data, peaks[p], |ts|) == Some(ValleyRows(ts, data, peaks)[k])
  {
    var init := peaks[..|peaks| - 1];
    assert forall p :: 0 <= p < |init| ==> init[p] == peaks[p];
    if k < |ValleyRows(ts, data, init)| {
      ValleyOfSomePeak(ts, data, init, k);
      var p :| 0 <= p < |init| && WindowMinRow(ts, data, init[p], |ts|) == Some(ValleyRows(ts, data, init)[k]);
      assert WindowMinRow(ts, data, peaks[p], |ts|) == Some(ValleyRows(ts, data, peaks)[k]);
    } else {
      assert WindowMinRow(ts, data, peaks[|peaks| - 1], |ts|) == Some(ValleyRows(ts, data, peaks)[k]);
    }
  }

  /** How many peaks have at least one row in their window. */
  function PeaksWithWindow(ts: seq<real>, data: seq<real>, peaks: seq<real>): (n: nat)
    requires |ts| == |data|
    ensures n <= |peaks|
  {
    if peaks == [] then 0
    else PeaksWithWindow(ts, data, peaks[..|peaks| - 1]) +
         (if WindowMinRow(ts, data, peaks[|peaks| - 1], |ts|).Some? then 1 else 0)
  }

  /** Exactly the peaks with a non-empty window contribute a valley. */
  lemma {:induction false} ValleyCount(ts: seq<real>, data: seq<real>, peaks: seq<real>)
    requires |ts| == |data|
    ensures |ValleyRows(ts, data, peaks)| == PeaksWithWindow(ts, data, peaks)
  {
    if peaks != [] {
      ValleyCount(ts, data, peaks[..|peaks| - 1]);
    }
  }

  /** Peaks are searched independently: the valleys of a concatenation are those of each half, in order. */
  lemma {:induction false} ValleyRowsAppend(ts: seq<real>, data: seq<real>, a: seq<real>, b: seq<real>)
    requires |ts| == |data|
    ensures ValleyRows(ts, data, a + b) == ValleyRows(ts, data, a) + ValleyRows(ts, data, b)
    decreases |b|
  {
    if b == [] {
      assert a + b == a;
    } else {
      var init := b[..|b| - 1];
      ValleyRowsAppend(ts, data, a, init);
      assert (a + b)[..|a + b| - 1] == a + init;
      assert (a + b)[|a + b| - 1] == b[|b| - 1];
    }
  }

  /** One peak contributes its own window minimum, or nothing when its window holds no row. */
  lemma ValleyRowsOne(ts: seq<real>, data: seq<real>, peak: real)
    requires |ts| == |data|
    ensures ValleyRows(ts, data, [peak]) ==
              if WindowMinRow(ts, data, peak, |ts|).Some? then [WindowMinRow(ts, data, peak, |ts|).value] else []
  {
    assert [peak][..0] == [];
  }

  /** With rows and peaks both in time order, valley rows come in row order. */
  lemma {:induction false} ValleyRowsSorted(ts: seq<real>, data: seq<real>, peaks: seq<real>)
    requires |ts| == |data|
    requires forall i, j :: 0 <= i < j < |ts| ==> ts[i] < ts[j]
    requires forall i, j :: 0 <= i < j < |peaks| ==> peaks[i] <= peaks[j]
    ensures forall i, j :: 0 <= i < j < |ValleyRows(ts, data, peaks)| ==>
              ValleyRows(ts, data, peaks)[i] <= ValleyRows(ts, data, peaks)[j]
  {
    if peaks != [] {
      var init := peaks[..|peaks| - 1];
      ValleyRowsSorted(ts, data, init);
      var last := peaks[|peaks| - 1];
      var rows := ValleyRows(ts, data, init);
      match WindowMinRow(ts, data, last, |ts|)
      case None =>
      case Some(k) =>
        forall i | 0 <= i < |rows|
          ensures rows[i] <= k
        {
          ValleyOfSomePeak(ts, data, init, i);
          var p :| 0 <= p < |init| && WindowMinRow(ts, data, init[p], |ts|) == Some(rows[i]);
          WindowMinMonotone(ts, data, init[p], last);
        }
    }
  }

  /** The entries of a column at the given rows, in row-list order (`series.iloc[rows]`). */
  function Pick(column: seq<real>, rows: seq<nat>): (picked: seq<real>)
    requires forall k :: 0 <= k < |rows| ==> rows[k] < |column|
    ensures |picked| == |rows| && forall k :: 0 <= k < |rows| ==> picked[k] == column[rows[k]]
  {
    seq(|rows|, k requires 0 <= k < |rows| => column[rows[k]])
  }

  /** Valley times are in time order whenever rows and peaks are. */
  lemma ValleyTimesSorted(ts: seq<real>, data: seq<real>, peaks: seq<real>)
    requires |ts| == |data|
    requires forall i, j :: 0 <= i < j < |ts| ==> ts[i] < ts[j]
    requires forall i, j :: 0 <= i < j < |peaks| ==> peaks[i] <= peaks[j]
    ensures forall i, j :: 0 <= i < j < |ValleyRows(ts, data, peaks)| ==>
              Pick(ts, ValleyRows(ts, data, peaks))[i] <= Pick(ts, ValleyRows(ts, data, peaks))[j]
  {
    ValleyRowsSorted(ts, data, peaks);
    var rows := ValleyRows(ts, data, peaks);
    forall i, j | 0 <= i < j < |rows|
      ensures ts[rows[i]] <= ts[rows[j]]
    {
      if rows[i] < rows[j] {
        assert ts[rows[i]] < ts[rows[j]];
      }
    }
  }

  /**
   * The valley loop: for each peak time, search its window for the first row
   * of least value and record that row's time and value; skip peaks whose
   * window holds no row.
   */
  method FindValleys(ts: seq<real>, data: seq<real>, peaks: seq<real>) returns (times: seq<real>, values: seq<real>)
    requires |ts| == |data|
    ensures times == Pick(ts, ValleyRows(ts, data, peaks))
    ensures values == Pick(data, ValleyRows(ts, data, peaks))
  {
    times := [];
    values := [];
    ghost var rows: seq<nat> := [];
    var i := 0;
    while i < |peaks|
      invariant 0 <= i <= |peaks|
      invariant rows == ValleyRows(ts, data, peaks[..i])
      invariant forall k :: 0 <= k < |rows| ==> rows[k] < |ts|
      invariant times == Pick(ts, rows) && values == Pick(data, rows)
    {
      var found := WindowMinRow(ts, data, peaks[i], |ts|);
      ValleyRowsStep(ts, data, peaks, i, rows, found);
      if found.Some? {
        PickAppend(ts, rows, found.value);
        PickAppend(data, rows, found.value);
        times := times + [ts[found.value]];
        values := values + [data[found.value]];
        rows := rows + [found.value];
      }
      i := i + 1;
    }
    assert peaks[..|peaks|] == peaks;
  }

  /** One more peak adds the first least row of its window, if it has one, to the valley rows. */
  lemma ValleyRowsStep(ts: seq<real>, data: seq<real>, peaks: seq<real>, i: nat, rows: seq<nat>, found: Option<nat>)
    requires |ts| == |data| && i < |peaks|
    requires rows == ValleyRows(ts, data, peaks[..i]) && found == WindowMinRow(ts, data, peaks[i], |ts|)
    ensures ValleyRows(ts, data, peaks[..i + 1]) == if found.Some? then rows + [found.value] else rows
  {
    assert peaks[..i + 1][..i] == peaks[..i];
  }

  /** Picking one more row appends that row's entry. */
  lemma PickAppend(column: seq<real>, rows: seq<nat>, k: nat)
    requires forall j :: 0 <= j < |rows| ==> rows[j] < |column|
    requires k < |column|
    ensures Pick(column, rows + [k]) == Pick(column, rows) + [column[k]]
  {
    assert forall j :: 0 <= j < |rows| ==> (rows + [k])[j] == rows[j];
  }

  // ---------------------------------------------------------------- chart session

  /** What find_peaks reports: strictly ascending indices into a series of n rows. */
  predicate ValidPeaks(peaks: seq<nat>, n: nat)
  {
    && (forall k :: 0 <= k < |peaks| ==> peaks[k] < n)
    && (forall j, k :: 0 <= j < k < |peaks| ==> peaks[j] < peaks[k])
  }

  /** Rows in strictly ascending time order. */
  predicate Ascending(ts: seq<real>)
  {
    forall i, j :: 0 <= i < j < |ts| ==> ts[i] < ts[j]
  }

  /** The merged highlight periods: peaks merged by max, or valleys found before each peak and merged by min. */
  function HighlightSpans(ts: seq<real>, data: seq<real>, peaks: seq<nat>, valleys: bool): seq<Span>
    requires |ts| == |data| && ValidPeaks(peaks, |ts|)
  {
    if !valleys then MergedSpans(Pick(ts, peaks))
    else MergedSpans(Pick(ts, ValleyRows(ts, data, Pick(ts, peaks))))
  }

  /** The value recorded with each highlight period. */
  function HighlightValues(ts: seq<real>, data: seq<real>, peaks: seq<nat>, valleys: bool): seq<real>
    requires |ts| == |data| && ValidPeaks(peaks, |ts|)
  {
    if !valleys then MergedValues(Pick(ts, peaks), Pick(data, peaks), true)
    else
      var rows := ValleyRows(ts, data, Pick(ts, peaks));
      MergedValues(Pick(ts, rows), Pick(data, rows), false)
  }

  /** Peak times read from time-ordered rows at strictly ascending indices are strictly ascending. */
  lemma PeakTimesAscending(ts: seq<real>, peaks: seq<nat>)
    requires Ascending(ts) && ValidPeaks(peaks, |ts|)
    ensures Ascending(Pick(ts, peaks))
  {
  }

  /**
   * Over time-ordered rows, every highlight period starts no later than it
   * ends and consecutive periods are more than MergeWindow apart.
   */
  lemma HighlightsOrdered(ts: seq<real>, data: seq<real>, peaks: seq<nat>, valleys: bool)
    requires |ts| == |data| && Ascending(ts) && ValidPeaks(peaks, |ts|)
    ensures forall g :: 0 <= g < |HighlightSpans(ts, data, peaks, valleys)| ==>
              HighlightSpans(ts, data, peaks, valleys)[g].start <= HighlightSpans(ts, data, peaks, valleys)[g].end
    ensures forall g, h :: 0 <= g && h == g + 1 < |HighlightSpans(ts, data, peaks, valleys)| ==>
              HighlightSpans(ts, data, peaks, valleys)[g].end + MergeWindow < HighlightSpans(ts, data, peaks, valleys)[h].start
  {
    var peakTimes := Pick(ts, peaks);
    PeakTimesAscending(ts, peaks);
    if !valleys {
      MergedSpansOrdered(peakTimes);
    } else {
      ValleyTimesSorted(ts, data, peakTimes);
      MergedSpansOrdered(Pick(ts, ValleyRows(ts, data, peakTimes)));
    }
  }

  /** A highlight period as the chart keeps it: start, end and the rate it was found on. */
  datatype Period = Period(start: real, end: real, rate: RateKind)

  /** One period per span, all tagged with the same rate. */
  function Tagged(spans: seq<Span>, kind: RateKind): (periods: seq<Period>)
    ensures |periods| == |spans|
    ensures forall k :: 0 <= k < |spans| ==> periods[k] == Period(spans[k].start, spans[k].end, kind)
  {
    seq(|spans|, k requires 0 <= k < |spans| => Period(spans[k].start, spans[k].end, kind))
  }

  lemma TaggedSnoc(spans: seq<Span>, i: nat, kind: RateKind)
    requires i < |spans|
    ensures Tagged(spans[..i + 1], kind) == Tagged(spans[..i], kind) + [Period(spans[i].start, spans[i].end, kind)]
  {
    var a := Tagged(spans[..i + 1], kind);
    var b := Tagged(spans[..i], kind) + [Period(spans[i].start, spans[i].end, kind)];
    assert forall k :: 0 <= k < |a| ==> a[k] == b[k];
  }

  /** The state of one chart window that highlight detection reads and rewrites. */
  class ChartSession {
    var timeBins: seq<real>
    var chatRateSmooth: seq<real>
    var pogsRateSmooth: seq<real>
    var averageRateSmooth: seq<real>
    var averageChecked: bool
    var pogsChecked: bool
    var valleyDetection: bool
    var highlightPeriods: seq<Period>
    var highlightValues: seq<real>

    /** Three smoothed series over the same time-ordered rows, and one value per highlight period. */
    ghost predicate Valid()
      reads this
    {
      && |chatRateSmooth| == |timeBins|
      && |pogsRateSmooth| == |timeBins|
      && |averageRateSmooth| == |timeBins|
      && Ascending(timeBins)
      && |highlightPeriods| == |highlightValues|
    }

    /** A fresh chart: no highlights, every checkbox unticked. */
    constructor(timeBins: seq<real>, chat: seq<real>, pogs: seq<real>, average: seq<real>)
      requires |chat| == |timeBins| && |pogs| == |timeBins| && |average| == |timeBins|
      requires Ascending(timeBins)
      ensures Valid()
      ensures this.timeBins == timeBins && chatRateSmooth == chat && pogsRateSmooth == pogs && averageRateSmooth == average
      ensures !averageChecked && !pogsChecked && !valleyDetection
      ensures highlightPeriods == [] && highlightValues == []
    {
      this.timeBins := timeBins;
      chatRateSmooth := chat;
      pogsRateSmooth := pogs;
      averageRateSmooth := average;
      averageChecked := false;
      pogsChecked := false;
      valleyDetection := false;
      highlightPeriods := [];
      highlightValues := [];
    }

    /** The smoothed series of one rate column. */
    function Series(kind: RateKind): seq<real>
      reads this`chatRateSmooth, this`pogsRateSmooth, this`averageRateSmooth
    {
      match kind
      case ChatRate => chatRateSmooth
      case PogsRate => pogsRateSmooth
      case AverageRate => averageRateSmooth
    }

    /**
     * Clear the previous highlights, run the peak finder on the selected
     * series, and append one period per merged peak (or valley), tagged with
     * the selected rate, together with its value.
     */
    method ComputeHighlightPeriods(findPeaks: seq<real> -> seq<nat>)
      requires Valid()
      requires ValidPeaks(findPeaks(Series(SelectedRate(averageChecked, pogsChecked))), |timeBins|)
      modifies this`highlightPeriods, this`highlightValues
      ensures Valid()
      ensures highlightPeriods ==
                Tagged(HighlightSpans(timeBins, Series(SelectedRate(averageChecked, pogsChecked)),
                                      findPeaks(Series(SelectedRate(averageChecked, pogsChecked))), valleyDetection),
                       SelectedRate(averageChecked, pogsChecked))
      ensures highlightValues ==
                HighlightValues(timeBins, Series(SelectedRate(averageChecked, pogsChecked)),
                                findPeaks(Series(SelectedRate(averageChecked, pogsChecked))), valleyDetection)
      ensures forall k :: 0 <= k < |highlightPeriods| ==> highlightPeriods[k].rate == SelectedRate(averageChecked, pogsChecked)
    {
      highlightPeriods := [];
      highlightValues := [];
      var kind := SelectedRate(averageChecked, pogsChecked);
      var data := Series(kind);
      assert data == old(Series(SelectedRate(averageChecked, pogsChecked)));
      var peaks := findPeaks(data);
      var spans, values := DetectHighlights(timeBins, data, peaks, valleyDetection);
      AppendPeriods(spans, values, kind);
      assert kind == SelectedRate(averageChecked, pogsChecked);
      assert data == Series(kind);
    }

    /** Append each merged period, tagged with the rate, and its value, pairing them up as zip does. */
    method AppendPeriods(spans: seq<Span>, values: seq<real>, kind: RateKind)
      requires Valid() && |spans| == |values|
      modifies this`highlightPeriods, this`highlightValues
      ensures Valid()
      ensures highlightPeriods == old(highlightPeriods) + Tagged(spans, kind)
      ensures highlightValues == old(highlightValues) + values
    {
      var i := 0;
      while i < |spans| && i < |values|
        invariant 0 <= i <= |spans|
        invariant highlightPeriods == old(highlightPeriods) + Tagged(spans[..i], kind)
        invariant highlightValues == old(highlightValues) + values[..i]
        invariant |highlightPeriods| == |highlightValues|
      {
        TaggedSnoc(spans, i, kind);
        highlightPeriods := highlightPeriods + [Period(spans[i].start, spans[i].end, kind)];
        highlightValues := highlightValues + [values[i]];
        assert values[..i + 1] == values[..i] + [values[i]];
        i := i + 1;
      }
      assert spans[..i] == spans;
      assert values[..i] == values;
    }
  }

  /**
   * Read the times and values at the reported peaks, then either merge the
   * peaks (keeping the max) or find a valley before each peak and merge the
   * valleys (keeping the min); one value per period.
   */
  method DetectHighlights(ts: seq<real>, data: seq<real>, peaks: seq<nat>, valleys: bool) returns (spans: seq<Span>, values: seq<real>)
    requires |ts| == |data| && ValidPeaks(peaks, |ts|)
    ensures spans == HighlightSpans(ts, data, peaks, valleys)
    ensures values == HighlightValues(ts, data, peaks, valleys)
    ensures |spans| == |values|
  {
    var peakTimes := Pick(ts, peaks);
    var peakValues := Pick(data, peaks);
    if !valleys {
      spans, values := MergeExtrema(peakTimes, peakValues, true);
    } else {
      var valleyTimes, valleyValues := FindValleys(ts, data, peakTimes);
      spans, values := MergeExtrema(valleyTimes, valleyValues, false);
    }
  }
}
