/**
 The static layout helpers on `Event`: clustering a day's events by overlap
 (`totalOverlapPeriods`), the width reserved for them (`groupWidth`), and
 stretching a lane list to fill a width (`updateGroupWidthIfNeed`).
 */
module EventLayout {
  import opened Wrappers
  import opened Events
  import opened StartOrder
  import opened CalendarStyle

  /** Width of one column of overlapping events. */
  const ColumnWidth: real := 110.0

  /** The events that have a range, in their original order. */
  function Valid(s: seq<Event>): (r: seq<Event>)
    ensures forall e :: multiset(r)[e] == if Range(e).Some? then multiset(s)[e] else 0
    ensures |r| <= |s|
  {
    if |s| == 0 then []
    else
      var last := s[|s| - 1];
      assert s == s[..|s| - 1] + [last];
      Valid(s[..|s| - 1]) + (if Range(last).Some? then [last] else [])
  }

  predicate AllValid(s: seq<Event>) {
    forall i :: 0 <= i < |s| ==> Range(s[i]).Some?
  }

  lemma {:induction false} ValidOfAllValid(s: seq<Event>)
    requires AllValid(s)
    ensures Valid(s) == s
  {
    if |s| > 0 {
      var prefix := s[..|s| - 1];
      var last := s[|s| - 1];
      AllValidPrefix(s);
      ValidOfAllValid(prefix);
      assert Range(last).Some?;
      assert Valid(s) == prefix + [last];
      SplitLast(s);
    }
  }

  lemma AllValidPrefix(s: seq<Event>)
    requires AllValid(s) && |s| > 0
    ensures AllValid(s[..|s| - 1])
  {
    var prefix := s[..|s| - 1];
    forall i | 0 <= i < |prefix|
      ensures Range(prefix[i]).Some?
    {
      assert prefix[i] == s[i];
    }
  }

  lemma SplitLast<T>(s: seq<T>)
    requires |s| > 0
    ensures s == s[..|s| - 1] + [s[|s| - 1]]
  {
  }

  lemma TakeAll<T>(t: seq<T>)
    ensures t[..|t|] == t
  {
  }

  lemma TakeOneMore<T>(t: seq<T>, n: nat)
    requires n < |t|
    ensures t[..n + 1] == t[..n] + [t[n]]
  {
  }

  lemma ValidIsAllValid(s: seq<Event>)
    ensures AllValid(Valid(s))
  {
    var r := Valid(s);
    forall i | 0 <= i < |r|
      ensures Range(r[i]).Some?
    {
      assert multiset(r)[r[i]] > 0;
    }
  }

  /** Every event of a bag has a range. */
  lemma AllValidByBag(s: seq<Event>, t: seq<Event>)
    requires AllValid(s)
    requires multiset(t) == multiset(s)
    ensures AllValid(t)
  {
    forall i | 0 <= i < |t|
      ensures Range(t[i]).Some?
    {
      assert t[i] in multiset(s);
    }
  }

  /** A cluster of overlapping events, in the order they joined it. */
  type Cluster = seq<Event>

  predicate NonEmptyClusters(groups: seq<Cluster>) {
    forall i :: 0 <= i < |groups| ==> |groups[i]| > 0
  }

  /**
   Index of the member a cluster is compared by: the first member of greatest
   duration, which is what a stable sort by decreasing duration puts first.
   */
  function LongestIndex(c: Cluster): (k: nat)
    requires |c| > 0
    ensures k < |c|
    ensures forall j :: 0 <= j < |c| ==> Duration(c[j]) <= Duration(c[k])
    ensures forall j :: 0 <= j < k ==> Duration(c[j]) < Duration(c[k])
  {
    if |c| == 1 then 0
    else
      var k := LongestIndex(c[..|c| - 1]);
      if Duration(c[|c| - 1]) > Duration(c[k]) then |c| - 1 else k
  }

  function Longest(c: Cluster): Event
    requires |c| > 0
  {
    c[LongestIndex(c)]
  }

  /**
   The first cluster whose longest member overlaps `e`, or `|groups|` when none
   does. Touching endpoints count as overlap.
   */
  function FirstMatch(groups: seq<Cluster>, e: Event): (k: nat)
    requires NonEmptyClusters(groups)
    ensures k <= |groups|
    ensures forall j :: 0 <= j < k ==> !Overlaps(Longest(groups[j]), e)
    ensures k < |groups| ==> Overlaps(Longest(groups[k]), e)
  {
    if |groups| == 0 then 0
    else if Overlaps(Longest(groups[0]), e) then 0
    else 1 + FirstMatch(groups[1..], e)
  }

  /** All clustered events, counted with multiplicity. */
  function Members(groups: seq<Cluster>): multiset<Event> {
    if |groups| == 0 then multiset{}
    else Members(groups[..|groups| - 1]) + multiset(groups[|groups| - 1])
  }

  function SumSizes(groups: seq<Cluster>): nat {
    if |groups| == 0 then 0
    else SumSizes(groups[..|groups| - 1]) + |groups[|groups| - 1]|
  }

  /** The bag of clustered events has as many elements as the cluster sizes add up to. */
  lemma {:induction false} MembersSize(groups: seq<Cluster>)
    ensures |Members(groups)| == SumSizes(groups)
  {
    if |groups| > 0 {
      MembersSize(groups[..|groups| - 1]);
    }
  }

  lemma {:induction false} MembersAppendTo(groups: seq<Cluster>, k: nat, e: Event)
    requires k < |groups|
    ensures Members(groups[k := groups[k] + [e]]) == Members(groups) + multiset{e}
  {
    var n := |groups|;
    var x := groups[k] + [e];
    var g' := groups[k := x];
    MembersLast(groups);
    MembersLast(g');
    if k < n - 1 {
      UpdateBeforeLast(groups, k, x);
      MembersAppendTo(groups[..n - 1], k, e);
      assert Members(g'[..n - 1]) == Members(groups[..n - 1]) + multiset{e};
    } else {
      UpdateLast(groups, x);
      assert multiset(x) == multiset(groups[k]) + multiset{e};
    }
  }

  lemma MembersLast(groups: seq<Cluster>)
    requires |groups| > 0
    ensures Members(groups) == Members(groups[..|groups| - 1]) + multiset(groups[|groups| - 1])
  {
  }

  lemma UpdateBeforeLast<T>(s: seq<T>, k: nat, x: T)
    requires k < |s| - 1
    ensures s[k := x][..|s| - 1] == s[..|s| - 1][k := x]
    ensures s[k := x][|s| - 1] == s[|s| - 1]
  {
  }

  lemma UpdateLast<T>(s: seq<T>, x: T)
    requires |s| > 0
    ensures s[|s| - 1 := x][..|s| - 1] == s[..|s| - 1]
    ensures s[|s| - 1 := x][|s| - 1] == x
  {
  }

  lemma {:induction false} ClusterWithinMembers(groups: seq<Cluster>, i: nat)
    requires i < |groups|
    ensures |groups[i]| <= SumSizes(groups)
  {
    var n := |groups|;
    if i < n - 1 {
      ClusterWithinMembers(groups[..n - 1], i);
    }
  }

  /** `e` joins the first cluster whose longest member overlaps it, or opens a new
      cluster after the others; every other cluster is left as it was. */
  function Place(groups: seq<Cluster>, e: Event): (r: seq<Cluster>)
    requires NonEmptyClusters(groups)
    ensures NonEmptyClusters(r)
    ensures Members(r) == Members(groups) + multiset{e}
  {
    var k := FirstMatch(groups, e);
    if k < |groups| then
      MembersAppendTo(groups, k, e);
      groups[k := groups[k] + [e]]
    else
      assert (groups + [[e]])[..|groups|] == groups;
      groups + [[e]]
  }

  /** One iteration of the clustering loop; an event without a range is skipped. */
  function Step(groups: seq<Cluster>, e: Event): (r: seq<Cluster>)
    requires NonEmptyClusters(groups)
    ensures NonEmptyClusters(r)
  {
    if Range(e).None? then groups else Place(groups, e)
  }

  /**
   The clusters built from `sorted` in order. They partition the events that
   have a range: every such event is in exactly one cluster, and the sizes add
   up to the number of them.
   */
  function Clusters(sorted: seq<Event>): (r: seq<Cluster>)
    ensures NonEmptyClusters(r)
    ensures Members(r) == multiset(Valid(sorted))
    ensures SumSizes(r) == |Valid(sorted)|
  {
    if |sorted| == 0 then []
    else
      var prefix := sorted[..|sorted| - 1];
      var last := sorted[|sorted| - 1];
      assert sorted == prefix + [last];
      MembersSize(Step(Clusters(prefix), last));
      Step(Clusters(prefix), last)
  }

  /** Appending an event with a range places it after all earlier events. */
  lemma ClustersAppend(prefix: seq<Event>, e: Event)
    requires Range(e).Some?
    ensures Clusters(prefix + [e]) == Place(Clusters(prefix), e)
  {
    var t := prefix + [e];
    assert t[..|t| - 1] == prefix;
  }

  /** The largest cluster size, 0 when there are no clusters. */
  function MaxSize(groups: seq<Cluster>): (m: nat)
    ensures forall i :: 0 <= i < |groups| ==> |groups[i]| <= m
    ensures |groups| == 0 ==> m == 0
    ensures |groups| > 0 ==> exists i :: 0 <= i < |groups| && m == |groups[i]|
  {
    if |groups| == 0 then 0
    else
      var m := MaxSize(groups[..|groups| - 1]);
      var last := |groups[|groups| - 1]|;
      if last > m then last else m
  }

  lemma ClustersOfNothing(sorted: seq<Event>)
    requires Valid(sorted) == []
    ensures MaxSize(Clusters(sorted)) == 0
  {
    MaxSizeWithinMembers(Clusters(sorted));
  }

  lemma MaxSizeWithinMembers(groups: seq<Cluster>)
    ensures MaxSize(groups) <= SumSizes(groups)
  {
    if |groups| > 0 {
      var i :| 0 <= i < |groups| && MaxSize(groups) == |groups[i]|;
      ClusterWithinMembers(groups, i);
    }
  }

  /**
   `totalOverlapPeriods`: the size of the largest cluster when the events with a
   range are sorted by start and clustered, or 1 when there is no cluster.
   */
  function TotalOverlapPeriods(periods: seq<Event>): (n: nat)
    ensures n >= 1
    ensures Valid(periods) == [] ==> n == 1
    ensures Valid(periods) != [] ==> n <= |Valid(periods)|
  {
    var sorted := SortByStart(Valid(periods));
    var longestGroupCount := MaxSize(Clusters(sorted));
    assert Valid(periods) == [] ==> longestGroupCount == 0 by {
      if Valid(periods) == [] {
        ClustersOfNothing(sorted);
      }
    }
    assert longestGroupCount <= |Valid(periods)| by {
      ValidIsAllValid(periods);
      AllValidByBag(Valid(periods), sorted);
      ValidOfAllValid(sorted);
      MaxSizeWithinMembers(Clusters(sorted));
    }
    if longestGroupCount == 0 then 1 else longestGroupCount
  }

  /**
   The inner scan of the clustering loop: compare `event` with each cluster's
   longest member in order and stop at the first overlap.
   */
  method FindGroup(groupsOfEvents: seq<Cluster>, event: Event) returns (i: nat)
    requires NonEmptyClusters(groupsOfEvents)
    ensures i == FirstMatch(groupsOfEvents, event)
  {
    i := 0;
    while i < |groupsOfEvents|
      invariant i <= |groupsOfEvents|
      invariant forall j :: 0 <= j < i ==> !Overlaps(Longest(groupsOfEvents[j]), event)
    {
      var longestEvent := Longest(groupsOfEvents[i]);
      if Overlaps(longestEvent, event) {
        return;
      }
      i := i + 1;
    }
  }

  lemma ClustersExtend(s: seq<Event>, n: nat)
    requires n < |s|
    ensures Clusters(s[..n + 1]) == Step(Clusters(s[..n]), s[n])
  {
    assert s[..n + 1][..n] == s[..n];
  }

  /** One pass of the clustering loop's body for an event with a range. */
  method PlaceEvent(groupsOfEvents: seq<Cluster>, event: Event) returns (r: seq<Cluster>)
    requires NonEmptyClusters(groupsOfEvents)
    ensures r == Place(groupsOfEvents, event)
  {
    var i := FindGroup(groupsOfEvents, event);
    if i < |groupsOfEvents| {
      r := groupsOfEvents[i := groupsOfEvents[i] + [event]];
    } else {
      r := groupsOfEvents + [[event]];
    }
  }

  /**
   The clustering loop of `totalOverlapPeriods`: each event with a range joins
   the cluster the scan finds, or opens a new one when the scan finds none.
   */
  method GroupEvents(sortedEvents: seq<Event>) returns (groupsOfEvents: seq<Cluster>)
    ensures groupsOfEvents == Clusters(sortedEvents)
    ensures NonEmptyClusters(groupsOfEvents)
    ensures Members(groupsOfEvents) == multiset(Valid(sortedEvents))
    ensures SumSizes(groupsOfEvents) == |Valid(sortedEvents)|
  {
    groupsOfEvents := [];
    for n := 0 to |sortedEvents|
      invariant groupsOfEvents == Clusters(sortedEvents[..n])
    {
      var event := sortedEvents[n];
      ClustersExtend(sortedEvents, n);
      if Range(event).Some? {
        groupsOfEvents := PlaceEvent(groupsOfEvents, event);
      }
    }
    TakeAll(sortedEvents);
  }

  /** `groupWidth`: one 110-point column per event of the largest cluster. */
  function GroupWidth(periods: seq<Event>): (w: real)
    ensures w >= ColumnWidth
    ensures Valid(periods) == [] ==> w == ColumnWidth
    ensures Valid(periods) != [] ==> w <= ColumnWidth * (|Valid(periods)| as real)
  {
    ColumnWidth * (TotalOverlapPeriods(periods) as real)
  }

  /** Removing the events without a range first does not change the count. */
  lemma TotalOverlapPeriodsIgnoresInvalid(periods: seq<Event>)
    ensures TotalOverlapPeriods(Valid(periods)) == TotalOverlapPeriods(periods)
  {
    ValidIsAllValid(periods);
    ValidOfAllValid(Valid(periods));
  }

  /** Every lane's width multiplied by `factor`, names and order kept. */
  function Scale(group: seq<Lane>, factor: real): (r: seq<Lane>)
    ensures |r| == |group|
    ensures forall i :: 0 <= i < |r| ==> r[i] == Lane(group[i].name, group[i].width * factor)
  {
    seq(|group|, i requires 0 <= i < |group| => Lane(group[i].name, group[i].width * factor))
  }

  lemma {:induction false} SumWidthsScale(group: seq<Lane>, factor: real)
    ensures SumWidths(Scale(group, factor)) == SumWidths(group) * factor
  {
    if |group| > 0 {
      var n := |group|;
      var scaled := Scale(group, factor);
      var prefixOfScaled := scaled[..n - 1];
      var scaledPrefix := Scale(group[..n - 1], factor);
      forall i | 0 <= i < n - 1
        ensures prefixOfScaled[i] == scaledPrefix[i]
      {
        assert group[..n - 1][i] == group[i];
      }
      assert prefixOfScaled == scaledPrefix;
      SumWidthsScale(group[..n - 1], factor);
      assert SumWidths(scaled) == SumWidths(group[..n - 1]) * factor + group[n - 1].width * factor;
      DistributeScale(SumWidths(group[..n - 1]), group[n - 1].width, factor);
    }
  }

  lemma DistributeScale(a: real, b: real, factor: real)
    ensures a * factor + b * factor == (a + b) * factor
  {
  }

  lemma StretchFactorAboveOne(current: real, target: real)
    requires 0.0 < current < target
    ensures target / current > 1.0
  {
    var f := target / current;
    assert f * current == target;
  }

  lemma StretchNeverNarrows(w: real, factor: real)
    requires w >= 0.0
    requires factor > 1.0
    ensures w * factor >= w
  {
    assert w * factor - w == w * (factor - 1.0);
  }

  lemma ScaleUpNeverNarrows(group: seq<Lane>, factor: real)
    requires NonNegativeWidths(group)
    requires factor > 1.0
    ensures forall i :: 0 <= i < |group| ==> Scale(group, factor)[i].width >= group[i].width
  {
    var scaled := Scale(group, factor);
    forall i | 0 <= i < |group|
      ensures scaled[i].width >= group[i].width
    {
      StretchNeverNarrows(group[i].width, factor);
    }
  }

  lemma {:induction false} SumWidthsNonNegative(group: seq<Lane>)
    requires NonNegativeWidths(group)
    ensures SumWidths(group) >= 0.0
  {
    if |group| > 0 {
      SumWidthsNonNegative(group[..|group| - 1]);
    }
  }

  /**
   `updateGroupWidthIfNeed`: when the lanes add up to less than `totalWidth`,
   stretch every lane by the same factor so that they fill it exactly; otherwise
   keep them. With no lanes the stretch maps over nothing and the empty list comes
   back. `None` stands for the case where there are lanes, their total is zero and
   the source divides by it, which gives non-finite widths.
   */
  function UpdateGroupWidthIfNeed(group: seq<Lane>, totalWidth: real): (r: Option<seq<Lane>>)
    ensures r.None? <==> |group| > 0 && SumWidths(group) == 0.0 && totalWidth > 0.0
    ensures r.Some? ==> |r.value| == |group|
    ensures r.Some? ==> forall i :: 0 <= i < |group| ==> r.value[i].name == group[i].name
    ensures SumWidths(group) >= totalWidth ==> r == Some(group)
    ensures |group| > 0 && r.Some? && SumWidths(group) < totalWidth ==>
      && SumWidths(r.value) == totalWidth
      && r.value == Scale(group, totalWidth / SumWidths(group))
    ensures |group| == 0 ==> r == Some([]) && SumWidths(r.value) == 0.0
  {
    var currentTotalWidth := SumWidths(group);
    if currentTotalWidth < totalWidth then
      if |group| == 0 then Some(group)
      else if currentTotalWidth == 0.0 then None
      else
        var scaleFactor := totalWidth / currentTotalWidth;
        SumWidthsScale(group, scaleFactor);
        Some(Scale(group, scaleFactor))
    else Some(group)
  }

  /** With non-negative widths the update never narrows a lane, so the lanes never
      end up narrower in total than configured. */
  lemma UpdateGroupWidthNeverShrinks(group: seq<Lane>, totalWidth: real)
    requires NonNegativeWidths(group)
    requires UpdateGroupWidthIfNeed(group, totalWidth).Some?
    ensures forall i :: 0 <= i < |group| ==>
      UpdateGroupWidthIfNeed(group, totalWidth).value[i].width >= group[i].width
    ensures SumWidths(UpdateGroupWidthIfNeed(group, totalWidth).value) >= SumWidths(group)
  {
    var current := SumWidths(group);
    var r := UpdateGroupWidthIfNeed(group, totalWidth).value;
    if |group| == 0 {
      assert r == group;
    } else if current < totalWidth {
      SumWidthsNonNegative(group);
      var factor := totalWidth / current;
      StretchFactorAboveOne(current, totalWidth);
      assert r == Scale(group, factor);
      ScaleUpNeverNarrows(group, factor);
    } else {
      assert r == group;
    }
  }

  /** The default style has no lanes, so whatever the target width, the update hands
      back the empty lane list: it maps over nothing, and nothing is divided. */
  lemma DefaultLanesKept(totalWidth: real)
    ensures UpdateGroupWidthIfNeed(DefaultTimelineStyle().group, totalWidth) == Some([])
  {
  }

  /** Two 110-point lanes stretched to 300 points become two 150-point lanes. */
  lemma UpdateGroupWidthExample()
    ensures UpdateGroupWidthIfNeed([Lane("Design", 110.0), Lane("Build", 110.0)], 300.0)
         == Some([Lane("Design", 150.0), Lane("Build", 150.0)])
  {
    var g := [Lane("Design", 110.0), Lane("Build", 110.0)];
    assert g[..1] == [Lane("Design", 110.0)];
    assert SumWidths(g) == 220.0;
    assert 110.0 * (300.0 / 220.0) == 150.0;
    var r := UpdateGroupWidthIfNeed(g, 300.0).value;
    assert r == [Lane("Design", 150.0), Lane("Build", 150.0)];
  }
}
