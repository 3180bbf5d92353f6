/**
 What `totalOverlapPeriods` gives on two extreme inputs: events that pairwise
 do not overlap, and events that all share one interval.
 */
module OverlapScenarios {
  import opened Events
  import opened StartOrder
  import opened EventLayout

  /** No two events at different positions overlap (closed ranges, touching counts). */
  ghost predicate PairwiseDisjoint(s: seq<Event>) {
    forall i, j :: 0 <= i < |s| && 0 <= j < |s| && i != j ==> !Overlaps(s[i], s[j])
  }

  /** The same condition on a bag of events: an event that occurs twice must not
      overlap itself. */
  ghost predicate DisjointBag(m: multiset<Event>) {
    forall x, y :: x in m && y in m && (x != y || m[x] > 1) ==> !Overlaps(x, y)
  }

  lemma TwoOccurrences(s: seq<Event>, i: nat, j: nat)
    requires i < j < |s|
    requires s[i] == s[j]
    ensures multiset(s)[s[i]] >= 2
  {
    var front, back := s[..j], s[j..];
    assert s == front + back;
    assert front[i] == s[i];
    assert back[0] == s[j];
    assert multiset(front)[s[i]] >= 1;
  }

  lemma OccurrenceElsewhere(s: seq<Event>, i: nat) returns (j: nat)
    requires i < |s|
    requires multiset(s)[s[i]] >= 2
    ensures j < |s| && j != i && s[j] == s[i]
  {
    var rest := s[..i] + s[i + 1..];
    assert s == s[..i] + [s[i]] + s[i + 1..];
    assert s[i] in multiset(rest);
    var k :| 0 <= k < |rest| && rest[k] == s[i];
    if k < i {
      assert rest[k] == s[k];
      j := k;
    } else {
      assert rest[k] == s[k + 1];
      j := k + 1;
    }
  }

  lemma DisjointAsBag(s: seq<Event>)
    ensures PairwiseDisjoint(s) <==> DisjointBag(multiset(s))
  {
    var m := multiset(s);
    if PairwiseDisjoint(s) {
      forall x, y | x in m && y in m && (x != y || m[x] > 1)
        ensures !Overlaps(x, y)
      {
        var i :| 0 <= i < |s| && s[i] == x;
        var j :| 0 <= j < |s| && s[j] == y;
        if x == y {
          j := OccurrenceElsewhere(s, i);
        }
      }
    }
    if DisjointBag(m) {
      forall i, j | 0 <= i < |s| && 0 <= j < |s| && i != j
        ensures !Overlaps(s[i], s[j])
      {
        if s[i] == s[j] {
          if i < j {
            TwoOccurrences(s, i, j);
          } else {
            TwoOccurrences(s, j, i);
          }
        }
      }
    }
  }

  lemma DisjointBagShrinks(m: multiset<Event>, m': multiset<Event>)
    requires m' <= m
    requires DisjointBag(m)
    ensures DisjointBag(m')
  {
  }

  /** One cluster per event, in order. */
  function Singletons(s: seq<Event>): (r: seq<Cluster>)
    ensures |r| == |s|
    ensures forall k :: 0 <= k < |s| ==> r[k] == [s[k]]
  {
    seq(|s|, k requires 0 <= k < |s| => [s[k]])
  }

  lemma SingletonsMissing(prefix: seq<Event>, e: Event)
    requires forall j :: 0 <= j < |prefix| ==> !Overlaps(prefix[j], e)
    ensures FirstMatch(Singletons(prefix), e) == |prefix|
  {
    var g := Singletons(prefix);
    forall j | 0 <= j < |g|
      ensures !Overlaps(Longest(g[j]), e)
    {
      assert Longest(g[j]) == prefix[j];
    }
  }

  lemma SingletonsExtend(t: seq<Event>)
    requires |t| > 0
    ensures Singletons(t[..|t| - 1]) + [[t[|t| - 1]]] == Singletons(t)
  {
  }

  /** Events that pairwise do not overlap each open their own cluster. */
  lemma ClustersOfDisjoint(t: seq<Event>)
    requires AllValid(t)
    requires PairwiseDisjoint(t)
    ensures Clusters(t) == Singletons(t)
  {
    var n := 0;
    while n < |t|
      invariant n <= |t|
      invariant Clusters(t[..n]) == Singletons(t[..n])
    {
      DisjointFromEarlier(t, n);
      NextOpensOwnCluster(t, n);
      n := n + 1;
    }
    TakeAll(t);
  }

  lemma DisjointFromEarlier(t: seq<Event>, n: nat)
    requires n < |t|
    requires AllValid(t)
    requires PairwiseDisjoint(t)
    ensures Range(t[n]).Some?
    ensures forall j :: 0 <= j < n ==> !Overlaps(t[j], t[n])
  {
  }

  lemma NextOpensOwnCluster(t: seq<Event>, n: nat)
    requires n < |t|
    requires Range(t[n]).Some?
    requires forall j :: 0 <= j < n ==> !Overlaps(t[j], t[n])
    requires Clusters(t[..n]) == Singletons(t[..n])
    ensures Clusters(t[..n + 1]) == Singletons(t[..n + 1])
  {
    var prefix := t[..n];
    PrefixMisses(t, n);
    SingletonsMissing(prefix, t[n]);
    OpensOwnCluster(prefix, t[n]);
    TakeOneMore(t, n);
  }

  lemma PrefixMisses(t: seq<Event>, n: nat)
    requires n < |t|
    requires forall j :: 0 <= j < n ==> !Overlaps(t[j], t[n])
    ensures forall j :: 0 <= j < |t[..n]| ==> !Overlaps(t[..n][j], t[n])
  {
    assert forall j :: 0 <= j < n ==> t[..n][j] == t[j];
  }

  lemma OpensOwnCluster(prefix: seq<Event>, e: Event)
    requires Range(e).Some?
    requires Clusters(prefix) == Singletons(prefix)
    requires FirstMatch(Singletons(prefix), e) == |prefix|
    ensures Clusters(prefix + [e]) == Singletons(prefix + [e])
  {
    ClustersAppend(prefix, e);
    SingletonsExtend(prefix + [e]);
    assert (prefix + [e])[..|prefix|] == prefix;
  }

  /** Events that pairwise do not overlap need a single column. */
  lemma DisjointEventsGiveOne(periods: seq<Event>)
    requires PairwiseDisjoint(periods)
    ensures TotalOverlapPeriods(periods) == 1
    ensures GroupWidth(periods) == ColumnWidth
  {
    var v := Valid(periods);
    var t := SortByStart(v);
    DisjointAsBag(periods);
    assert multiset(v) <= multiset(periods);
    DisjointBagShrinks(multiset(periods), multiset(v));
    DisjointAsBag(t);
    ValidIsAllValid(periods);
    AllValidByBag(v, t);
    ClustersOfDisjoint(t);
    var g := Clusters(t);
    if |g| > 0 {
      var i :| 0 <= i < |g| && MaxSize(g) == |g[i]|;
      assert g[i] == [t[i]];
    }
  }

  /** Every event runs from `a` to `b`. */
  predicate SameInterval(s: seq<Event>, a: int, b: int) {
    forall i :: 0 <= i < |s| ==> s[i].startDate == a && s[i].endDate == b
  }

  /** Events that all share one interval end up in a single cluster. */
  lemma ClustersOfIdentical(t: seq<Event>, a: int, b: int)
    requires a <= b
    requires SameInterval(t, a, b)
    requires |t| > 0
    ensures Clusters(t) == [t]
  {
    FirstOpensCluster(t[0]);
    TakeOneMore(t, 0);
    var n := 1;
    while n < |t|
      invariant 1 <= n <= |t|
      invariant Clusters(t[..n]) == [t[..n]]
    {
      var prefix := t[..n];
      var k := LongestIndex(prefix);
      assert prefix[k] == t[k];
      assert Overlaps(Longest(prefix), t[n]);
      JoinsOnlyCluster(prefix, t[n]);
      TakeOneMore(t, n);
      n := n + 1;
    }
    TakeAll(t);
  }

  lemma FirstOpensCluster(e: Event)
    requires Range(e).Some?
    ensures Clusters([] + [e]) == [[e]]
  {
    ClustersAppend([], e);
  }

  lemma JoinsOnlyCluster(prefix: seq<Event>, e: Event)
    requires |prefix| > 0
    requires Range(e).Some?
    requires Clusters(prefix) == [prefix]
    requires Overlaps(Longest(prefix), e)
    ensures Clusters(prefix + [e]) == [prefix + [e]]
  {
    ClustersAppend(prefix, e);
    JoinsFirst([prefix], e);
    ReplaceOnly(prefix, prefix + [e]);
  }

  lemma ReplaceOnly<T>(a: T, b: T)
    ensures [a][0 := b] == [b]
  {
  }

  lemma JoinsFirst(groups: seq<Cluster>, e: Event)
    requires NonEmptyClusters(groups) && |groups| > 0
    requires Overlaps(Longest(groups[0]), e)
    ensures Place(groups, e) == groups[0 := groups[0] + [e]]
  {
    assert FirstMatch(groups, e) == 0;
  }

  /** N events with the same valid interval need N columns. */
  lemma IdenticalEventsGiveCount(periods: seq<Event>, a: int, b: int)
    requires a <= b
    requires SameInterval(periods, a, b)
    requires |periods| > 0
    ensures TotalOverlapPeriods(periods) == |periods|
    ensures GroupWidth(periods) == ColumnWidth * (|periods| as real)
  {
    assert AllValid(periods);
    ValidOfAllValid(periods);
    var t := SortByStart(periods);
    SortKeepsSameInterval(periods, a, b);
    ClustersOfIdentical(t, a, b);
    assert MaxSize([t]) == |t|;
  }

  lemma SortKeepsSameInterval(periods: seq<Event>, a: int, b: int)
    requires SameInterval(periods, a, b)
    ensures SameInterval(SortByStart(periods), a, b)
  {
    var t := SortByStart(periods);
    forall i | 0 <= i < |t|
      ensures t[i].startDate == a && t[i].endDate == b
    {
      assert t[i] in multiset(periods);
    }
  }
}
