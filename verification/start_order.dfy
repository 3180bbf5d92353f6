/**
 `sorted { $0.startDate < $1.startDate }` as a stable insertion sort: events
 that start together keep their input order.
 */
module StartOrder {
  import opened Events

  predicate SortedByStart(s: seq<Event>) {
    forall i, j :: 0 <= i < j < |s| ==> s[i].startDate <= s[j].startDate
  }

  /** Where `e` goes in `t`: before the first event that does not start earlier. */
  function InsertionPoint(e: Event, t: seq<Event>): (k: nat)
    ensures k <= |t|
    ensures forall j :: 0 <= j < k ==> t[j].startDate < e.startDate
    ensures k < |t| ==> e.startDate <= t[k].startDate
  {
    if |t| == 0 || e.startDate <= t[0].startDate then 0 else 1 + InsertionPoint(e, t[1..])
  }

  function Insert(e: Event, t: seq<Event>): (r: seq<Event>)
    ensures multiset(r) == multiset(t) + multiset{e}
    ensures SortedByStart(t) ==> SortedByStart(r)
  {
    var k := InsertionPoint(e, t);
    assert t == t[..k] + t[k..];
    assert SortedByStart(t) ==> SortedByStart(t[..k] + [e] + t[k..]) by {
      if SortedByStart(t) {
        InsertKeepsOrder(e, t, k);
      }
    }
    t[..k] + [e] + t[k..]
  }

  lemma InsertKeepsOrder(e: Event, t: seq<Event>, k: nat)
    requires SortedByStart(t)
    requires k == InsertionPoint(e, t)
    ensures SortedByStart(t[..k] + [e] + t[k..])
  {
    var r := t[..k] + [e] + t[k..];
    InsertedElements(e, t, k);
    forall i, j | 0 <= i < j < |r|
      ensures r[i].startDate <= r[j].startDate
    {
      if j <= k {
      } else if i < k {
        assert t[k].startDate >= e.startDate;
        assert t[i].startDate <= t[k].startDate <= t[j - 1].startDate;
      } else if i > k {
      } else {
        assert t[k].startDate <= t[j - 1].startDate;
      }
    }
  }

  /** Where each event ends up when `e` is put at position `k`. */
  lemma InsertedElements(e: Event, t: seq<Event>, k: nat)
    requires k <= |t|
    ensures var r := t[..k] + [e] + t[k..];
      && |r| == |t| + 1
      && r[k] == e
      && (forall i :: 0 <= i < k ==> r[i] == t[i])
      && (forall i :: k < i < |r| ==> r[i] == t[i - 1])
  {
  }

  function SortByStart(s: seq<Event>): (r: seq<Event>)
    ensures multiset(r) == multiset(s)
    ensures |r| == |s|
    ensures SortedByStart(r)
  {
    if |s| == 0 then []
    else
      assert s == [s[0]] + s[1..];
      Insert(s[0], SortByStart(s[1..]))
  }
}
