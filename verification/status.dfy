/**
 The two ways the application derives a book's availability from its event
 log: the history page reads the first event of a list already ordered
 newest first, every other view sorts the events oldest first (a stable
 sort) and reads the last one. The lemmas relate both to one independent
 description: the status is decided by the latest event.
 */
module Status {
  import opened Schema

  /** The two statuses the views display ("Available", "Checked Out"). */
  datatype Availability = Available | CheckedOut

  /**
   `i` is the position the stable ascending sort puts last: its timestamp is
   the greatest, and every later position carries a strictly smaller one.
   */
  predicate IsLatest(s: seq<Event>, i: int) {
    && 0 <= i < |s|
    && (forall j :: 0 <= j < |s| ==> s[j].timestamp <= s[i].timestamp)
    && (forall j :: i < j < |s| ==> s[j].timestamp < s[i].timestamp)
  }

  /**
   `r` is `sorted` with `e` placed at position `k`: behind every element
   whose timestamp is not greater than `e`'s and before every greater one.
   */
  predicate InsertedAt(sorted: seq<Event>, e: Event, r: seq<Event>, k: int) {
    && 0 <= k <= |sorted|
    && r == sorted[..k] + [e] + sorted[k..]
    && (forall j :: 0 <= j < k ==> sorted[j].timestamp <= e.timestamp)
    && (forall j :: k <= j < |sorted| ==> sorted[j].timestamp > e.timestamp)
  }

  /**
   Inserts `e` into an ascending sequence behind every element whose
   timestamp is not greater than its own, which keeps the sort stable.
   */
  function Insert(sorted: seq<Event>, e: Event): (r: seq<Event>)
    requires SortedAsc(sorted)
    ensures SortedAsc(r)
    ensures multiset(r) == multiset(sorted) + multiset{e}
    ensures |r| == |sorted| + 1
    ensures r[|r| - 1] == (if |sorted| == 0 || sorted[|sorted| - 1].timestamp <= e.timestamp
                           then e else sorted[|sorted| - 1])
    decreases |sorted|
  {
    if |sorted| == 0 then [e]
    else
      var last := sorted[|sorted| - 1];
      if last.timestamp <= e.timestamp then sorted + [e]
      else
        var front := sorted[..|sorted| - 1];
        assert sorted == front + [last];
        var mid := Insert(front, e);
        InsertBehind(sorted, front, e, last, mid);
        mid + [last]
  }

  /**
   Where `Insert` puts the new element: at the one position behind every
   element of equal or smaller timestamp and before every greater one.
   */
  lemma {:induction false} InsertPosition(sorted: seq<Event>, e: Event)
    requires SortedAsc(sorted)
    ensures exists k :: InsertedAt(sorted, e, Insert(sorted, e), k)
    decreases |sorted|
  {
    if |sorted| == 0 {
      assert Insert(sorted, e) == [e];
      assert InsertedAt(sorted, e, [e], 0);
    } else {
      var last := sorted[|sorted| - 1];
      if last.timestamp <= e.timestamp {
        InsertAtEnd(sorted, e);
        assert Insert(sorted, e) == sorted + [e];
      } else {
        var front := sorted[..|sorted| - 1];
        assert sorted == front + [last];
        assert Insert(sorted, e) == Insert(front, e) + [last];
        InsertPosition(front, e);
        InsertPlaced(sorted, front, e, last, Insert(front, e));
      }
    }
  }

  /** When `e` is no earlier than the last element, its place is the end. */
  lemma InsertAtEnd(sorted: seq<Event>, e: Event)
    requires SortedAsc(sorted) && |sorted| > 0
    requires sorted[|sorted| - 1].timestamp <= e.timestamp
    ensures InsertedAt(sorted, e, sorted + [e], |sorted|)
  {
    var n := |sorted|;
    assert sorted[..n] == sorted && sorted[n..] == [];
    forall j | 0 <= j < n
      ensures sorted[j].timestamp <= e.timestamp
    {
      assert j == n - 1 || sorted[j].timestamp <= sorted[n - 1].timestamp;
    }
  }

  /** The place of `e` in the front is its place in the whole, when the last element is later. */
  lemma InsertPlaced(sorted: seq<Event>, front: seq<Event>, e: Event, last: Event, mid: seq<Event>)
    requires sorted == front + [last]
    requires e.timestamp < last.timestamp
    requires exists k :: InsertedAt(front, e, mid, k)
    ensures exists k :: InsertedAt(sorted, e, mid + [last], k)
  {
    var k :| InsertedAt(front, e, mid, k);
    assert sorted[..k] == front[..k];
    assert sorted[k..] == front[k..] + [last];
    assert mid + [last] == sorted[..k] + [e] + sorted[k..];
    assert InsertedAt(sorted, e, mid + [last], k);
  }

  /**
   The recursive step of `Insert`: `e` goes before the larger last element,
   and the result is `mid` (the insertion into the front) followed by it.
   */
  lemma InsertBehind(sorted: seq<Event>, front: seq<Event>, e: Event, last: Event, mid: seq<Event>)
    requires SortedAsc(sorted) && sorted == front + [last]
    requires e.timestamp < last.timestamp
    requires SortedAsc(mid) && multiset(mid) == multiset(front) + multiset{e}
    ensures SortedAsc(mid + [last])
    ensures multiset(mid + [last]) == multiset(sorted) + multiset{e}
  {
    forall x | x in front
      ensures x.timestamp <= last.timestamp
    {
      var i :| 0 <= i < |front| && front[i] == x;
      assert sorted[i] == x && sorted[|front|] == last;
    }
    BoundedBelow(mid, front, e, last);
    AppendKeepsSorted(mid, last);
  }

  /** Every element of `mid`, made of `front` and `e`, is no later than `last`. */
  lemma BoundedBelow(mid: seq<Event>, front: seq<Event>, e: Event, last: Event)
    requires multiset(mid) == multiset(front) + multiset{e}
    requires forall x :: x in front ==> x.timestamp <= last.timestamp
    requires e.timestamp <= last.timestamp
    ensures forall x :: x in mid ==> x.timestamp <= last.timestamp
  {
    forall x | x in mid
      ensures x.timestamp <= last.timestamp
    {
      assert x in multiset(mid);
    }
  }

  /** An ascending sequence stays ascending when an element bounding it is appended. */
  lemma AppendKeepsSorted(s: seq<Event>, x: Event)
    requires SortedAsc(s)
    requires forall y :: y in s ==> y.timestamp <= x.timestamp
    ensures SortedAsc(s + [x])
  {
    var t := s + [x];
    forall i, j | 0 <= i < j < |t|
      ensures t[i].timestamp <= t[j].timestamp
    {
      if j == |s| {
        assert t[i] in s;
      }
    }
  }

  /** `sorted(events, key=lambda e: e.timestamp)`: a stable sort, oldest first. */
  function SortAsc(s: seq<Event>): (r: seq<Event>)
    ensures SortedAsc(r)
    ensures multiset(r) == multiset(s)
    ensures |r| == |s|
    decreases |s|
  {
    if |s| == 0 then []
    else
      assert s == s[..|s| - 1] + [s[|s| - 1]];
      Insert(SortAsc(s[..|s| - 1]), s[|s| - 1])
  }

  /** The position of the latest event, found by one scan from the front. */
  ghost function LatestIndex(s: seq<Event>): (k: nat)
    requires |s| > 0
    ensures k < |s|
    decreases |s|
  {
    if |s| == 1 then 0
    else
      var k := LatestIndex(s[..|s| - 1]);
      if s[k].timestamp <= s[|s| - 1].timestamp then |s| - 1 else k
  }

  /** `is_checked_out`: sort ascending, look at the last event. */
  function IsCheckedOut(events: seq<Event>): (r: bool)
    ensures |events| == 0 ==> !r
    ensures r <==> exists i :: IsLatest(events, i) && events[i].kind == Checkout
  {
    if |events| == 0 then false
    else
      var sorted := SortAsc(events);
      SortedLastIsLatest(events);
      assert forall i :: IsLatest(events, i) ==> i == LatestIndex(events) by {
        forall i | IsLatest(events, i)
          ensures i == LatestIndex(events)
        {
          LatestIsUnique(events, i, LatestIndex(events));
        }
      }
      sorted[|sorted| - 1].kind == Checkout
  }

  /** `get_book_status`: the caller passes the events newest first; read the first. */
  function GetBookStatus(events: seq<Event>): (r: Availability)
    ensures |events| == 0 ==> r == Available
  {
    if |events| == 0 then Available
    else if events[0].kind == Checkout then CheckedOut
    else Available
  }

  /** The last element of the stable sort sits at the latest position of the input. */
  lemma {:induction false} SortedLastIsLatest(s: seq<Event>)
    requires |s| > 0
    ensures IsLatest(s, LatestIndex(s))
    ensures SortAsc(s)[|s| - 1] == s[LatestIndex(s)]
    decreases |s|
  {
    var n := |s|;
    if n == 1 {
      assert SortAsc(s) == Insert([], s[0]);
    } else {
      var front := s[..n - 1];
      var k := LatestIndex(front);
      SortedLastIsLatest(front);
      LatestStep(s, k);
      var sf := SortAsc(front);
      assert sf[n - 2] == front[k] == s[k];
      assert SortAsc(s) == Insert(sf, s[n - 1]);
      assert LatestIndex(s) == if s[k].timestamp <= s[n - 1].timestamp then n - 1 else k;
    }
  }

  /** Extending a sequence by one element moves the latest position at most to the new end. */
  lemma LatestStep(s: seq<Event>, k: int)
    requires |s| >= 2
    requires IsLatest(s[..|s| - 1], k)
    ensures IsLatest(s, if s[k].timestamp <= s[|s| - 1].timestamp then |s| - 1 else k)
  {
    var n := |s|;
    var front := s[..n - 1];
    assert s[k] == front[k];
    forall j | 0 <= j < n - 1
      ensures s[j].timestamp <= s[k].timestamp
      ensures k < j ==> s[j].timestamp < s[k].timestamp
    {
      assert s[j] == front[j];
    }
  }

  /** At most one position is the latest. */
  lemma LatestIsUnique(s: seq<Event>, i: int, j: int)
    requires IsLatest(s, i) && IsLatest(s, j)
    ensures i == j
  {
    assert s[i].timestamp == s[j].timestamp;
  }

  /** Every position's timestamp is bounded by the latest event's. */
  lemma LatestIsMaximal(s: seq<Event>, x: Event)
    requires |s| > 0
    requires x in s
    ensures x.timestamp <= s[LatestIndex(s)].timestamp
  {
    SortedLastIsLatest(s);
  }

  /**
   With distinct timestamps the latest event is the only event of greatest
   timestamp, so any event of `s` that bounds all others is that event.
   */
  lemma {:induction false} MaximalIsLatest(s: seq<Event>, x: Event)
    requires DistinctTimestamps(s)
    requires x in s
    requires forall y :: y in s ==> y.timestamp <= x.timestamp
    ensures |s| > 0 && x == s[LatestIndex(s)]
  {
    SortedLastIsLatest(s);
    var k := LatestIndex(s);
    var i :| 0 <= i < |s| && s[i] == x;
    assert s[k] in s;
    assert s[i].timestamp == s[k].timestamp;
  }

  /**
   `is_checked_out` depends only on the multiset of events when timestamps
   are distinct: any reordering of the log gives the same answer.
   */
  lemma {:induction false} CheckedOutIgnoresOrder(s: seq<Event>, p: seq<Event>)
    requires multiset(p) == multiset(s)
    requires DistinctTimestamps(s)
    ensures IsCheckedOut(p) == IsCheckedOut(s)
  {
    assert |p| == |multiset(p)| == |s|;
    if |s| > 0 {
      SortedLastIsLatest(s);
      SortedLastIsLatest(p);
      var xs := s[LatestIndex(s)];
      var xp := p[LatestIndex(p)];
      assert xp in multiset(p);
      forall y | y in s
        ensures y.timestamp <= xp.timestamp
      {
        assert y in multiset(p);
        LatestIsMaximal(p, y);
      }
      MaximalIsLatest(s, xp);
      assert xp == xs;
    }
  }

  /**
   The two derivations agree: for a log with distinct timestamps and any
   newest-first ordering of it (the history page's query), `get_book_status`
   reports "Checked Out" exactly when `is_checked_out` holds of the log.
   */
  lemma {:induction false} DerivationsAgree(s: seq<Event>, d: seq<Event>)
    requires multiset(d) == multiset(s)
    requires SortedDesc(d)
    requires DistinctTimestamps(s)
    ensures GetBookStatus(d) == CheckedOut <==> IsCheckedOut(s)
    ensures GetBookStatus(d) == Available <==> !IsCheckedOut(s)
  {
    assert |d| == |multiset(d)| == |s|;
    if |s| > 0 {
      assert d[0] in multiset(d);
      forall y | y in s
        ensures y.timestamp <= d[0].timestamp
      {
        assert y in multiset(d);
        var j :| 0 <= j < |d| && d[j] == y;
        assert j == 0 || d[0].timestamp >= d[j].timestamp;
      }
      MaximalIsLatest(s, d[0]);
      SortedLastIsLatest(s);
    }
  }

  /**
   Appending an event no older than every logged one decides the status:
   afterwards `is_checked_out` holds exactly when the new event is a checkout.
   Ties are settled by the stable sort in favour of the newcomer.
   */
  lemma {:induction false} AppendDecides(s: seq<Event>, e: Event)
    requires forall x :: x in s ==> x.timestamp <= e.timestamp
    ensures IsCheckedOut(s + [e]) <==> e.kind == Checkout
  {
    var t := s + [e];
    assert t[..|t| - 1] == s;
    assert SortAsc(t) == Insert(SortAsc(s), e);
    if |s| > 0 {
      var ss := SortAsc(s);
      assert ss[|ss| - 1] in multiset(s);
    }
  }

  /** On an ascending log, the latest event is simply the last one. */
  lemma SortedLogLatestIsLast(s: seq<Event>)
    requires SortedAsc(s)
    requires |s| > 0
    ensures IsLatest(s, |s| - 1)
    ensures IsCheckedOut(s) <==> s[|s| - 1].kind == Checkout
  {
    var n := |s|;
    assert IsLatest(s, n - 1);
    SortedLastIsLatest(s);
    LatestIsUnique(s, LatestIndex(s), n - 1);
  }

  /**
   Distinct timestamps are needed: with two events of one timestamp, a
   newest-first ordering the database may return puts the checkin first
   while the stable sort keeps the checkout last.
   */
  lemma TiesCanDisagree()
    ensures var s := [Event(1, 1, Checkin, 5), Event(2, 1, Checkout, 5)];
            && SortedDesc(s)
            && GetBookStatus(s) == Available
            && IsCheckedOut(s)
  {
    var s := [Event(1, 1, Checkin, 5), Event(2, 1, Checkout, 5)];
    assert IsLatest(s, 1);
  }
}
