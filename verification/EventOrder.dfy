/** When the list of events is determined by the records, and what a wrapped window does to it. */
module EventOrder {
  import opened Connectivity
  import opened Events
  import Sorting

  // ----- events always exist

  lemma {:induction false} SpanOf(records: seq<Record>, members: set<nat>) returns (start: int, end: int)
    requires members != {} && forall i <- members :: i < |records|
    ensures SpansTime(records, Event(start, end, members))
  {
    var k :| k in members;
    var rest, time := members - {k}, records[k].created;
    if rest == {} {
      start, end := time, time;
      assert members == {k};
    } else {
      var s, e := SpanOf(records, rest);
      start, end := if time < s then time else s, if time > e then time else e;
      assert members == rest + {k};
    }
  }

  ghost function ClassOf(records: seq<Record>, window: int, i: nat): set<nat> {
    set j: nat | j < |records| && Together(records, window, i, j)
  }

  lemma ClassIsEvent(records: seq<Record>, window: int, i: nat) returns (event: Event)
    requires i < |records| && HasCompany(records, window, i)
    ensures IsEvent(records, window, event) && i in event.members
  {
    var members := ClassOf(records, window, i);
    var j: nat :| j < |records| && j != i && Together(records, window, i, j);
    Reflexive(AllPairs(records, window), i);
    AtLeastTwo(members, i, j);
    var start, end := SpanOf(records, members);
    event := Event(start, end, members);
    forall a: nat, b: nat | a in members && b < |records|
      ensures b in members <==> Together(records, window, a, b)
    {
      TogetherIsTransitive(records, window, i, a, b);
    }
  }

  lemma AtLeastTwo(s: set<nat>, i: nat, j: nat)
    requires i in s && j in s && i != j
    ensures |s| >= 2
  {
    assert {i, j} <= s;
    assert s == {i, j} + (s - {i, j});
  }

  lemma TogetherIsTransitive(records: seq<Record>, window: int, i: nat, a: nat, b: nat)
    requires Together(records, window, i, a)
    ensures Together(records, window, i, b) <==> Together(records, window, a, b)
    ensures Together(records, window, a, i)
  {
    var edges := AllPairs(records, window);
    Symmetric(edges, i, a);
    if Connected(edges, i, b) { Transitive(edges, a, i, b); }
    if Connected(edges, a, b) { Transitive(edges, i, a, b); }
  }

  /** The classes that the first `n` records belong to, in some order. */
  ghost predicate Classes(records: seq<Record>, window: int, events: seq<Event>, n: nat) {
    && (forall event <- events :: IsEvent(records, window, event))
    && (forall p, q | 0 <= p < q < |events| :: events[p].members !! events[q].members)
    && (forall i: nat | i < n && HasCompany(records, window, i) :: exists event <- events :: i in event.members)
  }

  lemma {:induction false} ClassesExist(records: seq<Record>, window: int, n: nat) returns (events: seq<Event>)
    requires n <= |records|
    ensures Classes(records, window, events, n)
  {
    if n == 0 {
      events := [];
    } else {
      events := ClassesExist(records, window, n - 1);
      if HasCompany(records, window, n - 1) && forall event <- events :: n - 1 !in event.members {
        var event := ClassIsEvent(records, window, n - 1);
        AddClass(records, window, events, n - 1, event);
        events := events + [event];
      }
    }
  }

  lemma AddClass(records: seq<Record>, window: int, events: seq<Event>, n: nat, event: Event)
    requires Classes(records, window, events, n) && n < |records|
    requires IsEvent(records, window, event) && n in event.members
    requires forall e <- events :: n !in e.members
    ensures Classes(records, window, events + [event], n + 1)
  {
    hide SpansTime, HasCompany;
    var more := events + [event];
    forall p | 0 <= p < |events| ensures events[p].members !! event.members {
      assert events[p] in events;
      Apart(records, window, events[p], event, n);
    }
    forall i: nat | i <= n && HasCompany(records, window, i) ensures exists e <- more :: i in e.members {
      if i < n {
        var e :| e in events && i in e.members;
        assert e in more;
      } else {
        assert event in more;
      }
    }
    assert forall e <- more :: e in events || e == event;
  }

  lemma Apart(records: seq<Record>, window: int, e: Event, f: Event, i: nat)
    requires IsEvent(records, window, e) && IsEvent(records, window, f)
    requires i in f.members && i !in e.members && i < |records|
    ensures e.members !! f.members
  {
    forall k: nat | k in e.members ensures k !in f.members {
      if k in f.members {
        SameEvent(records, window, e, f, k);
        assert false;
      }
    }
  }

  lemma EventsExist(records: seq<Record>, window: int) returns (events: seq<Event>)
    ensures AreEvents(records, window, events)
  {
    var classes := ClassesExist(records, window, |records|);
    events := Sorting.Sort(classes, StartsBefore);
    Sorting.SortKeeps(classes, StartsBefore);
    Sorting.SortSorts(classes, StartsBefore);
    SortedEvents(records, window, classes, events);
  }

  // ----- when their order is determined

  ghost predicate OneOrder(records: seq<Record>, window: int) {
    forall a, b | AreEvents(records, window, a) && AreEvents(records, window, b) :: a == b
  }

  ghost predicate StartTogether(records: seq<Record>, window: int, e: Event, f: Event) {
    IsEvent(records, window, e) && IsEvent(records, window, f) && e != f && e.start == f.start
  }

  /** The list of events is determined if and only if no two of them start together. */
  lemma OrderIsDeterminedIff(records: seq<Record>, window: int)
    ensures OneOrder(records, window) <==> forall e, f :: !StartTogether(records, window, e, f)
  {
    if e, f :| StartTogether(records, window, e, f) {
      var events, others := Swap(records, window, e, f);
    } else {
      forall a, b | AreEvents(records, window, a) && AreEvents(records, window, b) ensures a == b {
        EventsAreDetermined(records, window, a, b);
        StrictlyOrdered(records, window, a);
        StrictlyOrdered(records, window, b);
        Sorting.AscendingIsUnique(a, b, StartsBefore);
      }
    }
  }

  lemma StrictlyOrdered(records: seq<Record>, window: int, events: seq<Event>)
    requires AreEvents(records, window, events)
    requires forall e, f :: !StartTogether(records, window, e, f)
    ensures forall p, q | 0 <= p < q < |events| :: StartsBefore(events[p], events[q])
  {
    forall p, q | 0 <= p < q < |events| ensures StartsBefore(events[p], events[q]) {
      assert events[p] in events && events[q] in events;
      assert events[p] != events[q] by {
        assert events[p].members != {};
      }
      assert !StartTogether(records, window, events[p], events[q]);
    }
  }

  lemma Swap(records: seq<Record>, window: int, e: Event, f: Event) returns (events: seq<Event>, others: seq<Event>)
    requires StartTogether(records, window, e, f)
    ensures AreEvents(records, window, events) && AreEvents(records, window, others) && events != others
  {
    events := EventsExist(records, window);
    EventIn(records, window, events, e);
    EventIn(records, window, events, f);
    var p :| 0 <= p < |events| && events[p] == e;
    var q :| 0 <= q < |events| && events[q] == f;
    if p < q {
      others := SwapAt(records, window, events, p, q);
    } else {
      others := SwapAt(records, window, events, q, p);
    }
  }

  lemma SwapAt(records: seq<Record>, window: int, events: seq<Event>, p: nat, q: nat) returns (others: seq<Event>)
    requires AreEvents(records, window, events) && p < q < |events|
    requires events[p].start == events[q].start && events[p] != events[q]
    ensures AreEvents(records, window, others) && others != events
  {
    hide IsEvent, HasCompany;
    others := events[p := events[q]][q := events[p]];
    assert others[p] == events[q] && others[q] == events[p];
    assert forall k | 0 <= k < |events| && k != p && k != q :: others[k] == events[k];
    forall e ensures e in others <==> e in events {
      assert events[p] == others[q] && events[q] == others[p];
    }
  }

  /** Two pairs of records, each about one thing of its own, all created at once. */
  function TwoPairs(): seq<Record> {
    [Record(0, ["a"]), Record(0, ["a"]), Record(0, ["b"]), Record(0, ["b"])]
  }

  /** Their edges stay within the pairs. */
  lemma PairEdges(window: nat)
    ensures forall i: nat, j: nat ::
      (i, j) in AllPairs(TwoPairs(), window) <==> i < 4 && j < 4 && (i < 2) == (j < 2)
  {
    var records := TwoPairs();
    forall i: nat, j: nat | i < 4 && j < 4
      ensures SharesEntity(records, i, j) <==> (i < 2) == (j < 2)
    {
      assert records[i].entities == [if i < 2 then "a" else "b"];
      assert records[j].entities == [if j < 2 then "a" else "b"];
      assert "a"[0] != "b"[0];
      assert records[i].entities[0] in records[i].entities;
    }
  }

  lemma PairsApart(window: nat, i: nat, j: nat)
    requires i < 4 && j < 4
    ensures Together(TwoPairs(), window, i, j) <==> (i < 2) == (j < 2)
  {
    var edges := AllPairs(TwoPairs(), window);
    PairEdges(window);
    if (i < 2) == (j < 2) {
      OneEdge(edges, i, j);
    } else if path :| IsPath(edges, path, i, j) {
      LeastAlong(edges, path, i, j, (x: nat, y: nat) => (x < 2) == (y < 2));
    }
  }

  lemma PairIsEvent(window: nat, event: Event, first: nat)
    requires first == 0 || first == 2
    requires event == Event(0, 0, {first, first + 1})
    ensures IsEvent(TwoPairs(), window, event)
  {
    var records := TwoPairs();
    AtLeastTwo(event.members, first, first + 1);
    assert forall i: nat | i < 4 :: records[i].created == 0;
    assert first in event.members;
    forall i: nat, j: nat | i in event.members && j < |records|
      ensures j in event.members <==> Together(records, window, i, j)
    {
      PairsApart(window, i, j);
    }
  }

  /** Their events can come in either order, under every window. */
  lemma TwoOrders(window: nat)
    ensures !OneOrder(TwoPairs(), window)
  {
    var e, f := Event(0, 0, {0, 1}), Event(0, 0, {2, 3});
    PairIsEvent(window, e, 0);
    PairIsEvent(window, f, 2);
    assert 0 in e.members && 0 !in f.members;
    assert StartTogether(TwoPairs(), window, e, f);
    OrderIsDeterminedIff(TwoPairs(), window);
  }

  // ----- windows that wrap

  /** Two records that share an entity lie within the window of each other. */
  ghost predicate ClosePair(records: seq<Record>, window: int, i: nat, j: nat) {
    i < |records| && j < |records| && i != j && SharesEntity(records, i, j) && Near(records, i, j, window)
  }

  lemma {:induction false} AloneAlong(records: seq<Record>, window: int, path: seq<nat>, i: nat, j: nat)
    requires IsPath(AllPairs(records, window), path, i, j)
    requires forall a: nat, b: nat :: !ClosePair(records, window, a, b)
    ensures i == j
  {
    var edges := AllPairs(records, window);
    forall e <- edges ensures e.0 == e.1 {
      assert !ClosePair(records, window, e.0, e.1);
    }
    LeastAlong(edges, path, i, j, (x: nat, y: nat) => x == y);
  }

  lemma NoCompany(records: seq<Record>, window: int, i: nat)
    requires forall a: nat, b: nat :: !ClosePair(records, window, a, b)
    ensures !HasCompany(records, window, i)
  {
    forall j: nat ensures j == i || !Together(records, window, i, j) {
      if path :| IsPath(AllPairs(records, window), path, i, j) {
        AloneAlong(records, window, path, i, j);
      }
    }
  }

  lemma EventHasPair(records: seq<Record>, window: int, event: Event)
    requires IsEvent(records, window, event)
    ensures exists i: nat, j: nat :: ClosePair(records, window, i, j)
  {
    var i, j := TwoMembers(event.members);
    assert Together(records, window, i, j);
    if forall a: nat, b: nat :: !ClosePair(records, window, a, b) {
      NoCompany(records, window, i);
      assert false;
    }
  }

  /** Without such a pair there are no events, and with one there are. */
  lemma NoEventsIff(records: seq<Record>, window: int, events: seq<Event>)
    ensures (forall i: nat, j: nat :: !ClosePair(records, window, i, j)) ==>
      (AreEvents(records, window, events) <==> events == [])
    ensures AreEvents(records, window, []) <==> forall i: nat, j: nat :: !ClosePair(records, window, i, j)
  {
    if forall i: nat, j: nat :: !ClosePair(records, window, i, j) {
      forall i: nat ensures !HasCompany(records, window, i) {
        NoCompany(records, window, i);
      }
      if AreEvents(records, window, events) && events != [] {
        assert events[0] in events;
        EventHasPair(records, window, events[0]);
      }
    } else {
      var i: nat, j: nat :| ClosePair(records, window, i, j);
      assert (i, j) in AllPairs(records, window);
      OneEdge(AllPairs(records, window), i, j);
      assert Together(records, window, i, j);
      assert HasCompany(records, window, i);
    }
  }

  /** A negative window links nothing. */
  lemma NegativeWindow(records: seq<Record>, window: int, events: seq<Event>)
    requires window < 0
    ensures AreEvents(records, window, events) <==> events == []
  {
    NoEventsIff(records, window, events);
  }

  /**
   The cast of the window is harmless if and only if the window is below 2^63 seconds, or no
   two records that share an entity lie within it anyway; otherwise all events are lost.
   */
  lemma CastIsHarmlessIff(records: seq<Record>, secs: nat)
    requires secs < 0x1_0000_0000_0000_0000
    ensures (forall events :: AreEvents(records, WindowSecs(secs), events) <==> AreEvents(records, secs, events))
       <==> secs < 0x8000_0000_0000_0000 || forall i: nat, j: nat :: !ClosePair(records, secs, i, j)
  {
    if secs >= 0x8000_0000_0000_0000 {
      NegativeWindow(records, WindowSecs(secs), []);
      NoEventsIff(records, secs, []);
      if forall i: nat, j: nat :: !ClosePair(records, secs, i, j) {
        forall events ensures AreEvents(records, WindowSecs(secs), events) <==> AreEvents(records, secs, events) {
          NegativeWindow(records, WindowSecs(secs), events);
          NoEventsIff(records, secs, events);
        }
      }
    }
  }
}
