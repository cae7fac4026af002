/**
 Event assembly: records that share an entity are linked in time order, neighbour to
 neighbour, and the components of two or more records become events.
 */
module Events {
  import opened Connectivity
  import Seqs
  import Sorting
  import UnionFind

  /** A record as far as event assembly looks at it; `created` counts nanoseconds. */
  datatype Record = Record(created: int, entities: seq<string>)

  const NANOS: int := 1_000_000_000

  function Abs(x: int): nat { if x < 0 then -x else x }

  /** `(b - a).num_seconds().abs()`: whole seconds, cut towards zero. */
  function Seconds(a: int, b: int): nat {
    Abs(b - a) / NANOS
  }

  /** `window.as_secs() as i64`: durations of 2^63 seconds and more wrap to a negative number. */
  function WindowSecs(secs: nat): int
    requires secs < 0x1_0000_0000_0000_0000
  {
    if secs < 0x8000_0000_0000_0000 then secs else secs - 0x1_0000_0000_0000_0000
  }

  // ----- the definition: every pair that shares an entity within the window

  ghost predicate SharesEntity(records: seq<Record>, i: nat, j: nat)
    requires i < |records| && j < |records|
  {
    exists e :: e in records[i].entities && e in records[j].entities
  }

  predicate Near(records: seq<Record>, i: nat, j: nat, window: int)
    requires i < |records| && j < |records|
  {
    Seconds(records[i].created, records[j].created) <= window
  }

  /** A fraction of a second over the window does no harm, a full one does. */
  lemma NearIff(records: seq<Record>, i: nat, j: nat, window: int)
    requires i < |records| && j < |records|
    ensures Near(records, i, j, window) <==>
              && records[i].created - records[j].created < (window + 1) * 1_000_000_000
              && records[j].created - records[i].created < (window + 1) * 1_000_000_000
  {
  }

  ghost function AllPairs(records: seq<Record>, window: int): Edges {
    set i, j | 0 <= i < |records| && 0 <= j < |records|
               && SharesEntity(records, i, j) && Near(records, i, j, window) :: (i, j)
  }

  /** Two records belong to one happening. */
  ghost predicate Together(records: seq<Record>, window: int, i: nat, j: nat) {
    Connected(AllPairs(records, window), i, j)
  }

  // ----- the index from entities to records

  predicate Mentions(records: seq<Record>, i: nat, e: string) {
    i < |records| && e in records[i].entities
  }

  predicate Listed(lists: map<string, seq<nat>>, e: string, i: nat) {
    e in lists && i in lists[e]
  }

  /** `lists[e]` names exactly the records among the first `n` that mention `e`. */
  ghost predicate IsIndex(records: seq<Record>, n: nat, lists: map<string, seq<nat>>) {
    forall e, i: nat :: Listed(lists, e, i) <==> i < n && Mentions(records, i, e)
  }

  method BuildIndex(records: seq<Record>) returns (lists: map<string, seq<nat>>)
    ensures IsIndex(records, |records|, lists)
  {
    lists := map[];
    for i := 0 to |records|
      invariant IsIndex(records, i, lists)
    {
      var entities := records[i].entities;
      for k := 0 to |entities|
        invariant forall e, j: nat :: Listed(lists, e, j) <==>
          (j < i && Mentions(records, j, e)) || (j == i && e in entities[..k])
      {
        var e := entities[k];
        ghost var before := lists;
        lists := lists[e := (if e in lists then lists[e] else []) + [i]];
        forall f, j: nat ensures Listed(lists, f, j) <==> Listed(before, f, j) || (f == e && j == i) {
        }
        Seqs.TakeStep(entities, k);
      }
      Seqs.TakeDrop(entities, |entities|);
    }
  }

  // ----- the sweep over one list

  /** A total key, so that the order is defined for every index. */
  function Created(records: seq<Record>, i: nat): int {
    if i < |records| then records[i].created else 0
  }

  function ByTime(records: seq<Record>): (nat, nat) -> bool {
    (i: nat, j: nat) => Created(records, i) < Created(records, j)
  }

  function SortByTime(records: seq<Record>, list: seq<nat>): seq<nat> {
    Sorting.Sort(list, ByTime(records))
  }

  ghost predicate InTimeOrder(records: seq<Record>, list: seq<nat>) {
    && (forall k | 0 <= k < |list| :: list[k] < |records|)
    && forall p, q | 0 <= p < q < |list| :: records[list[p]].created <= records[list[q]].created
  }

  lemma SortedByTime(records: seq<Record>, list: seq<nat>)
    requires forall i <- list :: i < |records|
    ensures InTimeOrder(records, SortByTime(records, list))
    ensures forall i :: i in SortByTime(records, list) <==> i in list
    ensures multiset(SortByTime(records, list)) == multiset(list)
  {
    var sorted := SortByTime(records, list);
    Sorting.SortKeeps(list, ByTime(records));
    Sorting.SortMembers(list, ByTime(records));
    Sorting.SortSorts(list, ByTime(records));
    forall k | 0 <= k < |sorted| ensures sorted[k] < |records| {
      assert sorted[k] in sorted;
    }
    forall p, q | 0 <= p < q < |sorted|
      ensures records[sorted[p]].created <= records[sorted[q]].created
    {
      assert !ByTime(records)(sorted[q], sorted[p]);
    }
  }

  /** All that a sweep over one list adds: near neighbours in time order. */
  ghost predicate SweptUpTo(records: seq<Record>, list: seq<nat>, n: nat, window: int, edges: Edges)
    requires forall k | 0 <= k < |list| :: list[k] < |records|
  {
    forall k | 0 <= k < |list| - 1 && k + 1 < n :: SweptAt(records, list, k, window, edges)
  }

  ghost predicate SweptAt(records: seq<Record>, list: seq<nat>, k: nat, window: int, edges: Edges)
    requires k + 1 < |list| && forall k | 0 <= k < |list| :: list[k] < |records|
  {
    Near(records, list[k], list[k + 1], window) ==> (list[k], list[k + 1]) in edges
  }

  lemma SweptGrows(records: seq<Record>, list: seq<nat>, n: nat, window: int, edges: Edges, more: Edges)
    requires forall k | 0 <= k < |list| :: list[k] < |records|
    requires SweptUpTo(records, list, n, window, edges) && edges <= more
    ensures SweptUpTo(records, list, n, window, more)
  {
    forall k | 0 <= k < |list| - 1 && k + 1 < n ensures SweptAt(records, list, k, window, more) {
      assert SweptAt(records, list, k, window, edges);
    }
  }

  method Sweep(
      parent: array<nat>, records: seq<Record>, list: seq<nat>, entity: string, window: int,
      ghost height: seq<nat>, ghost edges: Edges)
    returns (ghost newHeight: seq<nat>, ghost more: Edges)
    requires parent.Length == |records|
    requires UnionFind.Represents(parent[..], height, edges)
    requires InTimeOrder(records, list)
    requires forall k | 0 <= k < |list| :: entity in records[list[k]].entities
    requires edges <= AllPairs(records, window)
    modifies parent
    ensures UnionFind.Represents(parent[..], newHeight, more)
    ensures edges <= more <= AllPairs(records, window)
    ensures SweptUpTo(records, list, |list|, window, more)
  {
    newHeight, more := height, edges;
    var k := 1;
    while k < |list|
      invariant 1 <= k && (k <= |list| || list == [])
      invariant UnionFind.Represents(parent[..], newHeight, more)
      invariant edges <= more <= AllPairs(records, window)
      invariant SweptUpTo(records, list, k, window, more)
    {
      var a, b := list[k - 1], list[k];
      if Near(records, a, b, window) {
        ghost var was, wasHeight, wasEdges := parent[..], newHeight, more;
        newHeight := UnionFind.Union(parent, a, b, newHeight);
        UnionFind.UnionRepresents(was, wasHeight, more, a, b, parent[..], newHeight);
        assert entity in records[a].entities && entity in records[b].entities;
        more := UnionFind.Joined(more, a, b);
        SweptGrows(records, list, k, window, wasEdges, more);
      }
      assert SweptAt(records, list, k - 1, window, more);
      k := k + 1;
    }
  }

  /** In time order, near records have near neighbours all the way between them. */
  lemma {:induction false} NearChain(
      records: seq<Record>, list: seq<nat>, p: nat, q: nat, window: int, edges: Edges)
    requires InTimeOrder(records, list) && p <= q < |list|
    requires SweptUpTo(records, list, |list|, window, edges)
    requires Near(records, list[p], list[q], window)
    ensures Connected(edges, list[p], list[q])
    decreases q - p
  {
    if p == q {
      Reflexive(edges, list[p]);
    } else {
      assert records[list[p]].created <= records[list[p + 1]].created;
      assert records[list[p]].created <= records[list[q]].created;
      assert p + 1 < q ==> records[list[p + 1]].created <= records[list[q]].created;
      assert SweptAt(records, list, p, window, edges);
      OneEdge(edges, list[p], list[p + 1]);
      NearChain(records, list, p + 1, q, window, edges);
      Transitive(edges, list[p], list[p + 1], list[q]);
    }
  }

  /** All near pairs that share `e` are connected. */
  ghost predicate Covered(records: seq<Record>, e: string, window: int, edges: Edges) {
    forall i: nat, j: nat | Mentions(records, i, e) && Mentions(records, j, e) && Near(records, i, j, window) ::
      Connected(edges, i, j)
  }

  lemma SweepCovers(records: seq<Record>, e: string, list: seq<nat>, window: int, edges: Edges)
    requires InTimeOrder(records, list) && SweptUpTo(records, list, |list|, window, edges)
    requires forall i: nat :: Mentions(records, i, e) ==> i in list
    ensures Covered(records, e, window, edges)
  {
    forall i: nat, j: nat | Mentions(records, i, e) && Mentions(records, j, e) && Near(records, i, j, window)
      ensures Connected(edges, i, j)
    {
      var p :| 0 <= p < |list| && list[p] == i;
      var q :| 0 <= q < |list| && list[q] == j;
      if p <= q {
        NearChain(records, list, p, q, window, edges);
      } else {
        NearChain(records, list, q, p, window, edges);
        Symmetric(edges, j, i);
      }
    }
  }

  lemma CoveredGrows(records: seq<Record>, e: string, window: int, edges: Edges, more: Edges)
    requires Covered(records, e, window, edges) && edges <= more
    ensures Covered(records, e, window, more)
  {
    forall i: nat, j: nat | Mentions(records, i, e) && Mentions(records, j, e) && Near(records, i, j, window)
      ensures Connected(more, i, j)
    {
      Grows(edges, more, i, j);
    }
  }

  /** Sweeping every entity's list connects exactly what the pairwise definition connects. */
  lemma SweepsConnectPairs(
      records: seq<Record>, lists: map<string, seq<nat>>, window: int, edges: Edges, x: nat, y: nat)
    requires IsIndex(records, |records|, lists)
    requires edges <= AllPairs(records, window)
    requires forall e | e in lists :: Covered(records, e, window, edges)
    ensures Connected(edges, x, y) <==> Together(records, window, x, y)
  {
    var pairs := AllPairs(records, window);
    forall p <- edges ensures Connected(pairs, p.0, p.1) {
      OneEdge(pairs, p.0, p.1);
    }
    forall p <- pairs ensures Connected(edges, p.0, p.1) {
      var e :| e in records[p.0].entities && e in records[p.1].entities;
      assert Mentions(records, p.0, e) && Mentions(records, p.1, e);
      assert Listed(lists, e, p.0);
      assert Covered(records, e, window, edges);
    }
    SameComponents(edges, pairs, x, y);
  }

  /**
   Steps 2 and 3 of `assemble_events`. The entity lists are visited in an arbitrary order, as
   a hash map yields them; the resulting classes do not depend on it.
   */
  method LinkRecords(records: seq<Record>, window: int) returns (roots: seq<nat>)
    ensures |roots| == |records| && forall i | 0 <= i < |roots| :: roots[i] < |roots|
    ensures forall i: nat, j: nat | i < |roots| && j < |roots| ::
      roots[i] == roots[j] <==> Together(records, window, i, j)
  {
    var n := |records|;
    var lists := BuildIndex(records);
    var parent := new nat[n](x => x);
    ghost var height, edges: Edges := seq(n, _ => 0), {};
    UnionFind.Singletons(n);
    assert parent[..] == seq(n, x => x);
    var todo := lists.Keys;
    while todo != {}
      invariant todo <= lists.Keys
      invariant UnionFind.Represents(parent[..], height, edges)
      invariant edges <= AllPairs(records, window)
      invariant forall e | e in lists && e !in todo :: Covered(records, e, window, edges)
      decreases todo
    {
      var e :| e in todo;
      var sorted := SortByTime(records, lists[e]);
      ListInRange(records, lists, e);
      SortedByTime(records, lists[e]);
      SortedMentions(records, lists, e);
      ghost var was := edges;
      height, edges := Sweep(parent, records, sorted, e, window, height, edges);
      SweepCovers(records, e, sorted, window, edges);
      forall f | f in lists && f !in todo ensures Covered(records, f, window, edges) {
        CoveredGrows(records, f, window, was, edges);
      }
      todo := todo - {e};
    }
    ghost var forest := parent[..];
    UnionFind.Compress(parent, height);
    roots := parent[..];
    forall i: nat, j: nat | i < n && j < n
      ensures roots[i] == roots[j] <==> Together(records, window, i, j)
    {
      SweepsConnectPairs(records, lists, window, edges, i, j);
      assert UnionFind.Root(forest, height, i) == UnionFind.Root(forest, height, j) <==> Connected(edges, i, j);
    }
  }

  lemma ListInRange(records: seq<Record>, lists: map<string, seq<nat>>, e: string)
    requires IsIndex(records, |records|, lists) && e in lists
    ensures forall i <- lists[e] :: i < |records|
    ensures forall i: nat :: Mentions(records, i, e) <==> i in lists[e]
  {
    forall i: nat ensures Mentions(records, i, e) <==> i in lists[e] {
      assert Listed(lists, e, i) <==> i < |records| && Mentions(records, i, e);
    }
  }

  lemma SortedMentions(records: seq<Record>, lists: map<string, seq<nat>>, e: string)
    requires IsIndex(records, |records|, lists) && e in lists
    ensures var sorted := SortByTime(records, lists[e]);
            && (forall i: nat :: Mentions(records, i, e) ==> i in sorted)
            && forall k | 0 <= k < |sorted| :: sorted[k] < |records| && e in records[sorted[k]].entities
  {
    var sorted := SortByTime(records, lists[e]);
    ListInRange(records, lists, e);
    SortedByTime(records, lists[e]);
    forall k | 0 <= k < |sorted| ensures Mentions(records, sorted[k], e) {
      assert sorted[k] in sorted;
    }
  }

  // ----- from classes to events

  /** A happening: its time span and the records in it. */
  datatype Event = Event(start: int, end: int, members: set<nat>)

  /** The indices below `n` whose root is `root`, ascending. */
  function Members(roots: seq<nat>, root: nat, n: nat): (list: seq<nat>)
    requires n <= |roots|
    ensures forall i: nat :: i in list <==> i < n && roots[i] == root
    ensures |list| <= n
    ensures forall p, q | 0 <= p < q < |list| :: list[p] < list[q]
  {
    if n == 0 then []
    else
      var rest := Members(roots, root, n - 1);
      assert forall p | 0 <= p < |rest| :: rest[p] in rest;
      if roots[n - 1] == root then rest + [n - 1] else rest
  }

  ghost predicate SpansTime(records: seq<Record>, event: Event) {
    && (forall i <- event.members :: i < |records| && event.start <= records[i].created <= event.end)
    && (exists i <- event.members :: i < |records| && records[i].created == event.start)
    && (exists i <- event.members :: i < |records| && records[i].created == event.end)
  }

  /** A whole class of two or more records, with the time it spans. */
  ghost predicate IsEvent(records: seq<Record>, window: int, event: Event) {
    && |event.members| >= 2
    && SpansTime(records, event)
    && forall i: nat, j: nat | i in event.members && j < |records| ::
         j in event.members <==> Together(records, window, i, j)
  }

  ghost predicate HasCompany(records: seq<Record>, window: int, i: nat) {
    exists j: nat :: j < |records| && j != i && Together(records, window, i, j)
  }

  /** Exactly the classes of two or more records, each once, the earliest start first. */
  ghost predicate AreEvents(records: seq<Record>, window: int, events: seq<Event>) {
    && (forall event <- events :: IsEvent(records, window, event))
    && (forall p, q | 0 <= p < q < |events| :: events[p].members !! events[q].members)
    && (forall i: nat | i < |records| && HasCompany(records, window, i) :: exists event <- events :: i in event.members)
    && (forall p, q | 0 <= p < q < |events| :: events[p].start <= events[q].start)
  }

  method ClassEvent(records: seq<Record>, roots: seq<nat>, root: nat, list: seq<nat>) returns (event: Event)
    requires |roots| == |records| && list == Members(roots, root, |roots|) && |list| >= 2
    ensures event.members == Seqs.Elements(list) && |event.members| >= 2
    ensures SpansTime(records, event)
  {
    hide SortByTime, Members;
    var sorted := SortByTime(records, list);
    SortedByTime(records, list);
    Seqs.DistinctSize(list);
    var earliest, latest := sorted[0], sorted[|sorted| - 1];
    event := Event(records[earliest].created, records[latest].created, Seqs.Elements(list));
    assert earliest in sorted && latest in sorted;
    forall i <- event.members ensures event.start <= records[i].created <= event.end {
      assert i in sorted;
      var k :| 0 <= k < |sorted| && sorted[k] == i;
    }
  }

  predicate StartsBefore(a: Event, b: Event) { a.start < b.start }

  /** The events of the classes whose root is in `done`. */
  ghost predicate EventsSoFar(records: seq<Record>, roots: seq<nat>, done: set<nat>, events: seq<Event>)
    requires |roots| == |records|
  {
    && (forall k | 0 <= k < |events| :: EventAt(records, roots, done, events, k))
    && (forall p, q | 0 <= p < q < |events| :: events[p].members !! events[q].members)
    && (forall r: nat | r in done && |Members(roots, r, |roots|)| >= 2 ::
          exists event <- events :: event.members == Seqs.Elements(Members(roots, r, |roots|)))
  }

  ghost predicate EventAt(records: seq<Record>, roots: seq<nat>, done: set<nat>, events: seq<Event>, k: nat)
    requires |roots| == |records| && k < |events|
  {
    && |events[k].members| >= 2 && SpansTime(records, events[k])
    && exists r: nat :: r in done && events[k].members == Seqs.Elements(Members(roots, r, |roots|))
  }

  /** Steps 4 and 5: the classes are visited in an arbitrary order as well. */
  method BuildEvents(records: seq<Record>, roots: seq<nat>) returns (events: seq<Event>)
    requires |roots| == |records|
    ensures EventsSoFar(records, roots, Seqs.Elements(roots), events)
  {
    events := [];
    var all := Seqs.Elements(roots);
    var todo := all;
    while todo != {}
      invariant todo <= all
      invariant EventsSoFar(records, roots, all - todo, events)
      decreases todo
    {
      var r :| r in todo;
      ghost var done := all - todo;
      var list := Members(roots, r, |roots|);
      if |list| >= 2 {
        var event := ClassEvent(records, roots, r, list);
        AddEvent(records, roots, done, events, r, event);
        events := events + [event];
      } else {
        SkipClass(records, roots, done, events, r);
      }
      todo := todo - {r};
      assert all - todo == done + {r};
    }
    assert all - todo == all;
  }

  lemma AddEvent(records: seq<Record>, roots: seq<nat>, done: set<nat>, events: seq<Event>, r: nat, event: Event)
    requires |roots| == |records| && EventsSoFar(records, roots, done, events) && r !in done
    requires event.members == Seqs.Elements(Members(roots, r, |roots|)) && |event.members| >= 2
    requires SpansTime(records, event)
    ensures EventsSoFar(records, roots, done + {r}, events + [event])
  {
    var more := events + [event];
    forall k | 0 <= k < |more| ensures EventAt(records, roots, done + {r}, more, k) {
      if k < |events| { assert EventAt(records, roots, done, events, k); }
    }
    forall p | 0 <= p < |events| ensures events[p].members !! event.members {
      assert EventAt(records, roots, done, events, p);
    }
    forall s: nat | s in done + {r} && |Members(roots, s, |roots|)| >= 2
      ensures exists e <- more :: e.members == Seqs.Elements(Members(roots, s, |roots|))
    {
      if s == r {
        assert event in more;
      } else {
        var e :| e in events && e.members == Seqs.Elements(Members(roots, s, |roots|));
        assert e in more;
      }
    }
  }

  lemma SkipClass(records: seq<Record>, roots: seq<nat>, done: set<nat>, events: seq<Event>, r: nat)
    requires |roots| == |records| && EventsSoFar(records, roots, done, events)
    requires |Members(roots, r, |roots|)| < 2
    ensures EventsSoFar(records, roots, done + {r}, events)
  {
    forall k | 0 <= k < |events| ensures EventAt(records, roots, done + {r}, events, k) {
      assert EventAt(records, roots, done, events, k);
    }
  }

  /** `assemble_events` */
  method AssembleEvents(records: seq<Record>, windowSecs: nat) returns (events: seq<Event>)
    requires windowSecs < 0x1_0000_0000_0000_0000
    ensures AreEvents(records, WindowSecs(windowSecs), events)
  {
    var window := WindowSecs(windowSecs);
    var roots := LinkRecords(records, window);
    events := BuildEvents(records, roots);
    ClassesAreEvents(records, window, roots, events);
    ghost var built := events;
    Sorting.SortKeeps(built, StartsBefore);
    Sorting.SortSorts(built, StartsBefore);
    events := Sorting.Sort(events, StartsBefore);
    SortedEvents(records, window, built, events);
  }

  /** `AreEvents` without the order. */
  ghost predicate UnorderedEvents(records: seq<Record>, window: int, events: seq<Event>) {
    && (forall event <- events :: IsEvent(records, window, event))
    && (forall p, q | 0 <= p < q < |events| :: events[p].members !! events[q].members)
    && (forall i: nat | i < |records| && HasCompany(records, window, i) :: exists event <- events :: i in event.members)
  }

  lemma ClassesAreEvents(records: seq<Record>, window: int, roots: seq<nat>, events: seq<Event>)
    requires |roots| == |records|
    requires forall i: nat, j: nat | i < |roots| && j < |roots| ::
      roots[i] == roots[j] <==> Together(records, window, i, j)
    requires EventsSoFar(records, roots, Seqs.Elements(roots), events)
    ensures UnorderedEvents(records, window, events)
  {
    forall event <- events ensures IsEvent(records, window, event) {
      var k :| 0 <= k < |events| && events[k] == event;
      assert EventAt(records, roots, Seqs.Elements(roots), events, k);
    }
    forall i: nat | i < |records| && HasCompany(records, window, i)
      ensures exists event <- events :: i in event.members
    {
      var r, list := roots[i], Members(roots, roots[i], |roots|);
      var j: nat :| j < |records| && j != i && Together(records, window, i, j);
      assert roots[j] == r && i in list && j in list;
      assert |list| >= 2;
      assert r in Seqs.Elements(roots);
      var event :| event in events && event.members == Seqs.Elements(list);
      assert i in event.members;
    }
  }

  lemma SortedEvents(records: seq<Record>, window: int, events: seq<Event>, sorted: seq<Event>)
    requires UnorderedEvents(records, window, events)
    requires multiset(sorted) == multiset(events) && Sorting.Sorted(sorted, StartsBefore)
    ensures AreEvents(records, window, sorted)
  {
    forall event ensures event in sorted <==> event in events {
      assert event in sorted <==> event in multiset(sorted);
      assert event in events <==> event in multiset(events);
    }
    forall p, q | 0 <= p < q < |sorted|
      ensures sorted[p].members !! sorted[q].members && sorted[p].start <= sorted[q].start
    {
      assert !StartsBefore(sorted[q], sorted[p]);
      TwoCopies(events, sorted, p, q);
    }
  }

  /** Two positions of a rearrangement come from two positions of the original. */
  lemma TwoCopies(events: seq<Event>, sorted: seq<Event>, p: nat, q: nat)
    requires multiset(sorted) == multiset(events) && p < q < |sorted|
    requires forall a, b | 0 <= a < b < |events| :: events[a].members !! events[b].members
    requires forall event <- events :: |event.members| >= 2
    ensures sorted[p].members !! sorted[q].members
  {
    var x, y := sorted[p], sorted[q];
    assert x in multiset(events) && y in multiset(events);
    var i :| 0 <= i < |events| && events[i] == x;
    var j :| 0 <= j < |events| && events[j] == y;
    if i == j {
      Seqs.TwiceIn(sorted, p, q);
      assert forall k | 0 <= k < |events| && k != i :: events[k].members !! x.members && x.members != {};
      Seqs.OnceIn(events, i);
    }
  }

  /** The events of given records are determined, up to their order. */
  lemma EventsAreDetermined(records: seq<Record>, window: int, events: seq<Event>, others: seq<Event>)
    requires AreEvents(records, window, events) && AreEvents(records, window, others)
    ensures forall event :: event in events <==> event in others
  {
    forall event | event in events ensures event in others {
      EventIn(records, window, others, event);
    }
    forall event | event in others ensures event in events {
      EventIn(records, window, events, event);
    }
  }

  lemma EventIn(records: seq<Record>, window: int, others: seq<Event>, event: Event)
    requires AreEvents(records, window, others) && IsEvent(records, window, event)
    ensures event in others
  {
    var i, j := TwoMembers(event.members);
    assert Together(records, window, i, j);
    assert HasCompany(records, window, i);
    var other :| other in others && i in other.members;
    SameEvent(records, window, event, other, i);
  }

  lemma SameEvent(records: seq<Record>, window: int, event: Event, other: Event, i: nat)
    requires IsEvent(records, window, event) && IsEvent(records, window, other)
    requires i in event.members && i in other.members
    ensures event == other
  {
    assert event.members == other.members;
  }

  lemma TwoMembers(s: set<nat>) returns (i: nat, j: nat)
    requires |s| >= 2
    ensures i in s && j in s && i != j
  {
    i :| i in s;
    assert |s - {i}| >= 1;
    j :| j in s - {i};
  }
}
