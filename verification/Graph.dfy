/** Neighbours in the relation graph: breadth-first search capped in hops and in size. */
module Graph {
  import opened Text
  import opened Numbers
  import Seqs

  const MAX_HOPS: nat := 3
  const EXPANSION_LIMIT: nat := 64

  datatype Relation = Relation(subject: string, target: string, source: string)

  /** Relations of all records, in order. */
  type Relations = seq<Relation>

  predicate Names(r: Relation, entity: string) {
    r.subject == entity || r.target == entity
  }

  // ----- the definition

  /** `source` asserted a relation about `entity`. */
  predicate Mentions(rels: Relations, source: string, entity: string) {
    exists r <- rels :: r.source == source && Names(r, entity)
  }

  ghost predicate Linked(rels: Relations, a: string, b: string) {
    exists entity :: Mentions(rels, a, entity) && Mentions(rels, b, entity)
  }

  /** Two sources are linked exactly if relations of theirs have an end in common. */
  lemma LinkedIff(rels: Relations, a: string, b: string)
    ensures Linked(rels, a, b) <==> exists p <- rels, q <- rels ::
              && p.source == a && q.source == b
              && {p.subject, p.target} * {q.subject, q.target} != {}
  {
    if Linked(rels, a, b) {
      var entity :| Mentions(rels, a, entity) && Mentions(rels, b, entity);
      var p :| p in rels && p.source == a && Names(p, entity);
      var q :| q in rels && q.source == b && Names(q, entity);
      assert entity in {p.subject, p.target} * {q.subject, q.target};
    }
    if p, q :| p in rels && q in rels && p.source == a && q.source == b
               && {p.subject, p.target} * {q.subject, q.target} != {} {
      var entity :| entity in {p.subject, p.target} * {q.subject, q.target};
      assert Names(p, entity) && Names(q, entity);
      assert Mentions(rels, a, entity) && Mentions(rels, b, entity);
    }
  }

  function Sources(rels: Relations): set<string> {
    set r | r in rels :: r.source
  }

  ghost predicate StepAt(rels: Relations, path: seq<string>, i: nat)
    requires i + 1 < |path|
  {
    Linked(rels, path[i], path[i + 1])
  }

  /** A walk of at most `hops` links. */
  ghost predicate IsWalk(rels: Relations, path: seq<string>, a: string, b: string, hops: nat) {
    && 0 < |path| <= hops + 1 && path[0] == a && path[|path| - 1] == b
    && forall i | 0 <= i < |path| - 1 :: StepAt(rels, path, i)
  }

  /** `b` is at distance at most `hops` from `a`. */
  ghost predicate Within(rels: Relations, a: string, b: string, hops: nat) {
    exists path :: IsWalk(rels, path, a, b, hops)
  }

  /** The nodes within `hops` of `start`, level by level. */
  ghost function Ball(rels: Relations, start: string, hops: nat): set<string> {
    if hops == 0 then {start}
    else
      var inner := Ball(rels, start, hops - 1);
      inner + set b | b in Sources(rels) && exists a <- inner :: Linked(rels, a, b)
  }

  lemma LinkedSource(rels: Relations, a: string, b: string)
    requires Linked(rels, a, b)
    ensures b in Sources(rels)
  {
  }

  lemma {:induction false} BallIsWithin(rels: Relations, start: string, b: string, hops: nat)
    ensures b in Ball(rels, start, hops) <==> Within(rels, start, b, hops)
  {
    if b in Ball(rels, start, hops) {
      InBall(rels, start, b, hops);
    }
    if path :| IsWalk(rels, path, start, b, hops) {
      WalkInBall(rels, path, start, b, hops);
    }
  }

  lemma {:induction false} InBall(rels: Relations, start: string, b: string, hops: nat)
    requires b in Ball(rels, start, hops)
    ensures Within(rels, start, b, hops)
    decreases hops
  {
    hide *;
    if hops == 0 {
      BallZero(rels, start);
      NoWalk(rels, start);
    } else if b in Ball(rels, start, hops - 1) {
      InBall(rels, start, b, hops - 1);
      WalkSlack(rels, start, b, hops - 1);
    } else {
      var a := Entered(rels, start, b, hops);
      InBall(rels, start, a, hops - 1);
      WalkFurther(rels, start, a, b, hops - 1);
    }
  }

  lemma BallZero(rels: Relations, start: string)
    ensures Ball(rels, start, 0) == {start}
  {
  }

  lemma NoWalk(rels: Relations, start: string)
    ensures Within(rels, start, start, 0)
  {
    assert IsWalk(rels, [start], start, start, 0);
  }

  lemma WalkSlack(rels: Relations, start: string, b: string, hops: nat)
    requires Within(rels, start, b, hops)
    ensures Within(rels, start, b, hops + 1)
  {
    var path :| IsWalk(rels, path, start, b, hops);
    assert IsWalk(rels, path, start, b, hops + 1);
  }

  lemma Entered(rels: Relations, start: string, b: string, hops: nat) returns (a: string)
    requires hops > 0 && b in Ball(rels, start, hops) && b !in Ball(rels, start, hops - 1)
    ensures a in Ball(rels, start, hops - 1) && Linked(rels, a, b)
  {
    a :| a in Ball(rels, start, hops - 1) && Linked(rels, a, b);
  }

  lemma WalkFurther(rels: Relations, start: string, a: string, b: string, hops: nat)
    requires Within(rels, start, a, hops) && Linked(rels, a, b)
    ensures Within(rels, start, b, hops + 1)
  {
    var path :| IsWalk(rels, path, start, a, hops);
    var longer := path + [b];
    forall i | 0 <= i < |longer| - 1 ensures StepAt(rels, longer, i) {
      if i + 1 < |path| { assert StepAt(rels, path, i); }
    }
    assert IsWalk(rels, longer, start, b, hops + 1);
  }

  lemma BallStep(rels: Relations, start: string, hops: nat)
    ensures Ball(rels, start, hops) <= Ball(rels, start, hops + 1)
  {
    hide Linked, Sources;
  }

  lemma {:induction false} BallGrows(rels: Relations, start: string, hops: nat, more: nat)
    requires hops <= more
    ensures Ball(rels, start, hops) <= Ball(rels, start, more)
  {
    hide Ball;
    if hops < more {
      BallGrows(rels, start, hops, more - 1);
      BallStep(rels, start, more - 1);
    }
  }

  lemma {:induction false} WalkInBall(rels: Relations, path: seq<string>, start: string, b: string, hops: nat)
    requires IsWalk(rels, path, start, b, hops)
    ensures b in Ball(rels, start, hops)
    decreases |path|
  {
    if |path| == 1 {
      BallGrows(rels, start, 0, hops);
    } else {
      var k := |path| - 1;
      var init := path[..k];
      assert StepAt(rels, path, k - 1);
      forall i | 0 <= i < |init| - 1 ensures StepAt(rels, init, i) {
        assert StepAt(rels, path, i);
      }
      WalkInBall(rels, init, start, path[k - 1], hops - 1);
      LinkedSource(rels, path[k - 1], b);
    }
  }

  // ----- the index

  predicate Listed(m: map<string, seq<string>>, key: string, value: string) {
    key in m && value in m[key]
  }

  ghost predicate NoRepeats(m: map<string, seq<string>>) {
    forall k | k in m :: Seqs.Distinct(m[k])
  }

  /** `push_unique` under a key that may be new. */
  function Pushed(m: map<string, seq<string>>, key: string, value: string): (r: map<string, seq<string>>)
    ensures forall k, v :: Listed(r, k, v) <==> Listed(m, k, v) || (k == key && v == value)
    ensures NoRepeats(m) ==> NoRepeats(r)
  {
    var values := if key in m then m[key] else [];
    m[key := if value in values then values else values + [value]]
  }

  ghost predicate IsIndex(rels: Relations, entities: map<string, seq<string>>, sources: map<string, seq<string>>) {
    && (forall source, entity :: Listed(entities, source, entity) <==> Mentions(rels, source, entity))
    && (forall source, entity :: Listed(sources, entity, source) <==> Mentions(rels, source, entity))
  }

  lemma MentionsSnoc(rels: Relations, r: Relation, source: string, entity: string)
    ensures Mentions(rels + [r], source, entity)
       <==> Mentions(rels, source, entity) || (r.source == source && Names(r, entity))
  {
    assert forall x :: x in rels + [r] <==> x in rels || x == r;
  }

  method BuildIndex(rels: Relations)
    returns (entities: map<string, seq<string>>, sources: map<string, seq<string>>)
    ensures IsIndex(rels, entities, sources)
    ensures NoRepeats(entities) && NoRepeats(sources)
  {
    entities, sources := map[], map[];
    for i := 0 to |rels|
      invariant NoRepeats(entities) && NoRepeats(sources)
      invariant IsIndex(rels[..i], entities, sources)
    {
      var r := rels[i];
      forall source, entity
        ensures Mentions(rels[..i] + [r], source, entity)
           <==> Mentions(rels[..i], source, entity) || (r.source == source && Names(r, entity))
      {
        MentionsSnoc(rels[..i], r, source, entity);
      }
      Seqs.TakeStep(rels, i);
      entities := Pushed(entities, r.source, r.subject);
      sources := Pushed(sources, r.subject, r.source);
      entities := Pushed(entities, r.source, r.target);
      sources := Pushed(sources, r.target, r.source);
    }
    Seqs.TakeDrop(rels, |rels|);
  }

  // ----- the search

  /** The state of the search while level `d + 1` is being found. */
  ghost predicate Searching(
      rels: Relations, start: string, d: nat, visited: set<string>, output: seq<string>, next: seq<string>)
  {
    && visited == {start} + (set b | b in output)
    && start !in output
    && Seqs.Distinct(output)
    && |output| <= EXPANSION_LIMIT
    && Ball(rels, start, d) <= visited <= Ball(rels, start, d + 1)
    && (forall b :: b in next <==> b in visited && b !in Ball(rels, start, d))
    && InOrder(rels, start, output)
  }

  /** Nearer nodes come first. */
  ghost predicate InOrder(rels: Relations, start: string, output: seq<string>) {
    forall i, j, hops: nat | 0 <= i < j < |output| && output[j] in Ball(rels, start, hops) ::
      output[i] in Ball(rels, start, hops)
  }

  /** Everything linked to `source` through `entity` has been visited. */
  ghost predicate Explored(rels: Relations, source: string, entity: string, visited: set<string>) {
    forall b | Mentions(rels, b, entity) :: b in visited
  }

  ghost predicate Expanded(rels: Relations, source: string, visited: set<string>) {
    forall b | Linked(rels, source, b) :: b in visited
  }

  lemma FoundOne(
      rels: Relations, start: string, d: nat, visited: set<string>, output: seq<string>, next: seq<string>,
      source: string, entity: string, b: string)
    requires Searching(rels, start, d, visited, output, next) && |output| < EXPANSION_LIMIT
    requires source in Ball(rels, start, d)
    requires Mentions(rels, source, entity) && Mentions(rels, b, entity) && b !in visited
    ensures Searching(rels, start, d, visited + {b}, output + [b], next + [b])
  {
    assert Linked(rels, source, b);
    LinkedSource(rels, source, b);
    assert b in Ball(rels, start, d + 1);
    var more := output + [b];
    forall i, hops: nat | 0 <= i < |output| && b in Ball(rels, start, hops)
      ensures output[i] in Ball(rels, start, hops)
    {
      assert output[i] in visited;
      if hops <= d {
        BallGrows(rels, start, hops, d);
      } else {
        BallGrows(rels, start, d + 1, hops);
      }
    }
    assert forall x :: x in more <==> x in output || x == b;
    assert forall x :: x in next + [b] <==> x in next || x == b;
  }

  /** One source of the frontier: all sources of all its entities are visited. */
  method VisitSource(
      rels: Relations, entities: seq<string>, sources: map<string, seq<string>>, start: string, ghost d: nat,
      source: string, visited: set<string>, output: seq<string>, next: seq<string>)
    returns (visited2: set<string>, output2: seq<string>, next2: seq<string>, full: bool)
    requires forall e, b :: Listed(sources, e, b) <==> Mentions(rels, b, e)
    requires forall e :: e in entities <==> Mentions(rels, source, e)
    requires Searching(rels, start, d, visited, output, next) && |output| < EXPANSION_LIMIT
    requires source in Ball(rels, start, d)
    ensures Searching(rels, start, d, visited2, output2, next2) && visited <= visited2
    ensures full <==> |output2| == EXPANSION_LIMIT
    ensures !full ==> Expanded(rels, source, visited2)
  {
    hide Ball, Linked, Sources, Expanded, InOrder, Mentions;
    visited2, output2, next2, full := visited, output, next, false;
    for i := 0 to |entities|
      invariant Searching(rels, start, d, visited2, output2, next2) && visited <= visited2
      invariant |output2| < EXPANSION_LIMIT
      invariant forall e | e in entities[..i] :: Explored(rels, source, e, visited2)
    {
      var entity := entities[i];
      assert Mentions(rels, source, entity);
      var candidates := if entity in sources then sources[entity] else [];
      assert forall b :: b in candidates <==> Listed(sources, entity, b);
      for j := 0 to |candidates|
        invariant Searching(rels, start, d, visited2, output2, next2) && visited <= visited2
        invariant |output2| < EXPANSION_LIMIT
        invariant forall e | e in entities[..i] :: Explored(rels, source, e, visited2)
        invariant forall b | b in candidates[..j] :: b in visited2
      {
        var candidate := candidates[j];
        assert candidate in candidates;
        if candidate !in visited2 {
          FoundOne(rels, start, d, visited2, output2, next2, source, entity, candidate);
          visited2 := visited2 + {candidate};
          output2 := output2 + [candidate];
          next2 := next2 + [candidate];
          if |output2| >= EXPANSION_LIMIT {
            full := true;
            return;
          }
        }
        Seqs.TakeStep(candidates, j);
      }
      Seqs.TakeDrop(candidates, |candidates|);
      Seqs.TakeStep(entities, i);
    }
    Seqs.TakeDrop(entities, |entities|);
    AllExplored(rels, source, entities, visited2);
  }

  lemma AllExplored(rels: Relations, source: string, entities: seq<string>, visited: set<string>)
    requires forall e | Mentions(rels, source, e) :: e in entities
    requires forall e <- entities :: Explored(rels, source, e, visited)
    ensures Expanded(rels, source, visited)
  {
    forall b | Linked(rels, source, b) ensures b in visited {
      var e :| Mentions(rels, source, e) && Mentions(rels, b, e);
      assert Explored(rels, source, e, visited);
    }
  }

  /** One hop: every source of the frontier in turn. */
  method VisitLevel(
      rels: Relations, entities: map<string, seq<string>>, sources: map<string, seq<string>>,
      start: string, ghost d: nat, frontier: seq<string>, visited: set<string>, output: seq<string>)
    returns (visited2: set<string>, output2: seq<string>, next: seq<string>, full: bool)
    requires IsIndex(rels, entities, sources)
    requires Searching(rels, start, d, visited, output, []) && |output| < EXPANSION_LIMIT
    requires forall b <- frontier :: b in Ball(rels, start, d)
    ensures Searching(rels, start, d, visited2, output2, next)
    ensures full <==> |output2| == EXPANSION_LIMIT
    ensures !full ==> forall b <- frontier :: Expanded(rels, b, visited2)
  {
    hide Ball, Linked, Sources, InOrder, Mentions;
    visited2, output2, next, full := visited, output, [], false;
    for i := 0 to |frontier|
      invariant Searching(rels, start, d, visited2, output2, next)
      invariant |output2| < EXPANSION_LIMIT && !full
      invariant forall k | 0 <= k < i :: Expanded(rels, frontier[k], visited2)
    {
      var source := frontier[i];
      ghost var before := visited2;
      if source in entities {
        assert forall e :: e in entities[source] <==> Listed(entities, source, e);
        visited2, output2, next, full :=
          VisitSource(rels, entities[source], sources, start, d, source, visited2, output2, next);
        if full {
          return;
        }
      } else {
        NothingLinked(rels, entities, sources, source, visited2);
      }
      forall k | 0 <= k < i ensures Expanded(rels, frontier[k], visited2) {
        assert Expanded(rels, frontier[k], before);
      }
    }
  }

  lemma NothingLinked(
      rels: Relations, entities: map<string, seq<string>>, sources: map<string, seq<string>>,
      source: string, visited: set<string>)
    requires IsIndex(rels, entities, sources) && source !in entities
    ensures Expanded(rels, source, visited)
  {
    forall e ensures !Mentions(rels, source, e) {
      assert !Listed(entities, source, e);
    }
  }

  /** The outermost level of the ball found so far. */
  ghost predicate IsFrontier(rels: Relations, start: string, d: nat, frontier: seq<string>) {
    forall b :: b in frontier <==> b in Ball(rels, start, d) && (d == 0 || b !in Ball(rels, start, d - 1))
  }

  /** Once the frontier is expanded, the next level is complete. */
  lemma LevelComplete(
      rels: Relations, start: string, d: nat, frontier: seq<string>,
      visited: set<string>, output: seq<string>, next: seq<string>)
    requires IsFrontier(rels, start, d, frontier)
    requires Searching(rels, start, d, visited, output, next)
    requires forall b <- frontier :: Expanded(rels, b, visited)
    ensures visited == Ball(rels, start, d + 1)
    ensures IsFrontier(rels, start, d + 1, next)
  {
    hide Ball, Linked, Sources, InOrder, Mentions, Expanded;
    forall b | b in Ball(rels, start, d + 1) ensures b in visited {
      if b !in Ball(rels, start, d) {
        var a := Entered(rels, start, b, d + 1);
        if d > 0 && a in Ball(rels, start, d - 1) {
          LinkedEnters(rels, start, a, b, d - 1);
          assert false;
        }
        ExpandedVisits(rels, a, b, visited);
      }
    }
  }

  lemma LinkedEnters(rels: Relations, start: string, a: string, b: string, hops: nat)
    requires a in Ball(rels, start, hops) && Linked(rels, a, b)
    ensures b in Ball(rels, start, hops + 1)
  {
    LinkedSource(rels, a, b);
  }

  lemma ExpandedVisits(rels: Relations, a: string, b: string, visited: set<string>)
    requires Expanded(rels, a, visited) && Linked(rels, a, b)
    ensures b in visited
  {
  }

  /** The next level depends only on what has been reached. */
  lemma SameNext(rels: Relations, start: string, d: nat, e: nat)
    requires Ball(rels, start, d) == Ball(rels, start, e)
    ensures Ball(rels, start, d + 1) == Ball(rels, start, e + 1)
  {
  }

  /** An empty level ends the search for good. */
  lemma {:induction false} EmptyLevel(rels: Relations, start: string, d: nat, hops: nat)
    requires d <= hops && Ball(rels, start, d) == Ball(rels, start, d + 1)
    ensures Ball(rels, start, hops) == Ball(rels, start, d)
    decreases hops - d
  {
    hide *;
    if d < hops {
      SameNext(rels, start, d, d + 1);
      EmptyLevel(rels, start, d + 1, hops);
    }
  }

  /**
   The answer for `hops` from `start`: distinct nodes other than the start, near ones first,
   none beyond reach, and none left out that is nearer; unless the size cap was hit, all of them.
   */
  ghost predicate IsNeighborhood(rels: Relations, start: string, hops: nat, output: seq<string>) {
    && Seqs.Distinct(output) && start !in output
    && (forall b <- output :: b in Ball(rels, start, hops))
    && InOrder(rels, start, output) && NearestKept(rels, start, output)
    && |output| <= 64
    && (|output| < 64 ==> forall b | b in Ball(rels, start, hops) && b != start :: b in output)
  }

  /** A node left out is at least as far away as every node in the output. */
  ghost predicate NearestKept(rels: Relations, start: string, output: seq<string>) {
    forall b, k: nat | b in Ball(rels, start, k) && b != start && b !in output ::
      AllWithin(rels, start, output, k)
  }

  ghost predicate AllWithin(rels: Relations, start: string, output: seq<string>, k: nat) {
    forall o <- output :: o in Ball(rels, start, k)
  }

  lemma NearestFound(
      rels: Relations, start: string, d: nat, visited: set<string>, output: seq<string>, next: seq<string>)
    requires Searching(rels, start, d, visited, output, next)
    ensures NearestKept(rels, start, output)
  {
    hide Ball, InOrder;
    forall b, k: nat | b in Ball(rels, start, k) && b != start && b !in output
      ensures AllWithin(rels, start, output, k)
    {
      if k <= d {
        BallGrows(rels, start, k, d);
      } else {
        BallGrows(rels, start, d + 1, k);
      }
    }
  }

  lemma SearchStarts(rels: Relations, start: string)
    ensures Searching(rels, start, 0, {start}, [], []) && IsFrontier(rels, start, 0, [start])
    ensures {start} == Ball(rels, start, 0)
  {
    assert Ball(rels, start, 0) == {start};
    BallGrows(rels, start, 0, 1);
    hide Ball;
  }

  lemma SearchGoesOn(
      rels: Relations, start: string, d: nat, visited: set<string>, output: seq<string>, next: seq<string>)
    requires Searching(rels, start, d, visited, output, next) && visited == Ball(rels, start, d + 1)
    ensures Searching(rels, start, d + 1, visited, output, [])
  {
    hide Ball, InOrder;
    BallGrows(rels, start, d + 1, d + 2);
  }

  lemma SearchEnds(
      rels: Relations, start: string, d: nat, hops: nat, visited: set<string>, output: seq<string>)
    requires Searching(rels, start, d, visited, output, []) && visited == Ball(rels, start, d + 1) && d < hops
    ensures visited == Ball(rels, start, hops)
  {
    hide Ball, InOrder;
    EmptyLevel(rels, start, d, hops);
  }

  lemma FrontierIsInBall(rels: Relations, start: string, d: nat, frontier: seq<string>)
    requires IsFrontier(rels, start, d, frontier)
    ensures forall b <- frontier :: b in Ball(rels, start, d)
  {
    hide Ball;
  }

  /** Where the search stops, its output is the answer. */
  lemma Answered(
      rels: Relations, start: string, d: nat, hops: nat,
      visited: set<string>, output: seq<string>, next: seq<string>)
    requires Searching(rels, start, d, visited, output, next)
    requires visited == Ball(rels, start, hops) || (|output| == 64 && d < hops)
    ensures IsNeighborhood(rels, start, hops, output) && |output| <= 64
  {
    hide Ball, InOrder, NearestKept, Linked, Sources;
    NearestFound(rels, start, d, visited, output, next);
    if d < hops { BallGrows(rels, start, d + 1, hops); }
    assert visited <= Ball(rels, start, hops);
  }

  /** `neighbor_node_ids` */
  method NeighborNodeIds(rels: Relations, start: string, hops: nat) returns (output: seq<string>)
    ensures IsBlank(start) || hops == 0 ==> output == []
    ensures !IsBlank(start) && hops > 0 ==> IsNeighborhood(rels, start, Min(hops, 3), output)
    ensures |output| <= 64
  {
    if IsBlank(start) || hops == 0 {
      return [];
    }
    hide *;
    var reach := Min(hops, MAX_HOPS);
    var entities, sources := BuildIndex(rels);
    var visited, frontier := {start}, [start];
    SearchStarts(rels, start);
    output := [];
    var d := 0;
    while d < reach
      invariant d <= reach
      invariant visited == Ball(rels, start, d) && IsFrontier(rels, start, d, frontier)
      invariant Searching(rels, start, d, visited, output, []) && |output| < EXPANSION_LIMIT
    {
      hide *;
      var next, full;
      FrontierIsInBall(rels, start, d, frontier);
      visited, output, next, full := VisitLevel(rels, entities, sources, start, d, frontier, visited, output);
      if full {
        Answered(rels, start, d, reach, visited, output, next);
        return;
      }
      LevelComplete(rels, start, d, frontier, visited, output, next);
      if next == [] {
        SearchEnds(rels, start, d, reach, visited, output);
        Answered(rels, start, d, reach, visited, output, next);
        return;
      }
      SearchGoesOn(rels, start, d, visited, output, next);
      frontier := next;
      d := d + 1;
    }
    Answered(rels, start, d, reach, visited, output, []);
  }

  /** The same in terms of walks: distances are those of the entity-sharing graph. */
  lemma NeighborhoodIsByDistance(rels: Relations, start: string, hops: nat, output: seq<string>)
    requires IsNeighborhood(rels, start, hops, output)
    ensures forall b <- output :: b != start && Within(rels, start, b, hops)
    ensures forall i, j, k: nat | 0 <= i < j < |output| && Within(rels, start, output[j], k) ::
      Within(rels, start, output[i], k)
    ensures forall b, k: nat, o | Within(rels, start, b, k) && b != start && b !in output && o in output ::
      Within(rels, start, o, k)
    ensures |output| < 64 ==>
      forall b | Within(rels, start, b, hops) && b != start :: b in output
  {
    forall b, k: nat ensures b in Ball(rels, start, k) <==> Within(rels, start, b, k) {
      BallIsWithin(rels, start, b, k);
    }
  }
}
