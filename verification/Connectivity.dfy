/** Connected components of an undirected graph on natural numbers, by paths. */
module Connectivity {
  type Edges = set<(nat, nat)>

  ghost predicate Adjacent(edges: Edges, x: nat, y: nat) {
    (x, y) in edges || (y, x) in edges
  }

  ghost predicate StepAt(edges: Edges, path: seq<nat>, i: nat)
    requires i + 1 < |path|
  {
    Adjacent(edges, path[i], path[i + 1])
  }

  ghost predicate IsPath(edges: Edges, path: seq<nat>, x: nat, y: nat) {
    && path != [] && path[0] == x && path[|path| - 1] == y
    && forall i | 0 <= i < |path| - 1 :: StepAt(edges, path, i)
  }

  ghost predicate Connected(edges: Edges, x: nat, y: nat) {
    exists path :: IsPath(edges, path, x, y)
  }

  lemma Reflexive(edges: Edges, x: nat)
    ensures Connected(edges, x, x)
  {
    assert IsPath(edges, [x], x, x);
  }

  lemma OneEdge(edges: Edges, x: nat, y: nat)
    requires Adjacent(edges, x, y)
    ensures Connected(edges, x, y)
  {
    assert StepAt(edges, [x, y], 0);
    assert IsPath(edges, [x, y], x, y);
  }

  lemma Transitive(edges: Edges, x: nat, y: nat, z: nat)
    requires Connected(edges, x, y) && Connected(edges, y, z)
    ensures Connected(edges, x, z)
  {
    var p :| IsPath(edges, p, x, y);
    var q :| IsPath(edges, q, y, z);
    var path := p + q[1..];
    forall i | 0 <= i < |path| - 1 ensures StepAt(edges, path, i) {
      if i + 1 < |p| {
        assert StepAt(edges, p, i);
      } else {
        assert StepAt(edges, q, i - (|p| - 1));
      }
    }
    assert IsPath(edges, path, x, z);
  }

  lemma {:induction false} PathSymmetric(edges: Edges, path: seq<nat>, x: nat, y: nat)
    requires IsPath(edges, path, x, y)
    ensures Connected(edges, y, x)
    decreases |path|
  {
    if |path| == 1 {
      Reflexive(edges, x);
    } else {
      var rest := path[1..];
      assert StepAt(edges, path, 0);
      forall i | 0 <= i < |rest| - 1 ensures StepAt(edges, rest, i) {
        assert StepAt(edges, path, i + 1);
      }
      PathSymmetric(edges, rest, path[1], y);
      OneEdge(edges, path[1], x);
      Transitive(edges, y, path[1], x);
    }
  }

  lemma Symmetric(edges: Edges, x: nat, y: nat)
    requires Connected(edges, x, y)
    ensures Connected(edges, y, x)
  {
    var path :| IsPath(edges, path, x, y);
    PathSymmetric(edges, path, x, y);
  }

  /** Connectedness is the least equivalence that holds along all edges. */
  lemma {:induction false} LeastAlong(edges: Edges, path: seq<nat>, x: nat, y: nat, related: (nat, nat) -> bool)
    requires IsPath(edges, path, x, y)
    requires forall a :: related(a, a)
    requires forall a, b :: related(a, b) ==> related(b, a)
    requires forall a, b, c :: related(a, b) && related(b, c) ==> related(a, c)
    requires forall e <- edges :: related(e.0, e.1)
    ensures related(x, y)
    decreases |path|
  {
    if |path| > 1 {
      var rest := path[1..];
      assert StepAt(edges, path, 0);
      forall i | 0 <= i < |rest| - 1 ensures StepAt(edges, rest, i) {
        assert StepAt(edges, path, i + 1);
      }
      LeastAlong(edges, rest, path[1], y, related);
      assert (x, path[1]) in edges ==> related((x, path[1]).0, (x, path[1]).1);
      assert (path[1], x) in edges ==> related((path[1], x).0, (path[1], x).1);
    }
  }

  /** Edges that are connected anyway connect nothing new. */
  lemma {:induction false} Absorb(edges: Edges, other: Edges, path: seq<nat>, x: nat, y: nat)
    requires IsPath(edges, path, x, y)
    requires forall e <- edges :: Connected(other, e.0, e.1)
    ensures Connected(other, x, y)
    decreases |path|
  {
    if |path| == 1 {
      Reflexive(other, x);
    } else {
      var rest := path[1..];
      assert StepAt(edges, path, 0);
      forall i | 0 <= i < |rest| - 1 ensures StepAt(edges, rest, i) {
        assert StepAt(edges, path, i + 1);
      }
      Absorb(edges, other, rest, path[1], y);
      if (x, path[1]) in edges {
        assert Connected(other, (x, path[1]).0, (x, path[1]).1);
      } else {
        assert Connected(other, (path[1], x).0, (path[1], x).1);
        Symmetric(other, path[1], x);
      }
      Transitive(other, x, path[1], y);
    }
  }

  /** Two edge sets that connect each other's edges have the same components. */
  lemma SameComponents(edges: Edges, other: Edges, x: nat, y: nat)
    requires forall e <- edges :: Connected(other, e.0, e.1)
    requires forall e <- other :: Connected(edges, e.0, e.1)
    ensures Connected(edges, x, y) <==> Connected(other, x, y)
  {
    if path :| IsPath(edges, path, x, y) { Absorb(edges, other, path, x, y); }
    if path :| IsPath(other, path, x, y) { Absorb(other, edges, path, x, y); }
  }

  lemma Grows(edges: Edges, more: Edges, x: nat, y: nat)
    requires edges <= more && Connected(edges, x, y)
    ensures Connected(more, x, y)
  {
    forall e <- edges ensures Connected(more, e.0, e.1) {
      OneEdge(more, e.0, e.1);
    }
    var path :| IsPath(edges, path, x, y);
    Absorb(edges, more, path, x, y);
  }
}
