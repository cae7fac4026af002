/** The union-find forest of `event.rs`: a parent array without ranks or path compression. */
module UnionFind {
  import opened Connectivity

  /** Parents point strictly upwards, so following them ends. */
  ghost predicate Forest(parent: seq<nat>, height: seq<nat>) {
    && |height| == |parent|
    && forall x | 0 <= x < |parent| :: parent[x] < |parent| && (parent[x] != x ==> height[parent[x]] < height[x])
  }

  ghost function Root(parent: seq<nat>, height: seq<nat>, x: nat): (root: nat)
    requires Forest(parent, height) && x < |parent|
    ensures root < |parent| && parent[root] == root
    ensures height[root] <= height[x]
    decreases height[x]
  {
    if parent[x] == x then x else Root(parent, height, parent[x])
  }

  /** Two elements have the same root exactly when they are connected. */
  ghost predicate Represents(parent: seq<nat>, height: seq<nat>, edges: Edges) {
    && Forest(parent, height)
    && (forall e <- edges :: e.0 < |parent| && e.1 < |parent|)
    && forall x, y | 0 <= x < |parent| && 0 <= y < |parent| ::
         Root(parent, height, x) == Root(parent, height, y) <==> Connected(edges, x, y)
  }

  /** `uf_find` */
  method Find(parent: array<nat>, start: nat, ghost height: seq<nat>) returns (x: nat)
    requires Forest(parent[..], height) && start < parent.Length
    ensures x == Root(parent[..], height, start)
  {
    x := start;
    while parent[x] != x
      invariant x < parent.Length
      invariant Root(parent[..], height, x) == Root(parent[..], height, start)
      decreases height[x]
    {
      x := parent[x];
    }
  }

  /** Heights after `rx` has been hung below `ry`: the moved tree is lifted above `ry`. */
  ghost function Lifted(parent: seq<nat>, height: seq<nat>, rx: nat, ry: nat): (h: seq<nat>)
    requires Forest(parent, height) && rx < |parent| && ry < |parent|
    ensures |h| == |parent|
  {
    seq(|parent|, x requires 0 <= x < |parent| =>
      if Root(parent, height, x) == rx then height[x] + height[ry] + 1 else height[x])
  }

  lemma LinkIsForest(parent: seq<nat>, height: seq<nat>, rx: nat, ry: nat)
    requires Forest(parent, height) && rx < |parent| && ry < |parent|
    requires parent[rx] == rx && parent[ry] == ry && rx != ry
    ensures Forest(parent[rx := ry], Lifted(parent, height, rx, ry))
  {
  }

  lemma {:induction false} LinkRoot(parent: seq<nat>, height: seq<nat>, rx: nat, ry: nat, x: nat)
    requires Forest(parent, height) && rx < |parent| && ry < |parent| && x < |parent|
    requires parent[rx] == rx && parent[ry] == ry && rx != ry
    requires Forest(parent[rx := ry], Lifted(parent, height, rx, ry))
    ensures Root(parent[rx := ry], Lifted(parent, height, rx, ry), x)
         == if Root(parent, height, x) == rx then ry else Root(parent, height, x)
    decreases height[x]
  {
    if parent[x] != x {
      LinkRoot(parent, height, rx, ry, parent[x]);
    }
  }

  /** `uf_union` */
  method Union(parent: array<nat>, x: nat, y: nat, ghost height: seq<nat>) returns (ghost newHeight: seq<nat>)
    requires Forest(parent[..], height) && x < parent.Length && y < parent.Length
    modifies parent
    ensures Forest(parent[..], newHeight)
    ensures forall z | 0 <= z < parent.Length ::
      Root(parent[..], newHeight, z)
      == var r := Root(old(parent[..]), height, z);
         if r == Root(old(parent[..]), height, x) then Root(old(parent[..]), height, y) else r
  {
    var rx: nat := Find(parent, x, height);
    var ry: nat := Find(parent, y, height);
    newHeight := height;
    if rx != ry {
      ghost var before: seq<nat> := parent[..];
      LinkIsForest(before, height, rx, ry);
      parent[rx] := ry;
      assert parent[..] == before[rx := ry];
      newHeight := Lifted(before, height, rx, ry);
      forall z | 0 <= z < parent.Length
        ensures Root(parent[..], newHeight, z)
             == if Root(before, height, z) == rx then ry else Root(before, height, z)
      {
        LinkRoot(before, height, rx, ry, z);
      }
    }
  }

  ghost function Joined(edges: Edges, x: nat, y: nat): Edges {
    edges + {(x, y)}
  }

  /** Equal marks along all edges are equal throughout a component. */
  lemma {:induction false} SameMark(edges: Edges, mark: seq<nat>, path: seq<nat>, x: nat, y: nat)
    requires IsPath(edges, path, x, y) && x < |mark|
    requires forall e <- edges :: e.0 < |mark| && e.1 < |mark| && mark[e.0] == mark[e.1]
    ensures y < |mark| && mark[x] == mark[y]
    decreases |path|
  {
    if |path| > 1 {
      var rest := path[1..];
      assert StepAt(edges, path, 0);
      forall i | 0 <= i < |rest| - 1 ensures StepAt(edges, rest, i) {
        assert StepAt(edges, path, i + 1);
      }
      var z := path[1];
      assert (x, z) in edges ==> mark[(x, z).0] == mark[(x, z).1];
      assert (z, x) in edges ==> mark[(z, x).0] == mark[(z, x).1];
      SameMark(edges, mark, rest, z, y);
    }
  }

  /** Marking one class as another is what adding an edge does to the components. */
  lemma UnionRepresents(
      parent: seq<nat>, height: seq<nat>, edges: Edges, x: nat, y: nat,
      parent2: seq<nat>, height2: seq<nat>)
    requires Represents(parent, height, edges) && x < |parent| && y < |parent|
    requires Forest(parent2, height2) && |parent2| == |parent|
    requires forall z | 0 <= z < |parent| ::
      Root(parent2, height2, z)
      == var r := Root(parent, height, z);
         if r == Root(parent, height, x) then Root(parent, height, y) else r
    ensures Represents(parent2, height2, Joined(edges, x, y))
  {
    var n, more := |parent|, Joined(edges, x, y);
    var mark := seq(n, z requires 0 <= z < n => Root(parent2, height2, z));
    forall e <- more ensures mark[e.0] == mark[e.1] {
      if e != (x, y) {
        OneEdge(edges, e.0, e.1);
        assert Root(parent, height, e.0) == Root(parent, height, e.1);
      }
    }
    OneEdge(more, x, y);
    Symmetric(more, x, y);
    forall a, b | 0 <= a < n && 0 <= b < n
      ensures mark[a] == mark[b] <==> Connected(more, a, b)
    {
      if path :| IsPath(more, path, a, b) {
        SameMark(more, mark, path, a, b);
      }
      if mark[a] == mark[b] {
        SameMarkConnects(parent, height, edges, x, y, a, b);
      }
    }
  }

  lemma SameMarkConnects(
      parent: seq<nat>, height: seq<nat>, edges: Edges, x: nat, y: nat, a: nat, b: nat)
    requires Represents(parent, height, edges)
    requires x < |parent| && y < |parent| && a < |parent| && b < |parent|
    requires var rx, ry := Root(parent, height, x), Root(parent, height, y);
             var ra, rb := Root(parent, height, a), Root(parent, height, b);
             (if ra == rx then ry else ra) == (if rb == rx then ry else rb)
    ensures Connected(Joined(edges, x, y), a, b)
  {
    var more := Joined(edges, x, y);
    var rx, ry := Root(parent, height, x), Root(parent, height, y);
    var ra, rb := Root(parent, height, a), Root(parent, height, b);
    OneEdge(more, x, y);
    Symmetric(more, x, y);
    if ra == rb {
      Grows(edges, more, a, b);
    } else if ra == rx {
      Grows(edges, more, a, x);
      Grows(edges, more, y, b);
      Transitive(more, a, x, y);
      Transitive(more, a, y, b);
    } else {
      Grows(edges, more, a, y);
      Grows(edges, more, x, b);
      Transitive(more, a, y, x);
      Transitive(more, a, x, b);
    }
  }

  /** Before any union every element is alone. */
  lemma Singletons(n: nat)
    ensures Represents(seq(n, x => x), seq(n, _ => 0), {})
  {
    var parent, height := seq(n, x => x), seq(n, _ => 0);
    forall x, y | 0 <= x < n && 0 <= y < n
      ensures Root(parent, height, x) == Root(parent, height, y) <==> Connected({}, x, y)
    {
      Reflexive({}, x);
      if path :| IsPath({}, path, x, y) {
        SameMark({}, parent, path, x, y);
      }
    }
  }

  /** The final pass: every parent becomes the root, computed before any is overwritten. */
  method Compress(parent: array<nat>, ghost height: seq<nat>)
    requires Forest(parent[..], height)
    modifies parent
    ensures forall x | 0 <= x < parent.Length :: parent[x] == Root(old(parent[..]), height, x)
  {
    var roots := new nat[parent.Length];
    for i := 0 to parent.Length
      invariant parent[..] == old(parent[..])
      invariant forall x | 0 <= x < i :: roots[x] == Root(parent[..], height, x)
    {
      roots[i] := Find(parent, i, height);
    }
    ghost var before: seq<nat> := parent[..];
    for i := 0 to parent.Length
      invariant forall x | 0 <= x < parent.Length :: roots[x] == Root(before, height, x)
      invariant forall x | 0 <= x < i :: parent[x] == roots[x]
    {
      parent[i] := roots[i];
    }
  }
}
