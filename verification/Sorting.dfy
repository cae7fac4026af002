/** The standard library's stable sort, for an order given as "comes strictly before". */
module Sorting {
  import Seqs

  ghost predicate WeakOrder<T(!new)>(before: (T, T) -> bool) {
    && (forall x, y :: before(x, y) ==> !before(y, x))
    && (forall x, y, z :: !before(x, y) && !before(y, z) ==> !before(x, z))
  }

  ghost predicate Sorted<T(!new)>(s: seq<T>, before: (T, T) -> bool) {
    forall i, j | 0 <= i < j < |s| :: !before(s[j], s[i])
  }

  function Insert<T>(x: T, s: seq<T>, before: (T, T) -> bool): seq<T> {
    if s == [] then [x]
    else if before(s[0], x) then [s[0]] + Insert(x, s[1..], before)
    else [x] + s
  }

  function Sort<T>(s: seq<T>, before: (T, T) -> bool): seq<T> {
    if s == [] then [] else Insert(s[0], Sort(s[1..], before), before)
  }

  lemma {:induction false} InsertKeeps<T>(x: T, s: seq<T>, before: (T, T) -> bool)
    ensures multiset(Insert(x, s, before)) == multiset{x} + multiset(s)
    ensures |Insert(x, s, before)| == |s| + 1
  {
    if s != [] && before(s[0], x) {
      InsertKeeps(x, s[1..], before);
      Seqs.HeadTail(s);
    }
  }

  /** Sorting rearranges. */
  lemma {:induction false} SortKeeps<T>(s: seq<T>, before: (T, T) -> bool)
    ensures multiset(Sort(s, before)) == multiset(s)
    ensures |Sort(s, before)| == |s|
  {
    if s != [] {
      SortKeeps(s[1..], before);
      InsertKeeps(s[0], Sort(s[1..], before), before);
      Seqs.HeadTail(s);
    }
  }

  lemma SortMembers<T>(s: seq<T>, before: (T, T) -> bool)
    ensures forall x :: x in Sort(s, before) <==> x in s
  {
    SortKeeps(s, before);
    forall x ensures x in Sort(s, before) <==> x in s {
      assert x in Sort(s, before) <==> x in multiset(Sort(s, before));
      assert x in s <==> x in multiset(s);
    }
  }

  lemma {:induction false} InsertSorts<T(!new)>(x: T, s: seq<T>, before: (T, T) -> bool)
    requires WeakOrder(before) && Sorted(s, before)
    ensures Sorted(Insert(x, s, before), before)
  {
    if s != [] {
      if before(s[0], x) {
        var rest := Insert(x, s[1..], before);
        InsertSorts(x, s[1..], before);
        InsertKeeps(x, s[1..], before);
        forall j | 0 <= j < |rest| ensures !before(rest[j], s[0]) {
          assert rest[j] in multiset(rest);
          if rest[j] != x {
            assert rest[j] in s[1..];
          }
        }
      } else {
        forall j | 0 <= j < |s| ensures !before(s[j], x) {
          assert j > 0 ==> !before(s[j], s[0]);
        }
      }
    }
  }

  lemma {:induction false} SortSorts<T(!new)>(s: seq<T>, before: (T, T) -> bool)
    requires WeakOrder(before)
    ensures Sorted(Sort(s, before), before)
  {
    if s != [] {
      SortSorts(s[1..], before);
      InsertSorts(s[0], Sort(s[1..], before), before);
    }
  }

  /** Two strictly ascending lists with the same members are the same. */
  lemma {:induction false} AscendingIsUnique<T(!new)>(a: seq<T>, b: seq<T>, before: (T, T) -> bool)
    requires forall x, y :: before(x, y) ==> !before(y, x)
    requires forall i, j | 0 <= i < j < |a| :: before(a[i], a[j])
    requires forall i, j | 0 <= i < j < |b| :: before(b[i], b[j])
    requires forall x :: x in a <==> x in b
    ensures a == b
    decreases |a|
  {
    Seqs.NoMember(a);
    Seqs.NoMember(b);
    if a != [] {
      assert a[0] in a && b[0] in b;
      assert a[0] == b[0];
      forall x ensures x in a[1..] <==> x in b[1..] {
        RestMembers(a, x, before);
        RestMembers(b, x, before);
      }
      AscendingIsUnique(a[1..], b[1..], before);
      Seqs.HeadTail(a);
      Seqs.HeadTail(b);
    }
  }

  lemma RestMembers<T(!new)>(a: seq<T>, x: T, before: (T, T) -> bool)
    requires forall x, y :: before(x, y) ==> !before(y, x)
    requires a != [] && forall i, j | 0 <= i < j < |a| :: before(a[i], a[j])
    ensures x in a[1..] <==> x in a && x != a[0]
  {
    if x in a && x != a[0] {
      var i :| 0 <= i < |a| && a[i] == x;
      assert a[1..][i - 1] == x;
    }
    if x in a[1..] {
      var i :| 0 <= i < |a[1..]| && a[1..][i] == x;
      assert before(a[0], a[i + 1]);
    }
  }

  // ----- stability

  /** The elements that the order cannot tell from `x`, in order. */
  function Peers<T>(s: seq<T>, x: T, before: (T, T) -> bool): seq<T> {
    if s == [] then []
    else (if !before(s[0], x) && !before(x, s[0]) then [s[0]] else []) + Peers(s[1..], x, before)
  }

  lemma {:induction false} InsertIsStable<T(!new)>(y: T, s: seq<T>, x: T, before: (T, T) -> bool)
    requires WeakOrder(before) && Sorted(s, before)
    ensures Peers(Insert(y, s, before), x, before) == Peers([y] + s, x, before)
  {
    assert ([y] + s)[1..] == s;
    if s != [] && before(s[0], y) {
      InsertIsStable(y, s[1..], x, before);
      assert ([y] + s[1..])[1..] == s[1..];
      assert ([s[0]] + Insert(y, s[1..], before))[1..] == Insert(y, s[1..], before);
      Seqs.Empty(Peers(s[1..], x, before));
    }
  }

  /** Sorting keeps elements that it cannot tell apart in their order. */
  lemma {:induction false} SortIsStable<T(!new)>(s: seq<T>, x: T, before: (T, T) -> bool)
    requires WeakOrder(before)
    ensures Peers(Sort(s, before), x, before) == Peers(s, x, before)
  {
    if s != [] {
      var rest := Sort(s[1..], before);
      SortIsStable(s[1..], x, before);
      SortSorts(s[1..], before);
      InsertIsStable(s[0], rest, x, before);
      assert ([s[0]] + rest)[1..] == rest;
    }
  }
}
