/** The consolidation pass: near-duplicate records fall into groups, one claim a group. */
module Consolidation {
  import Seqs
  import Sets

  // ----- similarity of word lists

  /** Words with their counts: the smaller counts over the larger ones, one for two empty lists. */
  function BagJaccard(a: multiset<string>, b: multiset<string>): real {
    if |a + b| == 0 then 1.0 else |a * b| as real / |a + b - a * b| as real
  }

  /** The shared fraction: one for the same words as often, zero for none shared, the same both ways. */
  lemma BagJaccardIsFraction(a: multiset<string>, b: multiset<string>)
    ensures 0.0 <= BagJaccard(a, b) <= 1.0 && BagJaccard(a, b) == BagJaccard(b, a)
    ensures BagJaccard(a, b) == 1.0 <==> a == b
    ensures BagJaccard(a, b) == 0.0 <==> a !! b && |a + b| > 0
    ensures |a + b| > 0 ==>
      |a| + |b| > |a * b| && BagJaccard(a, b) == |a * b| as real / (|a| + |b| - |a * b|) as real
  {
    hide BagJaccard;
    BothWays(a, b);
    if |a + b| > 0 {
      WholeSize(a, b);
      SharedSize(a, b);
      var i, u := |a * b|, |a| + |b| - |a * b|;
      InCounts(a, b, i, u);
      Sets.Part(i, u, BagJaccard(a, b));
    } else {
      NoWords(a, b);
    }
  }

  lemma InCounts(a: multiset<string>, b: multiset<string>, i: nat, u: nat)
    requires i == |a * b| && u == |a + b - a * b| > 0 && |a + b| > 0
    ensures BagJaccard(a, b) == i as real / u as real
  {
  }

  lemma BothWays(a: multiset<string>, b: multiset<string>)
    ensures BagJaccard(a, b) == BagJaccard(b, a)
  {
    assert a + b == b + a;
    assert a * b == b * a;
  }

  lemma WholeSize(a: multiset<string>, b: multiset<string>)
    ensures |a + b - a * b| == |a| + |b| - |a * b|
  {
    assert (a + b - a * b) + a * b == a + b;
  }

  lemma NoWords(a: multiset<string>, b: multiset<string>)
    requires |a + b| == 0
    ensures a == b && BagJaccard(a, b) == 1.0
  {
    assert |a| == 0 && |b| == 0;
    assert a == multiset{};
  }

  lemma SharedSize(a: multiset<string>, b: multiset<string>)
    requires |a + b| > 0
    ensures 0 <= |a * b| <= |a + b - a * b| && |a + b - a * b| > 0
    ensures |a * b| == |a + b - a * b| <==> a == b
    ensures |a * b| == 0 <==> a !! b
  {
    var shared, union := a * b, a + b - a * b;
    var more := union - shared;
    assert union == shared + more;
    assert shared + union == a + b;
    if |more| == 0 {
      assert more == multiset{};
      forall w ensures a[w] == b[w] {
        assert union[w] == shared[w];
      }
      assert a == b;
    }
    if a == b { assert union == shared; }
    if |shared| == 0 {
      assert shared == multiset{};
      forall w ensures a[w] == 0 || b[w] == 0 {
        assert shared[w] == 0;
      }
    }
    if a !! b { assert shared == multiset{}; }
  }

  function Count(counts: map<string, (nat, nat)>, w: string): (nat, nat) {
    if w in counts then counts[w] else (0, 0)
  }

  ghost predicate Counted(counts: map<string, (nat, nat)>, a: multiset<string>, b: multiset<string>) {
    forall w :: Count(counts, w) == (a[w], b[w])
  }

  /** One more word on the left or on the right. */
  function OneMore(counts: map<string, (nat, nat)>, w: string, left: bool): map<string, (nat, nat)> {
    var (x, y) := Count(counts, w);
    counts[w := if left then (x + 1, y) else (x, y + 1)]
  }

  lemma NothingCounted()
    ensures Counted(map[], multiset{}, multiset{})
  {
  }

  lemma CountStep(counts: map<string, (nat, nat)>, s: seq<string>, i: nat, other: multiset<string>, left: bool)
    requires i < |s|
    requires if left then Counted(counts, multiset(s[..i]), other) else Counted(counts, other, multiset(s[..i]))
    ensures var after, more := OneMore(counts, s[i], left), multiset(s[..i + 1]);
            if left then Counted(after, more, other) else Counted(after, other, more)
  {
    Seqs.TakeStep(s, i);
    assert multiset(s[..i + 1]) == multiset(s[..i]) + multiset{s[i]};
    forall w ensures Count(OneMore(counts, s[i], left), w)
                  == if left then (multiset(s[..i + 1])[w], other[w]) else (other[w], multiset(s[..i + 1])[w]) {
      assert if left then Count(counts, w) == (multiset(s[..i])[w], other[w])
             else Count(counts, w) == (other[w], multiset(s[..i])[w]);
    }
  }

  /** `m` holds each word of `done` the smaller number of times, or the larger. */
  ghost predicate Bounded(
      m: multiset<string>, done: set<string>, a: multiset<string>, b: multiset<string>, smaller: bool)
  {
    forall w :: m[w] == if w !in done then 0 else if (a[w] <= b[w]) == smaller then a[w] else b[w]
  }

  method SumCounts(counts: map<string, (nat, nat)>, ghost a: multiset<string>, ghost b: multiset<string>)
    returns (inter: nat, union: nat)
    requires Counted(counts, a, b)
    ensures inter == |a * b| && union == |a + b - a * b|
  {
    inter, union := 0, 0;
    var todo := counts.Keys;
    ghost var low: multiset<string>, high: multiset<string> := multiset{}, multiset{};
    while todo != {}
      invariant todo <= counts.Keys
      invariant Bounded(low, counts.Keys - todo, a, b, true) && Bounded(high, counts.Keys - todo, a, b, false)
      invariant inter == |low| && union == |high|
      decreases todo
    {
      var w :| w in todo;
      var (x, y) := Count(counts, w);
      assert (x, y) == (a[w], b[w]);
      var least, most := if x <= y then x else y, if x <= y then y else x;
      low, high := low[w := least], high[w := most];
      inter, union := inter + least, union + most;
      todo := todo - {w};
    }
    Whole(counts, a, b, low, high);
  }

  lemma Whole(
      counts: map<string, (nat, nat)>, a: multiset<string>, b: multiset<string>,
      low: multiset<string>, high: multiset<string>)
    requires Counted(counts, a, b)
    requires Bounded(low, counts.Keys, a, b, true) && Bounded(high, counts.Keys, a, b, false)
    ensures low == a * b && high == a + b - a * b
  {
    forall w | w !in counts ensures a[w] == b[w] == 0 {
      assert Count(counts, w) == (0, 0);
    }
  }

  /** `jaccard`, over lower-cased words. */
  method Jaccard(a: seq<string>, b: seq<string>) returns (similarity: real)
    ensures similarity == BagJaccard(multiset(a), multiset(b))
  {
    hide Counted, OneMore;
    if a == [] && b == [] { return 1.0; }
    var counts: map<string, (nat, nat)> := map[];
    NothingCounted();
    Seqs.TakeAll(a);
    Seqs.TakeAll(b);
    for i := 0 to |a|
      invariant Counted(counts, multiset(a[..i]), multiset{})
    {
      CountStep(counts, a, i, multiset{}, true);
      counts := OneMore(counts, a[i], true);
    }
    for i := 0 to |b|
      invariant Counted(counts, multiset(a), multiset(b[..i]))
    {
      CountStep(counts, b, i, multiset(a), false);
      counts := OneMore(counts, b[i], false);
    }
    var inter, union := SumCounts(counts, multiset(a), multiset(b));
    similarity := if union == 0 then 1.0 else inter as real / union as real;
  }

  // ----- groups

  datatype Records = Records(words: seq<seq<string>>, threshold: real)

  predicate Near(r: Records, i: nat, j: nat)
    requires i < |r.words| && j < |r.words|
  {
    BagJaccard(multiset(r.words[i]), multiset(r.words[j])) >= r.threshold
  }

  /** Nearness is mutual; records with the same words are near under every threshold up to one, that included. */
  lemma NearIsMutual(r: Records, i: nat, j: nat)
    requires i < |r.words| && j < |r.words|
    ensures Near(r, i, j) <==> Near(r, j, i)
    ensures multiset(r.words[i]) == multiset(r.words[j]) ==> (Near(r, i, j) <==> r.threshold <= 1.0)
    ensures r.threshold == 1.0 ==> (Near(r, i, j) <==> multiset(r.words[i]) == multiset(r.words[j]))
  {
    BagJaccardIsFraction(multiset(r.words[i]), multiset(r.words[j]));
    hide BagJaccard;
  }

  /** A record leads a group when no earlier leader is near it. */
  ghost predicate Leads(r: Records, i: nat) {
    i < |r.words| && forall l: nat | l < i :: Leads(r, l) ==> !Near(r, l, i)
  }

  /** A leader that would take the record: itself, or an earlier one it is near to. */
  ghost predicate Takes(r: Records, l: nat, j: nat) {
    j < |r.words| && Leads(r, l) && (l == j || (l < j && Near(r, l, j)))
  }

  /** The record belongs to the first leader that would take it. */
  ghost predicate Follows(r: Records, l: nat, j: nat) {
    Takes(r, l, j) && !TakenBefore(r, l, j)
  }

  ghost predicate TakenBefore(r: Records, n: nat, j: nat) {
    exists l: nat :: l < n && Takes(r, l, j)
  }

  lemma LeadsIff(r: Records, i: nat)
    requires i < |r.words|
    ensures Leads(r, i) <==> !TakenBefore(r, i, i)
  {
    if !Leads(r, i) {
      var l: nat :| l < i && Leads(r, l) && Near(r, l, i);
      assert Takes(r, l, i);
    }
  }

  /** Groups are a partition: every record follows exactly one leader. */
  lemma FollowsOne(r: Records, j: nat) returns (leader: nat)
    requires j < |r.words|
    ensures forall l: nat :: Follows(r, l, j) <==> l == leader
  {
    LeadsIff(r, j);
    TakenAfter(r, j, j);
    leader := FirstTaker(r, j, j);
    assert forall l: nat :: l < leader ==> !Takes(r, l, j);
  }

  lemma {:induction false} FirstTaker(r: Records, j: nat, n: nat) returns (leader: nat)
    requires TakenBefore(r, n + 1, j)
    ensures leader <= n && Follows(r, leader, j)
    decreases n
  {
    if TakenBefore(r, n, j) { leader := FirstTaker(r, j, n - 1); } else { leader := n; }
  }

  lemma TakenAfter(r: Records, i: nat, j: nat)
    ensures TakenBefore(r, i + 1, j) <==> TakenBefore(r, i, j) || Takes(r, i, j)
  {
  }

  lemma LeadersApart(r: Records, l: nat, m: nat)
    requires l < m && Leads(r, l) && Leads(r, m)
    ensures !Near(r, l, m)
  {
  }

  /** The group of one leader: everything that follows it, in order, the leader first. */
  ghost predicate IsGroup(r: Records, g: seq<nat>, n: nat) {
    && g != []
    && (forall j: nat :: j in g <==> j < n && Follows(r, g[0], j))
    && (forall p, q | 0 <= p < q < |g| :: g[p] < g[q])
  }

  /** The groups of the first `n` leaders, in order. */
  ghost predicate AreGroups(r: Records, groups: seq<seq<nat>>, n: nat) {
    && (forall k | 0 <= k < |groups| :: IsGroup(r, groups[k], |r.words|) && groups[k][0] < n)
    && (forall k, m | 0 <= k < m < |groups| :: groups[k][0] < groups[m][0])
    && (forall l: nat | l < n && Leads(r, l) :: exists k :: 0 <= k < |groups| && groups[k][0] == l)
  }

  /** Who is taken once the leaders below `i` are done, for the first `n` records also leader `i`. */
  ghost predicate Marked(r: Records, taken: seq<bool>, i: nat, n: nat) {
    && |taken| == |r.words|
    && forall j | 0 <= j < |taken| :: taken[j] <==> TakenBefore(r, if j < n then i + 1 else i, j)
  }

  /** Only records from the leader on can be new. */
  lemma MarkLeader(r: Records, taken: seq<bool>, i: nat)
    requires i < |r.words| && Leads(r, i) && Marked(r, taken, i, 0)
    ensures Marked(r, taken[i := true], i, i + 1) && IsGroup(r, [i], i + 1)
  {
    hide Leads, Near;
    LeadsIff(r, i);
    forall j: nat | j <= i ensures TakenBefore(r, i + 1, j) <==> TakenBefore(r, i, j) || j == i {
      TakenAfter(r, i, j);
    }
  }

  lemma MarkNext(r: Records, taken: seq<bool>, i: nat, n: nat, group: seq<nat>, near: bool)
    requires Leads(r, i) && i < n < |r.words| && near == Near(r, i, n)
    requires Marked(r, taken, i, n) && IsGroup(r, group, n) && group[0] == i
    ensures var joins := near && !taken[n];
            && Marked(r, if joins then taken[n := true] else taken, i, n + 1)
            && IsGroup(r, if joins then group + [n] else group, n + 1)
  {
    hide Leads, Near;
    TakenAfter(r, i, n);
    assert near && !taken[n] <==> Follows(r, i, n);
    forall p | 0 <= p < |group| ensures group[p] < n {
      assert group[p] in group;
    }
  }

  method Collect(r: Records, i: nat, before: seq<bool>) returns (group: seq<nat>, taken: seq<bool>)
    requires i < |r.words| == |before| && Leads(r, i) && Marked(r, before, i, 0)
    ensures IsGroup(r, group, |r.words|) && group[0] == i
    ensures |taken| == |r.words| && Marked(r, taken, i + 1, 0)
  {
    hide BagJaccard, Leads, Marked, IsGroup, Follows, Takes, TakenBefore;
    group, taken := [i], before[i := true];
    MarkLeader(r, before, i);
    for n := i + 1 to |r.words|
      invariant |taken| == |r.words| && Marked(r, taken, i, n)
      invariant |group| > 0 && group[0] == i && IsGroup(r, group, n)
    {
      MarkNext(r, taken, i, n, group, Near(r, i, n));
      if !taken[n] {
        var similarity := Jaccard(r.words[i], r.words[n]);
        if similarity >= r.threshold {
          group := group + [n];
          taken := taken[n := true];
        }
      }
    }
    AllMarked(r, taken, i);
  }

  lemma AllMarked(r: Records, taken: seq<bool>, i: nat)
    requires Marked(r, taken, i, |r.words|)
    ensures Marked(r, taken, i + 1, 0)
  {
    hide TakenBefore;
  }

  /** A record that does not lead adds no group. */
  lemma GroupsStay(r: Records, groups: seq<seq<nat>>, i: nat)
    requires AreGroups(r, groups, i) && !Leads(r, i)
    ensures AreGroups(r, groups, i + 1)
  {
    hide Leads, Follows;
  }

  lemma NoGroups(r: Records)
    ensures AreGroups(r, [], 0)
  {
  }

  /** A record that leads adds its own. */
  lemma GroupsGrow(r: Records, groups: seq<seq<nat>>, i: nat, group: seq<nat>)
    requires AreGroups(r, groups, i)
    requires IsGroup(r, group, |r.words|) && group[0] == i
    ensures AreGroups(r, groups + [group], i + 1)
  {
    hide Leads, Follows;
    var more := groups + [group];
    assert more[|groups|] == group;
    forall l: nat | l < i && Leads(r, l) ensures exists k :: 0 <= k < |more| && more[k] != [] && more[k][0] == l {
      var k :| 0 <= k < |groups| && groups[k][0] == l;
      assert more[k][0] == l;
    }
  }

  lemma Unmarked(r: Records, taken: seq<bool>)
    requires |taken| == |r.words| && forall j | 0 <= j < |taken| :: !taken[j]
    ensures Marked(r, taken, 0, 0)
  {
  }

  /** The grouping loop of `consolidation_pass`. */
  method Group(r: Records) returns (groups: seq<seq<nat>>)
    ensures AreGroups(r, groups, |r.words|)
    ensures |groups| <= |r.words|
  {
    hide Leads, Marked, IsGroup, AreGroups;
    groups := [];
    var taken := seq(|r.words|, i => false);
    Unmarked(r, taken);
    NoGroups(r);
    for i := 0 to |r.words|
      invariant |taken| == |r.words| && Marked(r, taken, i, 0)
      invariant AreGroups(r, groups, i) && |groups| <= i
    {
      var leads := !taken[i];
      NextLeads(r, taken, i);
      if leads {
        var group: seq<nat>;
        group, taken := Collect(r, i, taken);
        GroupsGrow(r, groups, i, group);
        groups := groups + [group];
      } else {
        GroupsStay(r, groups, i);
      }
    }
  }

  lemma NextLeads(r: Records, taken: seq<bool>, i: nat)
    requires i < |r.words| == |taken| && Marked(r, taken, i, 0)
    ensures Leads(r, i) <==> !taken[i]
    ensures !Leads(r, i) ==> Marked(r, taken, i + 1, 0)
  {
    hide Leads, Near;
    LeadsIff(r, i);
    if taken[i] {
      forall j | 0 <= j < |taken| ensures TakenBefore(r, i + 1, j) <==> TakenBefore(r, i, j) {
        TakenAfter(r, i, j);
      }
    }
  }
}
