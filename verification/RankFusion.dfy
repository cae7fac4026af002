/** Reciprocal rank fusion of several ranked channels. */
module RankFusion {
  import Seqs
  import Sorting
  import opened StringOrder

  /** A hit as far as fusion looks at it; `payload` stands for the rest of the record. */
  datatype Hit = Hit(nodeId: string, payload: int)

  /** A score; a rank constant that is a negative whole number makes one rank count infinitely. */
  datatype Score = Finite(value: real) | Infinite

  const NOTHING := Finite(0.0)

  function Plus(a: Score, b: Score): Score {
    if a.Finite? && b.Finite? then Finite(a.value + b.value) else Infinite
  }

  predicate Above(a: Score, b: Score) {
    b.Finite? && (a.Infinite? || a.value > b.value)
  }

  datatype Fused = Fused(nodeId: string, score: Score)

  // ----- the definition

  function RankScore(k: real, rank: nat): Score {
    var denominator := k + rank as real + 1.0;
    if denominator == 0.0 then Infinite else Finite(1.0 / denominator)
  }

  /** What the first `n` ranks of one channel give to a node. */
  function ChannelScore(k: real, channel: seq<Hit>, n: nat, id: string): Score
    requires n <= |channel|
  {
    if n == 0 then NOTHING
    else
      Plus(ChannelScore(k, channel, n - 1, id), if channel[n - 1].nodeId == id then RankScore(k, n - 1) else NOTHING)
  }

  /** The sum over all occurrences in all channels. */
  function Total(k: real, channels: seq<seq<Hit>>, id: string): Score
  {
    if channels == [] then NOTHING
    else
      var last := channels[|channels| - 1];
      Plus(Total(k, channels[..|channels| - 1], id), ChannelScore(k, last, |last|, id))
  }

  predicate InChannel(channel: seq<Hit>, n: nat, id: string)
    requires n <= |channel|
  {
    exists r | 0 <= r < n :: channel[r].nodeId == id
  }

  predicate Occurs(channels: seq<seq<Hit>>, id: string) {
    exists c <- channels :: InChannel(c, |c|, id)
  }

  // ----- order of the result

  /** Higher scores first, equal scores by node id. */
  predicate Before(a: Fused, b: Fused) {
    Above(a.score, b.score) || (a.score == b.score && Less(a.nodeId, b.nodeId))
  }

  lemma BeforeIsTotalOrder()
    ensures Sorting.WeakOrder(Before)
    ensures forall x, y :: x != y ==> Before(x, y) || Before(y, x)
  {
    forall x, y ensures (Before(x, y) ==> !Before(y, x)) && (x != y ==> Before(x, y) || Before(y, x)) {
      LessAsymmetric(x.nodeId, y.nodeId);
      LessTotal(x.nodeId, y.nodeId);
    }
    forall x, y, z | !Before(x, y) && !Before(y, z) ensures !Before(x, z) {
      LessTotal(x.nodeId, y.nodeId);
      LessTotal(y.nodeId, z.nodeId);
      LessAsymmetric(x.nodeId, z.nodeId);
      LessAsymmetric(x.nodeId, y.nodeId);
      LessAsymmetric(y.nodeId, z.nodeId);
      if Less(z.nodeId, y.nodeId) && Less(y.nodeId, x.nodeId) {
        LessTransitive(z.nodeId, y.nodeId, x.nodeId);
      }
    }
  }

  /** The full ranking: every node that occurs, once, with its total, in order. */
  ghost predicate IsRanking(k: real, channels: seq<seq<Hit>>, ranking: seq<Fused>)
  {
    && (forall i, j | 0 <= i < j < |ranking| :: ranking[i].nodeId != ranking[j].nodeId)
    && (forall f :: f in ranking <==> Occurs(channels, f.nodeId) && f.score == Total(k, channels, f.nodeId))
    && (forall i, j | 0 <= i < j < |ranking| :: Before(ranking[i], ranking[j]))
  }

  // ----- the fusion

  /** The scores collected from the first channels, keyed by node. */
  ghost predicate Collected(k: real, channels: seq<seq<Hit>>, merged: map<string, Score>)
  {
    forall id :: (id in merged <==> Occurs(channels, id)) && (id in merged ==> merged[id] == Total(k, channels, id))
  }

  /** The same in the middle of a channel. */
  ghost predicate CollectedUpTo(k: real, channels: seq<seq<Hit>>, channel: seq<Hit>, n: nat, merged: map<string, Score>)
    requires n <= |channel|
  {
    forall id ::
      && (id in merged <==> Occurs(channels, id) || InChannel(channel, n, id))
      && (id in merged ==> merged[id] == Plus(Total(k, channels, id), ChannelScore(k, channel, n, id)))
  }

  lemma {:induction false} AbsentScoresNothing(k: real, channel: seq<Hit>, n: nat, id: string)
    requires n <= |channel| && !InChannel(channel, n, id)
    ensures ChannelScore(k, channel, n, id) == NOTHING
  {
    if n > 0 { AbsentScoresNothing(k, channel, n - 1, id); }
  }

  lemma {:induction false} AbsentTotalsNothing(k: real, channels: seq<seq<Hit>>, id: string)
    requires !Occurs(channels, id)
    ensures Total(k, channels, id) == NOTHING
  {
    if channels != [] {
      var init, last := channels[..|channels| - 1], channels[|channels| - 1];
      assert last in channels && forall c <- init :: c in channels;
      AbsentTotalsNothing(k, init, id);
      AbsentScoresNothing(k, last, |last|, id);
    }
  }

  lemma OneMoreChannel(k: real, channels: seq<seq<Hit>>, channel: seq<Hit>, id: string)
    ensures Occurs(channels + [channel], id) <==> Occurs(channels, id) || InChannel(channel, |channel|, id)
    ensures Total(k, channels + [channel], id) == Plus(Total(k, channels, id), ChannelScore(k, channel, |channel|, id))
  {
    assert forall c :: c in channels + [channel] <==> c in channels || c == channel;
    assert (channels + [channel])[..|channels|] == channels;
  }

  lemma PlusLaws(a: Score, b: Score, c: Score)
    ensures Plus(Plus(a, b), c) == Plus(a, Plus(b, c)) == Plus(Plus(a, c), b)
    ensures Plus(a, NOTHING) == a == Plus(NOTHING, a)
  {
  }

  lemma OneMoreRank(k: real, channel: seq<Hit>, rank: nat, id: string)
    requires rank < |channel|
    ensures InChannel(channel, rank + 1, id) <==> InChannel(channel, rank, id) || id == channel[rank].nodeId
    ensures ChannelScore(k, channel, rank + 1, id)
         == Plus(ChannelScore(k, channel, rank, id), if id == channel[rank].nodeId then RankScore(k, rank) else NOTHING)
  {
    if id == channel[rank].nodeId { assert channel[rank].nodeId == id; }
  }

  /** The map after one more rank. */
  function Added(merged: map<string, Score>, key: string, score: Score): map<string, Score> {
    merged[key := if key in merged then Plus(merged[key], score) else score]
  }

  lemma CollectStep(k: real, channels: seq<seq<Hit>>, channel: seq<Hit>, rank: nat, merged: map<string, Score>)
    requires rank < |channel| && CollectedUpTo(k, channels, channel, rank, merged)
    ensures CollectedUpTo(
              k, channels, channel, rank + 1, Added(merged, channel[rank].nodeId, RankScore(k, rank)))
  {
    hide ChannelScore, Total, InChannel, Occurs, RankScore, Plus;
    var key, score := channel[rank].nodeId, RankScore(k, rank);
    forall id
      ensures id in Added(merged, key, score) <==> Occurs(channels, id) || InChannel(channel, rank + 1, id)
      ensures id in Added(merged, key, score) ==>
        Added(merged, key, score)[id] == Plus(Total(k, channels, id), ChannelScore(k, channel, rank + 1, id))
    {
      OneMoreRank(k, channel, rank, id);
      PlusLaws(Total(k, channels, id), ChannelScore(k, channel, rank, id), score);
      PlusLaws(ChannelScore(k, channel, rank, id), NOTHING, NOTHING);
      if id !in merged {
        AbsentScoresNothing(k, channel, rank, id);
        AbsentTotalsNothing(k, channels, id);
        PlusLaws(score, NOTHING, NOTHING);
      }
    }
  }

  method AddChannel(k: real, ghost channels: seq<seq<Hit>>, channel: seq<Hit>, before: map<string, Score>)
    returns (merged: map<string, Score>)
    requires Collected(k, channels, before)
    ensures Collected(k, channels + [channel], merged)
  {
    hide Plus, RankScore, Occurs;
    merged := before;
    forall id ensures Plus(Total(k, channels, id), ChannelScore(k, channel, 0, id)) == Total(k, channels, id) {
      PlusLaws(Total(k, channels, id), NOTHING, NOTHING);
    }
    for rank := 0 to |channel|
      invariant CollectedUpTo(k, channels, channel, rank, merged)
    {
      CollectStep(k, channels, channel, rank, merged);
      var key, score := channel[rank].nodeId, RankScore(k, rank);
      merged := merged[key := if key in merged then Plus(merged[key], score) else score];
    }
    forall id ensures (id in merged <==> Occurs(channels + [channel], id))
                   && (id in merged ==> merged[id] == Total(k, channels + [channel], id)) {
      OneMoreChannel(k, channels, channel, id);
    }
  }

  method ToList(merged: map<string, Score>) returns (list: seq<Fused>)
    ensures forall f :: f in list <==> f.nodeId in merged && f.score == merged[f.nodeId]
    ensures forall i, j | 0 <= i < j < |list| :: list[i].nodeId != list[j].nodeId
  {
    list := [];
    var todo := merged.Keys;
    while todo != {}
      invariant todo <= merged.Keys
      invariant forall f :: f in list <==> f.nodeId in merged && f.nodeId !in todo && f.score == merged[f.nodeId]
      invariant forall i, j | 0 <= i < j < |list| :: list[i].nodeId != list[j].nodeId
      decreases todo
    {
      var id :| id in todo;
      assert forall i | 0 <= i < |list| :: list[i] in list;
      list := list + [Fused(id, merged[id])];
      todo := todo - {id};
    }
  }

  lemma SortedRanking(k: real, channels: seq<seq<Hit>>, list: seq<Fused>)
    requires forall f :: f in list <==> Occurs(channels, f.nodeId) && f.score == Total(k, channels, f.nodeId)
    requires forall i, j | 0 <= i < j < |list| :: list[i].nodeId != list[j].nodeId
    ensures IsRanking(k, channels, Sorting.Sort(list, Before))
  {
    var sorted := Sorting.Sort(list, Before);
    BeforeIsTotalOrder();
    Sorting.SortMembers(list, Before);
    Sorting.SortKeeps(list, Before);
    Sorting.SortSorts(list, Before);
    forall i, j | 0 <= i < j < |sorted|
      ensures sorted[i].nodeId != sorted[j].nodeId && Before(sorted[i], sorted[j])
    {
      Apart(list, sorted, i, j);
      assert !Before(sorted[j], sorted[i]);
    }
  }

  lemma Apart(list: seq<Fused>, sorted: seq<Fused>, i: nat, j: nat)
    requires multiset(sorted) == multiset(list) && i < j < |sorted|
    requires forall a, b | 0 <= a < b < |list| :: list[a].nodeId != list[b].nodeId
    ensures sorted[i].nodeId != sorted[j].nodeId
  {
    assert sorted[i] in multiset(list) && sorted[j] in multiset(list);
    var a :| 0 <= a < |list| && list[a] == sorted[i];
    var b :| 0 <= b < |list| && list[b] == sorted[j];
    if a == b {
      Seqs.TwiceIn(sorted, i, j);
      Seqs.OnceIn(list, a);
    }
  }

  /** `reciprocal_rank_fusion` */
  method Fuse(k: real, channels: seq<seq<Hit>>, limit: nat) returns (fused: seq<Fused>)
    ensures exists ranking :: IsRanking(k, channels, ranking) && fused == Seqs.Take(ranking, limit)
  {
    var merged: map<string, Score> := map[];
    for i := 0 to |channels|
      invariant Collected(k, channels[..i], merged)
    {
      merged := AddChannel(k, channels[..i], channels[i], merged);
      Seqs.TakeStep(channels, i);
    }
    assert channels[..|channels|] == channels;
    var list := ToList(merged);
    SortedRanking(k, channels, list);
    var sorted := Sorting.Sort(list, Before);
    fused := if |sorted| <= limit then sorted else sorted[..limit];
  }

  // ----- the order of the channels does not matter

  lemma {:induction false} TotalWithout(k: real, channels: seq<seq<Hit>>, i: nat, id: string)
    requires i < |channels|
    ensures Total(k, channels, id)
         == Plus(Total(k, channels[..i] + channels[i + 1..], id), ChannelScore(k, channels[i], |channels[i]|, id))
    decreases |channels|
  {
    hide Plus, ChannelScore;
    var n := |channels| - 1;
    var rest := channels[..i] + channels[i + 1..];
    if i == n {
      Seqs.TakeAll(channels);
      assert channels[n + 1..] == [];
      Seqs.Empty(channels[..n]);
    } else {
      TotalWithout(k, channels[..n], i, id);
      RestEnds(channels, i);
      var own, last := ChannelScore(k, channels[i], |channels[i]|, id), ChannelScore(k, channels[n], |channels[n]|, id);
      PlusLaws(Total(k, rest[..|rest| - 1], id), own, last);
    }
  }

  lemma RestEnds<T>(s: seq<T>, i: nat)
    requires i < |s| - 1
    ensures var n, rest := |s| - 1, s[..i] + s[i + 1..];
            && rest != [] && rest[|rest| - 1] == s[n] && s[..n][i] == s[i]
            && rest[..|rest| - 1] == s[..n][..i] + s[..n][i + 1..]
  {
  }

  /** Taking the last element out of a list and one equal to it out of a permutation. */
  lemma WithoutLast(a: seq<seq<Hit>>, b: seq<seq<Hit>>) returns (i: nat)
    requires a != [] && multiset(a) == multiset(b)
    ensures i < |b| && b[i] == a[|a| - 1]
    ensures multiset(a[..|a| - 1]) == multiset(b[..i] + b[i + 1..])
  {
    var last := a[|a| - 1];
    assert last in multiset(b);
    i :| 0 <= i < |b| && b[i] == last;
    Seqs.TakeStep(a, |a| - 1);
    Seqs.TakeAll(a);
    Seqs.Without(b, i);
    Seqs.Cancel(multiset(a[..|a| - 1]), multiset(b[..i] + b[i + 1..]), last);
  }

  lemma {:induction false} TotalOfPermutation(k: real, channels: seq<seq<Hit>>, permuted: seq<seq<Hit>>, id: string)
    requires multiset(channels) == multiset(permuted)
    ensures Total(k, channels, id) == Total(k, permuted, id)
    decreases |channels|
  {
    assert |channels| == |multiset(channels)| == |multiset(permuted)| == |permuted|;
    if channels != [] {
      var i := WithoutLast(channels, permuted);
      TotalOfPermutation(k, channels[..|channels| - 1], permuted[..i] + permuted[i + 1..], id);
      TotalWithout(k, permuted, i, id);
    }
  }

  /** Permuting the channels leaves ids, scores and their order unchanged. */
  lemma ChannelOrderIrrelevant(
      k: real, channels: seq<seq<Hit>>, permuted: seq<seq<Hit>>, ranking: seq<Fused>, other: seq<Fused>)
    requires multiset(channels) == multiset(permuted)
    requires IsRanking(k, channels, ranking) && IsRanking(k, permuted, other)
    ensures ranking == other
  {
    forall id ensures Occurs(channels, id) == Occurs(permuted, id) && Total(k, channels, id) == Total(k, permuted, id) {
      assert forall c :: c in channels <==> c in multiset(channels);
      assert forall c :: c in permuted <==> c in multiset(permuted);
      TotalOfPermutation(k, channels, permuted, id);
    }
    assert forall f :: f in ranking <==> f in other;
    BeforeIsTotalOrder();
    Sorting.AscendingIsUnique(ranking, other, Before);
  }
}
