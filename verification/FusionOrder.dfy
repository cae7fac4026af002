/** What a rank is worth in the fusion, and who comes before whom. */
module FusionOrder {
  import opened RankFusion
  import opened StringOrder
  import Sorting

  // ----- a node that occurs once

  ghost predicate OccursOnce(channels: seq<seq<Hit>>, id: string, c: nat, r: nat) {
    && c < |channels| && r < |channels[c]|
    && forall d: nat, q: nat | d < |channels| && q < |channels[d]| ::
         channels[d][q].nodeId == id <==> d == c && q == r
  }

  lemma {:induction false} ScoreBefore(k: real, channel: seq<Hit>, n: nat, id: string)
    requires n <= |channel| && forall r | 0 <= r < n :: channel[r].nodeId != id
    ensures ChannelScore(k, channel, n, id) == NOTHING
  {
    if n > 0 { ScoreBefore(k, channel, n - 1, id); }
  }

  lemma {:induction false} ScoreOfOne(k: real, channel: seq<Hit>, n: nat, id: string, r: nat)
    requires r < n <= |channel| && forall q: nat | q < n :: channel[q].nodeId == id <==> q == r
    ensures ChannelScore(k, channel, n, id) == RankScore(k, r)
  {
    if n == r + 1 { ScoreBefore(k, channel, r, id); } else { ScoreOfOne(k, channel, n - 1, id, r); }
    assert channel[n - 1].nodeId == id <==> n - 1 == r;
  }

  lemma {:induction false} TotalBefore(k: real, channels: seq<seq<Hit>>, id: string)
    requires forall d: nat, q: nat | d < |channels| && q < |channels[d]| :: channels[d][q].nodeId != id
    ensures Total(k, channels, id) == NOTHING
  {
    if channels != [] {
      var n := |channels| - 1;
      forall d: nat, q: nat | d < n && q < |channels[..n][d]| ensures channels[..n][d][q].nodeId != id {
        assert channels[..n][d] == channels[d];
      }
      TotalBefore(k, channels[..n], id);
      ScoreBefore(k, channels[n], |channels[n]|, id);
    }
  }

  lemma {:induction false} TotalOfOne(k: real, channels: seq<seq<Hit>>, id: string, c: nat, r: nat)
    requires OccursOnce(channels, id, c, r)
    ensures Total(k, channels, id) == RankScore(k, r)
  {
    hide ChannelScore, RankScore;
    var n := |channels| - 1;
    var init, last := channels[..n], channels[n];
    forall d: nat, q: nat | d < n && q < |init[d]|
      ensures init[d] == channels[d] && (init[d][q].nodeId == id <==> d == c && q == r) {
      assert init[d] == channels[d];
    }
    if c == n {
      TotalBefore(k, init, id);
      ScoreOfOne(k, last, |last|, id, r);
    } else {
      assert init[c] == channels[c];
      TotalOfOne(k, init, id, c, r);
      ScoreBefore(k, last, |last|, id);
    }
  }

  /** Its score times its rank, counted from one and raised by the constant, is one. */
  lemma OneOccurrence(k: real, channels: seq<seq<Hit>>, id: string, c: nat, r: nat)
    requires OccursOnce(channels, id, c, r)
    ensures var score := Total(k, channels, id);
            if k + r as real + 1.0 == 0.0 then score.Infinite?
            else score.Finite? && score.value * (k + r as real + 1.0) == 1.0
  {
    hide Total, RankScore;
    TotalOfOne(k, channels, id, c, r);
    OneRank(k, r);
  }

  lemma OneRank(k: real, r: nat)
    ensures var score, d := RankScore(k, r), k + r as real + 1.0;
            if d == 0.0 then score.Infinite? else score.Finite? && score.value * d == 1.0
  {
    var d := k + r as real + 1.0;
    if d != 0.0 { Reciprocal(d); }
  }

  lemma Reciprocal(d: real)
    requires d != 0.0
    ensures 1.0 / d * d == 1.0
  {
  }

  // ----- standing earlier

  /** How often the node is among the first `n` of the channel. */
  function Times(channel: seq<Hit>, n: nat, id: string): nat
    requires n <= |channel|
  {
    if n == 0 then 0 else Times(channel, n - 1, id) + if channel[n - 1].nodeId == id then 1 else 0
  }

  /** At every point of the channel `a` has been met at least as often as `b`. */
  ghost predicate NoLater(channel: seq<Hit>, a: string, b: string) {
    forall n: nat | n <= |channel| :: Times(channel, n, b) <= Times(channel, n, a)
  }

  /** At some point more often. */
  ghost predicate Ahead(channel: seq<Hit>, a: string, b: string) {
    exists n: nat :: n <= |channel| && Times(channel, n, b) < Times(channel, n, a)
  }

  function Weight(k: real, rank: nat): real
    requires k >= 0.0
  {
    1.0 / (k + rank as real + 1.0)
  }

  lemma WeightsFall(k: real, rank: nat)
    requires k >= 0.0
    ensures 0.0 < Weight(k, rank + 1) < Weight(k, rank)
    ensures RankScore(k, rank) == Finite(Weight(k, rank))
  {
    var d := k + rank as real + 1.0;
    Falls(d);
    assert k + (rank + 1) as real + 1.0 == d + 1.0;
  }

  lemma Falls(d: real)
    requires d > 0.0
    ensures 0.0 < 1.0 / (d + 1.0) < 1.0 / d
  {
    var p, q := 1.0 / d, 1.0 / (d + 1.0);
    assert p * d == 1.0 && q * (d + 1.0) == 1.0;
  }

  /** What one more rank adds, for a node that it names once or not at all. */
  lemma ScoreStep(k: real, channel: seq<Hit>, n: nat, id: string)
    requires k >= 0.0 && 0 < n <= |channel| && ChannelScore(k, channel, n - 1, id).Finite?
    ensures var named := Times(channel, n, id) - Times(channel, n - 1, id);
            && 0 <= named <= 1
            && ChannelScore(k, channel, n, id)
               == Finite(ChannelScore(k, channel, n - 1, id).value + Weight(k, n - 1) * named as real)
  {
    hide *;
    Unfolded(k, channel, n, id);
    WeightsFall(k, n - 1);
    Once(Weight(k, n - 1));
    PlusIs(ChannelScore(k, channel, n - 1, id), Weight(k, n - 1));
  }

  lemma Unfolded(k: real, channel: seq<Hit>, n: nat, id: string)
    requires 0 < n <= |channel|
    ensures var named := channel[n - 1].nodeId == id;
            && ChannelScore(k, channel, n, id)
               == Plus(ChannelScore(k, channel, n - 1, id), if named then RankScore(k, n - 1) else Finite(0.0))
            && Times(channel, n, id) == Times(channel, n - 1, id) + if named then 1 else 0
  {
  }

  lemma PlusIs(a: Score, w: real)
    requires a.Finite?
    ensures Plus(a, Finite(w)) == Finite(a.value + w) && Plus(a, Finite(0.0)) == a
  {
  }

  lemma Once(w: real)
    ensures w * 0 as real == 0.0 && w * 1 as real == w
  {
  }

  lemma NoScore(k: real, channel: seq<Hit>, id: string)
    ensures ChannelScore(k, channel, 0, id) == NOTHING && Times(channel, 0, id) == 0
  {
  }

  /**
   The lead of `a` over `b` after `n` ranks is worth at least its size at the last weight, and
   more if there was one before.
   */
  lemma {:induction false} LeadIsWorth(k: real, channel: seq<Hit>, n: nat, a: string, b: string)
    requires k >= 0.0 && 0 < n <= |channel| && NoLater(channel, a, b)
    ensures var x, y := ChannelScore(k, channel, n, a), ChannelScore(k, channel, n, b);
            var lead := Times(channel, n, a) - Times(channel, n, b);
            && x.Finite? && y.Finite? && lead >= 0
            && x.value - y.value >= Weight(k, n - 1) * lead as real
            && (Before(channel, n, a, b) ==> x.value - y.value > Weight(k, n - 1) * lead as real)
  {
    hide *;
    LeadAt(channel, n, a, b);
    LeadAt(channel, n - 1, a, b);
    BeforeStep(channel, n - 1, a, b);
    NoScore(k, channel, a);
    NoScore(k, channel, b);
    NothingIs();
    if n > 1 { LeadIsWorth(k, channel, n - 1, a, b); }
    ScoreStep(k, channel, n, a);
    ScoreStep(k, channel, n, b);
    WeightsFall(k, n - 1);
    var w := Weight(k, n - 1);
    var lead := Times(channel, n - 1, a) - Times(channel, n - 1, b);
    var i, j := Times(channel, n, a) - Times(channel, n - 1, a), Times(channel, n, b) - Times(channel, n - 1, b);
    var x, y := ChannelScore(k, channel, n - 1, a).value, ChannelScore(k, channel, n - 1, b).value;
    var v := if n == 1 then w + 1.0 else Weight(k, n - 2);
    if n == 1 {
      Once(v);
    } else {
      WeightsFall(k, n - 2);
    }
    LeadGrows(x, y, v, w, lead, i, j, Before(channel, n - 1, a, b));
  }

  /** A lead worth `v` each, before ranks worth the smaller `w` are added. */
  lemma LeadGrows(x: real, y: real, v: real, w: real, lead: nat, i: int, j: int, more: bool)
    requires 0.0 < w < v && x - y >= v * lead as real && (more ==> x - y > v * lead as real)
    ensures var gap := (x + w * i as real) - (y + w * j as real);
            && gap >= w * (lead + i - j) as real
            && (more || lead > 0 ==> gap > w * (lead + i - j) as real)
  {
    Distribute(w, lead, i, j);
    Smaller(w, v, lead);
    GapGrows(x - y, v * lead as real, w * lead as real, w * i as real, w * j as real, more, lead > 0);
  }

  lemma GapGrows(gap: real, high: real, low: real, p: real, q: real, more: bool, some_: bool)
    requires gap >= high >= low && (more ==> gap > high) && (some_ ==> high > low)
    ensures gap + p - q >= low + p - q
    ensures more || some_ ==> gap + p - q > low + p - q
  {
  }

  lemma NothingIs()
    ensures NOTHING == Finite(0.0)
  {
  }

  /** The lead was there before rank `n`. */
  ghost predicate Before(channel: seq<Hit>, n: nat, a: string, b: string)
    requires n <= |channel|
  {
    exists m: nat :: m < n && Times(channel, m, b) < Times(channel, m, a)
  }

  lemma BeforeStep(channel: seq<Hit>, n: nat, a: string, b: string)
    requires n < |channel|
    ensures Before(channel, n + 1, a, b) <==> Before(channel, n, a, b) || Times(channel, n, b) < Times(channel, n, a)
    ensures !Before(channel, 0, a, b)
  {
  }

  lemma LeadAt(channel: seq<Hit>, n: nat, a: string, b: string)
    requires NoLater(channel, a, b) && n <= |channel|
    ensures Times(channel, n, b) <= Times(channel, n, a)
  {
  }

  lemma Distribute(w: real, lead: int, i: int, j: int)
    ensures w * (lead + i - j) as real == w * lead as real + w * i as real - w * j as real
  {
    var l, p, q := lead as real, i as real, j as real;
    assert (lead + i - j) as real == l + p - q;
  }

  lemma Smaller(w: real, v: real, lead: nat)
    requires 0.0 < w < v
    ensures w * lead as real <= v * lead as real && (lead > 0 ==> w * lead as real < v * lead as real)
  {
  }

  /** So in one channel the node that leads throughout scores no less, and more if it is ahead anywhere. */
  lemma LeaderScores(k: real, channel: seq<Hit>, a: string, b: string)
    requires k >= 0.0 && NoLater(channel, a, b)
    ensures var x, y := ChannelScore(k, channel, |channel|, a), ChannelScore(k, channel, |channel|, b);
            && x.Finite? && y.Finite? && y.value <= x.value
            && (Ahead(channel, a, b) ==> y.value < x.value)
  {
    var n := |channel|;
    assert Ahead(channel, a, b) ==> Before(channel, n, a, b) || Times(channel, n, b) < Times(channel, n, a);
    hide *;
    NoScore(k, channel, a);
    NoScore(k, channel, b);
    NothingIs();
    LeadAt(channel, n, a, b);
    if n > 0 {
      LeadIsWorth(k, channel, n, a, b);
      WeightsFall(k, n - 1);
      AtLeastNothing(Weight(k, n - 1), Times(channel, n, a) - Times(channel, n, b));
    } else {
      BeforeNothing(channel, a, b);
    }
  }

  lemma BeforeNothing(channel: seq<Hit>, a: string, b: string)
    ensures !Before(channel, 0, a, b)
  {
  }

  lemma AtLeastNothing(w: real, lead: nat)
    requires w > 0.0
    ensures w * lead as real >= 0.0 && (lead > 0 ==> w * lead as real > 0.0)
  {
  }

  lemma {:induction false} LeaderTotals(k: real, channels: seq<seq<Hit>>, a: string, b: string)
    requires k >= 0.0 && forall c <- channels :: NoLater(c, a, b)
    ensures var x, y := Total(k, channels, a), Total(k, channels, b);
            && x.Finite? && y.Finite? && y.value <= x.value
            && ((exists c <- channels :: Ahead(c, a, b)) ==> y.value < x.value)
  {
    hide NoLater, Ahead, ChannelScore, Times;
    if channels != [] {
      var n := |channels| - 1;
      var init, last := channels[..n], channels[n];
      assert last in channels && forall c <- init :: c in channels;
      assert forall c <- channels :: c in init || c == last;
      LeaderTotals(k, init, a, b);
      LeaderScores(k, last, a, b);
    }
  }

  /**
   For constants from zero up, a node met at least as often as another at every point of every
   channel, and more often at some point, stands before it in the ranking.
   */
  lemma LeaderFirst(
      k: real, channels: seq<seq<Hit>>, ranking: seq<Fused>, a: string, b: string, i: nat, j: nat)
    requires k >= 0.0 && IsRanking(k, channels, ranking)
    requires forall c <- channels :: NoLater(c, a, b)
    requires exists c <- channels :: Ahead(c, a, b)
    requires i < |ranking| && j < |ranking| && ranking[i].nodeId == a && ranking[j].nodeId == b
    ensures i < j
  {
    LeaderTotals(k, channels, a, b);
    assert ranking[i] in ranking && ranking[j] in ranking;
    RankedBefore(k, channels, ranking, j, i);
    hide Total, NoLater, Ahead, IsRanking;
  }

  lemma RankedBefore(k: real, channels: seq<seq<Hit>>, ranking: seq<Fused>, i: nat, j: nat)
    requires IsRanking(k, channels, ranking) && i < |ranking| && j < |ranking|
    ensures i < j ==> RankFusion.Before(ranking[i], ranking[j])
  {
  }

  // ----- channels without repetition

  ghost predicate NoRepeats(channel: seq<Hit>) {
    forall q, r | 0 <= q < r < |channel| :: channel[q].nodeId != channel[r].nodeId
  }

  /** The node stands among the first `n`. */
  predicate Among(channel: seq<Hit>, n: nat, id: string)
    requires n <= |channel|
  {
    exists r | 0 <= r < n :: channel[r].nodeId == id
  }

  lemma {:induction false} TimesOnce(channel: seq<Hit>, n: nat, id: string)
    requires NoRepeats(channel) && n <= |channel|
    ensures Times(channel, n, id) == if Among(channel, n, id) then 1 else 0
  {
    if n > 0 {
      TimesOnce(channel, n - 1, id);
      assert Among(channel, n, id) <==> Among(channel, n - 1, id) || channel[n - 1].nodeId == id;
      LastIsNew(channel, n);
    }
  }

  lemma LastIsNew(channel: seq<Hit>, n: nat)
    requires NoRepeats(channel) && 0 < n <= |channel|
    ensures !Among(channel, n - 1, channel[n - 1].nodeId)
  {
  }

  /** Wherever `b` stands, `a` stands no later. */
  ghost predicate AtLeastAsEarly(channel: seq<Hit>, a: string, b: string) {
    forall r | 0 <= r < |channel| && channel[r].nodeId == b :: exists q | 0 <= q <= r :: channel[q].nodeId == a
  }

  /** And somewhere `a` stands where `b` has not been yet. */
  ghost predicate Earlier(channel: seq<Hit>, a: string, b: string) {
    exists q | 0 <= q < |channel| :: channel[q].nodeId == a && !Among(channel, q + 1, b)
  }

  lemma EarlierLeads(channel: seq<Hit>, a: string, b: string)
    requires NoRepeats(channel) && AtLeastAsEarly(channel, a, b)
    ensures NoLater(channel, a, b)
    ensures Earlier(channel, a, b) ==> Ahead(channel, a, b)
  {
    forall n: nat | n <= |channel| ensures Times(channel, n, b) <= Times(channel, n, a) {
      TimesOnce(channel, n, a);
      TimesOnce(channel, n, b);
      if Among(channel, n, b) {
        var r :| 0 <= r < n && channel[r].nodeId == b;
        var q :| 0 <= q <= r && channel[q].nodeId == a;
      }
    }
    if Earlier(channel, a, b) {
      var q :| 0 <= q < |channel| && channel[q].nodeId == a && !Among(channel, q + 1, b);
      TimesOnce(channel, q + 1, a);
      TimesOnce(channel, q + 1, b);
    }
  }

  /** A node that stands at least as early in every channel, and earlier in one, comes first. */
  lemma EarlierFirst(
      k: real, channels: seq<seq<Hit>>, ranking: seq<Fused>, a: string, b: string, i: nat, j: nat)
    requires k >= 0.0 && IsRanking(k, channels, ranking)
    requires forall c <- channels :: NoRepeats(c) && AtLeastAsEarly(c, a, b)
    requires exists c <- channels :: Earlier(c, a, b)
    requires i < |ranking| && j < |ranking| && ranking[i].nodeId == a && ranking[j].nodeId == b
    ensures i < j
  {
    forall c <- channels ensures NoLater(c, a, b) && (Earlier(c, a, b) ==> Ahead(c, a, b)) {
      EarlierLeads(c, a, b);
    }
    hide NoRepeats, AtLeastAsEarly, Earlier, NoLater, Ahead, IsRanking;
    LeaderFirst(k, channels, ranking, a, b, i, j);
  }

  /** The ranking of a single channel is that channel. */
  lemma OneChannel(k: real, channel: seq<Hit>, ranking: seq<Fused>)
    requires k >= 0.0 && NoRepeats(channel) && IsRanking(k, [channel], ranking)
    ensures |ranking| == |channel| && forall i | 0 <= i < |channel| :: ranking[i].nodeId == channel[i].nodeId
  {
    var own := seq(|channel|, i requires 0 <= i < |channel| =>
      Fused(channel[i].nodeId, Total(k, [channel], channel[i].nodeId)));
    forall f ensures f in own <==> f in ranking {
      OneChannelMember(k, channel, f);
      if f in own {
        var i :| 0 <= i < |own| && own[i] == f;
        assert channel[i].nodeId == f.nodeId;
      }
      if Among(channel, |channel|, f.nodeId) && f.score == Total(k, [channel], f.nodeId) {
        var i :| 0 <= i < |channel| && channel[i].nodeId == f.nodeId;
        assert own[i] == f;
      }
    }
    forall i, j | 0 <= i < j < |own| ensures RankFusion.Before(own[i], own[j]) {
      InOrder(k, channel, i, j);
    }
    BeforeIsTotalOrder();
    hide Total, RankFusion.Before, NoRepeats;
    Sorting.AscendingIsUnique(own, ranking, RankFusion.Before);
  }

  lemma OneChannelMember(k: real, channel: seq<Hit>, f: Fused)
    ensures Occurs([channel], f.nodeId) <==> Among(channel, |channel|, f.nodeId)
  {
    assert channel in [channel];
  }

  lemma InOrder(k: real, channel: seq<Hit>, i: nat, j: nat)
    requires k >= 0.0 && NoRepeats(channel) && i < j < |channel|
    ensures var a, b := channel[i].nodeId, channel[j].nodeId;
            Above(Total(k, [channel], a), Total(k, [channel], b))
  {
    var a, b := channel[i].nodeId, channel[j].nodeId;
    forall r | 0 <= r < |channel| && channel[r].nodeId == b ensures exists q | 0 <= q <= r :: channel[q].nodeId == a {
      assert r == j && channel[i].nodeId == a;
    }
    assert !Among(channel, i + 1, b);
    EarlierLeads(channel, a, b);
    assert channel in [channel];
    LeaderTotals(k, [channel], a, b);
  }

  /** The ranking falls by score, infinite scores first, and rises by id among equal scores. */
  lemma RankingFalls(k: real, channels: seq<seq<Hit>>, ranking: seq<Fused>, i: nat, j: nat)
    requires IsRanking(k, channels, ranking) && i < j < |ranking|
    ensures var x, y := ranking[i].score, ranking[j].score;
            && (x.Finite? ==> y.Finite? && x.value >= y.value)
            && (x == y ==> Less(ranking[i].nodeId, ranking[j].nodeId))
  {
    RankedBefore(k, channels, ranking, i, j);
  }
}
