/** Maximal marginal relevance: greedy picks that weigh relevance against novelty. */
module Mmr {
  import opened Options
  import opened Numbers
  import Seqs
  import Sorting

  /** A hit as far as diversification looks at it; `payload` stands for the rest of the record. */
  datatype Hit = Hit(words: set<string>, score: real, payload: int)

  /** The least finite single-precision number, where the maxima start. */
  const F32_MIN: real := -340282346638528859811704183484516925440.0
  const F32_EPSILON: real := 0.00000011920928955078125

  function Jaccard(a: set<string>, b: set<string>): real {
    if a + b == {} then 0.0 else |a * b| as real / |a + b| as real
  }

  function Clamp(weight: real): (r: real)
    ensures 0.0 <= r <= 1.0 && (0.0 <= weight <= 1.0 ==> r == weight)
    ensures (weight < 0.0 ==> r == 0.0) && (weight > 1.0 ==> r == 1.0)
  {
    if weight < 0.0 then 0.0 else if weight > 1.0 then 1.0 else weight
  }

  function TopScore(hits: seq<Hit>): real {
    if hits == [] then F32_MIN else MaxReal(TopScore(hits[..|hits| - 1]), hits[|hits| - 1].score)
  }

  /** What scores are divided by. */
  function Scale(hits: seq<Hit>): (r: real)
    ensures r > 0.0
  {
    var top := TopScore(hits);
    MaxReal(if top < 0.0 then -top else top, F32_EPSILON)
  }

  // ----- what a pick is worth

  predicate Indices(s: seq<nat>, n: nat) {
    forall k | 0 <= k < |s| :: s[k] < n
  }

  /** How close a candidate is to the closest hit chosen so far. */
  function MaxSim(hits: seq<Hit>, chosen: seq<nat>, c: nat): real
    requires Indices(chosen, |hits|) && c < |hits|
  {
    if chosen == [] then 0.0
    else
      var last := chosen[|chosen| - 1];
      MaxReal(MaxSim(hits, chosen[..|chosen| - 1], c), Jaccard(hits[c].words, hits[last].words))
  }

  /** Relevance against closeness to what has been chosen. */
  function TradeOff(weight: real, relevance: real, closeness: real): real {
    weight * relevance - (1.0 - weight) * closeness
  }

  function Marginal(hits: seq<Hit>, weight: real, chosen: seq<nat>, c: nat): real
    requires Indices(chosen, |hits|) && c < |hits|
  {
    TradeOff(weight, hits[c].score / Scale(hits), MaxSim(hits, chosen, c))
  }

  /** The marginal value as the search sees it: nothing below the start of its maximum is told apart. */
  function Worth(hits: seq<Hit>, weight: real, chosen: seq<nat>, c: nat): real
    requires Indices(chosen, |hits|) && c < |hits|
  {
    MaxReal(F32_MIN, Marginal(hits, weight, chosen, c))
  }

  /** `best` is worth most after `chosen`, and comes first among the equals. */
  ghost predicate FirstBest(hits: seq<Hit>, weight: real, chosen: seq<nat>, best: nat)
    requires Indices(chosen, |hits|)
  {
    && best < |hits| && best !in chosen
    && forall j: nat | j < |hits| && j !in chosen ::
         || Worth(hits, weight, chosen, j) < Worth(hits, weight, chosen, best)
         || (Worth(hits, weight, chosen, j) == Worth(hits, weight, chosen, best) && best <= j)
  }

  /** Every pick is the first best of what its predecessors left. */
  ghost predicate Greedy(hits: seq<Hit>, weight: real, chosen: seq<nat>) {
    Indices(chosen, |hits|) && forall k | 0 <= k < |chosen| :: FirstBest(hits, weight, chosen[..k], chosen[k])
  }

  lemma GreedyIsDistinct(hits: seq<Hit>, weight: real, chosen: seq<nat>)
    requires Greedy(hits, weight, chosen)
    ensures Seqs.Distinct(chosen)
  {
    forall i, j | 0 <= i < j < |chosen| ensures chosen[i] != chosen[j] {
      assert FirstBest(hits, weight, chosen[..j], chosen[j]);
      assert chosen[..j][i] == chosen[i];
    }
  }

  /** The picks are determined: a shorter run is the start of a longer one. */
  lemma {:induction false} GreedyIsPrefix(hits: seq<Hit>, weight: real, short: seq<nat>, long: seq<nat>)
    requires Greedy(hits, weight, short) && Greedy(hits, weight, long) && |short| <= |long|
    ensures short == long[..|short|]
    decreases |short|
  {
    if short != [] {
      var n := |short| - 1;
      ShorterRun(hits, weight, short, n);
      GreedyIsPrefix(hits, weight, short[..n], long);
      assert FirstBest(hits, weight, short[..n], short[n]);
      assert FirstBest(hits, weight, long[..n], long[n]);
      assert short[n] == long[n];
      Seqs.TakeStep(short, n);
      Seqs.TakeStep(long, n);
      assert short[..|short|] == short;
    }
  }

  lemma ShorterRun(hits: seq<Hit>, weight: real, chosen: seq<nat>, n: nat)
    requires Greedy(hits, weight, chosen) && n <= |chosen|
    ensures Greedy(hits, weight, chosen[..n])
  {
    forall k | 0 <= k < n ensures FirstBest(hits, weight, chosen[..n][..k], chosen[..n][k]) {
      assert chosen[..n][..k] == chosen[..k];
      assert FirstBest(hits, weight, chosen[..k], chosen[k]);
    }
  }

  lemma LongerRun(hits: seq<Hit>, weight: real, chosen: seq<nat>, best: nat)
    requires Greedy(hits, weight, chosen) && FirstBest(hits, weight, chosen, best)
    ensures Greedy(hits, weight, chosen + [best])
  {
    var longer := chosen + [best];
    forall k | 0 <= k < |longer| ensures FirstBest(hits, weight, longer[..k], longer[k]) {
      if k < |chosen| {
        assert longer[..k] == chosen[..k];
        assert FirstBest(hits, weight, chosen[..k], chosen[k]);
      } else {
        assert longer[..k] == chosen;
      }
    }
  }

  // ----- the search

  /** The candidates left: those not chosen, in ascending order. */
  ghost predicate Left(remaining: seq<nat>, chosen: seq<nat>, n: nat) {
    && (forall j: nat :: j in remaining <==> j < n && j !in chosen)
    && (forall a, b | 0 <= a < b < |remaining| :: remaining[a] < remaining[b])
  }

  method FindBest(hits: seq<Hit>, weight: real, chosen: seq<nat>, remaining: seq<nat>) returns (best: nat)
    requires Indices(chosen, |hits|) && Left(remaining, chosen, |hits|) && remaining != []
    ensures FirstBest(hits, weight, chosen, best)
  {
    best := remaining[0];
    assert best in remaining;
    forall a | 0 <= a < |remaining| ensures remaining[a] < |hits| {
      assert remaining[a] in remaining;
    }
    var bestScore := F32_MIN;
    for i := 0 to |remaining|
      invariant best in remaining && bestScore >= F32_MIN
      invariant Indices(remaining, |hits|)
      invariant forall a | 0 <= a < i && remaining[a] < best :: Worth(hits, weight, chosen, remaining[a]) < bestScore
      invariant forall a | 0 <= a < i :: Worth(hits, weight, chosen, remaining[a]) <= bestScore
      invariant bestScore == F32_MIN ==> best == remaining[0]
      invariant bestScore > F32_MIN ==> bestScore == Worth(hits, weight, chosen, best)
      invariant bestScore == F32_MIN || exists a | 0 <= a < i :: remaining[a] == best
    {
      assert remaining[i] in remaining;
      var mmr := Marginal(hits, weight, chosen, remaining[i]);
      if mmr > bestScore {
        bestScore := mmr;
        best := remaining[i];
      }
    }
    forall j: nat | j < |hits| && j !in chosen
      ensures Worth(hits, weight, chosen, j) < Worth(hits, weight, chosen, best)
           || (Worth(hits, weight, chosen, j) == Worth(hits, weight, chosen, best) && best <= j)
    {
      assert j in remaining;
      var a :| 0 <= a < |remaining| && remaining[a] == j;
    }
  }

  function Except(s: seq<nat>, x: nat): seq<nat> {
    if s == [] then []
    else if s[0] == x then Except(s[1..], x)
    else [s[0]] + Except(s[1..], x)
  }

  lemma {:induction false} ExceptKeepsOrder(s: seq<nat>, x: nat)
    requires forall a, b | 0 <= a < b < |s| :: s[a] < s[b]
    ensures forall j :: j in Except(s, x) <==> j in s && j != x
    ensures forall a, b | 0 <= a < b < |Except(s, x)| :: Except(s, x)[a] < Except(s, x)[b]
  {
    if s != [] {
      ExceptKeepsOrder(s[1..], x);
      var rest := Except(s[1..], x);
      forall b | 0 <= b < |rest| ensures s[0] < rest[b] {
        assert rest[b] in rest;
      }
    }
  }

  function UpTo(n: nat): (r: seq<nat>)
    ensures |r| == n && forall i | 0 <= i < n :: r[i] == i
  {
    seq(n, i => i)
  }

  /** The loop of `mmr_diversify` over index lists. */
  method Select(hits: seq<Hit>, limit: nat, weight: real) returns (chosen: seq<nat>)
    ensures Greedy(hits, weight, chosen)
    ensures |chosen| == if limit <= |hits| then limit else |hits|
  {
    chosen := [];
    var remaining := UpTo(|hits|);
    forall j: nat ensures j in remaining <==> j < |hits| {
      if j < |hits| { assert remaining[j] == j; }
    }
    while |chosen| < limit && remaining != []
      invariant |chosen| <= limit && |chosen| + |remaining| == |hits|
      invariant Greedy(hits, weight, chosen) && Left(remaining, chosen, |hits|)
      decreases |remaining|
    {
      var best := FindBest(hits, weight, chosen, remaining);
      LongerRun(hits, weight, chosen, best);
      ExceptKeepsOrder(remaining, best);
      ExceptDropsOne(remaining, best);
      remaining := Except(remaining, best);
      chosen := chosen + [best];
    }
  }

  lemma {:induction false} ExceptDropsOne(s: seq<nat>, x: nat)
    requires x in s && forall a, b | 0 <= a < b < |s| :: s[a] < s[b]
    ensures |Except(s, x)| == |s| - 1
  {
    if s[0] == x {
      ExceptNothing(s[1..], x);
    } else {
      ExceptDropsOne(s[1..], x);
    }
  }

  lemma {:induction false} ExceptNothing(s: seq<nat>, x: nat)
    requires x !in s
    ensures Except(s, x) == s
  {
    if s != [] {
      ExceptNothing(s[1..], x);
      Seqs.HeadTail(s);
    }
  }

  function Gather(hits: seq<Hit>, chosen: seq<nat>): seq<Hit>
    requires Indices(chosen, |hits|)
  {
    seq(|chosen|, k requires 0 <= k < |chosen| => hits[chosen[k]])
  }

  /** Hits leave their slots one by one; a slot taken twice would give nothing the second time. */
  method TakeSlots(hits: seq<Hit>, chosen: seq<nat>) returns (picked: seq<Hit>)
    requires Indices(chosen, |hits|) && Seqs.Distinct(chosen)
    ensures picked == Gather(hits, chosen)
  {
    var slots := seq(|hits|, i requires 0 <= i < |hits| => Some(hits[i]));
    picked := [];
    for k := 0 to |chosen|
      invariant |slots| == |hits| && |picked| == k
      invariant forall i | 0 <= i < |hits| :: slots[i] == if i in chosen[..k] then None else Some(hits[i])
      invariant forall i | 0 <= i < k :: picked[i] == hits[chosen[i]]
    {
      var slot := chosen[k];
      Seqs.TakeStep(chosen, k);
      if slots[slot].Some? { picked := picked + [slots[slot].value]; }
      slots := slots[slot := None];
    }
  }

  /** The greedy picks, as many as limit and hits allow. */
  ghost predicate IsDiverse(hits: seq<Hit>, limit: nat, weight: real, picked: seq<Hit>) {
    exists chosen: seq<nat> ::
      && Greedy(hits, weight, chosen) && picked == Gather(hits, chosen)
      && |chosen| == if limit <= |hits| then limit else |hits|
  }

  /** `mmr_diversify` */
  method Diversify(hits: seq<Hit>, limit: nat, weight: real) returns (picked: seq<Hit>)
    ensures |hits| <= 1 || limit <= 1 ==> picked == Seqs.Take(hits, limit)
    ensures |hits| > 1 && limit > 1 ==> IsDiverse(hits, limit, Clamp(weight), picked)
  {
    if |hits| <= 1 || limit <= 1 {
      picked := if |hits| <= limit then hits else hits[..limit];
    } else {
      var selected := Select(hits, limit, Clamp(weight));
      GreedyIsDistinct(hits, Clamp(weight), selected);
      picked := TakeSlots(hits, selected);
    }
  }

  /** `mmr_diversify_when_large` */
  method DiversifyWhenLarge(hits: seq<Hit>, limit: nat, weight: real, minCandidates: nat) returns (picked: seq<Hit>)
    ensures |hits| < minCandidates || |hits| <= 1 || limit <= 1 ==> picked == Seqs.Take(hits, limit)
    ensures |hits| >= minCandidates && |hits| > 1 && limit > 1 ==> IsDiverse(hits, limit, Clamp(weight), picked)
  {
    if |hits| < (if minCandidates >= 1 then minCandidates else 1) {
      picked := if |hits| <= limit then hits else hits[..limit];
    } else {
      picked := Diversify(hits, limit, weight);
    }
  }

  // ----- relevance alone

  /** Higher keys first: the comparison of a stable sort of positions. */
  predicate Higher(keys: seq<real>, i: nat, j: nat) {
    if i < |keys| && j < |keys| then keys[i] > keys[j] else i < |keys| <= j
  }

  /** Equal keys in order of position. */
  predicate HigherOrEarlier(keys: seq<real>, i: nat, j: nat) {
    Higher(keys, i, j) || (!Higher(keys, j, i) && i < j)
  }

  /** The positions, stably sorted by descending key. */
  function StableOrder(keys: seq<real>): (r: seq<nat>)
    ensures |r| == |keys|
  {
    Sorting.SortKeeps(UpTo(|keys|), ByKey(keys));
    Sorting.Sort(UpTo(|keys|), ByKey(keys))
  }

  function ByKey(keys: seq<real>): (nat, nat) -> bool {
    (i: nat, j: nat) => Higher(keys, i, j)
  }

  function Strict(keys: seq<real>): (nat, nat) -> bool {
    (i: nat, j: nat) => HigherOrEarlier(keys, i, j)
  }

  lemma StrictIsTotalOrder(keys: seq<real>)
    ensures Sorting.WeakOrder(Strict(keys))
    ensures forall i, j :: i != j ==> Strict(keys)(i, j) || Strict(keys)(j, i)
  {
  }

  lemma {:induction false} InsertEarlier(keys: seq<real>, x: nat, s: seq<nat>)
    requires forall k | 0 <= k < |s| :: x < s[k]
    ensures Sorting.Insert(x, s, ByKey(keys)) == Sorting.Insert(x, s, Strict(keys))
  {
    if s != [] { InsertEarlier(keys, x, s[1..]); }
  }

  lemma {:induction false} StableIsStrict(keys: seq<real>, s: seq<nat>)
    requires forall a, b | 0 <= a < b < |s| :: s[a] < s[b]
    ensures Sorting.Sort(s, ByKey(keys)) == Sorting.Sort(s, Strict(keys))
  {
    if s != [] {
      StableIsStrict(keys, s[1..]);
      var rest := Sorting.Sort(s[1..], Strict(keys));
      Sorting.SortMembers(s[1..], Strict(keys));
      forall k | 0 <= k < |rest| ensures s[0] < rest[k] {
        assert rest[k] in s[1..];
      }
      InsertEarlier(keys, s[0], rest);
    }
  }

  /** What makes the stable order what it is: all positions, strictly descending with ties by position. */
  lemma StableOrderIsStrict(keys: seq<real>)
    ensures multiset(StableOrder(keys)) == multiset(UpTo(|keys|))
    ensures forall j: nat :: j in StableOrder(keys) <==> j < |keys|
    ensures Sorting.Sorted(StableOrder(keys), Strict(keys))
    ensures Seqs.Distinct(StableOrder(keys))
  {
    var all := UpTo(|keys|);
    var order := StableOrder(keys);
    StrictIsTotalOrder(keys);
    StableIsStrict(keys, all);
    Sorting.SortKeeps(all, Strict(keys));
    Sorting.SortMembers(all, Strict(keys));
    Sorting.SortSorts(all, Strict(keys));
    forall j: nat ensures j in order <==> j < |keys| {
      if j < |keys| { assert all[j] == j; }
    }
    forall p, q | 0 <= p < q < |order| ensures order[p] != order[q] {
      assert order[p] in order;
      if order[p] == order[q] {
        Seqs.TwiceIn(order, p, q);
        Seqs.OnceIn(all, order[p]);
      }
    }
  }

  function Scores(hits: seq<Hit>): (scores: seq<real>)
    ensures |scores| == |hits|
  {
    seq(|hits|, i requires 0 <= i < |hits| => hits[i].score)
  }

  /** Scores as the search sees them when only relevance counts. */
  function Levels(hits: seq<Hit>): (levels: seq<real>)
    ensures |levels| == |hits|
  {
    seq(|hits|, i requires 0 <= i < |hits| => MaxReal(F32_MIN, hits[i].score / Scale(hits)))
  }

  lemma RelevantWorth(hits: seq<Hit>, chosen: seq<nat>, c: nat)
    requires Indices(chosen, |hits|) && c < |hits|
    ensures Worth(hits, 1.0, chosen, c) == Levels(hits)[c]
  {
    hide Scale, MaxSim;
  }

  lemma StableRest(keys: seq<real>, k: nat, j: nat)
    requires k < |keys| && j < |keys| && j !in StableOrder(keys)[..k]
    ensures j == StableOrder(keys)[k] || HigherOrEarlier(keys, StableOrder(keys)[k], j)
  {
    hide StableOrder, HigherOrEarlier;
    var order := StableOrder(keys);
    StableOrderIsStrict(keys);
    StrictIsTotalOrder(keys);
    assert j in order;
    var q: nat :| q < |order| && order[q] == j;
    assert k <= q by {
      assert forall a: nat | a < k :: order[a] in order[..k];
    }
    assert j == order[k] || Strict(keys)(order[k], j);
  }

  lemma StableIsFirstBest(hits: seq<Hit>, k: nat)
    requires k < |hits| && Indices(StableOrder(Levels(hits)), |hits|)
    ensures FirstBest(hits, 1.0, StableOrder(Levels(hits))[..k], StableOrder(Levels(hits))[k])
  {
    hide StableOrder, Worth, Levels;
    var keys := Levels(hits);
    var order := StableOrder(keys);
    StableOrderIsStrict(keys);
    assert order[k] !in order[..k];
    forall j: nat | j < |hits| ensures Worth(hits, 1.0, order[..k], j) == keys[j] {
      RelevantWorth(hits, order[..k], j);
    }
    forall j: nat | j < |hits| && j !in order[..k] ensures j == order[k] || HigherOrEarlier(keys, order[k], j) {
      StableRest(keys, k, j);
    }
  }

  lemma LevelOrderIsGreedy(hits: seq<Hit>)
    ensures Greedy(hits, 1.0, StableOrder(Levels(hits)))
  {
    hide StableOrder, FirstBest;
    var order := StableOrder(Levels(hits));
    StableOrderIsStrict(Levels(hits));
    forall k | 0 <= k < |order| ensures order[k] < |hits| {
      assert order[k] in order;
    }
    forall k | 0 <= k < |order| ensures FirstBest(hits, 1.0, order[..k], order[k]) {
      StableIsFirstBest(hits, k);
    }
  }

  /** With weight one on relevance the picks are the stable descending sort, truncated. */
  lemma RelevanceIsStableSort(hits: seq<Hit>, weight: real, chosen: seq<nat>)
    requires weight >= 1.0 && Greedy(hits, Clamp(weight), chosen) && |chosen| <= |hits|
    ensures chosen == StableOrder(Levels(hits))[..|chosen|]
  {
    LevelOrderIsGreedy(hits);
    StableOrderIsStrict(Levels(hits));
    GreedyIsPrefix(hits, 1.0, chosen, StableOrder(Levels(hits)));
  }

  /** A higher score after a lower one, both too low for the search to tell apart. */
  ghost predicate LostInversion(hits: seq<Hit>, i: nat, j: nat) {
    i < j < |hits| && hits[i].score < hits[j].score && hits[j].score / Scale(hits) <= F32_MIN
  }

  lemma DivideOrder(a: real, b: real, d: real)
    requires d > 0.0
    ensures a < b <==> a / d < b / d
  {
    if a < b { assert b / d - a / d == (b - a) / d > 0.0; }
    if a > b { assert a / d - b / d == (a - b) / d > 0.0; }
  }

  lemma LevelsAgree(hits: seq<Hit>, i: nat, j: nat)
    requires i < j < |hits| && !LostInversion(hits, i, j)
    ensures Strict(Levels(hits))(i, j) == Strict(Scores(hits))(i, j)
    ensures Strict(Levels(hits))(j, i) == Strict(Scores(hits))(j, i)
  {
    DivideOrder(hits[i].score, hits[j].score, Scale(hits));
    DivideOrder(hits[j].score, hits[i].score, Scale(hits));
  }

  lemma StableBefore(keys: seq<real>, p: nat, q: nat)
    requires p < |keys| && q < |keys| && HigherOrEarlier(keys, StableOrder(keys)[p], StableOrder(keys)[q])
    ensures p < q
  {
    hide StableOrder;
    StableOrderIsStrict(keys);
    StrictIsTotalOrder(keys);
    assert Strict(keys)(StableOrder(keys)[p], StableOrder(keys)[q]);
  }

  /** The hits the search takes before hit `i` when only relevance counts. */
  ghost function Ahead(hits: seq<Hit>, i: nat): set<nat> {
    set k: nat | k < |hits| && HigherOrEarlier(Levels(hits), k, i)
  }

  lemma StableAt(keys: seq<real>, p: nat, q: nat)
    requires p < |keys| && q < |keys|
    ensures HigherOrEarlier(keys, StableOrder(keys)[p], StableOrder(keys)[q]) <==> p < q
  {
    if p < q {
      hide HigherOrEarlier, StableOrder;
      StableOrderIsStrict(keys);
      StrictIsTotalOrder(keys);
      assert !Strict(keys)(StableOrder(keys)[q], StableOrder(keys)[p]);
      assert Strict(keys)(StableOrder(keys)[p], StableOrder(keys)[q]);
    } else if HigherOrEarlier(keys, StableOrder(keys)[p], StableOrder(keys)[q]) {
      StableBefore(keys, p, q);
      assert false;
    }
  }

  /** So a hit stands where the number of hits ahead of it says. */
  lemma AheadIsPosition(hits: seq<Hit>, p: nat)
    requires p < |hits|
    ensures |Ahead(hits, StableOrder(Levels(hits))[p])| == p
  {
    var keys := Levels(hits);
    var order := StableOrder(keys);
    var ahead := Ahead(hits, order[p]);
    StableOrderIsStrict(keys);
    hide StableOrder, HigherOrEarlier, Levels;
    forall k: nat ensures k in ahead <==> k in order[..p] {
      if k in order[..p] {
        var q: nat :| q < p && order[..p][q] == k;
        assert order[q] == k && k in order;
        StableAt(keys, q, p);
      }
      if k in ahead {
        assert k in order;
        var q: nat :| q < |order| && order[q] == k;
        StableAt(keys, q, p);
        assert order[..p][q] == k;
      }
    }
    Seqs.DistinctSize(order[..p]);
    assert ahead == Seqs.Elements(order[..p]);
  }

  /** Levels and scores rank two hits differently only if they are a lost inversion. */
  lemma Disagree(hits: seq<Hit>, i: nat, j: nat)
    requires i < |hits| && j < |hits|
    ensures HigherOrEarlier(Levels(hits), i, j) && HigherOrEarlier(Scores(hits), j, i) <==> LostInversion(hits, i, j)
  {
    if i < j {
      if !LostInversion(hits, i, j) {
        LevelsAgree(hits, i, j);
      }
      DivideOrder(hits[i].score, hits[j].score, Scale(hits));
    } else if j < i {
      DivideOrder(hits[j].score, hits[i].score, Scale(hits));
      DivideOrder(hits[i].score, hits[j].score, Scale(hits));
    }
  }

  /** No pick within the limit is the lower half of a lost inversion. */
  ghost predicate NoneLost(hits: seq<Hit>, limit: nat) {
    forall i: nat, j: nat | LostInversion(hits, i, j) :: |Ahead(hits, i)| >= limit
  }

  lemma NoneLostAt(hits: seq<Hit>, limit: nat, i: nat, j: nat)
    requires NoneLost(hits, limit) && |Ahead(hits, i)| < limit
    ensures !LostInversion(hits, i, j)
  {
  }

  lemma NotPicked(keys: seq<real>, p: nat)
    requires p < |keys|
    ensures StableOrder(keys)[p] < |keys| && StableOrder(keys)[p] !in StableOrder(keys)[..p]
  {
    StableOrderIsStrict(keys);
    var order := StableOrder(keys);
    assert order[p] in order;
    assert forall a | 0 <= a < p :: order[..p][a] == order[a];
  }

  lemma SamePick(hits: seq<Hit>, p: nat, limit: nat)
    requires p < limit <= |hits| && NoneLost(hits, limit)
    requires StableOrder(Levels(hits))[..p] == StableOrder(Scores(hits))[..p]
    ensures StableOrder(Levels(hits))[p] == StableOrder(Scores(hits))[p]
  {
    hide *;
    var i, j := StableOrder(Levels(hits))[p], StableOrder(Scores(hits))[p];
    NotPicked(Levels(hits), p);
    NotPicked(Scores(hits), p);
    StableRest(Levels(hits), p, j);
    StableRest(Scores(hits), p, i);
    AheadIsPosition(hits, p);
    NoneLostAt(hits, limit, i, j);
    Disagree(hits, i, j);
  }

  lemma {:induction false} SamePrefix(hits: seq<Hit>, p: nat, limit: nat)
    requires p <= limit <= |hits| && NoneLost(hits, limit)
    ensures StableOrder(Levels(hits))[..p] == StableOrder(Scores(hits))[..p]
  {
    hide *;
    if p > 0 {
      SamePrefix(hits, p - 1, limit);
      SamePick(hits, p - 1, limit);
      Seqs.TakeStep(StableOrder(Levels(hits)), p - 1);
      Seqs.TakeStep(StableOrder(Scores(hits)), p - 1);
    }
  }

  lemma LostWithin(hits: seq<Hit>, limit: nat, i: nat, j: nat)
    requires limit <= |hits| && LostInversion(hits, i, j) && |Ahead(hits, i)| < limit
    ensures StableOrder(Levels(hits))[..limit] != StableOrder(Scores(hits))[..limit]
  {
    var byLevel, byScore := StableOrder(Levels(hits)), StableOrder(Scores(hits));
    StableOrderIsStrict(Levels(hits));
    StableOrderIsStrict(Scores(hits));
    Disagree(hits, i, j);
    assert i in byLevel && j in byScore;
    hide *;
    var p: nat :| p < |byLevel| && byLevel[p] == i;
    var q: nat :| q < |byScore| && byScore[q] == j;
    AheadIsPosition(hits, p);
    if byScore[p] == i {
      StableAt(Scores(hits), q, p);
      StableAt(Levels(hits), p, q);
      Seqs.DifferAt(byLevel, byScore, limit, q);
    } else {
      Seqs.DifferAt(byLevel, byScore, limit, p);
    }
  }

  /**
   They are the stable sort by score itself, truncated, exactly if no hit among them is the
   lower half of a lost inversion.
   */
  lemma ScoreOrderIff(hits: seq<Hit>, weight: real, chosen: seq<nat>)
    requires weight >= 1.0 && Greedy(hits, Clamp(weight), chosen) && |chosen| <= |hits|
    ensures chosen == StableOrder(Scores(hits))[..|chosen|] <==> NoneLost(hits, |chosen|)
  {
    RelevanceIsStableSort(hits, weight, chosen);
    if NoneLost(hits, |chosen|) {
      SamePrefix(hits, |chosen|, |chosen|);
    } else {
      var i: nat, j: nat :| LostInversion(hits, i, j) && |Ahead(hits, i)| < |chosen|;
      LostWithin(hits, |chosen|, i, j);
    }
  }

  /** Two scores far below a best score of zero, the higher one last. */
  function LostHits(): seq<Hit> {
    var far := 100000000000000000000000000000000000000.0;
    [Hit({}, 0.0, 0), Hit({}, -far - far, 1), Hit({}, -far, 2)]
  }

  /** Their two best picks are not the two best scores. */
  lemma LostHere(weight: real, chosen: seq<nat>)
    requires weight >= 1.0 && Greedy(LostHits(), Clamp(weight), chosen) && |chosen| == 2
    ensures chosen != StableOrder(Scores(LostHits()))[..2]
  {
    var hits := LostHits();
    LostScale();
    assert LostInversion(hits, 1, 2) by {
      var far := 100000000000000000000000000000000000000.0;
      TooFar(far, Scale(hits));
    }
    assert Ahead(hits, 1) <= {0};
    AtMostOne(Ahead(hits, 1));
    ScoreOrderIff(hits, weight, chosen);
  }

  lemma LostScale()
    ensures Scale(LostHits()) == F32_EPSILON
  {
    var hits := LostHits();
    assert TopScore([]) == F32_MIN;
    assert hits[..3] == hits && hits[..2][..1] == hits[..1] && hits[..1][..0] == [];
    assert TopScore(hits[..1]) == 0.0;
    assert TopScore(hits[..2]) == 0.0;
    assert TopScore(hits) == 0.0;
  }

  lemma TooFar(far: real, d: real)
    requires far == 100000000000000000000000000000000000000.0 && d == F32_EPSILON
    ensures -far / d <= F32_MIN
  {
  }

  lemma AtMostOne(s: set<nat>)
    requires s <= {0}
    ensures |s| <= 1
  {
    assert s == {} || s == {0};
  }

  /** Nothing beats the first hit: others score no higher, or too low for the search to tell. */
  ghost predicate FirstHolds(hits: seq<Hit>, weight: real, j: nat)
    requires j < |hits|
  {
    hits[j].score <= hits[0].score || weight * (hits[j].score / Scale(hits)) <= F32_MIN
  }

  lemma FirstHoldsByWorth(hits: seq<Hit>, weight: real, j: nat)
    requires weight > 0.0 && j < |hits|
    ensures FirstHolds(hits, weight, j) <==> Worth(hits, weight, [], j) <= Worth(hits, weight, [], 0)
  {
    hide Worth, Scale;
    WorthUnchosen(hits, weight, 0);
    WorthUnchosen(hits, weight, j);
    LevelledWorth(hits[0].score, hits[j].score, Scale(hits), weight);
  }

  lemma WorthUnchosen(hits: seq<Hit>, weight: real, c: nat)
    requires c < |hits|
    ensures Worth(hits, weight, [], c) == MaxReal(F32_MIN, weight * (hits[c].score / Scale(hits)))
  {
    hide Scale;
    assert MaxSim(hits, [], c) == 0.0;
  }

  lemma LevelledWorth(a: real, b: real, d: real, weight: real)
    requires d > 0.0 && weight > 0.0
    ensures b <= a || weight * (b / d) <= F32_MIN
       <==> MaxReal(F32_MIN, weight * (b / d)) <= MaxReal(F32_MIN, weight * (a / d))
  {
    DivideOrder(a, b, d);
    ScaleOrder(a / d, b / d, weight);
  }

  lemma ScaleOrder(a: real, b: real, weight: real)
    requires weight > 0.0
    ensures a < b <==> weight * a < weight * b
  {
    if a < b { assert weight * b - weight * a == weight * (b - a) > 0.0; }
    if a > b { assert weight * a - weight * b == weight * (a - b) > 0.0; }
  }

  /**
   A limit of one takes the first hit as it comes: the first pick of every larger limit too
   exactly if relevance does not count or nothing beats it.
   */
  lemma FirstPickIff(hits: seq<Hit>, weight: real, chosen: seq<nat>)
    requires Greedy(hits, Clamp(weight), chosen) && chosen != []
    ensures chosen[0] == 0
       <==> weight <= 0.0 || forall j: nat | j < |hits| :: FirstHolds(hits, Clamp(weight), j)
  {
    assert chosen[..0] == [];
    assert FirstBest(hits, Clamp(weight), [], chosen[0]);
    if weight <= 0.0 {
      NoWeight(hits, 0);
      NoWeight(hits, chosen[0]);
    } else {
      forall j: nat | j < |hits|
        ensures FirstHolds(hits, Clamp(weight), j)
           <==> Worth(hits, Clamp(weight), [], j) <= Worth(hits, Clamp(weight), [], 0) {
        FirstHoldsByWorth(hits, Clamp(weight), j);
      }
    }
  }

  lemma NoWeight(hits: seq<Hit>, j: nat)
    requires j < |hits|
    ensures Worth(hits, 0.0, [], j) == 0.0
  {
    hide Scale;
    assert 0.0 * (hits[j].score / Scale(hits)) == 0.0;
    assert MaxSim(hits, [], j) == 0.0;
  }

  /** A first hit that is beaten. */
  function BeatenHits(): seq<Hit> {
    [Hit({}, 0.0, 0), Hit({}, 1.0, 1)]
  }

  /** Whenever relevance counts, every limit but one passes it over. */
  lemma BeatenHere(weight: real, chosen: seq<nat>)
    requires weight > 0.0 && Greedy(BeatenHits(), Clamp(weight), chosen) && chosen != []
    ensures chosen[0] != 0
  {
    var hits := BeatenHits();
    ScaleOrder(0.0, 1.0 / Scale(hits), Clamp(weight));
    DivideOrder(0.0, 1.0, Scale(hits));
    assert !FirstHolds(hits, Clamp(weight), 1);
    FirstPickIff(hits, weight, chosen);
  }
}
