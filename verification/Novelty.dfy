/** What diversification promises in terms of the hits' words and scores. */
module Novelty {
  import opened Mmr
  import opened Numbers
  import Seqs
  import Sets

  // ----- similarity

  /** The shared fraction of the words; nothing for two hits without words. */
  lemma JaccardIsFraction(a: set<string>, b: set<string>)
    ensures 0.0 <= Jaccard(a, b) <= 1.0 && Jaccard(a, b) == Jaccard(b, a)
    ensures Jaccard(a, b) == 0.0 <==> a !! b
    ensures Jaccard(a, b) == 1.0 <==> a == b && a != {}
    ensures a + b != {} ==> Jaccard(a, b) * |a + b| as real == |a * b| as real
  {
    assert a + b == b + a && a * b == b * a;
    if a + b != {} {
      Sets.Fraction(a, b);
    } else {
      assert a == {} && b == {};
    }
  }

  function SimTo(hits: seq<Hit>, c: nat, d: nat): real
    requires c < |hits| && d < |hits|
  {
    Jaccard(hits[c].words, hits[d].words)
  }

  /** `x` is how close hit `c` is to the closest of the chosen ones: a bound that is attained. */
  ghost predicate Closeness(hits: seq<Hit>, chosen: seq<nat>, c: nat, x: real) {
    && Indices(chosen, |hits|) && c < |hits|
    && if chosen == [] then x == 0.0
       else
         && (forall d <- chosen :: d < |hits| && SimTo(hits, c, d) <= x)
         && (exists d <- chosen :: d < |hits| && SimTo(hits, c, d) == x)
  }

  lemma {:induction false} ClosenessIs(hits: seq<Hit>, chosen: seq<nat>, c: nat)
    requires Indices(chosen, |hits|) && c < |hits|
    ensures Closeness(hits, chosen, c, MaxSim(hits, chosen, c)) && 0.0 <= MaxSim(hits, chosen, c) <= 1.0
  {
    if chosen != [] {
      var n := |chosen| - 1;
      var init, last := chosen[..n], chosen[n];
      ClosenessIs(hits, init, c);
      JaccardIsFraction(hits[c].words, hits[last].words);
      assert last in chosen && forall d <- init :: d in chosen;
      assert forall d <- chosen :: d in init || d == last;
      var x := MaxSim(hits, chosen, c);
      if init != [] {
        var d :| d in init && d < |hits| && SimTo(hits, c, d) == MaxSim(hits, init, c);
        assert d in chosen;
      }
      assert SimTo(hits, c, last) <= x;
    }
  }

  lemma ClosenessIsUnique(hits: seq<Hit>, chosen: seq<nat>, c: nat, x: real)
    requires Closeness(hits, chosen, c, x)
    ensures x == MaxSim(hits, chosen, c) && 0.0 <= x <= 1.0
  {
    ClosenessIs(hits, chosen, c);
  }

  // ----- what scores are scaled by

  /** What scores are scaled by: the best score among the hits. */
  lemma {:induction false} TopIsBest(hits: seq<Hit>)
    requires hits != [] && forall i | 0 <= i < |hits| :: hits[i].score >= F32_MIN
    ensures exists i :: 0 <= i < |hits| && hits[i].score == TopScore(hits)
    ensures forall i | 0 <= i < |hits| :: hits[i].score <= TopScore(hits)
  {
    var n := |hits| - 1;
    if n > 0 {
      TopIsBest(hits[..n]);
      var i :| 0 <= i < n && hits[..n][i].score == TopScore(hits[..n]);
      assert hits[i].score == TopScore(hits[..n]);
      forall k | 0 <= k < n ensures hits[k].score <= TopScore(hits) {
        assert hits[..n][k].score <= TopScore(hits[..n]);
      }
    } else {
      assert hits[..0] == [] && TopScore(hits[..0]) == F32_MIN;
      assert hits[0].score == TopScore(hits);
    }
  }

  // ----- who is picked, and who is passed over

  /** At pick `k`, hit `j` is passed over for `p`, with these closenesses. */
  ghost predicate PassedOver(
      hits: seq<Hit>, chosen: seq<nat>, k: nat, p: nat, x: real, j: nat, y: real)
  {
    && k < |chosen| && chosen[k] == p && j < |hits| && j !in chosen[..k] && j != p
    && Closeness(hits, chosen[..k], p, x) && Closeness(hits, chosen[..k], j, y)
  }

  /** What the trade-off makes of a hit that is `x` close. */
  function Value(hits: seq<Hit>, weight: real, c: nat, x: real): real
    requires c < |hits|
  {
    TradeOff(weight, hits[c].score / Scale(hits), x)
  }

  /** So low that the search cannot tell it from its start value. */
  predicate TooLow(hits: seq<Hit>, weight: real, c: nat, x: real)
    requires c < |hits|
  {
    Value(hits, weight, c, x) <= F32_MIN
  }

  lemma WorthWith(hits: seq<Hit>, weight: real, chosen: seq<nat>, c: nat, x: real)
    requires Closeness(hits, chosen, c, x)
    ensures Worth(hits, weight, chosen, c) == MaxReal(F32_MIN, Value(hits, weight, c, x))
  {
    ClosenessIsUnique(hits, chosen, c, x);
    hide Scale, MaxSim, Closeness, TradeOff;
  }

  /** The rule of the greedy search, in terms of scores and closeness. */
  lemma PickRule(
      hits: seq<Hit>, weight: real, chosen: seq<nat>, k: nat, p: nat, x: real, j: nat, y: real)
    requires Greedy(hits, weight, chosen) && PassedOver(hits, chosen, k, p, x, j, y)
    ensures p < |hits|
    ensures || Value(hits, weight, j, y) < Value(hits, weight, p, x)
            || (p < j && (Value(hits, weight, j, y) == Value(hits, weight, p, x) || TooLow(hits, weight, j, y)))
  {
    hide Scale, MaxSim, Closeness, Worth, Value;
    assert FirstBest(hits, weight, chosen[..k], chosen[k]);
    WorthWith(hits, weight, chosen[..k], p, x);
    WorthWith(hits, weight, chosen[..k], j, y);
  }

  lemma ValueOrder(hits: seq<Hit>, weight: real, p: nat, x: real, j: nat, y: real)
    requires p < |hits| && j < |hits|
    ensures hits[p].score == hits[j].score && weight < 1.0 && y < x ==>
      Value(hits, weight, p, x) < Value(hits, weight, j, y)
    ensures 0.0 < weight <= 1.0 && hits[p].score < hits[j].score && y <= x ==>
      Value(hits, weight, p, x) < Value(hits, weight, j, y)
    ensures weight == 0.0 ==> Value(hits, weight, p, x) == -x
  {
    hide Scale, TradeOff;
    var a, b := hits[p].score / Scale(hits), hits[j].score / Scale(hits);
    DivideOrder(hits[p].score, hits[j].score, Scale(hits));
    if hits[p].score == hits[j].score && weight < 1.0 && y < x { NovelWins(weight, a, x, y); }
    if 0.0 < weight <= 1.0 && a < b && y <= x { BetterWins(weight, a, x, b, y); }
    NoRelevance(a, x);
  }

  lemma TradeOffIs(w: real, v: real, a: real, x: real)
    requires v == 1.0 - w
    ensures TradeOff(w, a, x) == w * a - v * x
  {
  }

  lemma NovelWins(w: real, a: real, x: real, y: real)
    requires w < 1.0 && y < x
    ensures TradeOff(w, a, x) < TradeOff(w, a, y)
  {
    hide TradeOff;
    var v := 1.0 - w;
    TradeOffIs(w, v, a, x);
    TradeOffIs(w, v, a, y);
    ScaleOrder(y, x, v);
  }

  lemma BetterWins(w: real, a: real, x: real, b: real, y: real)
    requires 0.0 < w <= 1.0 && a < b && y <= x
    ensures TradeOff(w, a, x) < TradeOff(w, b, y)
  {
    hide TradeOff;
    var v := 1.0 - w;
    TradeOffIs(w, v, a, x);
    TradeOffIs(w, v, b, y);
    ScaleOrder(a, b, w);
    NotDearer(v, y, x);
    Combine(w * a, w * b, v * y, v * x);
  }

  lemma Combine(p: real, q: real, s: real, r: real)
    requires p < q && s <= r
    ensures p - r < q - s
  {
  }

  lemma NoRelevance(a: real, x: real)
    ensures TradeOff(0.0, a, x) == -x
  {
    assert 0.0 * a == 0.0;
  }

  lemma NotDearer(w: real, y: real, x: real)
    requires w >= 0.0 && y <= x
    ensures w * y <= w * x
  {
  }

  /** Of two hits that score the same, the one picked is no closer to what has been chosen. */
  lemma NovelFirst(
      hits: seq<Hit>, weight: real, chosen: seq<nat>, k: nat, p: nat, x: real, j: nat, y: real)
    requires weight < 1.0 && Greedy(hits, Clamp(weight), chosen) && PassedOver(hits, chosen, k, p, x, j, y)
    requires p < |hits| && hits[p].score == hits[j].score
    ensures x <= y || (p < j && TooLow(hits, Clamp(weight), j, y))
  {
    PickRule(hits, Clamp(weight), chosen, k, p, x, j, y);
    ValueOrder(hits, Clamp(weight), p, x, j, y);
    hide Value, Greedy, Closeness;
  }

  /** Without weight on relevance every pick is as far from what has been chosen as can be. */
  lemma OnlyNovelty(
      hits: seq<Hit>, weight: real, chosen: seq<nat>, k: nat, p: nat, x: real, j: nat, y: real)
    requires weight <= 0.0 && Greedy(hits, Clamp(weight), chosen) && PassedOver(hits, chosen, k, p, x, j, y)
    ensures x < y || (x == y && p < j)
  {
    PickRule(hits, 0.0, chosen, k, p, x, j, y);
    ClosenessIsUnique(hits, chosen[..k], j, y);
    ValueOrder(hits, 0.0, p, x, j, y);
    ValueOrder(hits, 0.0, j, y, p, x);
    hide Value, Greedy, Closeness;
  }

  /** While relevance counts, a hit that scores higher and is no closer is not passed over. */
  lemma BetterNotPassedOver(
      hits: seq<Hit>, weight: real, chosen: seq<nat>, k: nat, p: nat, x: real, j: nat, y: real)
    requires weight > 0.0 && Greedy(hits, Clamp(weight), chosen) && PassedOver(hits, chosen, k, p, x, j, y)
    requires p < |hits| && hits[p].score < hits[j].score && y <= x
    ensures p < j && TooLow(hits, Clamp(weight), j, y)
  {
    PickRule(hits, Clamp(weight), chosen, k, p, x, j, y);
    ValueOrder(hits, Clamp(weight), p, x, j, y);
    hide Value, Greedy, Closeness;
  }

  /** Scores that are not negative are never too low. */
  lemma NotTooLow(hits: seq<Hit>, weight: real, j: nat, y: real)
    requires j < |hits| && hits[j].score >= 0.0 && y <= 1.0
    ensures !TooLow(hits, Clamp(weight), j, y)
  {
    hide Scale;
    var w, relevance := Clamp(weight), hits[j].score / Scale(hits);
    Sign(hits[j].score, Scale(hits));
    NotDearer(w, 0.0, relevance);
    NotDearer(1.0 - w, y, 1.0);
  }

  lemma Sign(a: real, d: real)
    requires a >= 0.0 && d > 0.0
    ensures a / d >= 0.0
  {
  }

  // ----- the scale of the scores does not matter

  function Times(c: real, x: real): real {
    c * x
  }

  lemma TimesOrder(c: real, x: real, y: real)
    requires c > 0.0
    ensures x < y <==> Times(c, x) < Times(c, y)
    ensures Times(c, -x) == -Times(c, x) && Times(c, 0.0) == 0.0
  {
    ScaleOrder(x, y, c);
  }

  /** The same hits with all scores multiplied. */
  function Scaled(hits: seq<Hit>, c: real): (r: seq<Hit>)
    ensures |r| == |hits|
  {
    seq(|hits|, i requires 0 <= i < |hits| => hits[i].(score := Times(c, hits[i].score)))
  }

  /** Relevance as a share of the best score. */
  ghost predicate SameRelevance(hits: seq<Hit>, others: seq<Hit>) {
    && |hits| == |others|
    && forall i | 0 <= i < |hits| ::
         && hits[i].words == others[i].words
         && hits[i].score / Scale(hits) == others[i].score / Scale(others)
  }

  lemma {:induction false} SameCloseness(hits: seq<Hit>, others: seq<Hit>, chosen: seq<nat>, c: nat)
    requires SameRelevance(hits, others) && Indices(chosen, |hits|) && c < |hits|
    ensures MaxSim(hits, chosen, c) == MaxSim(others, chosen, c)
  {
    if chosen != [] { SameCloseness(hits, others, chosen[..|chosen| - 1], c); }
  }

  lemma SameGreedy(hits: seq<Hit>, others: seq<Hit>, weight: real, chosen: seq<nat>)
    requires SameRelevance(hits, others) && Greedy(hits, weight, chosen)
    ensures Greedy(others, weight, chosen)
  {
    forall k | 0 <= k < |chosen| ensures FirstBest(others, weight, chosen[..k], chosen[k]) {
      assert FirstBest(hits, weight, chosen[..k], chosen[k]);
      forall j: nat | j < |hits| ensures Worth(hits, weight, chosen[..k], j) == Worth(others, weight, chosen[..k], j) {
        SameCloseness(hits, others, chosen[..k], j);
      }
      hide Worth;
    }
  }

  lemma ScaledRelevance(s: real, c: real, d: real)
    requires c > 0.0 && d > 0.0
    ensures Times(c, d) > 0.0 && Times(c, s) / Times(c, d) == s / d
  {
    var q := s / d;
    assert q * d == s;
    assert c * s == q * (c * d);
  }

  /** Multiplying all scores leaves the picks alone if it multiplies the scale. */
  lemma ScaleInvariant(hits: seq<Hit>, c: real, weight: real, chosen: seq<nat>)
    requires c > 0.0 && Scale(Scaled(hits, c)) == Times(c, Scale(hits))
    ensures Greedy(hits, weight, chosen) <==> Greedy(Scaled(hits, c), weight, chosen)
  {
    hide Times, Scale;
    var others := Scaled(hits, c);
    forall i | 0 <= i < |hits| ensures hits[i].score / Scale(hits) == others[i].score / Scale(others) {
      ScaledRelevance(hits[i].score, c, Scale(hits));
    }
    hide Scaled, Greedy;
    assert SameRelevance(hits, others) && SameRelevance(others, hits);
    if Greedy(hits, weight, chosen) { SameGreedy(hits, others, weight, chosen); }
    if Greedy(others, weight, chosen) { SameGreedy(others, hits, weight, chosen); }
  }

  lemma ScaledInit(hits: seq<Hit>, c: real, n: nat)
    requires n <= |hits|
    ensures Scaled(hits, c)[..n] == Scaled(hits[..n], c)
  {
    hide Times;
    forall i | 0 <= i < n ensures Scaled(hits, c)[..n][i] == Scaled(hits[..n], c)[i] {
      assert hits[..n][i] == hits[i];
    }
  }

  lemma {:induction false} TopScales(hits: seq<Hit>, c: real)
    requires c > 0.0 && hits != []
    requires forall i | 0 <= i < |hits| :: hits[i].score >= F32_MIN && Times(c, hits[i].score) >= F32_MIN
    ensures TopScore(Scaled(hits, c)) == Times(c, TopScore(hits))
  {
    hide Times;
    var n := |hits| - 1;
    var last := hits[n];
    ScaledInit(hits, c, n);
    assert Scaled(hits, c)[n].score == Times(c, last.score);
    assert TopScore([]) == F32_MIN;
    if n > 0 {
      forall i | 0 <= i < n ensures hits[..n][i].score >= F32_MIN && Times(c, hits[..n][i].score) >= F32_MIN {
        assert hits[..n][i] == hits[i];
      }
      TopScales(hits[..n], c);
      TimesOrder(c, TopScore(hits[..n]), last.score);
    } else {
      assert hits[..0] == [] && Scaled(hits, c)[..0] == [];
    }
  }

  /** It does for every factor that keeps the scores in range and the best one's magnitude above the smallest step. */
  lemma ScalesBy(hits: seq<Hit>, c: real)
    requires c > 0.0 && hits != []
    requires forall i | 0 <= i < |hits| :: hits[i].score >= F32_MIN && Times(c, hits[i].score) >= F32_MIN
    requires Magnitude(TopScore(hits)) >= F32_EPSILON && Magnitude(Times(c, TopScore(hits))) >= F32_EPSILON
    ensures Scale(Scaled(hits, c)) == Times(c, Scale(hits))
  {
    hide Times, TopScore;
    TopScales(hits, c);
    TimesOrder(c, TopScore(hits), 0.0);
  }

  function Magnitude(x: real): real {
    if x < 0.0 then -x else x
  }

  // ----- for example

  /** Two hits with the same words and a third apart from them. */
  function TwinHits(): seq<Hit> {
    [Hit({"a"}, 1.0, 0), Hit({"a"}, 0.95, 1), Hit({"b"}, 0.6, 2)]
  }

  /** Half way between relevance and novelty the twin of the first pick is passed over. */
  lemma TwinPassedOver(chosen: seq<nat>)
    requires Greedy(TwinHits(), Clamp(0.5), chosen) && |chosen| == 2
    ensures chosen == [0, 2]
  {
    var hits := TwinHits();
    TwinScale();
    assert chosen[..0] == [] && chosen[..1] == [chosen[0]];
    assert FirstBest(hits, 0.5, [], chosen[0]) && FirstBest(hits, 0.5, chosen[..1], chosen[1]);
    TwinValues();
    assert chosen[0] == 0;
    assert chosen[1] == 2;
  }

  /** With more weight on relevance it is taken. */
  lemma TwinTaken(chosen: seq<nat>)
    requires Greedy(TwinHits(), Clamp(0.9), chosen) && |chosen| == 2
    ensures chosen == [0, 1]
  {
    var hits := TwinHits();
    assert chosen[..0] == [] && chosen[..1] == [chosen[0]];
    assert FirstBest(hits, 0.9, [], chosen[0]) && FirstBest(hits, 0.9, chosen[..1], chosen[1]);
    TwinValues();
    assert chosen[0] == 0;
    assert chosen[1] == 1;
  }

  lemma TwinScale()
    ensures Scale(TwinHits()) == 1.0
  {
    var hits := TwinHits();
    assert TopScore([]) == F32_MIN;
    assert hits[..3] == hits && hits[..2][..1] == hits[..1] && hits[..1][..0] == [];
    assert TopScore(hits[..1]) == 1.0 && TopScore(hits[..2]) == 1.0;
  }

  lemma TwinValues()
    ensures var hits := TwinHits();
            && Worth(hits, 0.5, [], 0) == 0.5 && Worth(hits, 0.5, [], 1) == 0.475 && Worth(hits, 0.5, [], 2) == 0.3
            && Worth(hits, 0.5, [0], 1) == -0.025 && Worth(hits, 0.5, [0], 2) == 0.3
            && Worth(hits, 0.9, [], 0) == 0.9 && Worth(hits, 0.9, [], 1) == 0.855 && Worth(hits, 0.9, [], 2) == 0.54
            && Worth(hits, 0.9, [0], 1) == 0.755 && Worth(hits, 0.9, [0], 2) == 0.54
  {
    var hits := TwinHits();
    TwinScale();
    assert [0][..0] == [];
    JaccardIsFraction(hits[1].words, hits[0].words);
    JaccardIsFraction(hits[2].words, hits[0].words);
    assert "a"[0] != "b"[0];
    assert MaxSim(hits, [], 1) == 0.0 && MaxSim(hits, [], 2) == 0.0;
    assert MaxSim(hits, [0], 1) == 1.0 && MaxSim(hits, [0], 2) == 0.0;
    hide Scale, MaxSim, Jaccard;
  }
}
