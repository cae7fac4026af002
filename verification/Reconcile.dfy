/** Write-time reconciliation: how close an incoming text is to what is stored, and what to do about it. */
module Reconcile {
  import opened Options
  import opened StringOrder
  import Text
  import Sorting
  import Seqs
  import Sets

  // ----- token lists

  /** Strictly ascending: sorted and free of duplicates. */
  ghost predicate Ascending(s: seq<string>) {
    forall i, j | 0 <= i < j < |s| :: Less(s[i], s[j])
  }

  /** Drops a word that repeats its predecessor. */
  function Dedup(s: seq<string>): seq<string> {
    if |s| <= 1 then s
    else if s[0] == s[1] then Dedup(s[1..])
    else [s[0]] + Dedup(s[1..])
  }

  /** `tokenize`, from the lower-cased words on. */
  function Tokens(words: seq<string>): seq<string> {
    Dedup(Sorting.Sort(words, Less))
  }

  lemma LessIsWeakOrder()
    ensures Sorting.WeakOrder(Less)
  {
    forall x, y ensures Less(x, y) ==> !Less(y, x) { LessAsymmetric(x, y); }
    forall x, y, z | !Less(x, y) && !Less(y, z) ensures !Less(x, z) {
      LessTotal(x, y);
      LessTotal(y, z);
      LessAsymmetric(x, z);
      LessAsymmetric(y, z);
      LessAsymmetric(x, y);
      if Less(z, y) && Less(y, x) { LessTransitive(z, y, x); }
    }
  }

  lemma {:induction false} DedupAscends(s: seq<string>)
    requires Sorting.Sorted(s, Less)
    ensures forall w :: w in Dedup(s) <==> w in s
    ensures s != [] ==> Dedup(s) != [] && Dedup(s)[0] == s[0]
    ensures Ascending(Dedup(s))
  {
    if |s| > 1 {
      DedupAscends(s[1..]);
      var rest := Dedup(s[1..]);
      if s[0] != s[1] {
        forall j | 0 <= j < |rest| ensures Less(s[0], rest[j]) {
          assert rest[j] in rest;
          LessTotal(s[0], s[1]);
          assert Less(s[0], s[1]);
          if j > 0 { LessTransitive(s[0], rest[0], rest[j]); }
        }
      }
    }
  }

  /** Token lists are ascending and hold exactly the words. */
  lemma TokensAscend(words: seq<string>)
    ensures Ascending(Tokens(words)) && Seqs.Elements(Tokens(words)) == Seqs.Elements(words)
  {
    LessIsWeakOrder();
    Sorting.SortSorts(words, Less);
    Sorting.SortMembers(words, Less);
    DedupAscends(Sorting.Sort(words, Less));
  }

  lemma SizeOfAscending(s: seq<string>)
    requires Ascending(s)
    ensures |Seqs.Elements(s)| == |s|
  {
    forall i, j | 0 <= i < j < |s| ensures s[i] != s[j] {
      LessAsymmetric(s[i], s[j]);
    }
    Seqs.DistinctSize(s);
  }

  // ----- similarity

  /** Jaccard similarity of the sets, one for two empty ones. */
  function SetJaccard(a: set<string>, b: set<string>): real {
    if a + b == {} then 1.0 else |a * b| as real / |a + b| as real
  }

  lemma TakeElements(s: seq<string>, i: nat)
    requires i < |s|
    ensures Seqs.Elements(s[..i + 1]) == Seqs.Elements(s[..i]) + {s[i]}
  {
    assert s[..i + 1] == s[..i] + [s[i]];
  }

  /** The words passed on one side are below the rest of the other. */
  ghost predicate Below(a: seq<string>, i: nat, b: seq<string>, j: nat)
    requires i <= |a| && j <= |b|
  {
    forall p, q | 0 <= p < i && j <= q < |b| :: Less(a[p], b[q])
  }

  /** What both pointers keep. */
  ghost predicate Merged(a: seq<string>, i: nat, b: seq<string>, j: nat, inter: nat) {
    && i <= |a| && j <= |b|
    && Below(a, i, b, j) && Below(b, j, a, i)
    && inter == |Seqs.Elements(a[..i]) * Seqs.Elements(b[..j])|
  }

  /** A word is not among those that are below it. */
  lemma NotPassed(b: seq<string>, j: nat, w: string)
    requires j <= |b| && forall q | 0 <= q < j :: Less(b[q], w)
    ensures w !in Seqs.Elements(b[..j])
  {
    if w in Seqs.Elements(b[..j]) {
      var q :| 0 <= q < j && b[q] == w;
      LessAsymmetric(w, w);
    }
  }

  lemma StepBelow(a: seq<string>, i: nat, b: seq<string>, j: nat)
    requires Ascending(b) && i < |a| && j < |b| && Less(a[i], b[j]) && Below(a, i, b, j)
    ensures Below(a, i + 1, b, j)
  {
    forall q | j < q < |b| ensures Less(a[i], b[q]) {
      LessTransitive(a[i], b[j], b[q]);
    }
  }

  lemma StepLess(a: seq<string>, i: nat, b: seq<string>, j: nat, inter: nat)
    requires Ascending(a) && Ascending(b) && Merged(a, i, b, j, inter)
    requires i < |a| && j < |b| && Less(a[i], b[j])
    ensures Merged(a, i + 1, b, j, inter)
  {
    StepBelow(a, i, b, j);
    TakeElements(a, i);
    NotPassed(b, j, a[i]);
    assert (Seqs.Elements(a[..i]) + {a[i]}) * Seqs.Elements(b[..j]) == Seqs.Elements(a[..i]) * Seqs.Elements(b[..j]);
  }

  lemma StepGreater(a: seq<string>, i: nat, b: seq<string>, j: nat, inter: nat)
    requires Ascending(a) && Ascending(b) && Merged(a, i, b, j, inter)
    requires i < |a| && j < |b| && Less(b[j], a[i])
    ensures Merged(a, i, b, j + 1, inter)
  {
    StepBelow(b, j, a, i);
    TakeElements(b, j);
    NotPassed(a, i, b[j]);
    assert Seqs.Elements(a[..i]) * (Seqs.Elements(b[..j]) + {b[j]}) == Seqs.Elements(a[..i]) * Seqs.Elements(b[..j]);
  }

  lemma BelowEqual(a: seq<string>, i: nat, b: seq<string>, j: nat)
    requires Ascending(b) && i < |a| && j < |b| && a[i] == b[j] && Below(a, i, b, j)
    ensures Below(a, i + 1, b, j + 1)
  {
  }

  lemma StepEqual(a: seq<string>, i: nat, b: seq<string>, j: nat, inter: nat)
    requires Ascending(a) && Ascending(b) && Merged(a, i, b, j, inter)
    requires i < |a| && j < |b| && a[i] == b[j]
    ensures Merged(a, i + 1, b, j + 1, inter + 1)
  {
    BelowEqual(a, i, b, j);
    BelowEqual(b, j, a, i);
    hide Ascending, Less;
    TakeElements(a, i);
    TakeElements(b, j);
    NotPassed(a, i, b[j]);
    NotPassed(b, j, a[i]);
    assert (Seqs.Elements(a[..i]) + {a[i]}) * (Seqs.Elements(b[..j]) + {b[j]})
        == Seqs.Elements(a[..i]) * Seqs.Elements(b[..j]) + {a[i]};
  }

  /** When one side is used up, the rest of the other holds nothing in common. */
  lemma Finished(a: seq<string>, i: nat, b: seq<string>, j: nat)
    requires i <= |a| && j <= |b| && Below(a, i, b, j) && Below(b, j, a, i) && (i == |a| || j == |b|)
    ensures Seqs.Elements(a[..i]) * Seqs.Elements(b[..j]) == Seqs.Elements(a) * Seqs.Elements(b)
  {
    forall w | w in Seqs.Elements(a) * Seqs.Elements(b) ensures w in Seqs.Elements(a[..i]) * Seqs.Elements(b[..j]) {
      var p :| 0 <= p < |a| && a[p] == w;
      var q :| 0 <= q < |b| && b[q] == w;
      LessAsymmetric(w, w);
      assert a[p] == b[q];
      assert p < i && q < j;
      assert a[..i][p] == w && b[..j][q] == w;
    }
  }

  lemma AtTheEnd(a: seq<string>, i: nat, b: seq<string>, j: nat, inter: nat)
    requires Merged(a, i, b, j, inter) && (i == |a| || j == |b|)
    ensures inter == |Seqs.Elements(a) * Seqs.Elements(b)|
  {
    Finished(a, i, b, j);
  }

  lemma AtTheStart(a: seq<string>, b: seq<string>)
    ensures Merged(a, 0, b, 0, 0)
  {
    assert Seqs.Elements(a[..0]) * Seqs.Elements(b[..0]) == {};
  }

  /** The similarity of the sets by the lengths of the lists. */
  lemma Sizes(a: seq<string>, b: seq<string>)
    requires Ascending(a) && Ascending(b)
    ensures var inter := |Seqs.Elements(a) * Seqs.Elements(b)|;
            var union := |a| + |b| - inter;
            && (a == [] && b == [] ==> union == 0)
            && SetJaccard(Seqs.Elements(a), Seqs.Elements(b))
               == if union == 0 then 1.0 else inter as real / union as real
  {
    SizeOfAscending(a);
    SizeOfAscending(b);
    Sets.SizeOfUnion(Seqs.Elements(a), Seqs.Elements(b));
  }

  /** `jaccard`: two pointers over ascending token lists compute the similarity of the sets. */
  method Jaccard(a: seq<string>, b: seq<string>) returns (similarity: real)
    requires Ascending(a) && Ascending(b)
    ensures similarity == SetJaccard(Seqs.Elements(a), Seqs.Elements(b))
  {
    hide *;
    Sizes(a, b);
    if a == [] && b == [] { return 1.0; }
    var i, j, inter := 0, 0, 0;
    AtTheStart(a, b);
    while i < |a| && j < |b|
      invariant i <= |a| && j <= |b| && Merged(a, i, b, j, inter)
      decreases |a| - i + |b| - j
    {
      if a[i] == b[j] {
        StepEqual(a, i, b, j, inter);
        i, j, inter := i + 1, j + 1, inter + 1;
      } else if Less(a[i], b[j]) {
        StepLess(a, i, b, j, inter);
        i := i + 1;
      } else {
        LessTotal(a[i], b[j]);
        StepGreater(a, i, b, j, inter);
        j := j + 1;
      }
    }
    AtTheEnd(a, i, b, j, inter);
    var union := |a| + |b| - inter;
    similarity := if union == 0 then 1.0 else inter as real / union as real;
  }

  // ----- the decision

  datatype Candidate = Candidate(id: string, content: string)

  datatype Config = Config(onWrite: bool, similarityThreshold: real, noopThreshold: real)

  datatype Decision =
    | Add
    | Update(existingId: string, mergedContent: string)
    | Supersede(supersededId: string)
    | Noop(coveredById: string)

  /** How close a stored text is, given how texts are cut into lower-cased words. */
  function Closeness(words: string -> seq<string>, incoming: string, c: Candidate): real {
    SetJaccard(Seqs.Elements(words(incoming)), Seqs.Elements(words(c.content)))
  }

  /** The closest candidate, the first among equals, if any shares a word at all. */
  ghost predicate Closest(
      words: string -> seq<string>, incoming: string, candidates: seq<Candidate>, n: nat, best: Option<nat>)
    requires n <= |candidates|
  {
    match best
    case None => forall k | 0 <= k < n :: Closeness(words, incoming, candidates[k]) <= 0.0
    case Some(b) =>
      && b < n
      && var most := Closeness(words, incoming, candidates[b]);
         && most > 0.0
         && (forall k | 0 <= k < n :: Closeness(words, incoming, candidates[k]) <= most)
         && (forall k | 0 <= k < b :: Closeness(words, incoming, candidates[k]) < most)
  }

  method FindClosest(words: string -> seq<string>, incoming: string, candidates: seq<Candidate>)
    returns (best: Option<nat>, bestSimilarity: real)
    ensures Closest(words, incoming, candidates, |candidates|, best)
    ensures best.Some? ==> bestSimilarity == Closeness(words, incoming, candidates[best.value])
  {
    hide Less, Ascending, Seqs.Elements, Tokens, SetJaccard;
    var tokens := Tokens(words(incoming));
    TokensAscend(words(incoming));
    best, bestSimilarity := None, 0.0;
    for i := 0 to |candidates|
      invariant bestSimilarity >= 0.0 && (best == None ==> bestSimilarity == 0.0)
      invariant Closest(words, incoming, candidates, i, best)
      invariant best.Some? ==> bestSimilarity == Closeness(words, incoming, candidates[best.value])
    {
      TokensAscend(words(candidates[i].content));
      var similarity := Jaccard(tokens, Tokens(words(candidates[i].content)));
      if similarity > bestSimilarity {
        best, bestSimilarity := Some(i), similarity;
      }
    }
  }

  /** `reconcile` */
  method Reconcile(words: string -> seq<string>, incoming: string, candidates: seq<Candidate>, config: Config)
    returns (decision: Decision)
    ensures decision == Add <==> !config.onWrite || forall c <- candidates :: !Matters(words, incoming, c, config)
    ensures decision.Noop? <==>
              config.onWrite && exists c <- candidates ::
                Matters(words, incoming, c, config) && Closeness(words, incoming, c) >= config.noopThreshold
    ensures decision != Add ==> exists b: nat ::
              && b < |candidates| && Closest(words, incoming, candidates, |candidates|, Some(b))
              && Names(decision, candidates[b], incoming)
    ensures decision.Supersede? ==> exists c <- candidates ::
              c.id == decision.supersededId && |incoming| > |c.content| + 20
    ensures decision.Update? ==> exists c <- candidates ::
              && c.id == decision.existingId && |incoming| <= |c.content| + 20
              && decision.mergedContent == MergedText(incoming, c.content)
  {
    if !config.onWrite || candidates == [] { return Add; }
    var best, similarity := FindClosest(words, incoming, candidates);
    ClosestDecides(words, incoming, candidates, config, best);
    if best == None || similarity < config.similarityThreshold { return Add; }
    var b := best.value;
    var c := candidates[b];
    if similarity >= config.noopThreshold {
      decision := Noop(c.id);
    } else if |incoming| > |c.content| + 20 {
      decision := Supersede(c.id);
    } else {
      decision := Update(c.id, MergedText(incoming, c.content));
    }
    assert Names(decision, c, incoming);
  }

  /** Close enough for the candidate to count at all. */
  predicate Matters(words: string -> seq<string>, incoming: string, c: Candidate, config: Config) {
    Closeness(words, incoming, c) > 0.0 && Closeness(words, incoming, c) >= config.similarityThreshold
  }

  function MergedText(incoming: string, existing: string): string {
    if Text.Trim(incoming) == Text.Trim(existing) then existing
    else Text.Trim(existing) + "\n\n" + Text.Trim(incoming)
  }

  /** The decision concerns this candidate, and replaces it only by something longer. */
  predicate Names(decision: Decision, c: Candidate, incoming: string) {
    match decision
    case Add => false
    case Noop(id) => id == c.id
    case Supersede(id) => id == c.id && |incoming| > |c.content| + 20
    case Update(id, merged) => id == c.id && |incoming| <= |c.content| + 20 && merged == MergedText(incoming, c.content)
  }

  /** Whether any candidate is close enough is seen on the closest one. */
  lemma ClosestDecides(
      words: string -> seq<string>, incoming: string, candidates: seq<Candidate>, config: Config, best: Option<nat>)
    requires Closest(words, incoming, candidates, |candidates|, best)
    ensures (exists c <- candidates :: Matters(words, incoming, c, config))
       <==> best.Some? && Matters(words, incoming, candidates[best.value], config)
    ensures (exists c <- candidates ::
               Matters(words, incoming, c, config) && Closeness(words, incoming, c) >= config.noopThreshold)
       <==> && best.Some? && Matters(words, incoming, candidates[best.value], config)
            && Closeness(words, incoming, candidates[best.value]) >= config.noopThreshold
  {
    forall c | c in candidates
      ensures match best case None => Closeness(words, incoming, c) <= 0.0
                         case Some(b) => Closeness(words, incoming, c) <= Closeness(words, incoming, candidates[b])
    {
      var k :| 0 <= k < |candidates| && candidates[k] == c;
    }
    if best.Some? { assert candidates[best.value] in candidates; }
  }

  /** Similarity is the shared fraction of the words: one for the same words, zero for none shared. */
  lemma OneIffEqual(a: set<string>, b: set<string>)
    ensures 0.0 <= SetJaccard(a, b) <= 1.0 && SetJaccard(a, b) == SetJaccard(b, a)
    ensures SetJaccard(a, b) == 1.0 <==> a == b
    ensures SetJaccard(a, b) == 0.0 <==> a !! b && a + b != {}
    ensures a + b != {} ==> SetJaccard(a, b) * |a + b| as real == |a * b| as real
  {
    assert a + b == b + a && a * b == b * a;
    if a + b != {} {
      Sets.Fraction(a, b);
    } else {
      assert a == {} && b == {};
    }
  }

  /** Merging loses nothing of either text but the white space around it, and says the same thing once. */
  lemma MergeKeeps(incoming: string, existing: string)
    ensures Text.Trim(incoming) == Text.Trim(existing) ==>
      MergedText(incoming, existing) == existing && Text.Ink(incoming) == Text.Ink(existing)
    ensures Text.Trim(incoming) != Text.Trim(existing) ==>
      && Text.Ink(MergedText(incoming, existing)) == Text.Ink(existing) + Text.Ink(incoming)
      && |MergedText(incoming, existing)| == |Text.Trim(existing)| + 2 + |Text.Trim(incoming)|
      && Text.Trim(existing) + "\n\n" <= MergedText(incoming, existing)
  {
    Text.InkTrim(incoming);
    Text.InkTrim(existing);
    var a, b := Text.Trim(existing), Text.Trim(incoming);
    BreakInk();
    Text.InkAppend(a + "\n\n", b);
    Text.InkAppend(a, "\n\n");
    Seqs.Empty(Text.Ink(a));
  }

  lemma BreakInk()
    ensures Text.Ink("\n\n") == ""
  {
    Text.InkFree("\n\n");
  }
}
