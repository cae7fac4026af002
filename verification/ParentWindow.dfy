/**
 The small-to-big window: starting from the chunk that matched best, siblings are taken in
 on both sides, one each per round, as long as the estimated text fits the budget.
 */
module ParentWindow {
  import opened Text
  import opened Numbers
  import opened Stitching
  import Seqs
  import DrillDown
  import Chunking

  /** A chunk record as far as the window looks at it. */
  datatype Sibling = Sibling(content: string, index: nat, nodeId: string)

  // ----- the anchor

  predicate IsAnchor(siblings: seq<Sibling>, index: nat, nodeId: string, a: nat) {
    && a < |siblings|
    && if exists i | 0 <= i < |siblings| :: siblings[i].index == index then
         && siblings[a].index == index
         && forall i | 0 <= i < a :: siblings[i].index != index
       else if exists i | 0 <= i < |siblings| :: siblings[i].nodeId == nodeId then
         && siblings[a].nodeId == nodeId
         && forall i | 0 <= i < a :: siblings[i].nodeId != nodeId
       else a == 0
  }

  method FindAnchor(siblings: seq<Sibling>, index: nat, nodeId: string) returns (a: nat)
    requires siblings != []
    ensures IsAnchor(siblings, index, nodeId, a)
  {
    for i := 0 to |siblings|
      invariant forall j | 0 <= j < i :: siblings[j].index != index
    {
      if siblings[i].index == index {
        return i;
      }
    }
    for i := 0 to |siblings|
      invariant forall j | 0 <= j < i :: siblings[j].nodeId != nodeId
    {
      if siblings[i].nodeId == nodeId {
        return i;
      }
    }
    return 0;
  }

  // ----- the run of siblings around it

  /** What a sibling is expected to add: its length without a full overlap. */
  function Added(content: string, overlap: nat): nat {
    if |content| < overlap then 0 else |content| - overlap
  }

  /** What `contents[from..end]` are expected to add. */
  function Sum(contents: seq<string>, from: nat, end: nat, overlap: nat): nat
    requires from <= end <= |contents|
  {
    if from == end then 0 else Sum(contents, from, end - 1, overlap) + Added(contents[end - 1], overlap)
  }

  lemma {:induction false} SumSplit(contents: seq<string>, from: nat, mid: nat, end: nat, overlap: nat)
    requires from <= mid <= end <= |contents|
    ensures Sum(contents, from, end, overlap)
         == Sum(contents, from, mid, overlap) + Sum(contents, mid, end, overlap)
  {
    if mid < end { SumSplit(contents, from, mid, end - 1, overlap); }
  }

  /** The estimated length of the text of `contents[lo..hi + 1]`. */
  function Estimate(contents: seq<string>, a: nat, lo: nat, hi: nat, overlap: nat): nat
    requires lo <= a <= hi < |contents|
  {
    |contents[a]| + Sum(contents, lo, a, overlap) + Sum(contents, a + 1, hi + 1, overlap)
  }

  lemma EstimateLeft(contents: seq<string>, a: nat, lo: nat, hi: nat, overlap: nat)
    requires 0 < lo <= a <= hi < |contents|
    ensures Estimate(contents, a, lo - 1, hi, overlap)
         == Estimate(contents, a, lo, hi, overlap) + Added(contents[lo - 1], overlap)
  {
    SumSplit(contents, lo - 1, lo, a, overlap);
  }

  lemma EstimateGrows(contents: seq<string>, a: nat, lo: nat, hi: nat, lo2: nat, hi2: nat, overlap: nat)
    requires lo2 <= lo <= a <= hi <= hi2 < |contents|
    ensures Estimate(contents, a, lo, hi, overlap) <= Estimate(contents, a, lo2, hi2, overlap)
  {
    SumSplit(contents, lo2, lo, a, overlap);
    SumSplit(contents, a + 1, hi + 1, hi2 + 1, overlap);
  }

  /** The last sibling within `r` steps to the right, but not beyond `hi`. */
  function RightAt(a: nat, hi: nat, r: nat): nat { Min(hi, a + r) }

  /** The first sibling within `r` steps to the left, but not before `lo`. */
  function LeftAt(a: nat, lo: nat, r: nat): nat
    requires lo <= a
  {
    a - Min(a - lo, r)
  }

  /** Growth to the left ended at `lo`: no sibling is left, or it did not fit in its round. */
  ghost predicate LeftEnds(contents: seq<string>, a: nat, lo: nat, hi: nat, budget: nat, overlap: nat)
    requires lo <= a <= hi < |contents|
  {
    lo == 0 ||
    Estimate(contents, a, lo, RightAt(a, hi, a - lo), overlap) + Added(contents[lo - 1], overlap) > budget
  }

  /** Growth to the right ended at `hi`, the left side having moved first in that round. */
  ghost predicate RightEnds(contents: seq<string>, a: nat, lo: nat, hi: nat, budget: nat, overlap: nat)
    requires lo <= a <= hi < |contents|
  {
    hi + 1 == |contents| ||
    Estimate(contents, a, LeftAt(a, lo, hi - a + 1), hi, overlap) + Added(contents[hi + 1], overlap) > budget
  }

  /** The run `lo..hi` that symmetric growth around `a` ends with. */
  ghost predicate IsRun(contents: seq<string>, a: nat, lo: nat, hi: nat, budget: nat, overlap: nat) {
    && lo <= a <= hi < |contents|
    && (lo < hi ==> Estimate(contents, a, lo, hi, overlap) <= budget)
    && LeftEnds(contents, a, lo, hi, budget, overlap)
    && RightEnds(contents, a, lo, hi, budget, overlap)
  }

  function Contents(siblings: seq<Sibling>): (contents: seq<string>)
    ensures |contents| == |siblings|
    ensures forall i | 0 <= i < |siblings| :: contents[i] == siblings[i].content
  {
    seq(|siblings|, i requires 0 <= i < |siblings| => siblings[i].content)
  }

  /** A side that has ended cannot grow later: the estimate never shrinks. */
  lemma LeftStaysShut(contents: seq<string>, a: nat, lo: nat, hi: nat, budget: nat, overlap: nat)
    requires lo <= a <= hi < |contents|
    ensures LeftEnds(contents, a, lo, hi, budget, overlap) && lo > 0 ==>
      Estimate(contents, a, lo, hi, overlap) + Added(contents[lo - 1], overlap) > budget
  {
    EstimateGrows(contents, a, lo, RightAt(a, hi, a - lo), lo, hi, overlap);
  }

  lemma RightStaysShut(contents: seq<string>, a: nat, lo: nat, hi: nat, budget: nat, overlap: nat)
    requires lo <= a <= hi < |contents|
    ensures RightEnds(contents, a, lo, hi, budget, overlap) && hi + 1 < |contents| ==>
      Estimate(contents, a, lo, hi, overlap) + Added(contents[hi + 1], overlap) > budget
  {
    EstimateGrows(contents, a, LeftAt(a, lo, hi - a + 1), hi, lo, hi, overlap);
  }

  predicate FitsLeft(contents: seq<string>, a: nat, lo: nat, hi: nat, budget: nat, overlap: nat)
    requires lo <= a <= hi < |contents|
  {
    lo > 0 && Estimate(contents, a, lo, hi, overlap) + Added(contents[lo - 1], overlap) <= budget
  }

  predicate FitsRight(contents: seq<string>, a: nat, lo: nat, hi: nat, budget: nat, overlap: nat)
    requires lo <= a <= hi < |contents|
  {
    hi + 1 < |contents| && Estimate(contents, a, lo, hi, overlap) + Added(contents[hi + 1], overlap) <= budget
  }

  /** One round of growth, left side first. */
  method GrowRound(contents: seq<string>, a: nat, lo: nat, hi: nat, total: nat, budget: nat, overlap: nat)
    returns (lo2: nat, hi2: nat, total2: nat, grew: bool)
    requires lo <= a <= hi < |contents|
    requires total == Estimate(contents, a, lo, hi, overlap)
    ensures lo2 == if FitsLeft(contents, a, lo, hi, budget, overlap) then lo - 1 else lo
    ensures hi2 == if FitsRight(contents, a, lo2, hi, budget, overlap) then hi + 1 else hi
    ensures total2 == Estimate(contents, a, lo2, hi2, overlap)
    ensures grew == (lo2 != lo || hi2 != hi)
    ensures grew ==> total2 <= budget
  {
    lo2, hi2, total2, grew := lo, hi, total, false;
    if lo2 > 0 {
      var add := Added(contents[lo2 - 1], overlap);
      EstimateLeft(contents, a, lo2, hi2, overlap);
      if total2 + add <= budget {
        lo2 := lo2 - 1;
        total2 := total2 + add;
        grew := true;
      }
    }
    if hi2 + 1 < |contents| {
      var add := Added(contents[hi2 + 1], overlap);
      if total2 + add <= budget {
        hi2 := hi2 + 1;
        total2 := total2 + add;
        grew := true;
      }
    }
  }

  /** After `rounds` rounds each side has moved that often, or has ended. */
  ghost predicate Grown(contents: seq<string>, a: nat, lo: nat, hi: nat, rounds: nat, budget: nat, overlap: nat) {
    && lo <= a <= hi < |contents|
    && a - lo <= rounds && hi - a <= rounds
    && (a - lo < rounds ==> LeftEnds(contents, a, lo, hi, budget, overlap))
    && (hi - a < rounds ==> RightEnds(contents, a, lo, hi, budget, overlap))
  }

  lemma GrownLeft(contents: seq<string>, a: nat, lo: nat, hi: nat, rounds: nat, budget: nat, overlap: nat)
    requires Grown(contents, a, lo, hi, rounds, budget, overlap)
    ensures FitsLeft(contents, a, lo, hi, budget, overlap) ==> a - lo == rounds
    ensures !FitsLeft(contents, a, lo, hi, budget, overlap) ==> LeftEnds(contents, a, lo, hi, budget, overlap)
  {
    LeftStaysShut(contents, a, lo, hi, budget, overlap);
  }

  lemma GrownRight(
      contents: seq<string>, a: nat, lo: nat, lo2: nat, hi: nat, rounds: nat, budget: nat, overlap: nat)
    requires Grown(contents, a, lo, hi, rounds, budget, overlap)
    requires lo2 == lo || (lo2 == lo - 1 && a - lo == rounds)
    ensures FitsRight(contents, a, lo2, hi, budget, overlap) ==> hi - a == rounds
    ensures !FitsRight(contents, a, lo2, hi, budget, overlap) ==> RightEnds(contents, a, lo2, hi, budget, overlap)
  {
    RightStaysShut(contents, a, lo2, hi, budget, overlap);
  }

  /** The loop of `build_parent_window`. */
  method GrowRun(contents: seq<string>, a: nat, budget: nat, overlap: nat) returns (lo: nat, hi: nat)
    requires a < |contents|
    ensures IsRun(contents, a, lo, hi, budget, overlap)
    ensures !FitsLeft(contents, a, lo, hi, budget, overlap)
    ensures !FitsRight(contents, a, lo, hi, budget, overlap)
  {
    lo, hi := a, a;
    var total, grew := |contents[a]|, true;
    ghost var rounds := 0;
    while grew
      invariant Grown(contents, a, lo, hi, rounds, budget, overlap)
      invariant total == Estimate(contents, a, lo, hi, overlap)
      invariant lo < hi ==> total <= budget
      invariant !grew ==> !FitsLeft(contents, a, lo, hi, budget, overlap)
      invariant !grew ==> !FitsRight(contents, a, lo, hi, budget, overlap)
      invariant !grew ==> a - lo < rounds && hi - a < rounds
      decreases grew, lo + |contents| - hi
    {
      var lo2, hi2;
      GrownLeft(contents, a, lo, hi, rounds, budget, overlap);
      lo2, hi2, total, grew := GrowRound(contents, a, lo, hi, total, budget, overlap);
      GrownRight(contents, a, lo, lo2, hi, rounds, budget, overlap);
      lo, hi, rounds := lo2, hi2, rounds + 1;
    }
  }

  /** The stitched run around the anchor, cut to the budget. */
  ghost predicate IsWindow(
      siblings: seq<Sibling>, index: nat, nodeId: string, a: nat, lo: nat, hi: nat, budget: nat, overlap: nat,
      window: string)
  {
    && IsAnchor(siblings, index, nodeId, a)
    && IsRun(Contents(siblings), a, lo, hi, budget, overlap)
    && window == Seqs.Take(Stitch("", Contents(siblings)[lo..hi + 1], overlap), budget)
  }

  /** `build_parent_window` */
  method BuildParentWindow(siblings: seq<Sibling>, index: nat, nodeId: string, budget: nat, overlap: nat)
    returns (window: string)
    requires siblings != []
    ensures exists a, lo, hi :: IsWindow(siblings, index, nodeId, a, lo, hi, budget, overlap, window)
  {
    var anchor := FindAnchor(siblings, index, nodeId);
    var lo, hi := GrowRun(Contents(siblings), anchor, budget, overlap);
    window := StitchAll(Contents(siblings)[lo..hi + 1], overlap);
    if |window| > budget {
      window := window[..budget];
    }
    assert IsWindow(siblings, index, nodeId, anchor, lo, hi, budget, overlap, window);
  }

  // ----- the run is determined

  /** Two runs for the same input have gone through the same rounds. */
  lemma {:induction false} SameRounds(
      contents: seq<string>, a: nat, lo: nat, hi: nat, lo2: nat, hi2: nat, r: nat, budget: nat, overlap: nat)
    requires IsRun(contents, a, lo, hi, budget, overlap) && IsRun(contents, a, lo2, hi2, budget, overlap)
    ensures LeftAt(a, lo, r) == LeftAt(a, lo2, r) && RightAt(a, hi, r) == RightAt(a, hi2, r)
  {
    if r > 0 {
      SameRounds(contents, a, lo, hi, lo2, hi2, r - 1, budget, overlap);
      NotOnlyLeft(contents, a, lo, hi, lo2, hi2, r, budget, overlap);
      NotOnlyLeft(contents, a, lo2, hi2, lo, hi, r, budget, overlap);
      NotOnlyRight(contents, a, lo, hi, lo2, hi2, r, budget, overlap);
      NotOnlyRight(contents, a, lo2, hi2, lo, hi, r, budget, overlap);
    }
  }

  lemma NotOnlyLeft(
      contents: seq<string>, a: nat, lo: nat, hi: nat, lo2: nat, hi2: nat, r: nat, budget: nat, overlap: nat)
    requires IsRun(contents, a, lo, hi, budget, overlap) && IsRun(contents, a, lo2, hi2, budget, overlap)
    requires r > 0
    requires LeftAt(a, lo, r - 1) == LeftAt(a, lo2, r - 1) && RightAt(a, hi, r - 1) == RightAt(a, hi2, r - 1)
    ensures LeftAt(a, lo, r) >= LeftAt(a, lo2, r)
  {
    if LeftAt(a, lo, r) < LeftAt(a, lo2, r) {
      var right := RightAt(a, hi2, a - lo2);
      EstimateLeft(contents, a, lo2, right, overlap);
      EstimateGrows(contents, a, lo2 - 1, right, lo, hi, overlap);
    }
  }

  lemma NotOnlyRight(
      contents: seq<string>, a: nat, lo: nat, hi: nat, lo2: nat, hi2: nat, r: nat, budget: nat, overlap: nat)
    requires IsRun(contents, a, lo, hi, budget, overlap) && IsRun(contents, a, lo2, hi2, budget, overlap)
    requires r > 0
    requires LeftAt(a, lo, r) == LeftAt(a, lo2, r) && RightAt(a, hi, r - 1) == RightAt(a, hi2, r - 1)
    ensures RightAt(a, hi, r) <= RightAt(a, hi2, r)
  {
    if RightAt(a, hi, r) > RightAt(a, hi2, r) {
      var left := LeftAt(a, lo2, hi2 - a + 1);
      EstimateGrows(contents, a, left, hi2 + 1, lo, hi, overlap);
    }
  }

  /** The conditions on a run leave no choice: they pin down what is grown. */
  lemma RunIsUnique(
      contents: seq<string>, a: nat, lo: nat, hi: nat, lo2: nat, hi2: nat, budget: nat, overlap: nat)
    requires IsRun(contents, a, lo, hi, budget, overlap) && IsRun(contents, a, lo2, hi2, budget, overlap)
    ensures lo == lo2 && hi == hi2
  {
    SameRounds(contents, a, lo, hi, lo2, hi2, |contents|, budget, overlap);
  }

  // ----- what the window shows

  /**
   Siblings as the chunker leaves them: each repeats `carries[i]` characters its predecessor
   ends with, the first none, and no chunk matches more of the text before it by accident.
   */
  ghost predicate AreSiblings(contents: seq<string>, carries: seq<nat>, overlap: nat) {
    && DrillDown.Linked(contents, carries, overlap)
    && (contents != [] ==> carries[0] == 0)
    && DrillDown.Quiet("", contents, carries, overlap)
  }

  /** What `contents[from..end]` hold beyond what they repeat. */
  function FreshOf(contents: seq<string>, carries: seq<nat>, from: nat, end: nat): string
    requires from <= end <= |contents| == |carries|
    requires forall i | 0 <= i < |contents| :: carries[i] <= |contents[i]|
  {
    DrillDown.Fresh(contents[from..end], carries[from..end])
  }

  lemma FreshSplit(contents: seq<string>, carries: seq<nat>, from: nat, mid: nat, end: nat)
    requires from <= mid <= end <= |contents| == |carries|
    requires forall i | 0 <= i < |contents| :: carries[i] <= |contents[i]|
    ensures FreshOf(contents, carries, from, end)
         == FreshOf(contents, carries, from, mid) + FreshOf(contents, carries, mid, end)
  {
    hide DrillDown.Fresh;
    Seqs.SliceSplit(contents, from, mid, end);
    Seqs.SliceSplit(carries, from, mid, end);
    DrillDown.FreshAppend(contents[from..mid], carries[from..mid], contents[mid..end], carries[mid..end]);
  }

  lemma FreshOne(contents: seq<string>, carries: seq<nat>, i: nat)
    requires i < |contents| == |carries| && forall i | 0 <= i < |contents| :: carries[i] <= |contents[i]|
    ensures FreshOf(contents, carries, i, i + 1) == contents[i][carries[i]..]
  {
    var chunk: string, carry: nat := contents[i], carries[i];
    var chunks: seq<string>, all: seq<nat> := [chunk], [carry];
    assert contents[i..i + 1] == chunks && carries[i..i + 1] == all;
    assert chunks[1..] == [] && all[1..] == [];
    assert DrillDown.Fresh(chunks, all) == chunk[carry..] + DrillDown.Fresh([], []);
    Seqs.Empty(chunk[carry..]);
  }

  lemma FreshNone(contents: seq<string>, carries: seq<nat>, i: nat)
    requires i <= |contents| == |carries| && forall i | 0 <= i < |contents| :: carries[i] <= |contents[i]|
    ensures FreshOf(contents, carries, i, i) == ""
  {
  }

  lemma FreshSnoc(contents: seq<string>, carries: seq<nat>, from: nat, end: nat)
    requires from < end <= |contents| == |carries|
    requires forall i | 0 <= i < |contents| :: carries[i] <= |contents[i]|
    ensures FreshOf(contents, carries, from, end)
         == FreshOf(contents, carries, from, end - 1) + contents[end - 1][carries[end - 1]..]
  {
    FreshSplit(contents, carries, from, end - 1, end);
    FreshOne(contents, carries, end - 1);
  }

  /** A chunk behind a text that ends with its carry is at the end of both. */
  lemma EndsWithChunk(acc: string, chunk: string, carry: nat)
    requires carry <= |chunk| && EndsWith(acc, chunk[..carry])
    ensures EndsWith(acc + chunk[carry..], chunk)
  {
    var pre := acc[..|acc| - carry];
    Seqs.TakeDrop(acc, |acc| - carry);
    Seqs.TakeDrop(chunk, carry);
    Seqs.Assoc(pre, chunk[..carry], chunk[carry..]);
    Seqs.AppendParts(pre, chunk);
  }

  /** Whatever ends in one sibling and goes on with the fresh text of others ends in the last of them. */
  lemma {:induction false} EndsWithSibling(
      acc: string, contents: seq<string>, carries: seq<nat>, from: nat, end: nat, overlap: nat)
    requires DrillDown.Linked(contents, carries, overlap) && from < end <= |contents|
    requires EndsWith(acc, contents[from])
    ensures EndsWith(acc + FreshOf(contents, carries, from + 1, end), contents[end - 1])
    decreases end
  {
    hide DrillDown.Fresh;
    if from + 1 == end {
      FreshNone(contents, carries, end);
      Seqs.Empty(acc);
    } else {
      FreshSnoc(contents, carries, from + 1, end);
      var before, chunk, carry := FreshOf(contents, carries, from + 1, end - 1), contents[end - 1], carries[end - 1];
      EndsWithSibling(acc, contents, carries, from, end - 1, overlap);
      assert DrillDown.LinkedAt(contents, carries, end - 1);
      DrillDown.SuffixTrans(acc + before, contents[end - 2], chunk[..carry]);
      EndsWithChunk(acc + before, chunk, carry);
      Seqs.Assoc(acc, before, chunk[carry..]);
    }
  }

  /** Stitching on from a text that ends in a sibling adds just the fresh text, if that is quiet. */
  lemma {:induction false} StitchOn(
      acc: string, contents: seq<string>, carries: seq<nat>, from: nat, end: nat, overlap: nat)
    requires DrillDown.Linked(contents, carries, overlap) && from <= end <= |contents|
    requires from < end ==> EndsWith(acc, contents[from][..carries[from]])
    requires DrillDown.Quiet(acc, contents[from..end], carries[from..end], overlap)
    ensures Stitch(acc, contents[from..end], overlap) == acc + FreshOf(contents, carries, from, end)
    decreases end - from
  {
    hide DrillDown.Fresh;
    if from == end {
      FreshNone(contents, carries, from);
      Seqs.Empty(acc);
    } else {
      var chunk, carry := contents[from], carries[from];
      var next := acc + chunk[carry..];
      Seqs.SliceStep(contents, from, end);
      Seqs.SliceStep(carries, from, end);
      DrillDown.NoAccident(acc, chunk, carry, overlap);
      StitchHead(acc, contents[from..end], overlap);
      if from + 1 < end {
        EndsWithChunk(acc, chunk, carry);
        assert DrillDown.LinkedAt(contents, carries, from + 1);
        DrillDown.SuffixTrans(next, chunk, contents[from + 1][..carries[from + 1]]);
      }
      StitchOn(next, contents, carries, from + 1, end, overlap);
      FreshSplit(contents, carries, from, from + 1, end);
      FreshOne(contents, carries, from);
      Seqs.Assoc(acc, chunk[carry..], FreshOf(contents, carries, from + 1, end));
    }
  }

  // ----- quiet siblings stay quiet in a run

  lemma LessMatches(before: string, shorter: string, chunk: string, carry: nat, overlap: nat)
    requires EndsWith(before, shorter) && !DrillDown.Accident(before, chunk, carry, overlap)
    ensures !DrillDown.Accident(shorter, chunk, carry, overlap)
  {
    forall j: nat | carry < j <= overlap && j <= |chunk| ensures !EndsWith(shorter, chunk[..j]) {
      if EndsWith(shorter, chunk[..j]) {
        DrillDown.SuffixTrans(before, shorter, chunk[..j]);
        assert false;
      }
    }
  }

  lemma SameEnd(before: string, shorter: string, more: string)
    requires EndsWith(before, shorter)
    ensures EndsWith(before + more, shorter + more)
  {
    var pre := before[..|before| - |shorter|];
    Seqs.TakeDrop(before, |before| - |shorter|);
    Seqs.Assoc(pre, shorter, more);
    Seqs.AppendParts(pre, shorter + more);
  }

  /** Behind less text, fewer matches are possible; and what is quiet is quiet up to any point. */
  lemma {:induction false} QuietRun(
      before: string, shorter: string, contents: seq<string>, carries: seq<nat>, from: nat, mid: nat, end: nat,
      overlap: nat)
    requires from <= mid <= end <= |contents| == |carries| && EndsWith(before, shorter)
    requires DrillDown.Quiet(before, contents[from..end], carries[from..end], overlap)
    ensures DrillDown.Quiet(shorter, contents[from..mid], carries[from..mid], overlap)
    decreases mid - from
  {
    hide DrillDown.Accident, EndsWith;
    if from < mid {
      var chunk, carry := contents[from], carries[from];
      Seqs.SliceStep(contents, from, end);
      Seqs.SliceStep(carries, from, end);
      Seqs.SliceStep(contents, from, mid);
      Seqs.SliceStep(carries, from, mid);
      LessMatches(before, shorter, chunk, carry, overlap);
      SameEnd(before, shorter, chunk[carry..]);
      QuietRun(before + chunk[carry..], shorter + chunk[carry..], contents, carries, from + 1, mid, end, overlap);
    }
  }

  lemma {:induction false} QuietFrom(contents: seq<string>, carries: seq<nat>, i: nat, overlap: nat)
    requires AreSiblings(contents, carries, overlap) && i <= |contents|
    ensures DrillDown.Quiet(FreshOf(contents, carries, 0, i), contents[i..], carries[i..], overlap)
  {
    hide DrillDown.Fresh;
    if i > 0 {
      QuietFrom(contents, carries, i - 1, overlap);
      FreshSnoc(contents, carries, 0, i);
      Seqs.DropStep(contents, i - 1);
      Seqs.DropStep(carries, i - 1);
    } else {
      FreshNone(contents, carries, 0);
      Seqs.TakeDrop(contents, 0);
      Seqs.Empty(contents);
      Seqs.TakeDrop(carries, 0);
      Seqs.Empty(carries);
    }
  }

  // ----- the text of a run

  /** Sibling `lo` whole, then the fresh text of those up to `hi`. */
  function RunText(contents: seq<string>, carries: seq<nat>, lo: nat, hi: nat): string
    requires lo <= hi < |contents| == |carries|
    requires forall i | 0 <= i < |contents| :: carries[i] <= |contents[i]|
  {
    contents[lo] + FreshOf(contents, carries, lo + 1, hi + 1)
  }

  /** The text before a sibling ends with what the sibling repeats, and with it ends in the sibling. */
  lemma BeforeSibling(contents: seq<string>, carries: seq<nat>, i: nat, overlap: nat)
    requires AreSiblings(contents, carries, overlap) && i < |contents|
    ensures EndsWith(FreshOf(contents, carries, 0, i), contents[i][..carries[i]])
    ensures EndsWith(FreshOf(contents, carries, 0, i + 1), contents[i])
  {
    hide DrillDown.Fresh, DrillDown.Quiet;
    FreshNone(contents, carries, 0);
    FreshSnoc(contents, carries, 0, i + 1);
    if i > 0 {
      BeforeSibling(contents, carries, i - 1, overlap);
      assert DrillDown.LinkedAt(contents, carries, i);
      DrillDown.SuffixTrans(FreshOf(contents, carries, 0, i), contents[i - 1], contents[i][..carries[i]]);
    }
    EndsWithChunk(FreshOf(contents, carries, 0, i), contents[i], carries[i]);
  }

  lemma QuietBehind(contents: seq<string>, carries: seq<nat>, lo: nat, hi: nat, overlap: nat)
    requires AreSiblings(contents, carries, overlap) && lo <= hi < |contents|
    ensures DrillDown.Quiet(contents[lo], contents[lo + 1..hi + 1], carries[lo + 1..hi + 1], overlap)
  {
    var n := |contents|;
    assert n == |carries|;
    hide *;
    QuietFrom(contents, carries, lo + 1, overlap);
    BeforeSibling(contents, carries, lo, overlap);
    Seqs.DropAll(contents, lo + 1);
    Seqs.DropAll(carries, lo + 1);
    QuietRun(
      FreshOf(contents, carries, 0, lo + 1), contents[lo], contents, carries, lo + 1, hi + 1, n, overlap);
  }

  /** Stitching a run gives its text. */
  lemma StitchRun(contents: seq<string>, carries: seq<nat>, lo: nat, hi: nat, overlap: nat)
    requires AreSiblings(contents, carries, overlap) && lo <= hi < |contents|
    ensures Stitch("", contents[lo..hi + 1], overlap) == RunText(contents, carries, lo, hi)
  {
    var chunk := contents[lo];
    if lo < hi { assert DrillDown.LinkedAt(contents, carries, lo + 1); }
    hide DrillDown.Fresh, DrillDown.Quiet, EndsWith, Stitch, Append;
    QuietBehind(contents, carries, lo, hi, overlap);
    StitchOn(chunk, contents, carries, lo + 1, hi + 1, overlap);
    Seqs.SliceStep(contents, lo, hi + 1);
    StitchHead("", contents[lo..hi + 1], overlap);
  }

  /** The text of a run is a stretch of the full reconstruction. */
  lemma RunInWhole(contents: seq<string>, carries: seq<nat>, lo: nat, hi: nat, overlap: nat)
    returns (before: string, after: string)
    requires AreSiblings(contents, carries, overlap) && lo <= hi < |contents|
    ensures Stitch("", contents, overlap) == before + RunText(contents, carries, lo, hi) + after
  {
    hide DrillDown.Fresh, DrillDown.Quiet;
    var n, chunk, carry := |contents|, contents[lo], carries[lo];
    var front := FreshOf(contents, carries, 0, lo);
    WholeText(contents, carries, overlap);
    BeforeSibling(contents, carries, lo, overlap);
    before := front[..|front| - carry];
    after := FreshOf(contents, carries, hi + 1, n);
    FreshSplit(contents, carries, 0, lo + 1, n);
    FreshSnoc(contents, carries, 0, lo + 1);
    FreshSplit(contents, carries, lo + 1, hi + 1, n);
    Seqs.Inside(front, chunk, carry, FreshOf(contents, carries, lo + 1, hi + 1), after);
  }

  lemma WholeText(contents: seq<string>, carries: seq<nat>, overlap: nat)
    requires AreSiblings(contents, carries, overlap)
    ensures Stitch("", contents, overlap) == FreshOf(contents, carries, 0, |contents|)
  {
    DrillDown.StitchLinked("", contents, carries, overlap);
    Seqs.TakeAll(contents);
    Seqs.TakeAll(carries);
    assert contents[0..|contents|] == contents[..|contents|] && carries[0..|carries|] == carries[..|carries|];
    Seqs.Empty(DrillDown.Fresh(contents, carries));
  }

  /** A run up to the anchor ends in the anchor. */
  lemma AnchorInRun(contents: seq<string>, carries: seq<nat>, lo: nat, a: nat, hi: nat, overlap: nat)
    returns (pre: string, post: string)
    requires AreSiblings(contents, carries, overlap) && lo <= a <= hi < |contents|
    ensures RunText(contents, carries, lo, a) == pre + contents[a]
    ensures RunText(contents, carries, lo, hi) == pre + contents[a] + post
  {
    hide DrillDown.Fresh, DrillDown.Quiet;
    var text := RunText(contents, carries, lo, a);
    assert EndsWith(contents[lo], contents[lo]);
    EndsWithSibling(contents[lo], contents, carries, lo, a + 1, overlap);
    pre := text[..|text| - |contents[a]|];
    Seqs.TakeDrop(text, |pre|);
    post := FreshOf(contents, carries, a + 1, hi + 1);
    FreshSplit(contents, carries, lo + 1, a + 1, hi + 1);
    Seqs.Assoc(contents[lo], FreshOf(contents, carries, lo + 1, a + 1), post);
  }

  // ----- how far the estimate falls short

  /** The estimate takes every sibling to repeat this much. */
  function Repeated(content: string, overlap: nat): nat {
    Min(|content|, overlap)
  }

  /** What siblings left of the anchor repeat less than the estimate takes them to. */
  function GapLeft(contents: seq<string>, carries: seq<nat>, lo: nat, a: nat, overlap: nat): int
    requires lo <= a < |contents| == |carries|
  {
    if lo == a then 0
    else GapLeft(contents, carries, lo, a - 1, overlap) + Repeated(contents[a - 1], overlap) - carries[a]
  }

  /** The same to its right. */
  function GapRight(contents: seq<string>, carries: seq<nat>, a: nat, hi: nat, overlap: nat): int
    requires a <= hi < |contents| == |carries|
  {
    if a == hi then 0
    else GapRight(contents, carries, a, hi - 1, overlap) + Repeated(contents[hi], overlap) - carries[hi]
  }

  lemma {:induction false} LeftLength(contents: seq<string>, carries: seq<nat>, lo: nat, a: nat, overlap: nat)
    requires DrillDown.Linked(contents, carries, overlap) && lo <= a < |contents|
    ensures |RunText(contents, carries, lo, a)|
         == |contents[a]| + Sum(contents, lo, a, overlap) + GapLeft(contents, carries, lo, a, overlap)
    ensures GapLeft(contents, carries, lo, a, overlap) >= 0
    decreases a
  {
    hide DrillDown.Fresh;
    if lo == a {
      FreshNone(contents, carries, lo + 1);
    } else {
      LeftLength(contents, carries, lo, a - 1, overlap);
      FreshSnoc(contents, carries, lo + 1, a + 1);
      assert DrillDown.LinkedAt(contents, carries, a);
    }
  }

  lemma {:induction false} RightLength(contents: seq<string>, carries: seq<nat>, a: nat, hi: nat, overlap: nat)
    requires DrillDown.Linked(contents, carries, overlap) && a <= hi < |contents|
    ensures |FreshOf(contents, carries, a + 1, hi + 1)|
         == Sum(contents, a + 1, hi + 1, overlap) + GapRight(contents, carries, a, hi, overlap)
    ensures GapRight(contents, carries, a, hi, overlap) >= 0
    decreases hi
  {
    hide DrillDown.Fresh;
    if a == hi {
      FreshNone(contents, carries, a + 1);
    } else {
      RightLength(contents, carries, a, hi - 1, overlap);
      FreshSnoc(contents, carries, a + 1, hi + 1);
    }
  }

  /** The estimate never exceeds the stitched length, and falls short by exactly the gaps. */
  lemma EstimateGap(contents: seq<string>, carries: seq<nat>, a: nat, lo: nat, hi: nat, overlap: nat)
    requires AreSiblings(contents, carries, overlap) && lo <= a <= hi < |contents|
    ensures var left, right := GapLeft(contents, carries, lo, a, overlap), GapRight(contents, carries, a, hi, overlap);
            && left >= 0 && right >= 0
            && |Stitch("", contents[lo..hi + 1], overlap)| == Estimate(contents, a, lo, hi, overlap) + left + right
  {
    hide DrillDown.Fresh, DrillDown.Quiet;
    StitchRun(contents, carries, lo, hi, overlap);
    LeftLength(contents, carries, lo, a, overlap);
    RightLength(contents, carries, a, hi, overlap);
    FreshSplit(contents, carries, lo + 1, a + 1, hi + 1);
  }

  /**
   Around an anchor the window is the front of a stretch of the full reconstruction. It holds
   the whole anchor if and only if the anchor, the estimate for what is left of it and the gap
   there fit the budget; it is not cut at all if and only if the estimate and both gaps do.
   */
  lemma WindowShows(
      contents: seq<string>, carries: seq<nat>, a: nat, lo: nat, hi: nat, budget: nat, overlap: nat)
    returns (before: string, after: string, pre: string, post: string)
    requires AreSiblings(contents, carries, overlap) && lo <= a <= hi < |contents|
    ensures var stitched := Stitch("", contents[lo..hi + 1], overlap);
            var window := Seqs.Take(stitched, budget);
            var left, right := GapLeft(contents, carries, lo, a, overlap), GapRight(contents, carries, a, hi, overlap);
            && Stitch("", contents, overlap) == before + stitched + after
            && stitched == pre + contents[a] + post
            && (pre + contents[a] <= window
                <==> |contents[a]| + Sum(contents, lo, a, overlap) + left <= budget)
            && (window == stitched <==> Estimate(contents, a, lo, hi, overlap) + left + right <= budget)
  {
    hide DrillDown.Fresh, DrillDown.Quiet;
    StitchRun(contents, carries, lo, hi, overlap);
    EstimateGap(contents, carries, a, lo, hi, overlap);
    LeftLength(contents, carries, lo, a, overlap);
    before, after := RunInWhole(contents, carries, lo, hi, overlap);
    pre, post := AnchorInRun(contents, carries, lo, a, hi, overlap);
    FrontOf(pre + contents[a], post, budget);
  }

  lemma FrontOf(front: string, back: string, n: nat)
    ensures front <= Seqs.Take(front + back, n) <==> |front| <= n
    ensures Seqs.Take(front + back, n) == front + back <==> |front + back| <= n
  {
    if |front| <= n < |front + back| {
      assert front + back == (front + back)[..n] + (front + back)[n..];
      assert (front + back)[..n][..|front|] == front;
    }
  }

  // ----- full overlaps

  /** `next` really starts with `overlap` characters that `prev` ends with. */
  ghost predicate Shares(prev: string, next: string, overlap: nat) {
    overlap <= |next| && EndsWith(prev, next[..overlap])
  }

  ghost predicate Chain(contents: seq<string>, overlap: nat) {
    overlap > 0 && forall i | 1 <= i < |contents| :: SharesAt(contents, i, overlap)
  }

  ghost predicate SharesAt(contents: seq<string>, i: nat, overlap: nat)
    requires 1 <= i < |contents|
  {
    Shares(contents[i - 1], contents[i], overlap)
  }

  /** Packed chunks whose every carry is a full overlap form a chain. */
  lemma FullCarriesChain(chunks: seq<string>, carries: seq<nat>, overlap: nat)
    requires overlap > 0 && DrillDown.Linked(chunks, carries, overlap)
    requires forall i | 1 <= i < |carries| :: carries[i] == overlap
    ensures Chain(chunks, overlap)
  {
    forall i | 1 <= i < |chunks| ensures SharesAt(chunks, i, overlap) {
      assert DrillDown.LinkedAt(chunks, carries, i);
    }
  }

  function FullCarries(n: nat, overlap: nat): (carries: seq<nat>)
    ensures |carries| == n
  {
    seq(n, i => if i == 0 then 0 else overlap)
  }

  /** A chain is a family of siblings: nothing can match more than a full overlap. */
  lemma ChainIsSiblings(contents: seq<string>, overlap: nat)
    requires Chain(contents, overlap)
    ensures AreSiblings(contents, FullCarries(|contents|, overlap), overlap)
  {
    var carries := FullCarries(|contents|, overlap);
    forall i | 1 <= i < |contents| ensures overlap <= |contents[i]| && DrillDown.LinkedAt(contents, carries, i) {
      assert SharesAt(contents, i, overlap);
    }
    FullIsQuiet("", contents, carries, overlap);
  }

  lemma {:induction false} FullIsQuiet(before: string, contents: seq<string>, carries: seq<nat>, overlap: nat)
    requires |contents| == |carries| && forall i | 0 <= i < |contents| :: carries[i] <= |contents[i]|
    requires forall i | 0 <= i < |carries| :: carries[i] == overlap || (i == 0 && before == "")
    ensures DrillDown.Quiet(before, contents, carries, overlap)
    decreases |contents|
  {
    if contents != [] {
      FullIsQuiet(before + contents[0][carries[0]..], contents[1..], carries[1..], overlap);
    }
  }

  lemma {:induction false} NoGapLeft(contents: seq<string>, lo: nat, a: nat, overlap: nat)
    requires Chain(contents, overlap) && lo <= a < |contents|
    ensures GapLeft(contents, FullCarries(|contents|, overlap), lo, a, overlap) == 0
  {
    if lo < a {
      NoGapLeft(contents, lo, a - 1, overlap);
      assert SharesAt(contents, a, overlap);
    }
  }

  lemma {:induction false} NoGapRight(contents: seq<string>, a: nat, hi: nat, overlap: nat)
    requires Chain(contents, overlap) && a <= hi < |contents|
    ensures GapRight(contents, FullCarries(|contents|, overlap), a, hi, overlap) == 0
  {
    if a < hi {
      NoGapRight(contents, a, hi - 1, overlap);
      assert SharesAt(contents, hi, overlap);
    }
  }

  /**
   In a chain there are no gaps, so the window of an anchor that fits is not cut: it is a
   stretch of the full reconstruction and holds the whole anchor chunk.
   */
  lemma WindowIsExact(contents: seq<string>, a: nat, lo: nat, hi: nat, budget: nat, overlap: nat)
    returns (before: string, after: string, pre: string, post: string)
    requires Chain(contents, overlap) && IsRun(contents, a, lo, hi, budget, overlap)
    requires |contents[a]| <= budget
    ensures var window := Stitch("", contents[lo..hi + 1], overlap);
            && |window| == Estimate(contents, a, lo, hi, overlap) <= budget
            && Seqs.Take(window, budget) == window
            && Stitch("", contents, overlap) == before + window + after
            && window == pre + contents[a] + post
  {
    var carries := FullCarries(|contents|, overlap);
    ExactEstimate(contents, a, lo, hi, overlap);
    ChainIsSiblings(contents, overlap);
    hide AreSiblings, Chain, FullCarries;
    before, after, pre, post := WindowShows(contents, carries, a, lo, hi, budget, overlap);
  }

  lemma ExactEstimate(contents: seq<string>, a: nat, lo: nat, hi: nat, overlap: nat)
    requires Chain(contents, overlap) && lo <= a <= hi < |contents|
    ensures |Stitch("", contents[lo..hi + 1], overlap)| == Estimate(contents, a, lo, hi, overlap)
  {
    hide Chain, FullCarries;
    ChainIsSiblings(contents, overlap);
    NoGapLeft(contents, lo, a, overlap);
    NoGapRight(contents, a, hi, overlap);
    EstimateGap(contents, FullCarries(|contents|, overlap), a, lo, hi, overlap);
  }

  // ----- chunks of a text

  /** The chunks of a text with words are siblings if its sections start without accidents. */
  lemma ChunksAreSiblings(content: string, cfg: Chunking.ChunkConfig)
    requires cfg.Overlap() > 0 && Chunking.HasWords(content, cfg.Max())
    ensures var sections := Chunking.Sections(content);
            AreSiblings(
              Chunking.Contents(Chunking.Chunks(content, cfg)),
              DrillDown.SectionCarries(sections, cfg.Max(), cfg.Overlap()), cfg.Overlap())
            <==> DrillDown.QuietStarts("", sections, cfg.Max(), cfg.Overlap())
  {
    hide Chunking.HasWords, DrillDown.Quiet, DrillDown.QuietStarts;
    var sections := Chunking.Sections(content);
    Chunking.ChunkContents(content, cfg);
    DrillDown.SectionsLink(sections, cfg.Max(), cfg.Overlap());
    DrillDown.SectionsAreQuiet("", sections, cfg.Max(), cfg.Overlap());
  }

  /** Two siblings that share nothing, the second well within the budget. */
  lemma AnchorCutHere()
    ensures var contents := ["aaaaaaaa", "bbbbbbb"];
            && IsRun(contents, 1, 0, 1, 10, 5)
            && Seqs.Take(Stitch("", contents[0..2], 5), 10) == "aaaaaaaabb"
  {
    var contents := ["aaaaaaaa", "bbbbbbb"];
    assert contents[0..2] == contents && contents[1..] == [contents[1]] && [contents[1]][1..] == [];
    assert Sum(contents, 0, 0, 5) == 0 && Sum(contents, 0, 1, 5) == 3 && Sum(contents, 2, 2, 5) == 0;
    NothingShared(contents[0], contents[1], 5);
    assert Stitch("", contents, 5) == Stitch(contents[0], [contents[1]], 5) == contents[0] + contents[1];
  }

  lemma NothingShared(acc: string, next: string, overlap: nat)
    requires acc != "" && next != "" && forall i, j | 0 <= i < |acc| && 0 <= j < |next| :: acc[i] != next[j]
    ensures Append(acc, next, overlap) == acc + next
  {
    forall j: nat | 0 < j <= overlap && j <= |next| ensures !EndsWith(acc, next[..j]) {
      if j <= |acc| {
        assert acc[|acc| - j..][0] == acc[|acc| - j] && next[..j][0] == next[0];
      }
    }
    CutIs(acc, next, overlap, 0);
  }

  /** An anchor larger than the budget is shown alone, cut to the budget. */
  lemma OversizedAnchor(contents: seq<string>, a: nat, lo: nat, hi: nat, budget: nat, overlap: nat)
    requires IsRun(contents, a, lo, hi, budget, overlap) && |contents[a]| > budget
    ensures lo == hi == a
    ensures Seqs.Take(Stitch("", contents[lo..hi + 1], overlap), budget) == contents[a][..budget]
  {
    assert contents[a..a + 1] == [contents[a]];
    assert Stitch("", [contents[a]], overlap) == contents[a];
  }
}
