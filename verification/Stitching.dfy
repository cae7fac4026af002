/**
 Putting chunks together again: each chunk is appended without the longest of its
 prefixes, up to `overlap` characters, with which the text so far already ends.
 */
module Stitching {
  import opened Text

  /** The longest `k <= limit` for which `acc` ends with the first `k` characters of `next`. */
  function Cut(acc: string, next: string, limit: nat): (k: nat)
    ensures k <= limit && k <= |next| && EndsWith(acc, next[..k])
    ensures forall j: nat :: k < j <= limit && j <= |next| ==> !EndsWith(acc, next[..j])
  {
    if limit == 0 then
      assert EndsWith(acc, next[..0]);
      0
    else if limit <= |next| && EndsWith(acc, next[..limit]) then limit
    else Cut(acc, next, limit - 1)
  }

  lemma CutIs(acc: string, next: string, limit: nat, k: nat)
    requires k <= limit && k <= |next| && EndsWith(acc, next[..k])
    requires forall j: nat :: k < j <= limit && j <= |next| ==> !EndsWith(acc, next[..j])
    ensures Cut(acc, next, limit) == k
  {
  }

  function Append(acc: string, next: string, overlap: nat): string {
    if acc == "" then next else acc + next[Cut(acc, next, overlap)..]
  }

  /** The text made of `acc` and all of `chunks`. */
  function Stitch(acc: string, chunks: seq<string>, overlap: nat): string
    decreases |chunks|
  {
    if chunks == [] then acc else Stitch(Append(acc, chunks[0], overlap), chunks[1..], overlap)
  }

  /** `append_with_overlap` */
  method AppendWithOverlap(acc: string, next: string, overlap: nat) returns (out: string)
    ensures out == Append(acc, next, overlap)
  {
    if acc == "" {
      return next;
    }
    var k := if overlap < |next| then overlap else |next|;
    while k > 0 && !EndsWith(acc, next[..k])
      invariant 0 <= k <= overlap && k <= |next|
      invariant forall j: nat :: k < j <= overlap && j <= |next| ==> !EndsWith(acc, next[..j])
    {
      k := k - 1;
    }
    assert EndsWith(acc, next[..0]);
    CutIs(acc, next, overlap, k);
    out := acc + next[k..];
  }

  /** The loop of `reconstruct_parent_record`. */
  method StitchAll(chunks: seq<string>, overlap: nat) returns (out: string)
    ensures out == Stitch("", chunks, overlap)
  {
    out := "";
    for i := 0 to |chunks|
      invariant Stitch(out, chunks[i..], overlap) == Stitch("", chunks, overlap)
    {
      assert chunks[i..][1..] == chunks[i + 1..];
      out := AppendWithOverlap(out, chunks[i], overlap);
    }
  }

  lemma StitchHead(acc: string, chunks: seq<string>, overlap: nat)
    requires chunks != []
    ensures Stitch(acc, chunks, overlap) == Stitch(Append(acc, chunks[0], overlap), chunks[1..], overlap)
    ensures Append("", chunks[0], overlap) == chunks[0]
  {
  }

  lemma {:induction false} StitchAppend(acc: string, a: seq<string>, b: seq<string>, overlap: nat)
    ensures Stitch(acc, a + b, overlap) == Stitch(Stitch(acc, a, overlap), b, overlap)
    decreases |a|
  {
    if a == [] {
      assert a + b == b;
    } else {
      assert (a + b)[1..] == a[1..] + b;
      StitchAppend(Append(acc, a[0], overlap), a[1..], b, overlap);
    }
  }
}
