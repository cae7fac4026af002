/**
 The packer of the chunker: trimmed pieces are put into one chunk, separated by single
 spaces, until the next one no longer fits; the new chunk then starts with the last
 `overlap` characters of the one just finished.
 */
module Packing {
  import opened Text
  import opened Numbers
  import Seqs

  function Tail(s: string, n: nat): string {
    if |s| <= n then s else s[|s| - n..]
  }

  /** The non-empty trimmed pieces. */
  function Clean(pieces: seq<string>): (words: seq<string>)
    ensures forall w <- words :: IsTidy(w)
  {
    if pieces == [] then []
    else
      var p := Trim(pieces[0]);
      (if p == "" then [] else [p]) + Clean(pieces[1..])
  }

  /** `piece` put behind what the open chunk holds. */
  function Glue(current: string, piece: string): string {
    if current == "" then piece else current + " " + piece
  }

  predicate Full(current: string, word: string, max: nat) {
    current != "" && |current| + 1 + |word| > max
  }

  /** The chunks still to come when `current` is open and `words` are left. */
  function Pack(current: string, words: seq<string>, max: nat, overlap: nat): seq<string>
    decreases |words|
  {
    if words == [] then
      if IsBlank(current) then [] else [Trim(current)]
    else
      Closed(current, words[0], max)
      + Pack(Opened(current, words[0], max, overlap), words[1..], max, overlap)
  }

  function Merge(pieces: seq<string>, max: nat, overlap: nat): seq<string> {
    Pack("", Clean(pieces), max, overlap)
  }

  lemma CleanStep(pieces: seq<string>, i: nat)
    requires i < |pieces|
    ensures Trim(pieces[i]) == "" ==> Clean(pieces[i..]) == Clean(pieces[i + 1..])
    ensures Trim(pieces[i]) != "" ==> Clean(pieces[i..]) == [Trim(pieces[i])] + Clean(pieces[i + 1..])
  {
    assert pieces[i..][1..] == pieces[i + 1..];
  }

  /** The chunk that `word` closes, if it does. */
  function Closed(current: string, word: string, max: nat): seq<string> {
    if Full(current, word, max) then [current] else []
  }

  /** The open chunk once `word` is in it. */
  function Opened(current: string, word: string, max: nat, overlap: nat): string {
    Glue(if Full(current, word, max) then Tail(current, overlap) else current, word)
  }

  lemma PackStep(current: string, word: string, words: seq<string>, max: nat, overlap: nat)
    ensures Pack(current, [word] + words, max, overlap)
         == Closed(current, word, max) + Pack(Opened(current, word, max, overlap), words, max, overlap)
  {
    assert ([word] + words)[1..] == words;
  }

  lemma PackLast(current: string, max: nat, overlap: nat)
    ensures Clean([]) == []
    ensures Pack(current, [], max, overlap) == if IsBlank(current) then [] else [Trim(current)]
    ensures IsBlank(current) <==> Trim(current) == ""
  {
  }

  /** `merge_with_overlap` */
  method MergeWithOverlap(pieces: seq<string>, max: nat, overlap: nat) returns (chunks: seq<string>)
    ensures chunks == Merge(pieces, max, overlap)
  {
    hide Pack, Clean;
    chunks := [];
    var current := "";
    Seqs.TakeDrop(pieces, 0);
    Seqs.Empty(pieces);
    for i := 0 to |pieces|
      invariant chunks + Pack(current, Clean(pieces[i..]), max, overlap) == Merge(pieces, max, overlap)
    {
      CleanStep(pieces, i);
      var piece := Trim(pieces[i]);
      if piece != "" {
        PackStep(current, piece, Clean(pieces[i + 1..]), max, overlap);
        var finished;
        finished, current := Put(current, piece, max, overlap);
        chunks := chunks + finished;
      }
    }
    PackLast(current, max, overlap);
    if Trim(current) != "" {
      chunks := chunks + [Trim(current)];
    }
  }

  /** One iteration of its loop: what is finished and what is open afterwards. */
  method Put(open: string, piece: string, max: nat, overlap: nat)
    returns (finished: seq<string>, current: string)
    ensures finished == Closed(open, piece, max)
    ensures current == Opened(open, piece, max, overlap)
  {
    finished, current := [], open;
    var joined := if current == "" then 0 else 1;
    if current != "" && |current| + joined + |piece| > max {
      finished := [current];
      current := "";
      if overlap > 0 {
        current := Tail(open, overlap);
      }
    }
    if current != "" {
      current := current + " ";
    }
    current := current + piece;
  }

  // ----- how large a chunk can get

  /** The largest chunk when no word is longer than `longest`. */
  function Bound(longest: nat, max: nat, overlap: nat): nat {
    if overlap == 0 then max else Max(max, overlap + 1 + longest)
  }

  lemma {:induction false} PackFits(current: string, words: seq<string>, longest: nat, max: nat, overlap: nat)
    requires forall w <- words :: |w| <= longest
    requires longest <= max && |current| <= Bound(longest, max, overlap)
    ensures forall c <- Pack(current, words, max, overlap) :: |c| <= Bound(longest, max, overlap)
    decreases |words|
  {
    if words != [] {
      PackFits(Opened(current, words[0], max, overlap), words[1..], longest, max, overlap);
    }
  }

  lemma {:induction false} CleanFits(pieces: seq<string>, longest: nat)
    requires forall p <- pieces :: |p| <= longest
    ensures forall w <- Clean(pieces) :: |w| <= longest
  {
    if pieces != [] { CleanFits(pieces[1..], longest); }
  }

  lemma MergeFits(pieces: seq<string>, longest: nat, max: nat, overlap: nat)
    requires longest <= max && forall p <- pieces :: |p| <= longest
    ensures forall c <- Merge(pieces, max, overlap) :: |c| <= Bound(longest, max, overlap)
  {
    CleanFits(pieces, longest);
    PackFits("", Clean(pieces), longest, max, overlap);
  }

  /** Something is packed as soon as there is a word. */
  lemma {:induction false} PackNonEmpty(current: string, words: seq<string>, max: nat, overlap: nat)
    requires forall w <- words :: IsTidy(w)
    requires words != [] || !IsBlank(current)
    ensures Pack(current, words, max, overlap) != []
    decreases |words|
  {
    if words != [] {
      var next := Opened(current, words[0], max, overlap);
      assert words[0] in words;
      assert next[|next| - 1] == words[0][|words[0]| - 1];
      PackNonEmpty(next, words[1..], max, overlap);
    }
  }

  /** Packing loses nothing but the white space around the pieces. */
  lemma {:induction false} CleanInk(pieces: seq<string>)
    ensures Ink(Concat(Clean(pieces))) == Ink(Concat(pieces))
  {
    if pieces != [] {
      var p, rest := Trim(pieces[0]), Clean(pieces[1..]);
      CleanInk(pieces[1..]);
      InkTrim(pieces[0]);
      InkAppend(pieces[0], Concat(pieces[1..]));
      if p == "" {
        assert Clean(pieces) == rest;
      } else {
        assert Clean(pieces) == [p] + rest && ([p] + rest)[1..] == rest;
        InkAppend(p, Concat(rest));
      }
    }
  }
}
