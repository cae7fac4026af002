/** The packer and the stitcher undo each other. */
module RoundTrip {
  import opened Text
  import opened Packing
  import opened Stitching
  import Seqs

  /** The words, each behind a space. */
  function Spaced(words: seq<string>): string {
    if words == [] then "" else " " + words[0] + Spaced(words[1..])
  }

  lemma {:induction false} JoinSpaced(words: seq<string>)
    requires words != []
    ensures Join(words, " ") == words[0] + Spaced(words[1..])
  {
    if |words| == 1 {
      assert Spaced(words[1..]) == "";
    } else {
      JoinSpaced(words[1..]);
      assert Spaced(words[1..]) == " " + words[1..][0] + Spaced(words[1..][1..]);
    }
  }

  /**
   The open chunk as the stitcher will meet it: `pre + carry` is stitched already and the
   chunk is `carry + body`. Either nothing is stitched yet, or the carry is a full overlap,
   or it is all that is stitched because the first chunk was shorter than the overlap.
   */
  ghost predicate Carries(pre: string, carry: string, body: string, overlap: nat) {
    && body != "" && !IsWhitespace(body[|body| - 1])
    && if pre + carry == "" then !IsWhitespace(body[0])
       else
         && carry != "" && !IsWhitespace(carry[|carry| - 1])
         && |carry| <= overlap <= |carry + body|
         && (pre == "" || |carry| == overlap)
  }

  /** A chunk is cut where the stitched text ends with it, if no longer prefix matches. */
  lemma AppendAt(pre: string, shared: string, body: string, overlap: nat)
    requires 0 < |shared| <= overlap
    requires forall j: nat :: |shared| < j <= overlap && j <= |shared + body| ==>
      !EndsWith(pre + shared, (shared + body)[..j])
    ensures Append(pre + shared, shared + body, overlap) == pre + shared + body
  {
    var acc, next := pre + shared, shared + body;
    assert next[..|shared|] == shared && acc[|acc| - |shared|..] == shared;
    CutIs(acc, next, overlap, |shared|);
    assert next[|shared|..] == body;
    Seqs.Assoc(pre, shared, body);
  }

  /** An unfinished chunk is cut exactly at the end of its carry. */
  lemma AppendCurrent(pre: string, carry: string, body: string, overlap: nat)
    requires Carries(pre, carry, body, overlap)
    ensures Append(pre + carry, carry + body, overlap) == pre + carry + body
  {
    if pre + carry == "" {
      Seqs.Empty(body);
    } else {
      AppendAt(pre, carry, body, overlap);
    }
  }

  /** The white space a trimmed chunk loses lies inside its carry. */
  lemma TrimChunk(carry: string, body: string) returns (lost: string, kept: string)
    requires body != "" && !IsWhitespace(body[|body| - 1])
    requires if carry == "" then !IsWhitespace(body[0]) else !IsWhitespace(carry[|carry| - 1])
    ensures carry == lost + kept && IsBlank(lost)
    ensures carry != "" ==> kept != "" && !IsWhitespace(kept[0])
    ensures Trim(carry + body) == kept + body
  {
    lost, kept := SkipBlank(carry, body);
    var rest := kept + body;
    assert rest[|rest| - 1] == body[|body| - 1];
    assert TrimEnd(rest) == rest;
  }

  lemma {:induction false} SkipBlank(carry: string, body: string) returns (lost: string, kept: string)
    requires body != ""
    requires if carry == "" then !IsWhitespace(body[0]) else !IsWhitespace(carry[|carry| - 1])
    ensures carry == lost + kept && IsBlank(lost)
    ensures carry != "" ==> kept != "" && !IsWhitespace(kept[0])
    ensures TrimStart(carry + body) == kept + body
    decreases |carry|
  {
    hide *;
    TrimStartStep(carry + body);
    if carry != "" && IsWhitespace(carry[0]) {
      lost, kept := SkipBlank(carry[1..], body);
      Seqs.ConsAppend(carry, body);
      Seqs.HeadTail(carry);
      Seqs.Assoc([carry[0]], lost, kept);
      BlankCons(carry[0], lost);
      lost := [carry[0]] + lost;
    } else {
      NoBlank();
      lost, kept := "", carry;
      Seqs.Empty(carry);
    }
  }

  lemma BlankCons(c: char, s: string)
    requires IsWhitespace(c) && IsBlank(s)
    ensures IsBlank([c] + s)
  {
  }

  lemma NoBlank()
    ensures IsBlank("")
  {
  }

  lemma TrimStartStep(s: string)
    requires s != ""
    ensures TrimStart(s) == if IsWhitespace(s[0]) then TrimStart(s[1..]) else s
  {
  }

  /**
   The last chunk is trimmed, so its carry may have lost leading white space. No longer
   prefix can match by accident: it would have to start with a character that is white
   space in the carry and not white space in the trimmed chunk.
   */
  lemma AppendTrimmed(pre: string, carry: string, body: string, overlap: nat)
    requires Carries(pre, carry, body, overlap)
    ensures Append(pre + carry, Trim(carry + body), overlap) == pre + carry + body
  {
    var lost, kept := TrimChunk(carry, body);
    if pre + carry == "" {
      Seqs.Empty(body);
    } else {
      forall j: nat | |kept| < j <= overlap && j <= |kept + body|
        ensures !EndsWith((pre + lost) + kept, (kept + body)[..j])
      {
        NoLongerMatch(pre, lost, kept, body, overlap, j);
      }
      AppendAt(pre + lost, kept, body, overlap);
      Seqs.Assoc(pre, lost, kept);
    }
  }

  lemma NoLongerMatch(pre: string, lost: string, kept: string, body: string, overlap: nat, j: nat)
    requires IsBlank(lost) && kept != "" && !IsWhitespace(kept[0])
    requires |kept| < j <= |kept + body| && j <= overlap
    requires pre == "" || |lost + kept| == overlap
    ensures !EndsWith((pre + lost) + kept, (kept + body)[..j])
  {
    var acc, prefix := (pre + lost) + kept, (kept + body)[..j];
    assert prefix[0] == kept[0];
    if j <= |acc| {
      assert acc[|acc| - j..][0] == lost[|lost| + |kept| - j];
    }
  }

  /** The carry of the chunk that follows `carry + body`, and what precedes it. */
  lemma CarriesOver(pre: string, carry: string, body: string, word: string, max: nat, overlap: nat)
    returns (pre2: string, carry2: string)
    requires Carries(pre, carry, body, overlap)
    requires IsTidy(word) && 0 < overlap <= max && Full(carry + body, word, max)
    ensures pre2 + carry2 == pre + carry + body
    ensures carry2 + (" " + word) == Opened(carry + body, word, max, overlap)
    ensures Carries(pre2, carry2, " " + word, overlap)
  {
    var current := carry + body;
    carry2 := Tail(current, overlap);
    if |current| <= overlap {
      pre2 := pre;
    } else {
      pre2 := pre + current[..|current| - overlap];
      Seqs.TakeDrop(current, |current| - overlap);
      Seqs.Assoc(pre, current[..|current| - overlap], carry2);
    }
    Seqs.Assoc(pre, carry, body);
    assert carry2[|carry2| - 1] == body[|body| - 1];
    assert (" " + word)[|word|] == word[|word| - 1];
  }

  /** Stitching what is still to be packed completes the text. */
  lemma {:induction false} StitchPack(
      pre: string, carry: string, body: string, words: seq<string>, max: nat, overlap: nat)
    requires Carries(pre, carry, body, overlap)
    requires 0 < overlap <= max && forall w <- words :: IsTidy(w)
    ensures Stitch(pre + carry, Pack(carry + body, words, max, overlap), overlap)
         == pre + carry + body + Spaced(words)
    decreases |words|
  {
    if words == [] {
      StitchLast(pre, carry, body, max, overlap);
    } else if Full(carry + body, words[0], max) {
      StitchFull(pre, carry, body, words, max, overlap);
    } else {
      StitchGlued(pre, carry, body, words, max, overlap);
    }
  }

  lemma StitchLast(pre: string, carry: string, body: string, max: nat, overlap: nat)
    requires Carries(pre, carry, body, overlap)
    ensures Stitch(pre + carry, Pack(carry + body, [], max, overlap), overlap)
         == pre + carry + body + Spaced([])
  {
    LastNotBlank(carry, body);
    AppendTrimmed(pre, carry, body, overlap);
    StitchOne(pre + carry, Trim(carry + body), overlap);
    Seqs.Empty(pre + carry + body);
  }

  lemma {:induction false} StitchGlued(
      pre: string, carry: string, body: string, words: seq<string>, max: nat, overlap: nat)
    requires Carries(pre, carry, body, overlap)
    requires 0 < overlap <= max && words != [] && forall w <- words :: IsTidy(w)
    requires !Full(carry + body, words[0], max)
    ensures Stitch(pre + carry, Pack(carry + body, words, max, overlap), overlap)
         == pre + carry + body + Spaced(words)
    decreases |words|, 0
  {
    var word, rest := words[0], words[1..];
    assert word in words;
    var body2 := body + (" " + word);
    CarriesGlued(pre, carry, body, word, overlap);
    PackGlued(carry, body, words, max, overlap);
    StitchPack(pre, carry, body2, rest, max, overlap);
    calc {
      pre + carry + body2 + Spaced(rest);
      { Seqs.Assoc(pre + carry, body, " " + word); }
      pre + carry + body + (" " + word) + Spaced(rest);
      { SpacedStep(pre + carry + body, words); }
      pre + carry + body + Spaced(words);
    }
  }

  lemma CarriesGlued(pre: string, carry: string, body: string, word: string, overlap: nat)
    requires Carries(pre, carry, body, overlap) && IsTidy(word)
    ensures Carries(pre, carry, body + (" " + word), overlap)
  {
    var body2 := body + (" " + word);
    assert body2[|body2| - 1] == word[|word| - 1];
  }

  lemma PackGlued(carry: string, body: string, words: seq<string>, max: nat, overlap: nat)
    requires body != "" && words != [] && !Full(carry + body, words[0], max)
    ensures Pack(carry + body, words, max, overlap)
         == Pack(carry + (body + (" " + words[0])), words[1..], max, overlap)
  {
    var more := Pack(carry + (body + (" " + words[0])), words[1..], max, overlap);
    Seqs.Empty(more);
    Seqs.Assoc(carry, body, " " + words[0]);
    Seqs.Assoc(carry + body, " ", words[0]);
  }

  lemma {:induction false} StitchFull(
      pre: string, carry: string, body: string, words: seq<string>, max: nat, overlap: nat)
    requires Carries(pre, carry, body, overlap)
    requires 0 < overlap <= max && words != [] && forall w <- words :: IsTidy(w)
    requires Full(carry + body, words[0], max)
    ensures Stitch(pre + carry, Pack(carry + body, words, max, overlap), overlap)
         == pre + carry + body + Spaced(words)
    decreases |words|, 0
  {
    var word, rest := words[0], words[1..];
    assert word in words;
    var pre2, carry2 := CarriesOver(pre, carry, body, word, max, overlap);
    var more := Pack(carry2 + (" " + word), rest, max, overlap);
    StitchPack(pre2, carry2, " " + word, rest, max, overlap);
    AppendCurrent(pre, carry, body, overlap);
    StitchCons(pre + carry, carry + body, more, overlap);
    SpacedStep(pre + carry + body, words);
  }

  lemma SpacedStep(text: string, words: seq<string>)
    requires words != []
    ensures text + Spaced(words) == text + (" " + words[0]) + Spaced(words[1..])
  {
  }

  lemma LastNotBlank(carry: string, body: string)
    requires body != "" && !IsWhitespace(body[|body| - 1])
    ensures !IsBlank(carry + body)
  {
    var s := carry + body;
    assert s[|s| - 1] == body[|body| - 1];
  }

  lemma StitchOne(acc: string, chunk: string, overlap: nat)
    ensures Stitch(acc, [chunk], overlap) == Append(acc, chunk, overlap)
  {
    assert [chunk][1..] == [];
  }

  lemma StitchCons(acc: string, chunk: string, rest: seq<string>, overlap: nat)
    ensures Stitch(acc, [chunk] + rest, overlap) == Stitch(Append(acc, chunk, overlap), rest, overlap)
  {
    assert ([chunk] + rest)[1..] == rest;
  }

  /** The first word opens the first chunk. */
  lemma PackFirst(words: seq<string>, max: nat, overlap: nat)
    requires words != []
    ensures Pack("", words, max, overlap) == Pack(words[0], words[1..], max, overlap)
  {
    assert Opened("", words[0], max, overlap) == words[0];
    Seqs.Empty(Pack(words[0], words[1..], max, overlap));
  }

  /**
   With an overlap, the chunks of any pieces stitch back to exactly the trimmed, non-empty
   pieces joined by single spaces: no length of the pieces and no white space in a carried
   tail can break the match.
   */
  lemma MergeThenStitch(pieces: seq<string>, max: nat, overlap: nat)
    requires 0 < overlap <= max
    ensures Stitch("", Merge(pieces, max, overlap), overlap) == Join(Clean(pieces), " ")
  {
    var words := Clean(pieces);
    if words != [] {
      var word, rest := words[0], words[1..];
      assert word in words;
      PackFirst(words, max, overlap);
      StitchPack("", "", word, rest, max, overlap);
      Seqs.Empty(word);
      JoinSpaced(words);
    }
  }

  // ----- without an overlap

  lemma {:induction false} StitchPlain(acc: string, chunks: seq<string>)
    ensures Stitch(acc, chunks, 0) == acc + Concat(chunks)
    decreases |chunks|
  {
    if chunks != [] {
      StitchPlain(Append(acc, chunks[0], 0), chunks[1..]);
    }
  }

  /** Each new chunk swallows one of the joining spaces. */
  lemma {:induction false} PackPlain(current: string, words: seq<string>, max: nat)
    requires IsTidy(current) && forall w <- words :: IsTidy(w)
    ensures Join(Pack(current, words, max, 0), " ") == current + Spaced(words)
    ensures Pack(current, words, max, 0) != []
    decreases |words|
  {
    if words == [] {
      assert !IsWhitespace(current[0]);
      Seqs.Empty(current);
    } else {
      var word, rest := words[0], words[1..];
      assert word in words;
      if Full(current, word, max) {
        PackPlain(word, rest, max);
        JoinCons(current, Pack(word, rest, max, 0));
        Seqs.Assoc(current + " ", word, Spaced(rest));
        Seqs.Assoc(current, " ", word);
        Seqs.Assoc(current, " " + word, Spaced(rest));
      } else {
        var next := Glue(current, word);
        assert next[0] == current[0] && next[|next| - 1] == word[|word| - 1];
        PackPlain(next, rest, max);
        Seqs.Empty(Pack(next, rest, max, 0));
        Seqs.Assoc(current, " ", word);
        Seqs.Assoc(current, " " + word, Spaced(rest));
      }
    }
  }

  lemma JoinCons(part: string, parts: seq<string>)
    requires parts != []
    ensures Join([part] + parts, " ") == part + " " + Join(parts, " ")
  {
    assert ([part] + parts)[1..] == parts;
  }

  lemma MergePlain(pieces: seq<string>, max: nat)
    ensures Join(Merge(pieces, max, 0), " ") == Join(Clean(pieces), " ")
  {
    var words := Clean(pieces);
    if words != [] {
      var word, rest := words[0], words[1..];
      assert word in words;
      PackFirst(words, max, 0);
      PackPlain(word, rest, max);
      JoinSpaced(words);
    }
  }

  lemma {:induction false} JoinedLength(parts: seq<string>)
    ensures |parts| > 0 ==> |Join(parts, " ")| == |Concat(parts)| + |parts| - 1
  {
    if |parts| > 1 {
      JoinedLength(parts[1..]);
    } else if |parts| == 1 {
      assert Concat(parts) == parts[0] + Concat([]);
    }
  }

  /** Packing and stitching are inverse exactly with an overlap, or when one chunk is enough. */
  lemma RoundTripIff(pieces: seq<string>, max: nat, overlap: nat)
    requires overlap <= max
    ensures Stitch("", Merge(pieces, max, overlap), overlap) == Join(Clean(pieces), " ")
        <==> overlap > 0 || |Merge(pieces, max, overlap)| <= 1
  {
    if overlap > 0 {
      MergeThenStitch(pieces, max, overlap);
    } else {
      var chunks := Merge(pieces, max, 0);
      StitchPlain("", chunks);
      MergePlain(pieces, max);
      JoinedLength(chunks);
      if |chunks| == 1 {
        assert Concat(chunks) == chunks[0] + Concat([]);
      }
    }
  }

  // ----- chunks are as full as can be

  /** The open chunk with the next `n` words in it. */
  function Filled(current: string, words: seq<string>, n: nat): string
    requires n <= |words|
  {
    current + Spaced(words[..n])
  }

  /** What the next chunk starts with: the end of the last one and a space, if anything is carried over. */
  function Next(text: string, word: string, overlap: nat): string {
    if overlap == 0 || text == "" then word
    else (if |text| <= overlap then text else text[|text| - overlap..]) + " " + word
  }

  lemma FilledNext(current: string, words: seq<string>, n: nat)
    requires 0 < n <= |words|
    ensures Filled(current, words, n) == Filled(current + (" " + words[0]), words[1..], n - 1)
    ensures Filled(current, words, 0) == current
  {
    assert words[..n][1..] == words[1..][..n - 1];
    SpacedStep(current, words[..n]);
    Seqs.Empty(current);
  }

  lemma NoneFilled(current: string, words: seq<string>)
    ensures Filled(current, words, 0) == current
  {
    Seqs.Empty(current);
  }

  lemma NextIsOpened(text: string, word: string, max: nat, overlap: nat)
    requires Full(text, word, max)
    ensures Opened(text, word, max, overlap) == Next(text, word, overlap)
  {
  }

  lemma OnlyThis(current: string, max: nat, overlap: nat)
    requires current != "" && !IsWhitespace(current[|current| - 1])
    ensures Pack(current, [], max, overlap) == [Trim(current)]
  {
    assert current[|current| - 1] in current;
  }

  lemma ClosesNow(current: string, words: seq<string>, max: nat, overlap: nat)
    requires words != [] && Full(current, words[0], max)
    ensures |current| + 1 + |words[0]| > max
    ensures Pack(current, words, max, overlap)
         == [current] + Pack(Next(current, words[0], overlap), words[1..], max, overlap)
  {
    NextIsOpened(current, words[0], max, overlap);
  }

  lemma OpenedOn(current: string, words: seq<string>, max: nat, overlap: nat)
    requires words != [] && current != "" && IsTidy(words[0]) && !Full(current, words[0], max)
    ensures var next := current + (" " + words[0]);
            next != "" && !IsWhitespace(next[|next| - 1]) && |next| <= max
    ensures Pack(current, words, max, overlap) == Pack(current + (" " + words[0]), words[1..], max, overlap)
  {
    var next := current + (" " + words[0]);
    Seqs.Assoc(current, " ", words[0]);
    Seqs.Empty(Pack(next, words[1..], max, overlap));
  }

  /**
   The packer goes on filling the open chunk while the next word fits behind a space, and
   closes it at the first that does not; the rest is packed behind what is carried over.
   */
  lemma {:induction false} PackGreedy(current: string, words: seq<string>, max: nat, overlap: nat) returns (n: nat)
    requires current != "" && !IsWhitespace(current[|current| - 1]) && forall w <- words :: IsTidy(w)
    ensures n <= |words| && (n > 0 ==> |Filled(current, words, n)| <= max)
    ensures n == |words| ==> Pack(current, words, max, overlap) == [Trim(Filled(current, words, n))]
    ensures n < |words| ==>
      var text := Filled(current, words, n);
      && |text| + 1 + |words[n]| > max
      && Pack(current, words, max, overlap)
         == [text] + Pack(Next(text, words[n], overlap), words[n + 1..], max, overlap)
    decreases |words|
  {
    hide *;
    NoneFilled(current, words);
    if words == [] {
      n := 0;
      OnlyThis(current, max, overlap);
    } else if Full(current, words[0], max) {
      n := 0;
      ClosesNow(current, words, max, overlap);
    } else {
      var word, rest := words[0], words[1..];
      assert word in words;
      var next := current + (" " + word);
      OpenedOn(current, words, max, overlap);
      NoneFilled(next, rest);
      var m := PackGreedy(next, rest, max, overlap);
      n := m + 1;
      FilledNext(current, words, n);
      if n < |words| { Seqs.DropDrop(words, n); }
    }
  }

  /** So words make one chunk exactly if there is only one, or all fit together with their spaces. */
  lemma OneChunkIff(words: seq<string>, max: nat, overlap: nat)
    requires words != [] && forall w <- words :: IsTidy(w)
    ensures |Pack("", words, max, overlap)| == 1 <==> |words| == 1 || |Join(words, " ")| <= max
  {
    hide Pack, Next, Filled;
    var first, rest := words[0], words[1..];
    assert first in words;
    PackFirst(words, max, overlap);
    var n := PackGreedy(first, rest, max, overlap);
    JoinSpaced(words);
    AllFilled(first, rest);
    if n < |rest| {
      assert rest[n] in rest;
      NextIsPacked(Filled(first, rest, n), rest[n], rest[n + 1..], max, overlap);
      LongerThan(first, rest, n);
    }
  }

  lemma AllFilled(current: string, words: seq<string>)
    ensures Filled(current, words, |words|) == current + Spaced(words)
  {
    assert words[..|words|] == words;
  }

  lemma NextIsPacked(text: string, word: string, rest: seq<string>, max: nat, overlap: nat)
    requires IsTidy(word) && forall w <- rest :: IsTidy(w)
    ensures Pack(Next(text, word, overlap), rest, max, overlap) != []
  {
    hide Pack;
    var next := Next(text, word, overlap);
    assert next[|next| - 1] == word[|word| - 1];
    PackNonEmpty(next, rest, max, overlap);
  }

  lemma LongerThan(first: string, words: seq<string>, n: nat)
    requires n < |words|
    ensures |first + Spaced(words)| >= |Filled(first, words, n)| + 1 + |words[n]|
  {
    SpacedLength(words, n);
  }

  lemma {:induction false} SpacedLength(words: seq<string>, n: nat)
    requires n < |words|
    ensures |Spaced(words)| >= |Spaced(words[..n])| + 1 + |words[n]|
  {
    if n > 0 {
      SpacedLength(words[1..], n - 1);
      assert words[..n][1..] == words[1..][..n - 1];
    }
  }
}
