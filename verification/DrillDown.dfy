/**
 Rebuilding a whole document from the chunks of all its sections
 (`reconstruct_parent_record`), and when that is exact.
 */
module DrillDown {
  import opened Text
  import opened Packing
  import opened Stitching
  import RoundTrip
  import Seqs
  import Splitting
  import Chunking

  /** Each chunk starts with `carries[i]` characters its predecessor ends with. */
  ghost predicate Linked(chunks: seq<string>, carries: seq<nat>, overlap: nat) {
    && |chunks| == |carries|
    && (forall i | 0 <= i < |chunks| :: carries[i] <= |chunks[i]| && carries[i] <= overlap)
    && (forall i | 1 <= i < |chunks| :: LinkedAt(chunks, carries, i))
  }

  ghost predicate LinkedAt(chunks: seq<string>, carries: seq<nat>, i: nat)
    requires 1 <= i < |chunks| == |carries| && carries[i] <= |chunks[i]|
  {
    EndsWith(chunks[i - 1], chunks[i][..carries[i]])
  }

  lemma LinkedTail(chunks: seq<string>, carries: seq<nat>, overlap: nat)
    requires Linked(chunks, carries, overlap) && chunks != []
    ensures Linked(chunks[1..], carries[1..], overlap)
    ensures |chunks| > 1 ==> EndsWith(chunks[0], chunks[1][..carries[1]])
  {
    if |chunks| > 1 {
      assert LinkedAt(chunks, carries, 1);
    }
    var cs, ks := chunks[1..], carries[1..];
    forall i | 1 <= i < |cs| ensures LinkedAt(cs, ks, i) {
      assert LinkedAt(chunks, carries, i + 1);
    }
  }

  /** What the chunks hold beyond what they repeat. */
  function Fresh(chunks: seq<string>, carries: seq<nat>): string
    requires |chunks| == |carries|
    requires forall i | 0 <= i < |chunks| :: carries[i] <= |chunks[i]|
  {
    if chunks == [] then "" else chunks[0][carries[0]..] + Fresh(chunks[1..], carries[1..])
  }

  /** The text so far ends with more of the chunk than it repeats on purpose. */
  ghost predicate Accident(before: string, chunk: string, carry: nat, overlap: nat) {
    exists j: nat | carry < j <= overlap && j <= |chunk| :: EndsWith(before, chunk[..j])
  }

  /** Behind their fresh texts, no chunk matches by accident. */
  ghost predicate Quiet(before: string, chunks: seq<string>, carries: seq<nat>, overlap: nat)
    requires |chunks| == |carries|
    decreases |chunks|
  {
    chunks != [] ==>
      && carries[0] <= |chunks[0]|
      && !Accident(before, chunks[0], carries[0], overlap)
      && Quiet(before + chunks[0][carries[0]..], chunks[1..], carries[1..], overlap)
  }

  lemma CutAtLeast(acc: string, next: string, limit: nat, k: nat)
    requires k <= limit && k <= |next| && EndsWith(acc, next[..k])
    ensures Cut(acc, next, limit) >= k
  {
  }

  lemma AppendEndsWith(acc: string, next: string, overlap: nat, suffix: string)
    requires EndsWith(next, suffix)
    ensures EndsWith(Append(acc, next, overlap), suffix)
  {
    if acc != "" {
      var k := Cut(acc, next, overlap);
      assert acc == acc[..|acc| - k] + next[..k];
      assert next == next[..k] + next[k..];
      assert Append(acc, next, overlap) == acc[..|acc| - k] + next;
    }
  }

  /**
   Stitching linked chunks never yields more than their fresh text, and yields exactly
   that if and only if no chunk matches by accident.
   */
  lemma {:induction false} StitchLinked(acc: string, chunks: seq<string>, carries: seq<nat>, overlap: nat)
    requires Linked(chunks, carries, overlap)
    requires chunks != [] ==> EndsWith(acc, chunks[0][..carries[0]])
    ensures |Stitch(acc, chunks, overlap)| <= |acc| + |Fresh(chunks, carries)|
    ensures Stitch(acc, chunks, overlap) == acc + Fresh(chunks, carries)
        <==> Quiet(acc, chunks, carries, overlap)
    ensures !Quiet(acc, chunks, carries, overlap) ==> |Stitch(acc, chunks, overlap)| < |acc| + |Fresh(chunks, carries)|
    decreases |chunks|
  {
    if chunks != [] {
      var c, k, more := chunks[0], carries[0], Fresh(chunks[1..], carries[1..]);
      var acc2 := Append(acc, c, overlap);
      LinkedTail(chunks, carries, overlap);
      if |chunks| > 1 {
        AppendEndsWith(acc, c, overlap, chunks[1][..carries[1]]);
      }
      StitchLinked(acc2, chunks[1..], carries[1..], overlap);
      Seqs.Assoc(acc, c[k..], more);
      NoAccident(acc, c, k, overlap);
      if !Accident(acc, c, k, overlap) {
        assert acc2 == acc + c[k..];
      }
    }
  }

  /** Without an accident the stitcher cuts off exactly the carry, otherwise more. */
  lemma NoAccident(acc: string, chunk: string, carry: nat, overlap: nat)
    requires carry <= |chunk| && carry <= overlap && EndsWith(acc, chunk[..carry])
    ensures if Accident(acc, chunk, carry, overlap) then |Append(acc, chunk, overlap)| < |acc| + |chunk| - carry
            else Append(acc, chunk, overlap) == acc + chunk[carry..]
  {
    if acc == "" {
      assert forall j: nat | 0 < j <= |chunk| :: !EndsWith(acc, chunk[..j]);
    } else if Accident(acc, chunk, carry, overlap) {
      var j: nat :| carry < j <= overlap && j <= |chunk| && EndsWith(acc, chunk[..j]);
      CutAtLeast(acc, chunk, overlap, j);
    } else {
      CutIs(acc, chunk, overlap, carry);
    }
  }

  // ----- what the packer produces is linked

  /** How much of each packed chunk is carried over; trimming shortens the last carry. */
  function PackCarries(current: string, carry: nat, words: seq<string>, max: nat, overlap: nat): seq<nat>
    decreases |words|
  {
    if words == [] then
      if IsBlank(current) then []
      else
        var lost := |current| - |Trim(current)|;
        [if lost < carry then carry - lost else 0]
    else if Full(current, words[0], max) then
      [carry] + PackCarries(Opened(current, words[0], max, overlap), |Tail(current, overlap)|, words[1..], max, overlap)
    else
      PackCarries(Opened(current, words[0], max, overlap), carry, words[1..], max, overlap)
  }

  /** An open chunk: its carry is empty or ends in a word, and so does the chunk itself. */
  ghost predicate Open(carry: string, body: string, overlap: nat) {
    && body != "" && !IsWhitespace(body[|body| - 1])
    && |carry| <= overlap
    && if carry == "" then !IsWhitespace(body[0]) else !IsWhitespace(carry[|carry| - 1])
  }

  lemma LinkFirst(chunk: string, carry: nat, chunks: seq<string>, carries: seq<nat>, overlap: nat)
    requires Linked(chunks, carries, overlap) && carry <= overlap && carry <= |chunk|
    requires chunks != [] ==> EndsWith(chunk, chunks[0][..carries[0]])
    ensures Linked([chunk] + chunks, [carry] + carries, overlap)
    ensures Fresh([chunk] + chunks, [carry] + carries) == chunk[carry..] + Fresh(chunks, carries)
  {
    var cs, ks := [chunk] + chunks, [carry] + carries;
    assert cs[1..] == chunks && ks[1..] == carries;
    forall i | 1 <= i < |cs| ensures LinkedAt(cs, ks, i) {
      assert i > 1 ==> LinkedAt(chunks, carries, i - 1);
    }
  }

  lemma {:induction false} PackLinks(carry: string, body: string, words: seq<string>, max: nat, overlap: nat)
    requires Open(carry, body, overlap) && overlap > 0
    requires forall w <- words :: IsTidy(w)
    ensures var chunks, carries := Pack(carry + body, words, max, overlap),
                                   PackCarries(carry + body, |carry|, words, max, overlap);
            && Linked(chunks, carries, overlap)
            && chunks != []
            && EndsWith(carry, chunks[0][..carries[0]])
            && Fresh(chunks, carries) == body + RoundTrip.Spaced(words)
    decreases |words|
  {
    if words == [] {
      LastLinks(carry, body, max, overlap);
    } else if Full(carry + body, words[0], max) {
      FullLinks(carry, body, words, max, overlap);
    } else {
      GluedLinks(carry, body, words, max, overlap);
    }
  }

  lemma LastAlone(carry: string, body: string, lost: string, kept: string, max: nat, overlap: nat)
    requires !IsBlank(carry + body) && carry == lost + kept && Trim(carry + body) == kept + body
    ensures Pack(carry + body, [], max, overlap) == [kept + body]
    ensures PackCarries(carry + body, |carry|, [], max, overlap) == [|kept|]
  {
  }

  lemma LastLinks(carry: string, body: string, max: nat, overlap: nat)
    requires Open(carry, body, overlap)
    ensures var chunks, carries := Pack(carry + body, [], max, overlap),
                                   PackCarries(carry + body, |carry|, [], max, overlap);
            && Linked(chunks, carries, overlap)
            && |chunks| == 1
            && EndsWith(carry, chunks[0][..carries[0]])
            && Fresh(chunks, carries) == body + RoundTrip.Spaced([])
  {
    RoundTrip.LastNotBlank(carry, body);
    var lost, kept := RoundTrip.TrimChunk(carry, body);
    hide *;
    LastAlone(carry, body, lost, kept, max, overlap);
    LinkLast(carry, body, lost, kept, overlap);
  }

  lemma LinkLast(carry: string, body: string, lost: string, kept: string, overlap: nat)
    requires carry == lost + kept && |carry| <= overlap
    ensures Linked([kept + body], [|kept|], overlap)
    ensures EndsWith(carry, (kept + body)[..|kept|])
    ensures Fresh([kept + body], [|kept|]) == body + RoundTrip.Spaced([])
  {
    Seqs.AppendParts(kept, body);
    Seqs.AppendParts(lost, kept);
    LinkFirst(kept + body, |kept|, [], [], overlap);
    Seqs.Empty([kept + body]);
    Seqs.Empty([|kept|]);
  }

  lemma {:induction false} FullLinks(carry: string, body: string, words: seq<string>, max: nat, overlap: nat)
    requires Open(carry, body, overlap) && overlap > 0
    requires words != [] && forall w <- words :: IsTidy(w)
    requires Full(carry + body, words[0], max)
    ensures var chunks, carries := Pack(carry + body, words, max, overlap),
                                   PackCarries(carry + body, |carry|, words, max, overlap);
            && Linked(chunks, carries, overlap)
            && chunks != []
            && EndsWith(carry, chunks[0][..carries[0]])
            && Fresh(chunks, carries) == body + RoundTrip.Spaced(words)
    decreases |words|, 0
  {
    var word, rest, chunk := words[0], words[1..], carry + body;
    assert word in words;
    var carry2 := Tail(chunk, overlap);
    OpenNext(carry, body, word, max, overlap);
    var chunks := Pack(carry2 + (" " + word), rest, max, overlap);
    var carries := PackCarries(carry2 + (" " + word), |carry2|, rest, max, overlap);
    PackLinks(carry2, " " + word, rest, max, overlap);
    SuffixTrans(chunk, carry2, chunks[0][..carries[0]]);
    LinkChunk(carry, body, words, chunks, carries, overlap);
  }

  lemma OpenNext(carry: string, body: string, word: string, max: nat, overlap: nat)
    requires Open(carry, body, overlap) && overlap > 0 && IsTidy(word)
    requires Full(carry + body, word, max)
    ensures var carry2 := Tail(carry + body, overlap);
            && Open(carry2, " " + word, overlap)
            && Opened(carry + body, word, max, overlap) == carry2 + (" " + word)
            && EndsWith(carry + body, carry2)
  {
    var carry2 := Tail(carry + body, overlap);
    assert carry2[|carry2| - 1] == body[|body| - 1];
    assert (" " + word)[|word|] == word[|word| - 1];
  }

  lemma LinkChunk(
      carry: string, body: string, words: seq<string>, chunks: seq<string>, carries: seq<nat>, overlap: nat)
    requires |carry| <= overlap && words != []
    requires Linked(chunks, carries, overlap) && chunks != []
    requires EndsWith(carry + body, chunks[0][..carries[0]])
    requires Fresh(chunks, carries) == " " + words[0] + RoundTrip.Spaced(words[1..])
    ensures Linked([carry + body] + chunks, [|carry|] + carries, overlap)
    ensures EndsWith(carry, ([carry + body] + chunks)[0][..|carry|])
    ensures Fresh([carry + body] + chunks, [|carry|] + carries) == body + RoundTrip.Spaced(words)
  {
    LinkFirst(carry + body, |carry|, chunks, carries, overlap);
    assert (carry + body)[..|carry|] == carry && (carry + body)[|carry|..] == body;
  }

  lemma SuffixTrans(a: string, b: string, c: string)
    requires EndsWith(a, b) && EndsWith(b, c)
    ensures EndsWith(a, c)
  {
  }

  lemma {:induction false} GluedLinks(carry: string, body: string, words: seq<string>, max: nat, overlap: nat)
    requires Open(carry, body, overlap) && overlap > 0
    requires words != [] && forall w <- words :: IsTidy(w)
    requires !Full(carry + body, words[0], max)
    ensures var chunks, carries := Pack(carry + body, words, max, overlap),
                                   PackCarries(carry + body, |carry|, words, max, overlap);
            && Linked(chunks, carries, overlap)
            && chunks != []
            && EndsWith(carry, chunks[0][..carries[0]])
            && Fresh(chunks, carries) == body + RoundTrip.Spaced(words)
    decreases |words|, 0
  {
    var word, rest := words[0], words[1..];
    assert word in words;
    var body2 := body + (" " + word);
    assert body2[|body2| - 1] == word[|word| - 1];
    RoundTrip.PackGlued(carry, body, words, max, overlap);
    CarriesGlued(carry, body, words, max, overlap);
    PackLinks(carry, body2, rest, max, overlap);
    RoundTrip.SpacedStep(body, words);
  }

  lemma CarriesGlued(carry: string, body: string, words: seq<string>, max: nat, overlap: nat)
    requires body != "" && words != [] && !Full(carry + body, words[0], max)
    ensures PackCarries(carry + body, |carry|, words, max, overlap)
         == PackCarries(carry + (body + (" " + words[0])), |carry|, words[1..], max, overlap)
  {
    Seqs.Assoc(carry, body, " " + words[0]);
    Seqs.Assoc(carry + body, " ", words[0]);
  }

  // ----- sections

  function MergeCarries(pieces: seq<string>, max: nat, overlap: nat): seq<nat> {
    var words := Clean(pieces);
    if words == [] then [] else PackCarries(words[0], 0, words[1..], max, overlap)
  }

  /** The chunks of one section repeat exactly their carries; the first repeats nothing. */
  lemma MergeLinks(pieces: seq<string>, max: nat, overlap: nat)
    requires overlap > 0
    ensures var chunks, carries := Merge(pieces, max, overlap), MergeCarries(pieces, max, overlap);
            && Linked(chunks, carries, overlap)
            && (chunks != [] ==> carries[0] == 0)
            && Fresh(chunks, carries) == Join(Clean(pieces), " ")
  {
    var words := Clean(pieces);
    if words != [] {
      hide Pack, PackCarries, Fresh, Linked, Clean, EndsWith;
      assert words[0] in words;
      RoundTrip.PackFirst(words, max, overlap);
      assert "" + words[0] == words[0];
      PackLinks("", words[0], words[1..], max, overlap);
      RoundTrip.JoinSpaced(words);
    }
  }

  lemma {:induction false} LinkedAppend(
      a: seq<string>, ka: seq<nat>, b: seq<string>, kb: seq<nat>, overlap: nat)
    requires Linked(a, ka, overlap) && Linked(b, kb, overlap)
    requires b != [] ==> kb[0] == 0
    ensures Linked(a + b, ka + kb, overlap)
    ensures Fresh(a + b, ka + kb) == Fresh(a, ka) + Fresh(b, kb)
    decreases |a|
  {
    if a == [] {
      Seqs.Empty(b);
      Seqs.Empty(kb);
    } else {
      hide Fresh;
      var c, k, cs, ks := a[0], ka[0], a[1..] + b, ka[1..] + kb;
      Seqs.ConsAppend(a, b);
      Seqs.ConsAppend(ka, kb);
      LinkedTail(a, ka, overlap);
      LinkedAppend(a[1..], ka[1..], b, kb, overlap);
      if |a| == 1 {
        Seqs.Empty(b);
        Seqs.Empty(kb);
        assert b != [] ==> EndsWith(c, b[0][..0]);
      } else {
        assert cs[0] == a[1] && ks[0] == ka[1];
      }
      LinkFirst(c, k, cs, ks, overlap);
      FreshStep(a, ka, b, kb);
    }
  }

  lemma {:induction false} FreshAppend(a: seq<string>, ka: seq<nat>, b: seq<string>, kb: seq<nat>)
    requires |a| == |ka| && |b| == |kb|
    requires forall i | 0 <= i < |a| :: ka[i] <= |a[i]|
    requires forall i | 0 <= i < |b| :: kb[i] <= |b[i]|
    ensures forall i | 0 <= i < |a + b| :: (ka + kb)[i] <= |(a + b)[i]|
    ensures Fresh(a + b, ka + kb) == Fresh(a, ka) + Fresh(b, kb)
    decreases |a|
  {
    if a == [] {
      Seqs.Empty(b);
      Seqs.Empty(kb);
    } else {
      Seqs.ConsAppend(a, b);
      Seqs.ConsAppend(ka, kb);
      FreshAppend(a[1..], ka[1..], b, kb);
      FreshStep(a, ka, b, kb);
    }
  }

  lemma FreshStep(a: seq<string>, ka: seq<nat>, b: seq<string>, kb: seq<nat>)
    requires a != [] && |a| == |ka| && |b| == |kb|
    requires forall i | 0 <= i < |a| :: ka[i] <= |a[i]|
    requires forall i | 0 <= i < |b| :: kb[i] <= |b[i]|
    ensures Fresh(a, ka) + Fresh(b, kb) == a[0][ka[0]..] + (Fresh(a[1..], ka[1..]) + Fresh(b, kb))
  {
  }

  function SectionCarries(sections: seq<Chunking.Section>, max: nat, overlap: nat): seq<nat>
    requires max > 0
  {
    if sections == [] then []
    else
      MergeCarries(Splitting.Pieces(sections[0].body, max), max, overlap)
      + SectionCarries(sections[1..], max, overlap)
  }

  /** The trimmed pieces of each section joined by spaces, section after section. */
  function SectionWords(sections: seq<Chunking.Section>, max: nat): string
    requires max > 0
  {
    if sections == [] then ""
    else
      Join(Chunking.Words(sections[0].body, max), " ") + SectionWords(sections[1..], max)
  }

  lemma {:induction false} SectionsLink(sections: seq<Chunking.Section>, max: nat, overlap: nat)
    requires max > 0 && overlap > 0
    ensures var texts := Chunking.AllTexts(Chunking.Groups(sections, max, overlap));
            var carries := SectionCarries(sections, max, overlap);
            && Linked(texts, carries, overlap)
            && (texts != [] ==> carries[0] == 0)
            && Fresh(texts, carries) == SectionWords(sections, max)
    decreases |sections|
  {
    if sections != [] {
      var pieces := Splitting.Pieces(sections[0].body, max);
      var groups := Chunking.Groups(sections, max, overlap);
      assert groups[1..] == Chunking.Groups(sections[1..], max, overlap);
      MergeLinks(pieces, max, overlap);
      SectionsLink(sections[1..], max, overlap);
      LinkedAppend(
        groups[0].texts, MergeCarries(pieces, max, overlap),
        Chunking.AllTexts(groups[1..]), SectionCarries(sections[1..], max, overlap), overlap);
    }
  }

  lemma {:induction false} SectionWordsInk(sections: seq<Chunking.Section>, max: nat)
    requires max > 0
    ensures Ink(SectionWords(sections, max)) == Ink(Concat(Chunking.Bodies(sections)))
  {
    if sections != [] {
      var body, rest := sections[0].body, sections[1..];
      Chunking.WordsInk(body, max);
      SectionWordsInk(rest, max);
      InkAppend(Join(Chunking.Words(body, max), " "), SectionWords(rest, max));
      InkAppend(body, Concat(Chunking.Bodies(rest)));
    }
  }

  // ----- where accidents can happen

  lemma LastIsQuiet(before: string, carry: string, body: string, max: nat, overlap: nat)
    requires Open(carry, body, overlap) && |carry| == overlap > 0 && EndsWith(before, carry)
    ensures var chunks, carries := Pack(carry + body, [], max, overlap),
                                   PackCarries(carry + body, |carry|, [], max, overlap);
            |chunks| == |carries| && Quiet(before, chunks, carries, overlap)
  {
    RoundTrip.LastNotBlank(carry, body);
    var lost, kept := RoundTrip.TrimChunk(carry, body);
    var pre := before[..|before| - overlap];
    LastAlone(carry, body, lost, kept, max, overlap);
    Seqs.TakeDrop(before, |before| - overlap);
    Seqs.Assoc(pre, lost, kept);
    forall j: nat | |kept| < j <= overlap && j <= |kept + body|
      ensures !EndsWith(before, (kept + body)[..j])
    {
      RoundTrip.NoLongerMatch(pre, lost, kept, body, overlap, j);
    }
    OneChunk(before, kept + body, |kept|, overlap);
  }

  lemma OneChunk(before: string, chunk: string, carry: nat, overlap: nat)
    requires carry <= |chunk|
    ensures Quiet(before, [chunk], [carry], overlap) <==> !Accident(before, chunk, carry, overlap)
  {
    assert [chunk][1..] == [] && [carry][1..] == [];
  }

  /** A word that no longer fits closes the chunk; what follows starts with its end. */
  lemma QuietFull(before: string, carry: string, body: string, words: seq<string>, max: nat, overlap: nat)
    requires Open(carry, body, overlap) && overlap > 0 && words != [] && forall w <- words :: IsTidy(w)
    requires Full(carry + body, words[0], max)
    ensures var chunks, carries := Pack(carry + body, words, max, overlap),
                                   PackCarries(carry + body, |carry|, words, max, overlap);
            var end, word, rest := Tail(carry + body, overlap), " " + words[0], words[1..];
            var more, moreCarries := Pack(end + word, rest, max, overlap),
                                     PackCarries(end + word, |end|, rest, max, overlap);
            && chunks == [carry + body] + more && |chunks| == |carries| && |more| == |moreCarries| > 0
            && Open(end, word, overlap)
            && (Quiet(before, chunks, carries, overlap)
                <==> !Accident(before, carry + body, |carry|, overlap)
                     && Quiet(before + body, more, moreCarries, overlap))
  {
    assert words[0] in words;
    var end, word, rest := Tail(carry + body, overlap), " " + words[0], words[1..];
    OpenNext(carry, body, words[0], max, overlap);
    PackLinks(carry, body, words, max, overlap);
    PackLinks(end, word, rest, max, overlap);
    var more, moreCarries := Pack(end + word, rest, max, overlap), PackCarries(end + word, |end|, rest, max, overlap);
    hide Accident;
    QuietCons(before, carry, body, more, moreCarries, overlap);
  }

  lemma QuietCons(
      before: string, carry: string, body: string, more: seq<string>, moreCarries: seq<nat>, overlap: nat)
    requires |more| == |moreCarries|
    ensures Quiet(before, [carry + body] + more, [|carry|] + moreCarries, overlap)
       <==> !Accident(before, carry + body, |carry|, overlap) && Quiet(before + body, more, moreCarries, overlap)
  {
    hide Accident;
    Seqs.AppendParts(carry, body);
    Seqs.AppendParts([carry + body], more);
    Seqs.AppendParts([|carry|], moreCarries);
  }

  lemma OpenGlued(carry: string, body: string, word: string, overlap: nat)
    requires Open(carry, body, overlap) && IsTidy(word)
    ensures Open(carry, body + (" " + word), overlap)
  {
    var body2 := body + (" " + word);
    assert body2[|body2| - 1] == word[|word| - 1];
  }

  /** One more word in the open chunk leaves what will be packed the same. */
  lemma Glued(carry: string, body: string, words: seq<string>, max: nat, overlap: nat)
    requires Open(carry, body, overlap) && words != [] && forall w <- words :: IsTidy(w)
    requires !Full(carry + body, words[0], max)
    ensures var body2, rest := body + (" " + words[0]), words[1..];
            && Open(carry, body2, overlap)
            && Pack(carry + body, words, max, overlap) == Pack(carry + body2, rest, max, overlap)
            && PackCarries(carry + body, |carry|, words, max, overlap)
               == PackCarries(carry + body2, |carry|, rest, max, overlap)
  {
    assert words[0] in words;
    OpenGlued(carry, body, words[0], overlap);
    RoundTrip.PackGlued(carry, body, words, max, overlap);
    CarriesGlued(carry, body, words, max, overlap);
  }

  lemma EndsWithTail(before: string, carry: string, body: string, overlap: nat)
    requires EndsWith(before, carry)
    ensures EndsWith(before + body, Tail(carry + body, overlap))
  {
    var pre := before[..|before| - |carry|];
    Seqs.TakeDrop(before, |before| - |carry|);
    Seqs.Assoc(pre, carry, body);
    var chunk := carry + body;
    Seqs.AppendParts(pre, chunk);
    SuffixTrans(before + body, chunk, Tail(chunk, overlap));
  }

  lemma SameSize(carry: string, body: string, words: seq<string>, max: nat, overlap: nat)
    requires Open(carry, body, overlap) && overlap > 0 && forall w <- words :: IsTidy(w)
    ensures |Pack(carry + body, words, max, overlap)| == |PackCarries(carry + body, |carry|, words, max, overlap)| > 0
  {
    PackLinks(carry, body, words, max, overlap);
  }

  /**
   Chunks behind a full overlap never match by accident: a longer match would exceed the
   overlap, or start inside the white space that trimming took from the last carry.
   */
  lemma {:induction false} FullCarryIsQuiet(
      before: string, carry: string, body: string, words: seq<string>, max: nat, overlap: nat)
    requires Open(carry, body, overlap) && |carry| == overlap > 0 && EndsWith(before, carry)
    requires forall w <- words :: IsTidy(w)
    ensures var chunks, carries := Pack(carry + body, words, max, overlap),
                                   PackCarries(carry + body, |carry|, words, max, overlap);
            |chunks| == |carries| && Quiet(before, chunks, carries, overlap)
    decreases |words|
  {
    hide Pack, PackCarries, Quiet, Open, EndsWith, Full;
    SameSize(carry, body, words, max, overlap);
    if words == [] {
      LastIsQuiet(before, carry, body, max, overlap);
    } else if Full(carry + body, words[0], max) {
      QuietFull(before, carry, body, words, max, overlap);
      EndsWithTail(before, carry, body, overlap);
      FullCarryIsQuiet(before + body, Tail(carry + body, overlap), " " + words[0], words[1..], max, overlap);
    } else {
      Glued(carry, body, words, max, overlap);
      FullCarryIsQuiet(before, carry, body + (" " + words[0]), words[1..], max, overlap);
    }
  }

  /** Behind a first chunk shorter than the overlap only the second chunk can match by accident. */
  lemma {:induction false} ShortCarryIsQuiet(
      before: string, carry: string, body: string, words: seq<string>, max: nat, overlap: nat)
    requires Open(carry, body, overlap) && carry != "" && !IsWhitespace(carry[0])
    requires 0 < overlap <= |carry + body| && EndsWith(before, carry)
    requires forall w <- words :: IsTidy(w)
    ensures var chunks, carries := Pack(carry + body, words, max, overlap),
                                   PackCarries(carry + body, |carry|, words, max, overlap);
            && |chunks| == |carries| > 0
            && (Quiet(before, chunks, carries, overlap) <==> !Accident(before, chunks[0], |carry|, overlap))
    decreases |words|
  {
    hide Pack, PackCarries, Quiet, Open, EndsWith, Accident, Full;
    SameSize(carry, body, words, max, overlap);
    if words == [] {
      LastUntrimmed(carry, body, max, overlap);
      OneChunk(before, carry + body, |carry|, overlap);
    } else if Full(carry + body, words[0], max) {
      QuietFull(before, carry, body, words, max, overlap);
      EndsWithTail(before, carry, body, overlap);
      FullCarryIsQuiet(before + body, Tail(carry + body, overlap), " " + words[0], words[1..], max, overlap);
    } else {
      Glued(carry, body, words, max, overlap);
      ShortCarryIsQuiet(before, carry, body + (" " + words[0]), words[1..], max, overlap);
    }
  }

  lemma BlankFirst(lost: string, kept: string)
    requires IsBlank(lost)
    ensures lost != "" ==> IsWhitespace((lost + kept)[0])
  {
  }

  lemma LastUntrimmed(carry: string, body: string, max: nat, overlap: nat)
    requires Open(carry, body, overlap) && (carry != "" ==> !IsWhitespace(carry[0]))
    ensures Pack(carry + body, [], max, overlap) == [carry + body]
    ensures PackCarries(carry + body, |carry|, [], max, overlap) == [|carry|]
  {
    RoundTrip.LastNotBlank(carry, body);
    var lost, kept := RoundTrip.TrimChunk(carry, body);
    BlankFirst(lost, kept);
    LastAlone(carry, body, lost, kept, max, overlap);
    Seqs.Empty(kept);
  }

  /**
   A section starts without an accident: its first chunk does not start with what the text
   before it ends with, and if that chunk is shorter than the overlap, its second chunk
   repeats no more than it.
   */
  ghost predicate QuietStart(before: string, texts: seq<string>, overlap: nat) {
    texts != [] ==>
      && !Accident(before, texts[0], 0, overlap)
      && (|texts| > 1 && |texts[0]| < overlap ==> !Accident(before + texts[0], texts[1], |texts[0]|, overlap))
  }

  lemma {:induction false} FirstIsQuiet(before: string, body: string, words: seq<string>, max: nat, overlap: nat)
    requires IsTidy(body) && 0 < overlap <= max && forall w <- words :: IsTidy(w)
    ensures var chunks, carries := Pack(body, words, max, overlap), PackCarries(body, 0, words, max, overlap);
            && |chunks| == |carries|
            && (Quiet(before, chunks, carries, overlap) <==> QuietStart(before, chunks, overlap))
    decreases |words|
  {
    hide Pack, PackCarries, Quiet, EndsWith, Accident;
    Seqs.Empty(body);
    SameSize("", body, words, max, overlap);
    if words == [] {
      LastUntrimmed("", body, max, overlap);
      OneChunk(before, body, 0, overlap);
    } else if Full(body, words[0], max) {
      var end, word, rest := Tail(body, overlap), " " + words[0], words[1..];
      QuietFull(before, "", body, words, max, overlap);
      EndsWithBody(before, body, overlap);
      if |body| < overlap {
        ShortCarryIsQuiet(before + body, end, word, rest, max, overlap);
      } else {
        FullCarryIsQuiet(before + body, end, word, rest, max, overlap);
      }
    } else {
      var body2 := body + (" " + words[0]);
      Glued("", body, words, max, overlap);
      Seqs.Empty(body2);
      FirstIsQuiet(before, body2, words[1..], max, overlap);
    }
  }

  lemma EndsWithBody(before: string, body: string, overlap: nat)
    ensures EndsWith(before + body, Tail(body, overlap))
  {
    Seqs.Empty(body);
    Seqs.Empty(before);
    EndsWithTail(before, "", body, overlap);
  }

  lemma SectionIsQuiet(before: string, pieces: seq<string>, max: nat, overlap: nat)
    requires 0 < overlap <= max
    ensures var chunks, carries := Merge(pieces, max, overlap), MergeCarries(pieces, max, overlap);
            && |chunks| == |carries|
            && (Quiet(before, chunks, carries, overlap) <==> QuietStart(before, chunks, overlap))
  {
    var words := Clean(pieces);
    if words != [] {
      hide Pack, PackCarries, Clean, Quiet, QuietStart;
      assert words[0] in words;
      RoundTrip.PackFirst(words, max, overlap);
      FirstIsQuiet(before, words[0], words[1..], max, overlap);
    }
  }

  lemma {:induction false} QuietAppend(
      before: string, a: seq<string>, ka: seq<nat>, b: seq<string>, kb: seq<nat>, overlap: nat)
    requires |a| == |ka| && |b| == |kb| && forall i | 0 <= i < |a| :: ka[i] <= |a[i]|
    ensures Quiet(before, a + b, ka + kb, overlap)
       <==> Quiet(before, a, ka, overlap) && Quiet(before + Fresh(a, ka), b, kb, overlap)
    decreases |a|
  {
    hide Accident;
    if a == [] {
      Seqs.Empty(b);
      Seqs.Empty(kb);
      Seqs.Empty(before);
    } else {
      Seqs.ConsAppend(a, b);
      Seqs.ConsAppend(ka, kb);
      var own := a[0][ka[0]..];
      QuietAppend(before + own, a[1..], ka[1..], b, kb, overlap);
      Seqs.Assoc(before, own, Fresh(a[1..], ka[1..]));
    }
  }

  /** Every section starts without an accident behind the words of the sections before it. */
  ghost predicate QuietStarts(before: string, sections: seq<Chunking.Section>, max: nat, overlap: nat)
    requires max > 0
    decreases |sections|
  {
    sections != [] ==>
      && QuietStart(before, Chunking.Texts(sections[0].body, max, overlap), overlap)
      && QuietStarts(before + Join(Chunking.Words(sections[0].body, max), " "), sections[1..], max, overlap)
  }

  lemma {:induction false} SectionsAreQuiet(before: string, sections: seq<Chunking.Section>, max: nat, overlap: nat)
    requires 0 < overlap <= max
    ensures var texts := Chunking.AllTexts(Chunking.Groups(sections, max, overlap));
            var carries := SectionCarries(sections, max, overlap);
            && |texts| == |carries|
            && (Quiet(before, texts, carries, overlap) <==> QuietStarts(before, sections, max, overlap))
    decreases |sections|
  {
    hide Quiet, QuietStart, Clean, Fresh, Accident;
    SectionsLink(sections, max, overlap);
    if sections == [] {
      NothingIsQuiet(before, overlap);
    } else {
      var pieces, rest := Splitting.Pieces(sections[0].body, max), sections[1..];
      var groups := Chunking.Groups(sections, max, overlap);
      assert groups[1..] == Chunking.Groups(rest, max, overlap);
      var texts, carries := groups[0].texts, MergeCarries(pieces, max, overlap);
      MergeLinks(pieces, max, overlap);
      SectionIsQuiet(before, pieces, max, overlap);
      SectionsLink(rest, max, overlap);
      SectionsAreQuiet(before + Join(Clean(pieces), " "), rest, max, overlap);
      QuietAppend(before, texts, carries, Chunking.AllTexts(groups[1..]), SectionCarries(rest, max, overlap), overlap);
    }
  }

  lemma NothingIsQuiet(before: string, overlap: nat)
    ensures Quiet(before, [], [], overlap)
  {
  }

  /**
   Drill-down over any number of sections: the chunks rebuild the sections' words one after
   another if and only if every section starts without an accident; the words hold all ink of
   the document. Otherwise text is lost, and a text without words comes back as it is.
   */
  lemma DrillDownExact(content: string, cfg: Chunking.ChunkConfig)
    requires cfg.Overlap() > 0
    ensures var sections := Chunking.Sections(content);
            var whole := Stitch("", Chunking.Contents(Chunking.Chunks(content, cfg)), cfg.Overlap());
            var words := SectionWords(sections, cfg.Max());
            && Ink(words) == Ink(content)
            && if !Chunking.HasWords(content, cfg.Max()) then whole == content
               else
                 && |whole| <= |words|
                 && (whole == words <==> QuietStarts("", sections, cfg.Max(), cfg.Overlap()))
                 && (whole != words ==> |whole| < |words|)
  {
    hide QuietStarts, Quiet, Chunking.HasWords, SectionWords;
    var sections := Chunking.Sections(content);
    var texts := Chunking.AllTexts(Chunking.Groups(sections, cfg.Max(), cfg.Overlap()));
    var carries := SectionCarries(sections, cfg.Max(), cfg.Overlap());
    Chunking.SectionsInk(content);
    SectionWordsInk(sections, cfg.Max());
    Chunking.ChunkContents(content, cfg);
    if texts == [] {
      RoundTrip.StitchOne("", content, cfg.Overlap());
    } else {
      SectionsLink(sections, cfg.Max(), cfg.Overlap());
      StitchLinked("", texts, carries, cfg.Overlap());
      SectionsAreQuiet("", sections, cfg.Max(), cfg.Overlap());
      Seqs.Empty(Fresh(texts, carries));
    }
  }
}
