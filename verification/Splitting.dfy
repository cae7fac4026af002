/**
 The recursive splitter of the chunker: a text is cut at the coarsest separator it
 contains, over-long parts are cut again, and a text without separators falls into
 fixed character windows.
 */
module Splitting {
  import opened Options
  import opened Text
  import Seqs

  /** Blank line, line break, sentence, word: tried in this order. */
  const SEPARATORS: seq<string> := ["\n\n", "\n", ". ", " "]

  function PickSeparator(text: string): (sep: Option<string>)
    ensures sep.Some? ==> sep.value in SEPARATORS && sep.value != "" && Contains(text, sep.value)
  {
    if Contains(text, SEPARATORS[0]) then Some(SEPARATORS[0])
    else if Contains(text, SEPARATORS[1]) then Some(SEPARATORS[1])
    else if Contains(text, SEPARATORS[2]) then Some(SEPARATORS[2])
    else if Contains(text, SEPARATORS[3]) then Some(SEPARATORS[3])
    else None
  }

  /** `chars.chunks(max)` */
  function Windows(text: string, max: nat): seq<string>
    requires max > 0
    decreases |text|
  {
    if text == "" then []
    else if |text| <= max then [text]
    else [text[..max]] + Windows(text[max..], max)
  }

  function Pieces(text: string, max: nat): seq<string>
    requires max > 0
    decreases |text|, 1, 0
  {
    if |text| <= max then [text]
    else
      match PickSeparator(text)
      case Some(sep) => PartPieces(Split(text, sep), |text|, max)
      case None => Windows(text, max)
  }

  /** What one part contributes: itself if it fits and is not blank, else its own pieces. */
  function PartPiece(part: string, max: nat): seq<string>
    requires max > 0
    decreases |part|, 2, 0
  {
    if |part| > max then Pieces(part, max)
    else if IsBlank(part) then []
    else [part]
  }

  /** What the parts of a text of length `whole` contribute, in order. */
  function PartPieces(parts: seq<string>, whole: nat, max: nat): seq<string>
    requires max > 0
    requires forall part <- parts :: |part| < whole
    decreases whole, 0, |parts|
  {
    if parts == [] then []
    else PartPiece(parts[0], max) + PartPieces(parts[1..], whole, max)
  }

  lemma {:induction false} PartPiecesSnoc(parts: seq<string>, part: string, whole: nat, max: nat)
    requires max > 0
    requires forall p <- parts + [part] :: |p| < whole
    ensures forall p <- parts :: p in parts + [part]
    ensures PartPieces(parts + [part], whole, max)
         == PartPieces(parts, whole, max) + PartPiece(part, max)
    decreases |parts|
  {
    assert part in parts + [part];
    if parts != [] {
      assert (parts + [part])[1..] == parts[1..] + [part];
      PartPiecesSnoc(parts[1..], part, whole, max);
    }
  }

  /** `recursive_split` */
  method RecursiveSplit(text: string, max: nat) returns (out: seq<string>)
    requires max > 0
    ensures out == Pieces(text, max)
    decreases |text|
  {
    if |text| <= max {
      return [text];
    }
    var sep := PickSeparator(text);
    if sep.Some? {
      var parts := Split(text, sep.value);
      out := [];
      for i := 0 to |parts|
        invariant out == PartPieces(parts[..i], |text|, max)
      {
        var part := parts[i];
        PartPiecesSnoc(parts[..i], part, |text|, max);
        Seqs.TakeStep(parts, i);
        if |part| <= max {
          if !IsBlank(part) {
            out := out + [part];
          }
        } else {
          var sub := RecursiveSplit(part, max);
          out := out + sub;
        }
      }
      assert parts[..|parts|] == parts;
    } else {
      out := CutWindows(text, max);
    }
  }

  method CutWindows(text: string, max: nat) returns (out: seq<string>)
    requires max > 0
    ensures out == Windows(text, max)
  {
    out := [];
    var i := 0;
    while i < |text|
      invariant 0 <= i <= |text|
      invariant out + Windows(text[i..], max) == Windows(text, max)
    {
      var end := if i + max < |text| then i + max else |text|;
      if i + max < |text| {
        assert text[i..][max..] == text[end..] && text[i..][..max] == text[i..end];
      } else {
        assert text[i..] == text[i..end];
      }
      out := out + [text[i..end]];
      i := end;
    }
  }

  // ----- what a split may lose

  /** White space, and full stops that stand before a space: all that a separator can hold. */
  ghost predicate Negligible(gap: string) {
    forall i | 0 <= i < |gap| :: NegligibleAt(gap, i)
  }

  ghost predicate NegligibleAt(gap: string, i: nat)
    requires i < |gap|
  {
    IsWhitespace(gap[i]) || (gap[i] == '.' && i + 1 < |gap| && gap[i + 1] == ' ')
  }

  lemma NegligibleAppend(a: string, b: string)
    requires Negligible(a) && Negligible(b)
    ensures Negligible(a + b)
  {
    forall i | 0 <= i < |a + b| ensures NegligibleAt(a + b, i) {
      if i < |a| {
        assert NegligibleAt(a, i);
      } else {
        assert NegligibleAt(b, i - |a|);
      }
    }
  }

  lemma NegligibleInk(gap: string)
    requires Negligible(gap)
    ensures Ink(gap) == ""
  {
    forall i | 0 <= i < |gap| ensures IsWhitespace(gap[i]) || gap[i] == '.' {
      assert NegligibleAt(gap, i);
    }
    InkFree(gap);
  }

  /**
   `pieces` lie in `text` one after another without overlapping, and everything before,
   between and after them is negligible.
   */
  ghost predicate Covers(pieces: seq<string>, text: string) {
    if pieces == [] then Negligible(text)
    else exists k ::
      && OccursAt(text, pieces[0], k)
      && Negligible(text[..k])
      && Covers(pieces[1..], text[k + |pieces[0]|..])
  }

  lemma CoversCons(gap: string, piece: string, pieces: seq<string>, tail: string)
    requires Negligible(gap) && Covers(pieces, tail)
    ensures Covers([piece] + pieces, gap + piece + tail)
  {
    var text, k := gap + piece + tail, |gap|;
    assert text[k..k + |piece|] == piece;
    assert text[..k] == gap && text[k + |piece|..] == tail;
    assert ([piece] + pieces)[1..] == pieces;
    assert OccursAt(text, ([piece] + pieces)[0], k);
  }

  lemma CoversSplit(pieces: seq<string>, text: string) returns (gap: string, tail: string)
    requires pieces != [] && Covers(pieces, text)
    ensures text == gap + pieces[0] + tail
    ensures Negligible(gap) && Covers(pieces[1..], tail)
  {
    var k :| && OccursAt(text, pieces[0], k)
             && Negligible(text[..k])
             && Covers(pieces[1..], text[k + |pieces[0]|..]);
    gap, tail := text[..k], text[k + |pieces[0]|..];
  }

  lemma CoversOne(piece: string)
    ensures Covers([piece], piece)
  {
    CoversCons("", piece, [], "");
    Seqs.Empty([piece]);
    Seqs.Empty(piece);
  }

  lemma CoversGap(gap: string, pieces: seq<string>, text: string)
    requires Negligible(gap) && Covers(pieces, text)
    ensures Covers(pieces, gap + text)
  {
    if pieces == [] {
      NegligibleAppend(gap, text);
    } else {
      var g, tail := CoversSplit(pieces, text);
      NegligibleAppend(gap, g);
      CoversCons(gap + g, pieces[0], pieces[1..], tail);
      Seqs.HeadTail(pieces);
      Seqs.Assoc(gap, g, pieces[0]);
      Seqs.Assoc(gap, g + pieces[0], tail);
    }
  }

  lemma {:induction false} CoversAppend(ps: seq<string>, a: string, qs: seq<string>, b: string)
    requires Covers(ps, a) && Covers(qs, b)
    ensures Covers(ps + qs, a + b)
    decreases |ps|
  {
    if ps == [] {
      CoversGap(a, qs, b);
      Seqs.Empty(qs);
    } else {
      var g, tail := CoversSplit(ps, a);
      CoversAppend(ps[1..], tail, qs, b);
      Seqs.ConsAppend(ps, qs);
      Seqs.Assoc(g + ps[0], tail, b);
      CoversCons(g, ps[0], ps[1..] + qs, tail + b);
    }
  }

  /** Coverage conserves ink. */
  lemma {:induction false} CoversInk(pieces: seq<string>, text: string)
    requires Covers(pieces, text)
    ensures Ink(Concat(pieces)) == Ink(text)
    decreases |pieces|
  {
    if pieces == [] {
      NegligibleInk(text);
    } else {
      var g, tail := CoversSplit(pieces, text);
      CoversInk(pieces[1..], tail);
      NegligibleInk(g);
      InkAppend(g + pieces[0], tail);
      InkAppend(g, pieces[0]);
      Seqs.Empty(Ink(pieces[0]));
      InkAppend(pieces[0], Concat(pieces[1..]));
    }
  }

  // ----- the splitter keeps its promises

  lemma {:induction false} WindowsCover(text: string, max: nat)
    requires max > 0
    ensures Covers(Windows(text, max), text)
    ensures forall w <- Windows(text, max) :: 0 < |w| <= max
    ensures Concat(Windows(text, max)) == text
    decreases |text|
  {
    if text == "" {
    } else if |text| <= max {
      CoversOne(text);
      assert Concat([text]) == text + Concat([]);
      hide Covers;
    } else {
      hide Windows, Covers, Concat;
      var first, rest := text[..max], text[max..];
      WindowsCover(rest, max);
      FirstWindow(text, max);
      ConcatCons(first, Windows(rest, max));
      CoversOne(first);
      CoversAppend([first], first, Windows(rest, max), rest);
    }
  }

  lemma FirstWindow(text: string, max: nat)
    requires 0 < max < |text|
    ensures Windows(text, max) == [text[..max]] + Windows(text[max..], max)
    ensures text == text[..max] + text[max..]
  {
  }

  lemma ConcatCons(first: string, rest: seq<string>)
    ensures Concat([first] + rest) == first + Concat(rest)
  {
    assert ([first] + rest)[1..] == rest;
  }

  lemma SeparatorsAreNegligible(sep: string)
    requires sep in SEPARATORS
    ensures Negligible(sep)
  {
  }

  /** Nothing but separators and blank stretches is lost, and order is kept. */
  lemma {:induction false} PiecesCover(text: string, max: nat)
    requires max > 0
    ensures Covers(Pieces(text, max), text)
    decreases |text|, 1, 0
  {
    if |text| <= max {
      CoversOne(text);
    } else {
      match PickSeparator(text)
      case None => WindowsCover(text, max);
      case Some(sep) => PartPiecesCover(Split(text, sep), sep, |text|, max);
    }
  }

  lemma {:induction false} PartPiecesCover(parts: seq<string>, sep: string, whole: nat, max: nat)
    requires max > 0 && sep in SEPARATORS
    requires forall part <- parts :: |part| < whole
    ensures Covers(PartPieces(parts, whole, max), Join(parts, sep))
    decreases whole, 0, |parts|
  {
    if parts != [] {
      PartPieceCovers(parts[0], max);
      if |parts| == 1 {
        Seqs.Empty(PartPiece(parts[0], max));
        assert parts[1..] == [] && PartPieces(parts[1..], whole, max) == [];
      } else {
        var rest, tail := PartPieces(parts[1..], whole, max), Join(parts[1..], sep);
        PartPiecesCover(parts[1..], sep, whole, max);
        SeparatorsAreNegligible(sep);
        CoversGap(sep, rest, tail);
        CoversAppend(PartPiece(parts[0], max), parts[0], rest, sep + tail);
        Seqs.Assoc(parts[0], sep, tail);
      }
    }
  }

  lemma {:induction false} PartPieceCovers(part: string, max: nat)
    requires max > 0
    ensures Covers(PartPiece(part, max), part)
    decreases |part|, 2, 0
  {
    if |part| > max {
      PiecesCover(part, max);
    } else if !IsBlank(part) {
      CoversOne(part);
    }
  }

  /** Every piece fits. */
  lemma {:induction false} PiecesFit(text: string, max: nat)
    requires max > 0
    ensures forall p <- Pieces(text, max) :: |p| <= max
    decreases |text|, 1, 0
  {
    if |text| > max {
      match PickSeparator(text)
      case None => WindowsCover(text, max);
      case Some(sep) => PartPiecesFit(Split(text, sep), |text|, max);
    }
  }

  lemma {:induction false} PartPiecesFit(parts: seq<string>, whole: nat, max: nat)
    requires max > 0
    requires forall part <- parts :: |part| < whole
    ensures forall p <- PartPieces(parts, whole, max) :: |p| <= max
    decreases whole, 0, |parts|
  {
    if parts != [] {
      if |parts[0]| > max { PiecesFit(parts[0], max); }
      PartPiecesFit(parts[1..], whole, max);
    }
  }

  // ----- where a text is cut

  /** The separator stands in `part + sep` at the end only. */
  ghost predicate EndsAt(part: string, sep: string) {
    forall i: nat | i < |part| :: !OccursAt(part + sep, sep, i)
  }

  /** The text is the parts joined, and each part ends where the separator is next found. */
  ghost predicate IsCut(text: string, sep: string, parts: seq<string>) {
    && parts != [] && text == Join(parts, sep)
    && (forall k | 0 <= k < |parts| - 1 :: EndsAt(parts[k], sep))
    && !Contains(parts[|parts| - 1], sep)
  }

  lemma FindBehind(part: string, sep: string, rest: string)
    requires sep != "" && EndsAt(part, sep)
    ensures Find(part + sep + rest, sep) == Some(|part|)
  {
    var text := part + sep + rest;
    assert text[|part|..|part| + |sep|] == sep;
    forall i: nat | i < |part| ensures !OccursAt(text, sep, i) {
      assert text[i..i + |sep|] == (part + sep)[i..i + |sep|];
      assert !OccursAt(part + sep, sep, i);
    }
    FoundAt(text, sep, |part|);
  }

  /** Cutting is determined by its result. */
  lemma {:induction false} SplitIsCut(text: string, sep: string, parts: seq<string>)
    requires sep != "" && IsCut(text, sep, parts)
    ensures Split(text, sep) == parts
    decreases |parts|
  {
    if |parts| == 1 {
      assert Find(text, sep) == None;
    } else {
      var part, rest := parts[0], parts[1..];
      var tail := Join(rest, sep);
      forall k | 0 <= k < |rest| - 1 ensures EndsAt(rest[k], sep) {
        assert EndsAt(parts[k + 1], sep);
      }
      SplitIsCut(tail, sep, rest);
      assert EndsAt(parts[0], sep);
      FindBehind(part, sep, tail);
      assert text[..|part|] == part && text[|part| + |sep|..] == tail;
      Seqs.HeadTail(parts);
    }
  }

  /** A separator that does not overlap itself ends a part that is free of it. */
  lemma FreePartEnds(part: string, sep: string)
    requires sep == "\n" || sep == ". " || sep == " "
    ensures EndsAt(part, sep) <==> !Contains(part, sep)
  {
    forall i: nat | i < |part| ensures OccursAt(part + sep, sep, i) <==> OccursAt(part, sep, i) {
      if i + |sep| <= |part| {
        assert (part + sep)[i..i + |sep|] == part[i..i + |sep|];
      } else {
        assert sep == ". " && i == |part| - 1;
        assert (part + sep)[i..i + 2][1] == '.';
      }
    }
    if Contains(part, sep) { assert OccursAt(part, sep, Find(part, sep).value); }
  }

  /** A blank line ends a part that has none and does not end in a line break itself. */
  lemma ParagraphEnds(part: string)
    ensures EndsAt(part, "\n\n") <==> !Contains(part, "\n\n") && (part == "" || part[|part| - 1] != '\n')
  {
    var sep, whole := "\n\n", part + "\n\n";
    forall i: nat | i + 2 <= |part| ensures OccursAt(whole, sep, i) <==> OccursAt(part, sep, i) {
      assert whole[i..i + 2] == part[i..i + 2];
    }
    if part != "" {
      var i := |part| - 1;
      assert whole[i..i + 2] == [part[i], '\n'];
      assert OccursAt(whole, sep, i) <==> part[i] == '\n';
    }
    if Contains(part, sep) { assert OccursAt(part, sep, Find(part, sep).value); }
  }

  /** `sep` is the coarsest separator of the text: blank line, line break, sentence, word. */
  predicate Coarsest(text: string, sep: string) {
    && Contains(text, sep)
    && (sep == "\n\n"
        || (!Contains(text, "\n\n")
            && (sep == "\n"
                || (!Contains(text, "\n")
                    && (sep == ". " || (!Contains(text, ". ") && sep == " "))))))
  }

  lemma CoarsestIsPicked(text: string, sep: string)
    requires Coarsest(text, sep)
    ensures PickSeparator(text) == Some(sep)
  {
  }

  /** What each part gives: nothing if it fits and is blank, itself if it fits, else its own pieces. */
  function PartLists(parts: seq<string>, max: nat): (lists: seq<seq<string>>)
    requires max > 0
    ensures |lists| == |parts|
  {
    seq(|parts|, i requires 0 <= i < |parts| =>
      if |parts[i]| > max then Pieces(parts[i], max) else if IsBlank(parts[i]) then [] else [parts[i]])
  }

  lemma {:induction false} PartPiecesFlat(parts: seq<string>, whole: nat, max: nat)
    requires max > 0 && forall part <- parts :: |part| < whole
    ensures PartPieces(parts, whole, max) == Seqs.Flatten(PartLists(parts, max))
    decreases |parts|
  {
    if parts != [] {
      hide PartLists, PartPiece, Pieces;
      PartPiecesFlat(parts[1..], whole, max);
      PartListsUnfold(parts, max);
    } else {
      hide Pieces;
    }
  }

  lemma PartListsUnfold(parts: seq<string>, max: nat)
    requires max > 0 && parts != []
    ensures var lists := PartLists(parts, max);
            lists[0] == PartPiece(parts[0], max) && lists[1..] == PartLists(parts[1..], max)
  {
    hide Pieces;
  }

  /** An over-long text is cut at its coarsest separator, and its parts give its pieces. */
  lemma PiecesOfParts(text: string, max: nat, sep: string, parts: seq<string>)
    requires 0 < max < |text| && Coarsest(text, sep) && IsCut(text, sep, parts)
    ensures Pieces(text, max) == Seqs.Flatten(PartLists(parts, max))
  {
    CoarsestIsPicked(text, sep);
    SplitIsCut(text, sep, parts);
    PartPiecesFlat(parts, |text|, max);
  }

  lemma {:induction false} FlattenSingles(lists: seq<seq<string>>, parts: seq<string>)
    requires |lists| == |parts| && forall i | 0 <= i < |parts| :: lists[i] == [parts[i]]
    ensures Seqs.Flatten(lists) == parts
    decreases |parts|
  {
    if parts != [] {
      FlattenSingles(lists[1..], parts[1..]);
      Seqs.HeadTail(parts);
    }
  }

  /** If all parts fit and none is blank, they are the pieces. */
  lemma PartsArePieces(text: string, max: nat, sep: string, parts: seq<string>)
    requires 0 < max < |text| && Coarsest(text, sep) && IsCut(text, sep, parts)
    requires forall part <- parts :: |part| <= max && !IsBlank(part)
    ensures Pieces(text, max) == parts
  {
    PiecesOfParts(text, max, sep, parts);
    FlattenSingles(PartLists(parts, max), parts);
  }

  lemma {:induction false} WindowsAreFull(text: string, max: nat)
    requires max > 0
    ensures var ws := Windows(text, max);
            && (forall i | 0 <= i < |ws| - 1 :: |ws[i]| == max)
            && (ws != [] ==> 0 < |ws[|ws| - 1]| <= max)
    decreases |text|
  {
    if |text| > max { WindowsAreFull(text[max..], max); }
  }

  /** An over-long text with no separator falls into windows that are full but for the last. */
  lemma PiecesWithoutSeparator(text: string, max: nat)
    requires 0 < max < |text|
    requires !Contains(text, "\n\n") && !Contains(text, "\n") && !Contains(text, ". ") && !Contains(text, " ")
    ensures var pieces := Pieces(text, max);
            && Concat(pieces) == text && |pieces| >= 2
            && (forall i | 0 <= i < |pieces| - 1 :: |pieces[i]| == max)
            && 0 < |pieces[|pieces| - 1]| <= max
  {
    WindowsAreFull(text, max);
    WindowsCover(text, max);
    WindowsCover(text[max..], max);
    assert Windows(text[max..], max) != [] by {
      assert Concat([]) == "";
    }
  }

  /** A text within the limit is one piece, whatever it holds. */
  lemma ShortTextIsPiece(text: string, max: nat)
    requires max > 0 && |text| <= max
    ensures Pieces(text, max) == [text]
  {
  }

  /** A blank line is tried before the spaces around it. */
  lemma ParagraphsFirst()
    ensures Pieces("a b\n\nc", 5) == ["a b", "c"]
  {
    var text, sep, parts := "a b\n\nc", "\n\n", ["a b", "c"];
    assert parts[1..] == ["c"];
    assert text == Join(parts, sep);
    assert OccursAt(text, sep, 3) by { assert text[3..5] == sep; }
    NoBlankLine("a b");
    NoBlankLine("c");
    ParagraphEnds("a b");
    assert !IsWhitespace('a') && !IsWhitespace('c');
    assert !IsBlank("a b") && !IsBlank("c") by {
      assert "a b"[0] == 'a' && "c"[0] == 'c';
    }
    PartsArePieces(text, 5, sep, parts);
  }

  lemma NoBlankLine(s: string)
    requires '\n' !in s
    ensures !Contains(s, "\n\n")
  {
    forall i ensures !OccursAt(s, "\n\n", i) {
      if 0 <= i && i + 2 <= |s| {
        assert s[i..i + 2][0] == s[i] && s[i] in s;
      }
    }
  }
}
