/** Exactly which texts the chunker keeps within its size limit. */
module SizeLimit {
  import opened Text
  import opened Packing
  import opened Options
  import opened Chunking
  import Splitting
  import ChunkLimits
  import RoundTrip
  import Seqs

  // ----- one section

  /** What the chunk that starts with word `k` would carry over: the end of the words before it. */
  function Lead(words: seq<string>, k: nat, overlap: nat): string
    requires k <= |words|
  {
    Tail(Join(words[..k], " "), overlap)
  }

  /** Word `k` fits behind its lead and a space; the last chunk is trimmed. */
  predicate RoomAt(words: seq<string>, k: nat, max: nat, overlap: nat)
    requires k < |words|
  {
    var lead := Lead(words, k, overlap);
    |if k + 1 == |words| then TrimStart(lead) else lead| + 1 + |words[k]| <= max
  }

  /** Every word but the first leaves room for a space and what is carried over before it. */
  predicate Roomy(words: seq<string>, max: nat, overlap: nat) {
    RoomFrom(words, 1, max, overlap)
  }

  predicate RoomFrom(words: seq<string>, i: nat, max: nat, overlap: nat) {
    forall k | i <= k < |words| :: RoomAt(words, k, max, overlap)
  }

  predicate AllFit(chunks: seq<string>, max: nat) {
    forall c <- chunks :: |c| <= max
  }

  lemma TailOfTail(a: string, x: string, overlap: nat)
    ensures Tail(Tail(a, overlap) + x, overlap) == Tail(a + x, overlap)
  {
  }

  lemma SameTail(a: string, b: string, x: string, overlap: nat)
    requires Tail(a, overlap) == Tail(b, overlap)
    ensures Tail(a + x, overlap) == Tail(b + x, overlap)
  {
    TailOfTail(a, x, overlap);
    TailOfTail(b, x, overlap);
  }

  lemma {:induction false} JoinSnoc(words: seq<string>, word: string)
    requires words != []
    ensures Join(words + [word], " ") == Join(words, " ") + (" " + word)
  {
    Seqs.ConsAppend(words, [word]);
    if |words| == 1 {
      assert words[1..] + [word] == [word];
    } else {
      JoinSnoc(words[1..], word);
      Seqs.Assoc(words[0] + " ", Join(words[1..], " "), " " + word);
    }
  }

  /** The open chunk `current` holds the first `i` words, as far as its end goes. */
  ghost predicate Holds(current: string, words: seq<string>, i: nat, overlap: nat) {
    && 1 <= i <= |words|
    && current != "" && !IsWhitespace(current[|current| - 1])
    && Tail(current, overlap) == Lead(words, i, overlap)
  }

  lemma HoldsNext(current: string, words: seq<string>, i: nat, max: nat, overlap: nat)
    requires Holds(current, words, i, overlap) && i < |words| && IsTidy(words[i]) && overlap > 0
    ensures Holds(Opened(current, words[i], max, overlap), words, i + 1, overlap)
  {
    var word := words[i];
    Seqs.TakeStep(words, i);
    JoinSnoc(words[..i], word);
    SameTail(current, Join(words[..i], " "), " " + word, overlap);
    TailOfTail(current, " " + word, overlap);
    var next := Opened(current, word, max, overlap);
    Seqs.Assoc(current, " ", word);
    Seqs.Assoc(Tail(current, overlap), " ", word);
    assert next[|next| - 1] == word[|word| - 1];
  }

  lemma PackCons(current: string, words: seq<string>, i: nat, max: nat, overlap: nat)
    requires i < |words|
    ensures Pack(current, words[i..], max, overlap)
         == Packing.Closed(current, words[i], max)
            + Pack(Opened(current, words[i], max, overlap), words[i + 1..], max, overlap)
  {
    Seqs.DropStep(words, i);
  }

  /** A chunk over the limit stays over it unless it is the last and trimming saves it. */
  lemma NextFits(current: string, words: seq<string>, i: nat, max: nat, overlap: nat)
    requires Holds(current, words, i, overlap) && |current| <= max && 0 < overlap
    requires i < |words| && IsTidy(words[i])
    ensures AllFit(Packing.Closed(current, words[i], max), max)
    ensures var next := Opened(current, words[i], max, overlap);
            if |next| <= max then RoomAt(words, i, max, overlap)
            else
              && (i + 1 < |words| ==> !RoomAt(words, i, max, overlap))
              && (AllFit(Pack(next, words[i + 1..], max, overlap), max) <==> RoomAt(words, i, max, overlap))
  {
    var word, lead := words[i], Lead(words, i, overlap);
    var next := Opened(current, word, max, overlap);
    LeadEnds(current, overlap);
    if |next| > max {
      assert next == lead + " " + word;
      if i + 1 < |words| {
        TooLong(next, words, i + 1, max, overlap);
      } else {
        Seqs.Assoc(lead, " ", word);
        TrimmedLength(lead, word);
        assert words[i + 1..] == [];
        OnlyChunk(next, max, overlap);
      }
    } else {
      TrimStartShorter(lead);
    }
  }

  lemma LeadEnds(current: string, overlap: nat)
    requires current != "" && !IsWhitespace(current[|current| - 1]) && overlap > 0
    ensures var lead := Tail(current, overlap);
            lead != "" && |lead| <= |current| && !IsWhitespace(lead[|lead| - 1])
  {
  }

  lemma TrimStartShorter(s: string)
    ensures |TrimStart(s)| <= |s|
  {
  }

  lemma TooLong(next: string, words: seq<string>, i: nat, max: nat, overlap: nat)
    requires |next| > max && i < |words|
    ensures !AllFit(Pack(next, words[i..], max, overlap), max)
  {
    PackCons(next, words, i, max, overlap);
    var chunks := Pack(next, words[i..], max, overlap);
    assert chunks[0] == next;
    assert next in chunks;
  }

  lemma OnlyChunk(next: string, max: nat, overlap: nat)
    requires !IsBlank(next)
    ensures AllFit(Pack(next, [], max, overlap), max) <==> |Trim(next)| <= max
  {
    assert Pack(next, [], max, overlap) == [Trim(next)];
  }

  /** Trimming the last chunk shortens its lead and nothing else. */
  lemma TrimmedLength(lead: string, word: string)
    requires lead != "" && !IsWhitespace(lead[|lead| - 1]) && IsTidy(word)
    ensures !IsBlank(lead + (" " + word))
    ensures |Trim(lead + (" " + word))| == |TrimStart(lead)| + 1 + |word|
  {
    var body := " " + word;
    assert body[|body| - 1] == word[|word| - 1];
    RoundTrip.LastNotBlank(lead, body);
    var lost, kept := RoundTrip.TrimChunk(lead, body);
    KeptIsTrimmed(lead, lost, kept);
  }

  lemma {:induction false} KeptIsTrimmed(lead: string, lost: string, kept: string)
    requires lead == lost + kept && IsBlank(lost) && kept != "" && !IsWhitespace(kept[0])
    ensures TrimStart(lead) == kept
    decreases |lost|
  {
    if lost != "" {
      Seqs.ConsAppend(lost, kept);
      KeptIsTrimmed(lead[1..], lost[1..], kept);
    }
  }

  lemma {:induction false} PackFitsIff(current: string, words: seq<string>, i: nat, max: nat, overlap: nat)
    requires i <= |words| && Holds(current, words, i, overlap) && |current| <= max && 0 < overlap
    requires forall w <- words :: IsTidy(w)
    ensures AllFit(Pack(current, words[i..], max, overlap), max) <==> RoomFrom(words, i, max, overlap)
    decreases |words| - i
  {
    hide *;
    if i < |words| {
      var word := words[i];
      assert word in words;
      var next := Opened(current, word, max, overlap);
      PackCons(current, words, i, max, overlap);
      HoldsNext(current, words, i, max, overlap);
      NextFits(current, words, i, max, overlap);
      AllFitAppend(Packing.Closed(current, word, max), Pack(next, words[i + 1..], max, overlap), max);
      RoomStep(words, i, max, overlap);
      if |next| <= max {
        PackFitsIff(next, words, i + 1, max, overlap);
      }
    } else {
      NoneLeft(current, words, max, overlap);
    }
  }

  lemma NoneLeft(current: string, words: seq<string>, max: nat, overlap: nat)
    requires |current| <= max
    ensures AllFit(Pack(current, words[|words|..], max, overlap), max) && RoomFrom(words, |words|, max, overlap)
  {
    hide RoomAt;
    assert words[|words|..] == [];
  }

  lemma AllFitAppend(a: seq<string>, b: seq<string>, max: nat)
    ensures AllFit(a + b, max) <==> AllFit(a, max) && AllFit(b, max)
  {
    assert forall c :: c in a + b <==> c in a || c in b;
  }

  lemma RoomStep(words: seq<string>, i: nat, max: nat, overlap: nat)
    requires i < |words|
    ensures RoomFrom(words, i, max, overlap)
       <==> RoomAt(words, i, max, overlap) && RoomFrom(words, i + 1, max, overlap)
    ensures i + 1 == |words| ==> RoomFrom(words, i + 1, max, overlap)
  {
    hide RoomAt;
  }

  /** The chunks of one section all fit exactly if its words leave room. */
  lemma SectionFitsIff(body: string, max: nat, overlap: nat)
    requires 0 < overlap <= max
    ensures AllFit(Texts(body, max, overlap), max) <==> Roomy(Words(body, max), max, overlap)
  {
    hide *;
    var words := Words(body, max);
    WordsFit(body, max);
    if words == [] {
      NoWords(max, overlap);
      MergeIsPack(body, max, overlap);
    } else {
      FirstHolds(words, overlap);
      RoundTrip.PackFirst(words, max, overlap);
      MergeIsPack(body, max, overlap);
      PackFitsIff(words[0], words, 1, max, overlap);
      RoomyIsRoom(words, max, overlap);
    }
  }

  lemma WordsFit(body: string, max: nat)
    requires max > 0
    ensures forall w <- Words(body, max) :: IsTidy(w) && |w| <= max
    ensures Words(body, max) != [] ==> |Words(body, max)[0]| <= max
  {
    Splitting.PiecesFit(body, max);
    CleanFits(Splitting.Pieces(body, max), max);
    assert var words := Words(body, max); words != [] ==> words[0] in words;
  }

  lemma MergeIsPack(body: string, max: nat, overlap: nat)
    requires max > 0
    ensures Texts(body, max, overlap) == Pack("", Words(body, max), max, overlap)
  {
  }

  lemma RoomyIsRoom(words: seq<string>, max: nat, overlap: nat)
    ensures Roomy(words, max, overlap) <==> RoomFrom(words, 1, max, overlap)
  {
  }

  lemma NoWords(max: nat, overlap: nat)
    ensures AllFit(Pack("", [], max, overlap), max) && Roomy([], max, overlap)
  {
  }

  lemma FirstHolds(words: seq<string>, overlap: nat)
    requires words != [] && forall w <- words :: IsTidy(w)
    ensures Holds(words[0], words, 1, overlap)
  {
    assert words[..1] == [words[0]] && words[0] in words;
  }

  // ----- the whole text

  /**
   The limit is kept for a text exactly if it has no words and is itself within the limit, or
   it has words and chunks do not overlap, or its sections' words leave room for the overlap.
   */
  lemma WithinLimitIff(content: string, cfg: ChunkConfig)
    ensures ChunkLimits.WithinLimit(content, cfg)
       <==> (if !HasWords(content, cfg.Max()) then |content| <= cfg.Max()
             else
               || cfg.Overlap() == 0
               || (forall s <- Sections(content) :: Roomy(Words(s.body, cfg.Max()), cfg.Max(), cfg.Overlap())))
  {
    hide HasWords, Roomy, Chunks, Texts, Words;
    var sections, max, overlap := Sections(content), cfg.Max(), cfg.Overlap();
    var texts := AllTexts(Groups(sections, max, overlap));
    ChunkContents(content, cfg);
    WithinByContents(content, cfg);
    if texts != [] {
      AllTextsMembers(sections, max, overlap);
      if overlap == 0 {
        AllTextsFit(sections, max, 0);
      } else {
        forall s <- sections
          ensures AllFit(Texts(s.body, max, overlap), max) <==> Roomy(Words(s.body, max), max, overlap) {
          SectionFitsIff(s.body, max, overlap);
        }
      }
    }
  }

  lemma WithinByContents(content: string, cfg: ChunkConfig)
    ensures ChunkLimits.WithinLimit(content, cfg) <==> AllFit(Contents(Chunks(content, cfg)), cfg.Max())
  {
    var chunks := Chunks(content, cfg);
    var texts := Contents(chunks);
    if ChunkLimits.WithinLimit(content, cfg) {
      forall t <- texts ensures |t| <= cfg.Max() {
        var i :| 0 <= i < |texts| && texts[i] == t;
        assert chunks[i] in chunks;
      }
    }
    if AllFit(texts, cfg.Max()) {
      forall c <- chunks ensures |c.content| <= cfg.Max() {
        var i :| 0 <= i < |chunks| && chunks[i] == c;
        assert texts[i] in texts;
      }
    }
  }

  /** The limit is kept for all texts with words if and only if chunks do not overlap. */
  lemma LimitIffNoOverlap(cfg: ChunkConfig)
    ensures (forall content | HasWords(content, cfg.Max()) :: ChunkLimits.WithinLimit(content, cfg))
       <==> cfg.Overlap() == 0
  {
    if cfg.Overlap() == 0 {
      forall content | HasWords(content, cfg.Max()) ensures ChunkLimits.WithinLimit(content, cfg) {
        WithinLimitIff(content, cfg);
      }
    } else {
      ChunkLimits.OverflowWitness(cfg);
      InkHasWords(ChunkLimits.Xs(2 * cfg.Max()), cfg);
    }
  }

  lemma InkHasWords(content: string, cfg: ChunkConfig)
    requires Ink(content) != ""
    ensures HasWords(content, cfg.Max())
  {
    SectionsInk(content);
    InkIsPacked(Sections(content), cfg.Max(), cfg.Overlap());
    ChunkContents(content, cfg);
  }

  function Blanks(n: nat): string {
    seq(n, _ => ' ')
  }

  lemma NoBreakInBlanks(n: nat)
    ensures forall i :: !OccursAt(Blanks(n), "\n", i)
  {
    var s := Blanks(n);
    forall i ensures !OccursAt(s, "\n", i) {
      if 0 <= i < |s| { assert s[i..i + 1][0] == ' '; }
    }
  }

  /** So no configuration bounds every text: one blank more than the limit is kept whole. */
  lemma BlankOverflows(cfg: ChunkConfig)
    ensures !ChunkLimits.WithinLimit(Blanks(cfg.Max() + 1), cfg)
  {
    var s := Blanks(cfg.Max() + 1);
    NoBreakInBlanks(cfg.Max() + 1);
    assert TrimStartHashes(s) == s;
    var lines := Lines(s);
    assert lines == [s] && lines[1..] == [] && [] + [s] == [s];
    assert Gather(None, [], lines) == Gather(None, [s], []) == [Section(None, s)];
    assert Join([s], "\n") == s && [Section(None, s)][1..] == [];
    assert IsBlank(s) && DropBlank([Section(None, s)]) == [] + DropBlank([]);
    assert Sections(s) == [];
    WithinLimitIff(s, cfg);
  }
}
