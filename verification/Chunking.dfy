/** `chunk_text`: sections at markdown headings, each split, packed and numbered. */
module Chunking {
  import opened Options
  import opened Text
  import Splitting
  import Packing
  import Stitching
  import RoundTrip
  import Seqs

  datatype ChunkConfig = ChunkConfig(maxChars: nat, overlapChars: nat) {
    function Max(): nat {
      if maxChars == 0 then 1 else maxChars
    }
    function Overlap(): nat {
      if overlapChars < Max() / 2 then overlapChars else Max() / 2
    }
  }

  datatype Chunk = Chunk(content: string, index: nat, heading: Option<string>)

  datatype Section = Section(heading: Option<string>, body: string)

  // ----- sections

  function TrimStartHashes(s: string): string {
    if s != "" && s[0] == '#' then TrimStartHashes(s[1..]) else s
  }

  predicate IsHeading(line: string) {
    var rest := TrimStartHashes(line);
    |rest| < |line| && rest != "" && rest[0] == ' '
  }

  function HeadingOf(line: string): string {
    Trim(TrimStartHashes(line))
  }

  function Closed(heading: Option<string>, lines: seq<string>): seq<Section> {
    if lines == [] then [] else [Section(heading, Join(lines, "\n"))]
  }

  /** The sections still to come when `current` has been read under `heading`. */
  function Gather(heading: Option<string>, current: seq<string>, lines: seq<string>): seq<Section>
    decreases |lines|
  {
    if lines == [] then Closed(heading, current)
    else if IsHeading(lines[0]) then
      Closed(heading, current) + Gather(Some(HeadingOf(lines[0])), [lines[0]], lines[1..])
    else
      Gather(heading, current + [lines[0]], lines[1..])
  }

  function DropBlank(sections: seq<Section>): seq<Section> {
    if sections == [] then []
    else (if IsBlank(sections[0].body) then [] else [sections[0]]) + DropBlank(sections[1..])
  }

  function Sections(text: string): seq<Section> {
    DropBlank(Gather(None, [], Lines(text)))
  }

  lemma GatherNext(heading: Option<string>, current: seq<string>, lines: seq<string>, i: nat)
    requires i < |lines|
    ensures Gather(heading, current, lines[i..])
         == if IsHeading(lines[i]) then
              Closed(heading, current) + Gather(Some(HeadingOf(lines[i])), [lines[i]], lines[i + 1..])
            else Gather(heading, current + [lines[i]], lines[i + 1..])
  {
    Seqs.DropStep(lines, i);
  }

  lemma GatherEnd(heading: Option<string>, current: seq<string>, lines: seq<string>)
    ensures lines[|lines|..] == [] && lines[0..] == lines
    ensures Gather(heading, current, []) == Closed(heading, current)
  {
  }

  /** `markdown_sections` */
  method MarkdownSections(text: string) returns (sections: seq<Section>)
    ensures sections == Sections(text)
  {
    hide Gather, IsHeading, HeadingOf, Lines;
    sections := [];
    var heading: Option<string> := None;
    var current: seq<string> := [];
    var lines := Lines(text);
    GatherEnd(heading, current, lines);
    Seqs.Empty(Gather(heading, current, lines));
    for i := 0 to |lines|
      invariant sections + Gather(heading, current, lines[i..]) == Gather(None, [], lines)
    {
      GatherNext(heading, current, lines, i);
      Seqs.Empty([lines[i]]);
      if IsHeading(lines[i]) {
        ghost var more := Gather(Some(HeadingOf(lines[i])), [lines[i]], lines[i + 1..]);
        Seqs.Empty(more);
        Seqs.Assoc(sections, Closed(heading, current), more);
        if current != [] {
          sections := sections + [Section(heading, Join(current, "\n"))];
          current := [];
        }
        heading := Some(HeadingOf(lines[i]));
      }
      current := current + [lines[i]];
    }
    GatherEnd(heading, current, lines);
    Seqs.Empty(sections);
    if current != [] {
      sections := sections + [Section(heading, Join(current, "\n"))];
    }
    sections := DropBlank(sections);
  }

  // ----- where sections start

  /** The lines of one section, and what it is called. */
  function SectionOf(lines: seq<string>): Section
    requires lines != []
  {
    Section(if IsHeading(lines[0]) then Some(HeadingOf(lines[0])) else None, Join(lines, "\n"))
  }

  function SectionsOf(groups: seq<seq<string>>): seq<Section>
    requires forall k | 0 <= k < |groups| :: groups[k] != []
  {
    if groups == [] then [] else [SectionOf(groups[0])] + SectionsOf(groups[1..])
  }

  /** No line but the first is a heading. */
  ghost predicate HeadedOnce(lines: seq<string>) {
    lines != [] && forall i | 1 <= i < |lines| :: !IsHeading(lines[i])
  }

  /** Every group but the first starts with a heading, and none holds another. */
  ghost predicate CutAtHeadings(groups: seq<seq<string>>) {
    && (forall k | 0 <= k < |groups| :: HeadedOnce(groups[k]))
    && (forall k | 1 <= k < |groups| :: groups[k] != [] && IsHeading(groups[k][0]))
  }

  lemma {:induction false} GatherGroups(heading: Option<string>, current: seq<string>, lines: seq<string>)
    returns (groups: seq<seq<string>>)
    requires current == [] ==> heading == None
    requires current != [] ==> HeadedOnce(current) && heading == SectionOf(current).heading
    ensures Seqs.Flatten(groups) == current + lines && CutAtHeadings(groups)
    ensures Gather(heading, current, lines) == SectionsOf(groups)
    ensures current + lines != [] ==> groups != [] && groups[0] != [] && groups[0][0] == (current + lines)[0]
    decreases |lines|
  {
    if lines == [] {
      groups := if current == [] then [] else [current];
      Seqs.Empty(current);
      assert current != [] ==> groups[1..] == [];
    } else {
      var line, rest := lines[0], lines[1..];
      Seqs.HeadTail(lines);
      if IsHeading(line) {
        groups := GatherGroups(Some(HeadingOf(line)), [line], rest);
        if current == [] {
          Seqs.Empty(lines);
          Seqs.Empty(Gather(Some(HeadingOf(line)), [line], rest));
        } else {
          PrependGroup(current, groups);
          groups := [current] + groups;
        }
      } else {
        OneMoreLine(heading, current, line);
        groups := GatherGroups(heading, current + [line], rest);
        Seqs.Assoc(current, [line], rest);
      }
    }
  }

  lemma OneMoreLine(heading: Option<string>, current: seq<string>, line: string)
    requires !IsHeading(line)
    requires current == [] ==> heading == None
    requires current != [] ==> HeadedOnce(current) && heading == SectionOf(current).heading
    ensures HeadedOnce(current + [line]) && heading == SectionOf(current + [line]).heading
  {
  }

  lemma PrependGroup(group: seq<string>, groups: seq<seq<string>>)
    requires HeadedOnce(group) && CutAtHeadings(groups)
    requires groups != [] ==> groups[0] != [] && IsHeading(groups[0][0])
    ensures CutAtHeadings([group] + groups)
    ensures Seqs.Flatten([group] + groups) == group + Seqs.Flatten(groups)
    ensures SectionsOf([group] + groups) == [SectionOf(group)] + SectionsOf(groups)
  {
    var all := [group] + groups;
    assert all[1..] == groups;
    forall k | 1 <= k < |all| ensures HeadedOnce(all[k]) && IsHeading(all[k][0]) {
      assert all[k] == groups[k - 1] && HeadedOnce(groups[k - 1]);
    }
  }

  /**
   The sections are the lines of the text cut before every heading, in order, those that are
   blank left out; a section is called after the heading it starts with, and only text before
   the first heading is called nothing.
   */
  lemma SectionsStartAtHeadings(text: string) returns (groups: seq<seq<string>>)
    ensures Seqs.Flatten(groups) == Lines(text) && CutAtHeadings(groups)
    ensures Sections(text) == DropBlank(SectionsOf(groups))
  {
    groups := GatherGroups(None, [], Lines(text));
    Seqs.Empty(Lines(text));
  }

  /** A heading is hash marks with a space behind them. */
  lemma {:induction false} HeadingIff(line: string)
    ensures IsHeading(line) <==> exists n: nat ::
              0 < n < |line| && line[n] == ' ' && forall i | 0 <= i < n :: line[i] == '#'
  {
    var n := HashesEnd(line);
    assert forall m: nat :: m < |line| && line[m] == ' ' && (forall i | 0 <= i < m :: line[i] == '#') ==> m == n;
  }

  lemma {:induction false} HashesEnd(line: string) returns (n: nat)
    ensures n <= |line| && TrimStartHashes(line) == line[n..]
    ensures forall i | 0 <= i < n :: line[i] == '#'
    ensures n < |line| ==> line[n] != '#'
  {
    if line != "" && line[0] == '#' {
      var m := HashesEnd(line[1..]);
      n := m + 1;
      Seqs.DropDrop(line, m);
    } else {
      n := 0;
      Seqs.TakeDrop(line, 0);
      Seqs.Empty(line);
    }
  }

  /** It is called what stands behind them, without the white space around it. */
  lemma HeadingText(line: string) returns (hashes: string, left: string, right: string)
    requires IsHeading(line)
    ensures hashes != "" && forall i | 0 <= i < |hashes| :: hashes[i] == '#'
    ensures IsBlank(left) && IsBlank(right)
    ensures line == hashes + (left + HeadingOf(line) + right)
    ensures HeadingOf(line) == "" || IsTidy(HeadingOf(line))
  {
    var n := HashesEnd(line);
    var rest := line[n..];
    hashes := line[..n];
    Seqs.TakeDrop(line, n);
    left, right := TrimSplits(rest);
  }

  /** No section is blank. */
  lemma {:induction false} NoneBlank(sections: seq<Section>)
    ensures forall s :: s in DropBlank(sections) <==> s in sections && !IsBlank(s.body)
  {
    if sections != [] {
      NoneBlank(sections[1..]);
      Seqs.HeadTail(sections);
    }
  }

  /** The limit is at least one; the overlap is the largest allowed and at most half the limit. */
  lemma ConfigBounds(cfg: ChunkConfig)
    ensures cfg.maxChars >= 1 ==> cfg.Max() == cfg.maxChars
    ensures cfg.maxChars == 0 ==> cfg.Max() == 1
    ensures cfg.Overlap() <= cfg.overlapChars && 2 * cfg.Overlap() <= cfg.Max()
    ensures cfg.Overlap() == cfg.overlapChars || 2 * (cfg.Overlap() + 1) > cfg.Max()
  {
  }

  // ----- chunks

  function Texts(body: string, max: nat, overlap: nat): seq<string>
    requires max > 0
  {
    Packing.Merge(Splitting.Pieces(body, max), max, overlap)
  }

  /** The packed texts of one section, and its heading. */
  datatype Group = Group(heading: Option<string>, texts: seq<string>)

  function Groups(sections: seq<Section>, max: nat, overlap: nat): (groups: seq<Group>)
    requires max > 0
    ensures |groups| == |sections|
    ensures forall i | 0 <= i < |sections| ::
      groups[i] == Group(sections[i].heading, Texts(sections[i].body, max, overlap))
  {
    if sections == [] then []
    else
      [Group(sections[0].heading, Texts(sections[0].body, max, overlap))]
      + Groups(sections[1..], max, overlap)
  }

  function AllTexts(groups: seq<Group>): seq<string> {
    if groups == [] then [] else groups[0].texts + AllTexts(groups[1..])
  }

  function Contents(chunks: seq<Chunk>): (texts: seq<string>)
    ensures |texts| == |chunks| && forall i | 0 <= i < |chunks| :: texts[i] == chunks[i].content
  {
    if chunks == [] then [] else [chunks[0].content] + Contents(chunks[1..])
  }

  function Numbered(heading: Option<string>, texts: seq<string>, from: nat): (chunks: seq<Chunk>)
    ensures |chunks| == |texts|
  {
    if texts == [] then []
    else [Chunk(texts[0], from, heading)] + Numbered(heading, texts[1..], from + 1)
  }

  /** The chunks of the first `n` groups, numbered from one. */
  function NumberAll(groups: seq<Group>, n: nat): seq<Chunk>
    requires n <= |groups|
  {
    if n == 0 then []
    else
      var before := NumberAll(groups, n - 1);
      before + Numbered(groups[n - 1].heading, groups[n - 1].texts, |before| + 1)
  }

  /** The trimmed pieces of one section. */
  function Words(body: string, max: nat): seq<string>
    requires max > 0
  {
    Packing.Clean(Splitting.Pieces(body, max))
  }

  /** Some section has a piece that is not blank; otherwise the text is kept whole. */
  ghost predicate HasWords(content: string, max: nat)
    requires max > 0
  {
    exists s <- Sections(content), p <- Splitting.Pieces(s.body, max) :: !IsBlank(p)
  }

  /** The chunks of `content`; a text that packs to nothing is kept whole. */
  function Chunks(content: string, cfg: ChunkConfig): seq<Chunk> {
    var groups := Groups(Sections(content), cfg.Max(), cfg.Overlap());
    var chunks := NumberAll(groups, |groups|);
    if chunks == [] then [Chunk(content, 1, None)] else chunks
  }

  /** `chunk_text` */
  method ChunkText(content: string, cfg: ChunkConfig) returns (chunks: seq<Chunk>)
    ensures chunks == Chunks(content, cfg)
  {
    var sections := MarkdownSections(content);
    chunks := ChunkSections(sections, cfg.Max(), cfg.Overlap());
    if chunks == [] {
      chunks := [Chunk(content, 1, None)];
    }
  }

  method ChunkSections(sections: seq<Section>, max: nat, overlap: nat) returns (chunks: seq<Chunk>)
    requires max > 0
    ensures chunks == NumberAll(Groups(sections, max, overlap), |sections|)
  {
    chunks := [];
    ghost var groups := Groups(sections, max, overlap);
    for i := 0 to |sections|
      invariant chunks == NumberAll(groups, i)
    {
      var texts := ChunkSection(sections[i].body, max, overlap);
      chunks := PushAll(chunks, sections[i].heading, texts);
    }
  }

  method ChunkSection(body: string, max: nat, overlap: nat) returns (texts: seq<string>)
    requires max > 0
    ensures texts == Texts(body, max, overlap)
  {
    var pieces := Splitting.RecursiveSplit(body, max);
    texts := Packing.MergeWithOverlap(pieces, max, overlap);
  }

  /** Its inner loop: the texts of one section become numbered chunks. */
  method PushAll(before: seq<Chunk>, heading: Option<string>, texts: seq<string>)
    returns (chunks: seq<Chunk>)
    ensures chunks == before + Numbered(heading, texts, |before| + 1)
  {
    chunks := before;
    assert texts[0..] == texts;
    for j := 0 to |texts|
      invariant chunks + Numbered(heading, texts[j..], |chunks| + 1)
             == before + Numbered(heading, texts, |before| + 1)
      invariant |chunks| == |before| + j
    {
      assert texts[j..][1..] == texts[j + 1..];
      chunks := chunks + [Chunk(texts[j], |chunks| + 1, heading)];
    }
  }

  // ----- shape of the result

  lemma {:induction false} NumberedShape(heading: Option<string>, texts: seq<string>, from: nat)
    ensures Contents(Numbered(heading, texts, from)) == texts
    ensures forall i | 0 <= i < |texts| :: Numbered(heading, texts, from)[i] == Chunk(texts[i], from + i, heading)
  {
    if texts != [] {
      var rest := Numbered(heading, texts[1..], from + 1);
      NumberedShape(heading, texts[1..], from + 1);
      assert Numbered(heading, texts, from) == [Chunk(texts[0], from, heading)] + rest;
    }
  }

  lemma {:induction false} AllTextsSnoc(groups: seq<Group>, last: Group)
    ensures AllTexts(groups + [last]) == AllTexts(groups) + last.texts
  {
    if groups == [] {
      assert [last][1..] == [];
    } else {
      Seqs.ConsAppend(groups, [last]);
      AllTextsSnoc(groups[1..], last);
      Seqs.Assoc(groups[0].texts, AllTexts(groups[1..]), last.texts);
    }
  }

  lemma NumberStep(groups: seq<Group>, n: nat)
    requires n < |groups|
    ensures NumberAll(groups, n + 1)
         == NumberAll(groups, n) + Numbered(groups[n].heading, groups[n].texts, |NumberAll(groups, n)| + 1)
  {
  }

  lemma {:induction false} NumberedUpTo(groups: seq<Group>, n: nat)
    requires n <= |groups|
    ensures Contents(NumberAll(groups, n)) == AllTexts(groups[..n])
  {
    hide *;
    NoneNumbered(groups);
    if n > 0 {
      NumberStep(groups, n - 1);
      NumberedUpTo(groups, n - 1);
      PushedContents(NumberAll(groups, n - 1), groups[n - 1]);
      AllTextsTake(groups, n - 1);
    }
  }

  lemma NoneNumbered(groups: seq<Group>)
    ensures Contents(NumberAll(groups, 0)) == AllTexts(groups[..0])
  {
  }

  lemma PushedContents(before: seq<Chunk>, last: Group)
    ensures Contents(before + Numbered(last.heading, last.texts, |before| + 1))
         == Contents(before) + last.texts
  {
    NumberedShape(last.heading, last.texts, |before| + 1);
    ContentsAppend(before, Numbered(last.heading, last.texts, |before| + 1));
  }

  lemma AllTextsTake(groups: seq<Group>, i: nat)
    requires i < |groups|
    ensures AllTexts(groups[..i + 1]) == AllTexts(groups[..i]) + groups[i].texts
  {
    AllTextsSnoc(groups[..i], groups[i]);
    Seqs.TakeStep(groups, i);
  }

  lemma NumberedContents(groups: seq<Group>)
    ensures Contents(NumberAll(groups, |groups|)) == AllTexts(groups)
  {
    NumberedUpTo(groups, |groups|);
    assert groups[..|groups|] == groups;
  }

  ghost predicate CountsFromOne(chunks: seq<Chunk>) {
    forall i | 0 <= i < |chunks| :: chunks[i].index == i + 1
  }

  lemma {:induction false} NumberedIndices(groups: seq<Group>, n: nat)
    requires n <= |groups|
    ensures CountsFromOne(NumberAll(groups, n))
  {
    if n > 0 {
      var before, last := NumberAll(groups, n - 1), groups[n - 1];
      NumberedIndices(groups, n - 1);
      NumberedShape(last.heading, last.texts, |before| + 1);
    }
  }

  lemma ContentsAppend(a: seq<Chunk>, b: seq<Chunk>)
    ensures Contents(a + b) == Contents(a) + Contents(b)
  {
  }

  /** Chunks are numbered from one, without gaps, across sections. */
  lemma ChunksAreNumbered(content: string, cfg: ChunkConfig)
    ensures var chunks := Chunks(content, cfg);
            chunks != [] && CountsFromOne(chunks)
  {
    var groups := Groups(Sections(content), cfg.Max(), cfg.Overlap());
    NumberedIndices(groups, |groups|);
  }

  // ----- conservation

  function Bodies(sections: seq<Section>): seq<string> {
    if sections == [] then [] else [sections[0].body] + Bodies(sections[1..])
  }

  lemma {:induction false} BodiesAppend(a: seq<Section>, b: seq<Section>)
    ensures Bodies(a + b) == Bodies(a) + Bodies(b)
  {
    if a == [] {
      assert a + b == b;
    } else {
      assert (a + b)[1..] == a[1..] + b;
      BodiesAppend(a[1..], b);
    }
  }

  lemma ClosedInk(heading: Option<string>, lines: seq<string>)
    ensures Ink(Concat(Bodies(Closed(heading, lines)))) == Ink(Concat(lines))
  {
    if lines != [] {
      var section := Section(heading, Join(lines, "\n"));
      assert [section][1..] == [];
      assert Bodies([section]) == [section.body];
      assert Concat([section.body]) == section.body + Concat([]) == section.body;
      InkFree("\n");
      InkJoin(lines, "\n");
    }
  }

  lemma {:induction false} GatherInk(heading: Option<string>, current: seq<string>, lines: seq<string>)
    ensures Ink(Concat(Bodies(Gather(heading, current, lines)))) == Ink(Concat(current + lines))
    decreases |lines|
  {
    if lines == [] {
      assert current + lines == current;
      ClosedInk(heading, current);
    } else {
      var line, rest := lines[0], lines[1..];
      if IsHeading(line) {
        var more := Gather(Some(HeadingOf(line)), [line], rest);
        GatherInk(Some(HeadingOf(line)), [line], rest);
        assert [line] + rest == lines;
        ClosedInk(heading, current);
        BodiesAppend(Closed(heading, current), more);
        ConcatAppend(Bodies(Closed(heading, current)), Bodies(more));
        InkAppend(Concat(Bodies(Closed(heading, current))), Concat(Bodies(more)));
        ConcatAppend(current, lines);
        InkAppend(Concat(current), Concat(lines));
      } else {
        GatherInk(heading, current + [line], rest);
        assert current + [line] + rest == current + lines;
      }
    }
  }

  lemma {:induction false} DropBlankInk(sections: seq<Section>)
    ensures Ink(Concat(Bodies(DropBlank(sections)))) == Ink(Concat(Bodies(sections)))
  {
    if sections != [] {
      var first, rest := sections[0], DropBlank(sections[1..]);
      DropBlankInk(sections[1..]);
      InkAppend(first.body, Concat(Bodies(sections[1..])));
      if IsBlank(first.body) {
        InkFree(first.body);
        assert DropBlank(sections) == rest;
      } else {
        assert DropBlank(sections) == [first] + rest && ([first] + rest)[1..] == rest;
        InkAppend(first.body, Concat(Bodies(rest)));
      }
    }
  }

  /** Cutting into sections loses line ends and blank sections only. */
  lemma SectionsInk(text: string)
    ensures Ink(Concat(Bodies(Sections(text)))) == Ink(text)
  {
    var lines := Lines(text);
    InkLines(text);
    GatherInk(None, [], lines);
    assert [] + lines == lines;
    DropBlankInk(Gather(None, [], lines));
  }

  /** The words of one section carry all its ink. */
  lemma WordsInk(body: string, max: nat)
    requires max > 0
    ensures Ink(Join(Words(body, max), " ")) == Ink(body)
  {
    Splitting.PiecesCover(body, max);
    CoveredInk(Splitting.Pieces(body, max), body);
  }

  lemma SpaceInk()
    ensures Ink(" ") == ""
  {
    InkFree(" ");
  }

  lemma CoveredInk(pieces: seq<string>, body: string)
    requires Splitting.Covers(pieces, body)
    ensures Ink(Join(Packing.Clean(pieces), " ")) == Ink(body)
  {
    hide *;
    Splitting.CoversInk(pieces, body);
    Packing.CleanInk(pieces);
    SpaceInk();
    InkJoin(Packing.Clean(pieces), " ");
  }

  /**
   With an overlap, the chunks of a section stitch back to its trimmed pieces joined by
   spaces, and so to a text with all the section's ink in order.
   */
  lemma SectionStitches(body: string, max: nat, overlap: nat)
    requires 0 < overlap <= max
    ensures Stitching.Stitch("", Texts(body, max, overlap), overlap)
         == Join(Words(body, max), " ")
    ensures Ink(Stitching.Stitch("", Texts(body, max, overlap), overlap)) == Ink(body)
  {
    RoundTrip.MergeThenStitch(Splitting.Pieces(body, max), max, overlap);
    WordsInk(body, max);
  }

  lemma TextsInk(body: string, max: nat)
    requires max > 0
    ensures Ink(Concat(Texts(body, max, 0))) == Ink(body)
  {
    RoundTrip.MergePlain(Splitting.Pieces(body, max), max);
    InkFree(" ");
    InkJoin(Texts(body, max, 0), " ");
    WordsInk(body, max);
  }

  lemma {:induction false} AllTextsInk(sections: seq<Section>, max: nat)
    requires max > 0
    ensures Ink(Concat(AllTexts(Groups(sections, max, 0)))) == Ink(Concat(Bodies(sections)))
  {
    if sections != [] {
      var groups := Groups(sections, max, 0);
      var rest := AllTexts(groups[1..]);
      assert groups[1..] == Groups(sections[1..], max, 0);
      TextsInk(sections[0].body, max);
      AllTextsInk(sections[1..], max);
      ConcatAppend(groups[0].texts, rest);
      InkAppend(Concat(groups[0].texts), Concat(rest));
      InkAppend(sections[0].body, Concat(Bodies(sections[1..])));
    }
  }

  /** Without an overlap, chunking any text keeps every inked character, once and in order. */
  lemma ChunksConserve(content: string, cfg: ChunkConfig)
    requires cfg.Overlap() == 0
    ensures Ink(Concat(Contents(Chunks(content, cfg)))) == Ink(content)
  {
    var sections := Sections(content);
    var groups := Groups(sections, cfg.Max(), 0);
    if NumberAll(groups, |groups|) == [] {
      assert Concat([content]) == content + Concat([]) == content;
    } else {
      NumberedContents(groups);
      AllTextsInk(sections, cfg.Max());
      SectionsInk(content);
    }
  }

  /** A document of one section is rebuilt from its chunks with all its ink. */
  lemma DrillDownConserves(content: string, cfg: ChunkConfig)
    requires cfg.Overlap() > 0 && |Sections(content)| == 1
    ensures Ink(Stitching.Stitch("", Contents(Chunks(content, cfg)), cfg.Overlap())) == Ink(content)
  {
    var sections := Sections(content);
    var groups := Groups(sections, cfg.Max(), cfg.Overlap());
    if NumberAll(groups, |groups|) == [] {
      assert Contents(Chunks(content, cfg)) == [content];
      RoundTrip.StitchOne("", content, cfg.Overlap());
    } else {
      NumberedContents(groups);
      OneSection(sections, cfg.Max(), cfg.Overlap());
      SectionsInk(content);
    }
  }

  lemma OneSection(sections: seq<Section>, max: nat, overlap: nat)
    requires 0 < overlap <= max && |sections| == 1
    ensures Ink(Stitching.Stitch("", AllTexts(Groups(sections, max, overlap)), overlap))
         == Ink(Concat(Bodies(sections)))
  {
    var body, groups := sections[0].body, Groups(sections, max, overlap);
    assert groups[1..] == [] && groups[0].texts + [] == groups[0].texts;
    assert AllTexts(groups) == groups[0].texts;
    assert Bodies(sections) == [body];
    assert Concat([body]) == body + Concat([]) == body;
    SectionStitches(body, max, overlap);
  }

  // ----- what is packed

  lemma {:induction false} CleanNothing(pieces: seq<string>)
    ensures Packing.Clean(pieces) == [] <==> forall p <- pieces :: IsBlank(p)
  {
    if pieces != [] { CleanNothing(pieces[1..]); }
  }

  lemma TextsNothing(body: string, max: nat, overlap: nat)
    requires max > 0
    ensures Texts(body, max, overlap) == [] <==> forall p <- Splitting.Pieces(body, max) :: IsBlank(p)
  {
    var words := Words(body, max);
    CleanNothing(Splitting.Pieces(body, max));
    if words != [] { Packing.PackNonEmpty("", words, max, overlap); }
  }

  lemma {:induction false} AllTextsMembers(sections: seq<Section>, max: nat, overlap: nat)
    requires max > 0
    ensures forall t :: t in AllTexts(Groups(sections, max, overlap))
                   <==> exists s <- sections :: t in Texts(s.body, max, overlap)
  {
    if sections != [] {
      assert Groups(sections, max, overlap)[1..] == Groups(sections[1..], max, overlap);
      AllTextsMembers(sections[1..], max, overlap);
      Seqs.HeadTail(sections);
      forall t ensures (exists s <- sections :: t in Texts(s.body, max, overlap))
                  <==> t in Texts(sections[0].body, max, overlap)
                       || exists s <- sections[1..] :: t in Texts(s.body, max, overlap) {
        assert sections[0] in sections;
        assert forall s :: s in sections <==> s == sections[0] || s in sections[1..];
      }
    }
  }

  /** What the chunks hold: the packed texts of the sections, or the whole text if there are none. */
  lemma ChunkContents(content: string, cfg: ChunkConfig)
    ensures var texts := AllTexts(Groups(Sections(content), cfg.Max(), cfg.Overlap()));
            && (texts != [] <==> HasWords(content, cfg.Max()))
            && Contents(Chunks(content, cfg)) == if texts != [] then texts else [content]
  {
    var sections, max, overlap := Sections(content), cfg.Max(), cfg.Overlap();
    var groups := Groups(sections, max, overlap);
    var texts := AllTexts(groups);
    NumberedContents(groups);
    AllTextsMembers(sections, max, overlap);
    forall s <- sections ensures Texts(s.body, max, overlap) == []
                            <==> forall p <- Splitting.Pieces(s.body, max) :: IsBlank(p) {
      TextsNothing(s.body, max, overlap);
    }
    if texts != [] {
      assert texts[0] in texts;
    } else {
      forall s <- sections ensures Texts(s.body, max, overlap) == [] {
        assert forall t <- Texts(s.body, max, overlap) :: t in texts;
        Seqs.NoMember(Texts(s.body, max, overlap));
      }
      assert Contents([Chunk(content, 1, None)]) == [content];
    }
    if HasWords(content, max) {
      var s, p :| s in sections && p in Splitting.Pieces(s.body, max) && !IsBlank(p);
      assert Texts(s.body, max, overlap)[0] in Texts(s.body, max, overlap);
    }
  }

  /** The chunks of section `k`, numbered on from those before. */
  function SectionChunks(sections: seq<Section>, max: nat, overlap: nat, k: nat): seq<Chunk>
    requires max > 0 && k < |sections|
  {
    var groups := Groups(sections, max, overlap);
    Numbered(groups[k].heading, groups[k].texts, |NumberAll(groups, k)| + 1)
  }

  function SectionLists(sections: seq<Section>, max: nat, overlap: nat, n: nat): (lists: seq<seq<Chunk>>)
    requires max > 0 && n <= |sections|
    ensures |lists| == n
  {
    if n == 0 then []
    else SectionLists(sections, max, overlap, n - 1) + [SectionChunks(sections, max, overlap, n - 1)]
  }

  lemma {:induction false} SectionListAt(sections: seq<Section>, max: nat, overlap: nat, n: nat, k: nat)
    requires max > 0 && k < n <= |sections|
    ensures SectionLists(sections, max, overlap, n)[k] == SectionChunks(sections, max, overlap, k)
  {
    hide SectionChunks;
    if k < n - 1 { SectionListAt(sections, max, overlap, n - 1, k); }
  }

  lemma {:induction false} ChunksUpTo(sections: seq<Section>, max: nat, overlap: nat, n: nat)
    requires max > 0 && n <= |sections|
    ensures NumberAll(Groups(sections, max, overlap), n) == Seqs.Flatten(SectionLists(sections, max, overlap, n))
  {
    hide Groups, Numbered, Texts, Seqs.Flatten;
    if n > 0 {
      ChunksUpTo(sections, max, overlap, n - 1);
      NumberStep(Groups(sections, max, overlap), n - 1);
      hide NumberAll, SectionChunks;
      Seqs.FlattenSnoc(SectionLists(sections, max, overlap, n - 1), SectionChunks(sections, max, overlap, n - 1));
    } else {
      NothingFlat(sections, max, overlap);
    }
  }

  lemma NothingFlat(sections: seq<Section>, max: nat, overlap: nat)
    requires max > 0
    ensures NumberAll(Groups(sections, max, overlap), 0) == Seqs.Flatten(SectionLists(sections, max, overlap, 0))
  {
  }

  /** Section by section, each chunk of a text with words is a packed text of its section and carries its heading. */
  lemma ChunksBySection(content: string, cfg: ChunkConfig) returns (lists: seq<seq<Chunk>>)
    requires HasWords(content, cfg.Max())
    ensures var sections := Sections(content);
            && |lists| == |sections| && Chunks(content, cfg) == Seqs.Flatten(lists)
            && forall k | 0 <= k < |lists| ::
                 && Contents(lists[k]) == Texts(sections[k].body, cfg.Max(), cfg.Overlap())
                 && forall c <- lists[k] :: c.heading == sections[k].heading
  {
    var sections, max, overlap := Sections(content), cfg.Max(), cfg.Overlap();
    var n := |sections|;
    lists := SectionLists(sections, max, overlap, n);
    ChunksUpTo(sections, max, overlap, n);
    ChunkContents(content, cfg);
    NumberedContents(Groups(sections, max, overlap));
    NotWhole(content, cfg);
    hide Groups, NumberAll, Texts, Contents, Chunks, HasWords, Seqs.Flatten, Sections;
    forall k | 0 <= k < n
      ensures Contents(lists[k]) == Texts(sections[k].body, max, overlap)
           && forall c <- lists[k] :: c.heading == sections[k].heading
    {
      SectionListAt(sections, max, overlap, n, k);
      OneSectionChunks(sections, max, overlap, k);
    }
  }

  lemma NotWhole(content: string, cfg: ChunkConfig)
    requires HasWords(content, cfg.Max())
    ensures var groups := Groups(Sections(content), cfg.Max(), cfg.Overlap());
            Chunks(content, cfg) == NumberAll(groups, |groups|)
  {
    hide HasWords;
    var groups := Groups(Sections(content), cfg.Max(), cfg.Overlap());
    ChunkContents(content, cfg);
    NumberedContents(groups);
  }

  lemma OneSectionChunks(sections: seq<Section>, max: nat, overlap: nat, k: nat)
    requires max > 0 && k < |sections|
    ensures var chunks := SectionChunks(sections, max, overlap, k);
            && Contents(chunks) == Texts(sections[k].body, max, overlap)
            && forall c <- chunks :: c.heading == sections[k].heading
  {
    hide NumberAll, Texts, Contents, Numbered;
    var groups := Groups(sections, max, overlap);
    NumberedShape(groups[k].heading, groups[k].texts, |NumberAll(groups, k)| + 1);
  }

  // ----- size

  lemma {:induction false} AllTextsFit(sections: seq<Section>, max: nat, overlap: nat)
    requires max > 0
    ensures forall t <- AllTexts(Groups(sections, max, overlap)) :: |t| <= Packing.Bound(max, max, overlap)
  {
    if sections != [] {
      assert Groups(sections, max, overlap)[1..] == Groups(sections[1..], max, overlap);
      TextsFit(sections[0].body, max, overlap);
      AllTextsFit(sections[1..], max, overlap);
    }
  }

  lemma TextsFit(body: string, max: nat, overlap: nat)
    requires max > 0
    ensures forall t <- Texts(body, max, overlap) :: |t| <= Packing.Bound(max, max, overlap)
  {
    Splitting.PiecesFit(body, max);
    Packing.MergeFits(Splitting.Pieces(body, max), max, max, overlap);
  }

  lemma TextsNonEmpty(body: string, max: nat, overlap: nat)
    requires max > 0 && Ink(body) != ""
    ensures Texts(body, max, overlap) != []
  {
    var words := Words(body, max);
    WordsInk(body, max);
    assert words != [];
    Packing.PackNonEmpty("", words, max, overlap);
  }

  /** A text with ink never falls back to being kept whole. */
  lemma {:induction false} InkIsPacked(sections: seq<Section>, max: nat, overlap: nat)
    requires max > 0 && Ink(Concat(Bodies(sections))) != ""
    ensures AllTexts(Groups(sections, max, overlap)) != []
  {
    var body := sections[0].body;
    assert Groups(sections, max, overlap)[1..] == Groups(sections[1..], max, overlap);
    InkAppend(body, Concat(Bodies(sections[1..])));
    if Ink(body) == "" {
      InkIsPacked(sections[1..], max, overlap);
    } else {
      TextsNonEmpty(body, max, overlap);
    }
  }

  /** Chunks of a text with words exceed the limit by at most a carried tail and a space. */
  lemma ChunksFit(content: string, cfg: ChunkConfig)
    requires HasWords(content, cfg.Max())
    ensures forall c <- Chunks(content, cfg) ::
      |c.content| <= if cfg.Overlap() == 0 then cfg.Max() else cfg.Max() + cfg.Overlap() + 1
  {
    hide HasWords;
    var sections, chunks := Sections(content), Chunks(content, cfg);
    ChunkContents(content, cfg);
    AllTextsFit(sections, cfg.Max(), cfg.Overlap());
    forall c <- chunks
      ensures |c.content| <= Packing.Bound(cfg.Max(), cfg.Max(), cfg.Overlap())
    {
      var i :| 0 <= i < |chunks| && chunks[i] == c;
      assert Contents(chunks)[i] == c.content;
    }
  }
}
