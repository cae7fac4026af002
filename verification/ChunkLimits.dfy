/** Texts that overflow the size limit, texts that keep it, and texts a drill-down loses part of. */
module ChunkLimits {
  import opened Options
  import opened Text
  import opened Packing
  import opened Chunking
  import Splitting
  import Stitching
  import DrillDown
  import Seqs

  ghost predicate WithinLimit(content: string, cfg: ChunkConfig) {
    forall c <- Chunks(content, cfg) :: |c.content| <= cfg.Max()
  }

  function Xs(n: nat): string {
    seq(n, _ => 'x')
  }

  ghost predicate AllX(s: string) {
    s != "" && forall i | 0 <= i < |s| :: s[i] == 'x'
  }

  lemma NoBreaks(s: string, pat: string)
    requires AllX(s)
    requires pat != "" && pat[|pat| - 1] != 'x'
    ensures Find(s, pat) == None
  {
    forall i ensures !OccursAt(s, pat, i) {
      if 0 <= i && i + |pat| <= |s| {
        assert s[i..i + |pat|][|pat| - 1] == s[i + |pat| - 1];
      }
    }
  }

  /** A text without a line break that is not a heading is one section. */
  lemma OneLine(s: string)
    requires s != "" && Find(s, "\n") == None && !IsHeading(s) && !IsBlank(s)
    ensures Sections(s) == [Section(None, s)]
  {
    var lines := Lines(s);
    assert lines == [s] && lines[1..] == [] && [] + [s] == [s];
    assert Gather(None, [], lines) == Gather(None, [s], []);
    assert Join([s], "\n") == s;
    var section := Section(None, s);
    assert [section][1..] == [] && DropBlank([section]) == [section] + [];
    assert Gather(None, [], lines) == [section];
  }

  /** It is cut into windows if it has no separator either. */
  lemma PlainText(s: string, max: nat)
    requires 0 < max < |s| && AllX(s)
    ensures Sections(s) == [Section(None, s)]
    ensures Splitting.Pieces(s, max) == Splitting.Windows(s, max)
  {
    NoBreaks(s, "\n\n");
    NoBreaks(s, "\n");
    NoBreaks(s, ". ");
    NoBreaks(s, " ");
    assert TrimStartHashes(s) == s;
    assert !IsWhitespace(s[0]);
    OneLine(s);
  }

  lemma TwoWindows(s: string, x: string)
    requires x != "" && s == x + x
    ensures Splitting.Windows(s, |x|) == [x, x]
  {
    assert s[..|x|] == x && s[|x|..] == x;
    assert Splitting.Windows(x, |x|) == [x];
  }

  lemma CleanPair(x: string)
    requires IsTidy(x)
    ensures Clean([x, x]) == [x, x]
  {
    assert [x, x][1..] == [x] && [x][1..] == [];
    assert Clean([x]) == [x] + [];
  }

  /** Twice `max` characters without a break overflow the limit of every config that overlaps. */
  lemma OverflowWitness(cfg: ChunkConfig)
    requires cfg.Overlap() > 0
    ensures Ink(Xs(2 * cfg.Max())) != "" && !WithinLimit(Xs(2 * cfg.Max()), cfg)
  {
    var max := cfg.Max();
    TwoXs(max);
    OverflowAt(Xs(2 * max), Xs(max), cfg);
    XsInk(Xs(2 * max));
  }

  lemma XsInk(s: string)
    requires AllX(s)
    ensures Ink(s) != ""
  {
    assert !IsWhitespace(s[0]);
  }

  lemma OverflowAt(s: string, x: string, cfg: ChunkConfig)
    requires s == x + x && |x| == cfg.Max() && cfg.Overlap() > 0 && AllX(s) && AllX(x)
    ensures !WithinLimit(s, cfg)
  {
    var max, overlap := cfg.Max(), cfg.Overlap();
    var texts := [x, Tail(x, overlap) + " " + x];
    OverflowTexts(s, x, max, overlap);
    OneGroup(Sections(s), texts, max, overlap);
    Overflows(s, x, cfg);
  }

  lemma TwoXs(n: nat)
    ensures Xs(2 * n) == Xs(n) + Xs(n)
  {
  }

  lemma OverflowTexts(s: string, x: string, max: nat, overlap: nat)
    requires s == x + x && |x| == max && 0 < overlap <= max && AllX(s) && AllX(x)
    ensures Sections(s) == [Section(None, s)]
    ensures Texts(s, max, overlap) == [x, Tail(x, overlap) + " " + x]
  {
    PlainText(s, max);
    TwoWindows(s, x);
    MergePair(x, max, overlap);
  }

  lemma MergePair(x: string, max: nat, overlap: nat)
    requires |x| == max && 0 < overlap <= max && AllX(x)
    ensures Merge([x, x], max, overlap) == [x, Tail(x, overlap) + " " + x]
  {
    CleanPair(x);
    TwoWords(x, max, overlap);
  }

  lemma Overflows(s: string, x: string, cfg: ChunkConfig)
    requires |x| == cfg.Max() && cfg.Overlap() > 0
    requires Contents(NumberAll(Groups(Sections(s), cfg.Max(), cfg.Overlap()), |Sections(s)|))
          == [x, Tail(x, cfg.Overlap()) + " " + x]
    ensures !WithinLimit(s, cfg)
  {
    var chunks := Chunks(s, cfg);
    assert chunks[1] in chunks && chunks[1].content == Contents(chunks)[1];
  }

  lemma OneGroup(sections: seq<Section>, texts: seq<string>, max: nat, overlap: nat)
    requires max > 0 && |sections| == 1 && Texts(sections[0].body, max, overlap) == texts
    ensures Contents(NumberAll(Groups(sections, max, overlap), |sections|)) == texts
  {
    var groups := Groups(sections, max, overlap);
    assert groups[1..] == [];
    assert AllTexts(groups) == texts + [] == texts;
    NumberedContents(groups);
  }

  lemma TwoWords(x: string, max: nat, overlap: nat)
    requires IsTidy(x) && |x| == max && 0 < overlap <= max
    requires !IsWhitespace(Tail(x, overlap)[0])
    ensures Pack("", [x, x], max, overlap) == [x, Tail(x, overlap) + " " + x]
  {
    var last := Tail(x, overlap) + " " + x;
    assert IsTidy(last) && !IsBlank(last);
    assert [x, x][1..] == [x] && [x][1..] == [];
    assert Pack(last, [], max, overlap) == [last];
    assert Opened(x, x, max, overlap) == last;
    assert Pack(x, [x], max, overlap) == [x] + [last];
    assert Opened("", x, max, overlap) == x;
    assert Pack("", [x, x], max, overlap) == [] + Pack(x, [x], max, overlap);
  }

  /** With an overlap the limit is kept when every piece leaves room for the carry and a space. */
  lemma SmallPiecesFit(content: string, cfg: ChunkConfig)
    requires HasWords(content, cfg.Max())
    requires forall s <- Sections(content), p <- Splitting.Pieces(s.body, cfg.Max()) ::
      |p| <= cfg.Max() - cfg.Overlap() - 1
    ensures WithinLimit(content, cfg)
  {
    hide HasWords;
    var chunks := Chunks(content, cfg);
    ChunkContents(content, cfg);
    SmallTextsFit(Sections(content), cfg.Max(), cfg.Overlap());
    forall c <- chunks ensures |c.content| <= cfg.Max() {
      var i :| 0 <= i < |chunks| && chunks[i] == c;
      assert Contents(chunks)[i] == c.content;
    }
  }

  lemma {:induction false} SmallTextsFit(sections: seq<Section>, max: nat, overlap: nat)
    requires overlap < max
    requires forall s <- sections, p <- Splitting.Pieces(s.body, max) :: |p| <= max - overlap - 1
    ensures forall t <- AllTexts(Groups(sections, max, overlap)) :: |t| <= max
  {
    if sections != [] {
      assert sections[0] in sections;
      assert Groups(sections, max, overlap)[1..] == Groups(sections[1..], max, overlap);
      MergeFits(Splitting.Pieces(sections[0].body, max), max - overlap - 1, max, overlap);
      SmallTextsFit(sections[1..], max, overlap);
    }
  }

  /** Two one-line sections: some line, and a heading. */
  ghost predicate TwoLines(a: string, b: string, max: nat) {
    && IsTidy(a) && IsTidy(b) && |a| <= max && |b| <= max
    && !IsHeading(a) && IsHeading(b)
    && '\n' !in a && '\n' !in b && '\r' !in a
  }

  lemma FirstNewline(a: string, b: string)
    requires '\n' !in a
    ensures Find(a + "\n" + b, "\n") == Some(|a|)
  {
    var s := a + "\n" + b;
    assert s[|a|..|a| + 1] == "\n";
    assert OccursAt(s, "\n", |a|);
    forall i | 0 <= i < |a| ensures !OccursAt(s, "\n", i) {
      assert s[i..i + 1][0] == a[i];
      assert a[i] in a;
    }
  }

  lemma NoNewline(s: string)
    requires '\n' !in s
    ensures Find(s, "\n") == None
  {
    forall i ensures !OccursAt(s, "\n", i) {
      if 0 <= i < |s| {
        assert s[i..i + 1][0] == s[i];
        assert s[i] in s;
      }
    }
  }

  lemma TwoSections(a: string, b: string, max: nat)
    requires TwoLines(a, b, max)
    ensures Sections(a + "\n" + b) == [Section(None, a), Section(Some(HeadingOf(b)), b)]
  {
    TwoLinesOf(a, b);
    TwoGathered(a, b);
    assert !IsBlank(a) && !IsBlank(b);
    DropNone(Section(None, a), Section(Some(HeadingOf(b)), b));
  }

  lemma TwoLinesOf(a: string, b: string)
    requires '\n' !in a && '\n' !in b && '\r' !in a && a != "" && b != ""
    ensures Lines(a + "\n" + b) == [a, b]
  {
    var s := a + "\n" + b;
    FirstNewline(a, b);
    NoNewline(b);
    assert s[..|a|] == a && s[|a| + 1..] == b;
    assert a[|a| - 1] in a;
    assert Lines(b) == [b];
  }

  lemma TwoGathered(a: string, b: string)
    requires !IsHeading(a) && IsHeading(b)
    ensures Gather(None, [], [a, b]) == [Section(None, a), Section(Some(HeadingOf(b)), b)]
  {
    var first, second := Section(None, a), Section(Some(HeadingOf(b)), b);
    assert [a, b][1..] == [b] && [b][1..] == [];
    Seqs.Empty([a]);
    assert Gather(Some(HeadingOf(b)), [b], []) == [second];
    assert Gather(None, [a], [b]) == [first] + [second];
  }

  lemma DropNone(first: Section, second: Section)
    requires !IsBlank(first.body) && !IsBlank(second.body)
    ensures DropBlank([first, second]) == [first, second]
  {
    assert [first, second][1..] == [second] && [second][1..] == [];
    assert DropBlank([second]) == [second] + [];
  }

  lemma ShortTexts(body: string, max: nat, overlap: nat)
    requires IsTidy(body) && |body| <= max
    ensures Texts(body, max, overlap) == [body]
  {
    assert Splitting.Pieces(body, max) == [body] && [body][1..] == [];
    assert Clean([body]) == [body] + [] == [body];
    assert Opened("", body, max, overlap) == body;
    assert !IsBlank(body);
    assert Pack(body, [], max, overlap) == [body];
    assert Pack("", [body], max, overlap) == [] + [body] == [body];
  }

  lemma TwoGroups(a: Section, b: Section, max: nat, overlap: nat)
    requires IsTidy(a.body) && IsTidy(b.body) && |a.body| <= max && |b.body| <= max
    ensures Contents(NumberAll(Groups([a, b], max, overlap), 2)) == [a.body, b.body]
  {
    ShortTexts(a.body, max, overlap);
    ShortTexts(b.body, max, overlap);
    var groups := Groups([a, b], max, overlap);
    assert groups[1..][1..] == [];
    assert AllTexts(groups[1..]) == [b.body] + [];
    assert AllTexts(groups) == [a.body] + [b.body];
    NumberedContents(groups);
  }

  /**
   Drill-down over two sections loses text whenever the line before a heading ends with the
   heading mark: under every configuration that overlaps, the mark of the second section is
   taken for an overlap with the end of the first.
   */
  lemma DrillDownLoses(a: string, b: string, cfg: ChunkConfig)
    requires cfg.Overlap() > 0 && TwoLines(a, b, cfg.Max()) && a[|a| - 1] == '#'
    ensures var texts := Contents(Chunks(a + "\n" + b, cfg));
            |Ink(Stitching.Stitch("", texts, cfg.Overlap()))| < |Ink(a + "\n" + b)|
  {
    var s, overlap := a + "\n" + b, cfg.Overlap();
    TwoSections(a, b, cfg.Max());
    TwoGroups(Section(None, a), Section(Some(HeadingOf(b)), b), cfg.Max(), overlap);
    assert Contents(Chunks(s, cfg)) == [a, b];
    StitchLoses(a, b, overlap);
  }

  lemma StitchLoses(a: string, b: string, overlap: nat)
    requires overlap > 0 && a != "" && b != "" && a[|a| - 1] == b[0] == '#'
    ensures |Ink(Stitching.Stitch("", [a, b], overlap))| < |Ink(a + "\n" + b)|
  {
    assert EndsWith(a, b[..1]);
    DrillDown.CutAtLeast(a, b, overlap, 1);
    var k := Stitching.Cut(a, b, overlap);
    assert [a, b][1..] == [b] && [b][1..] == [];
    assert Stitching.Append("", a, overlap) == a && Stitching.Append(a, b, overlap) == a + b[k..];
    assert Stitching.Stitch(a, [b], overlap) == Stitching.Stitch(a + b[k..], [], overlap);
    InkAppend(a + "\n", b);
    InkAppend(a, "\n");
    InkFree("\n");
    InkAppend(a, b[k..]);
    Seqs.TakeDrop(b, k);
    InkAppend(b[..k], b[k..]);
    assert b[..k][0] == '#' && !IsWhitespace('#');
  }

  /** For example "x#" followed by the heading "# b". */
  lemma DrillDownLosesHere(cfg: ChunkConfig)
    requires cfg.Overlap() > 0 && cfg.Max() >= 3
    ensures |Ink(Stitching.Stitch("", Contents(Chunks("x#" + "\n" + "# b", cfg)), cfg.Overlap()))|
          < |Ink("x#" + "\n" + "# b")|
  {
    var b := "# b";
    assert b[1..] == " b" && TrimStartHashes(" b") == " b";
    assert TrimStartHashes("x#") == "x#";
    assert !IsWhitespace('x') && !IsWhitespace('#') && !IsWhitespace('b');
    DrillDownLoses("x#", b, cfg);
  }
}
