/**
 The session anchor log: an append-only text in which each anchor is a fenced JSON payload
 between two marker lines, and its parser.
 */
module AnchorLog {
  import opened Options
  import opened Text
  import Seqs

  const DEFAULT := "default"

  datatype SessionKey = SessionKey(userId: string, sessionId: string, taskId: string) {
    predicate IsDefault() {
      userId == DEFAULT && sessionId == DEFAULT && taskId == DEFAULT
    }
  }

  const DEFAULT_SESSION := SessionKey(DEFAULT, DEFAULT, DEFAULT)

  datatype Anchor = Anchor(
    session: Option<SessionKey>, currentTask: string, planPointer: Option<string>,
    lastDecisions: seq<string>, nextStep: string, updatedAt: int)

  datatype ParseError = Unterminated | MissingJson | BadJson

  datatype Result<+T> = Ok(value: T) | Err(error: ParseError)

  /** JSON printing and parsing of anchors. */
  datatype Codec = Codec(print_: Anchor -> string, parse: string -> Option<Anchor>)

  /** Printed objects read back, start and end with a brace, and nothing shorter reads at all. */
  ghost predicate IsCodec(codec: Codec) {
    && (forall a :: codec.parse(codec.print_(a)) == Some(a) && IsTidy(codec.print_(a)))
    && (forall a, n: nat | n < |codec.print_(a)| :: codec.parse(Trim(codec.print_(a)[..n])) == None)
  }

  /** The marker texts of the log format. */
  datatype Format = Format(start: string, end: string, open: string, fence: string)

  /** What the parser relies on: no marker spans lines, and the end marker hides in no other. */
  ghost predicate IsFormat(f: Format) {
    && IsMark(f.start) && IsMark(f.end) && IsMark(f.open) && IsMark(f.fence)
    && !Contains(f.open, f.end) && !Contains(f.fence, f.end)
  }

  predicate IsMark(mark: string) {
    mark != "" && '\n' !in mark
  }

  const ANCHOR_FORMAT := Format("<!-- artesian:anchor -->", "<!-- /artesian:anchor -->", "```json", "```")

  lemma MarkersAreMarks()
    ensures IsMark(ANCHOR_FORMAT.start) && IsMark(ANCHOR_FORMAT.end)
  {
  }

  lemma FencesAreMarks()
    ensures IsMark(ANCHOR_FORMAT.open) && IsMark(ANCHOR_FORMAT.fence)
    ensures |ANCHOR_FORMAT.open| < 10 < |ANCHOR_FORMAT.end| && |ANCHOR_FORMAT.fence| < 10
  {
  }

  /** A written block, with the markers spelled out. */
  lemma BlockText(payload: string)
    ensures Block(ANCHOR_FORMAT, payload)
         == "\n" + "<!-- artesian:anchor -->" + "\n" + "```json" + "\n" + payload
            + "\n" + "```" + "\n" + "<!-- /artesian:anchor -->" + "\n"
  {
  }

  lemma AnchorFormatIsFormat()
    ensures IsFormat(ANCHOR_FORMAT)
  {
    hide Contains, IsMark, ANCHOR_FORMAT;
    MarkersAreMarks();
    FencesAreMarks();
    TooShort(ANCHOR_FORMAT.open, ANCHOR_FORMAT.end);
    TooShort(ANCHOR_FORMAT.fence, ANCHOR_FORMAT.end);
  }

  lemma TooShort(s: string, mark: string)
    requires |s| < |mark|
    ensures !Contains(s, mark)
  {
  }

  // ----- writing

  /** What stands between the two markers of a block. */
  function Body(f: Format, payload: string): string {
    "" + ("\n" + (f.open + ("\n" + (payload + ("\n" + (f.fence + ("\n" + "")))))))
  }

  /** One write: the text the store appends for a payload. */
  function Block(f: Format, payload: string): string {
    "\n" + f.start + "\n" + f.open + "\n" + payload + "\n" + f.fence + "\n" + f.end + "\n"
  }

  // ----- parsing

  /** `split_once`, what follows the separator. */
  function After(s: string, sep: string): Option<string> {
    match Find(s, sep)
    case None => None
    case Some(i) => Some(s[i + |sep|..])
  }

  function Before(s: string, sep: string): Option<string> {
    match Find(s, sep)
    case None => None
    case Some(i) => Some(s[..i])
  }

  /** `parse_anchor_block` */
  function ParseBlock(f: Format, codec: Codec, block: string): Result<Anchor> {
    match After(block, f.open)
    case None => Err(MissingJson)
    case Some(rest) =>
      match Before(rest, f.fence)
      case None => Err(MissingJson)
      case Some(json) =>
        match codec.parse(Trim(json))
        case None => Err(BadJson)
        case Some(anchor) => Ok(anchor)
  }

  /** What the parser meets next: nothing, a broken block, or an anchor and the text behind it. */
  datatype Found = NoMore | Broken(error: ParseError) | Next(anchor: Anchor, rest: string)

  function NextAnchor(f: Format, codec: Codec, text: string): (found: Found)
    ensures f.start != "" && found.Next? ==> |found.rest| < |text|
  {
    match After(text, f.start)
    case None => NoMore
    case Some(inside) =>
      match Find(inside, f.end)
      case None => Broken(Unterminated)
      case Some(end) =>
        match ParseBlock(f, codec, inside[..end])
        case Err(e) => Broken(e)
        case Ok(anchor) => Next(anchor, inside[end + |f.end|..])
  }

  function Parse(f: Format, codec: Codec, text: string): Result<seq<Anchor>>
    requires f.start != ""
    decreases |text|
  {
    match NextAnchor(f, codec, text)
    case NoMore => Ok([])
    case Broken(e) => Err(e)
    case Next(anchor, rest) => Prepend([anchor], Parse(f, codec, rest))
  }

  function Prepend(anchors: seq<Anchor>, result: Result<seq<Anchor>>): Result<seq<Anchor>> {
    match result
    case Err(e) => Err(e)
    case Ok(more) => Ok(anchors + more)
  }

  /** `parse_anchors` */
  method ParseAnchors(f: Format, codec: Codec, text: string) returns (result: Result<seq<Anchor>>)
    requires f.start != ""
    ensures result == Parse(f, codec, text)
  {
    hide Parse, Prepend, NextAnchor;
    var anchors: seq<Anchor> := [];
    var rest := text;
    PrependNothing(Parse(f, codec, text));
    while true
      invariant Parse(f, codec, text) == Prepend(anchors, Parse(f, codec, rest))
      decreases |rest|
    {
      var found := FindNext(f, codec, rest);
      ParseStep(f, codec, anchors, rest);
      match found
      case NoMore =>
        return Ok(anchors);
      case Broken(e) =>
        return Err(e);
      case Next(anchor, behind) =>
        PrependTwice(anchors, [anchor], Parse(f, codec, behind));
        anchors := anchors + [anchor];
        rest := behind;
    }
  }

  lemma ParseStep(f: Format, codec: Codec, anchors: seq<Anchor>, rest: string)
    requires f.start != ""
    ensures Prepend(anchors, Parse(f, codec, rest))
         == match NextAnchor(f, codec, rest)
            case NoMore => Ok(anchors)
            case Broken(e) => Err(e)
            case Next(anchor, behind) => Prepend(anchors, Prepend([anchor], Parse(f, codec, behind)))
  {
    Seqs.Empty(anchors);
  }

  /** One turn of its loop. */
  method FindNext(f: Format, codec: Codec, rest: string) returns (found: Found)
    ensures found == NextAnchor(f, codec, rest)
  {
    hide ParseBlock, Find;
    var start := Find(rest, f.start);
    if start.None? {
      return NoMore;
    }
    var inside := rest[start.value + |f.start|..];
    var end := Find(inside, f.end);
    if end.None? {
      return Broken(Unterminated);
    }
    var parsed := ParseBlock(f, codec, inside[..end.value]);
    if parsed.Err? {
      return Broken(parsed.error);
    }
    return Next(parsed.value, inside[end.value + |f.end|..]);
  }

  lemma PrependNothing(result: Result<seq<Anchor>>)
    ensures Prepend([], result) == result
  {
    if result.Ok? { Seqs.Empty(result.value); }
  }

  lemma PrependTwice(a: seq<Anchor>, b: seq<Anchor>, result: Result<seq<Anchor>>)
    ensures Prepend(a, Prepend(b, result)) == Prepend(a + b, result)
  {
    if result.Ok? { Seqs.Assoc(a, b, result.value); }
  }

  // ----- searching line by line

  /** A marker in front is found at once. */
  lemma FindHere(mark: string, rest: string)
    ensures Find(mark + rest, mark) == Some(0)
  {
  }

  /** A marker cannot span a line break, so lines without it are skipped whole. */
  lemma FindSkip(line: string, rest: string, mark: string)
    requires IsMark(mark) && !Contains(line, mark)
    ensures Find(line + ("\n" + rest), mark)
         == match Find(rest, mark) case None => None case Some(k) => Some(|line| + 1 + k)
  {
    hide Find, OccursAt, IsMark;
    var whole, skipped := line + ("\n" + rest), |line| + 1;
    forall i: nat ensures OccursAt(whole, mark, i) <==> i >= skipped && OccursAt(rest, mark, i - skipped) {
      if i < skipped {
        NotAcross(line, rest, mark, i);
      } else {
        OccursShift(line, rest, mark, i - skipped);
      }
    }
    match Find(rest, mark)
    case None => NotFound(whole, mark);
    case Some(k) => FoundAt(whole, mark, skipped + k);
  }

  lemma OccursShift(line: string, rest: string, mark: string, i: nat)
    ensures OccursAt(line + ("\n" + rest), mark, |line| + 1 + i) <==> OccursAt(rest, mark, i)
  {
    var whole, j := line + ("\n" + rest), |line| + 1 + i;
    if i + |mark| <= |rest| {
      assert whole[j..j + |mark|] == rest[i..i + |mark|];
    }
  }

  lemma NotAcross(line: string, rest: string, mark: string, i: nat)
    requires IsMark(mark) && !Contains(line, mark) && i <= |line|
    ensures !OccursAt(line + ("\n" + rest), mark, i)
  {
    var whole := line + ("\n" + rest);
    if i + |mark| <= |line| {
      assert whole[i..i + |mark|] == line[i..i + |mark|];
      assert !OccursAt(line, mark, i);
    } else if i + |mark| <= |whole| {
      assert whole[i..i + |mark|][|line| - i] == '\n';
      assert mark[|line| - i] in mark;
    }
  }

  // ----- reading one block back

  /** The payload cannot be mistaken for the end of its own block. */
  predicate IsClean(f: Format, payload: string) {
    !Contains(payload, f.end) && !Contains(payload, f.fence)
  }

  lemma NotInEmpty(mark: string)
    requires mark != ""
    ensures !Contains("", mark)
  {
  }

  /** Behind the start marker of a block. */
  function Inside(f: Format, payload: string, rest: string): string {
    "" + ("\n" + (f.open + ("\n" + (payload + ("\n" + (f.fence + ("\n" + (f.end + ("\n" + rest)))))))))
  }

  lemma InsideSplits(f: Format, payload: string, rest: string)
    ensures Inside(f, payload, rest) == Body(f, payload) + f.end + ("\n" + rest)
  {
  }

  /** A payload without the end marker is read up to its own end marker. */
  lemma EndOfClean(f: Format, payload: string, rest: string)
    requires IsFormat(f) && !Contains(payload, f.end)
    ensures Find(Inside(f, payload, rest), f.end) == Some(|Body(f, payload)|)
  {
    hide Find;
    var d := f.end + ("\n" + rest);
    var c := f.fence + ("\n" + d);
    var b := payload + ("\n" + c);
    var a := f.open + ("\n" + b);
    NotInEmpty(f.end);
    FindHere(f.end, "\n" + rest);
    FindSkip(f.fence, d, f.end);
    FindSkip(payload, c, f.end);
    FindSkip(f.open, b, f.end);
    FindSkip("", a, f.end);
  }

  /** Otherwise it is cut at the end marker it contains. */
  lemma EndOfDirty(f: Format, payload: string, rest: string)
    requires IsFormat(f) && Contains(payload, f.end)
    ensures Find(Inside(f, payload, rest), f.end) == Some(1 + |f.open| + 1 + Find(payload, f.end).value)
  {
    hide Find;
    var c := "\n" + (f.fence + ("\n" + (f.end + ("\n" + rest))));
    var b := payload + c;
    NotInEmpty(f.end);
    FindInFront(payload, c, f.end);
    FindSkip(f.open, b, f.end);
    FindSkip("", f.open + ("\n" + b), f.end);
  }

  /** Up to the fence that opens it, a block is the same for every payload. */
  lemma OpenFound(f: Format, rest: string)
    requires IsFormat(f)
    ensures After("" + ("\n" + (f.open + rest)), f.open) == Some(rest)
  {
    hide Find;
    var block := "" + ("\n" + (f.open + rest));
    NotInEmpty(f.open);
    FindHere(f.open, rest);
    FindSkip("", f.open + rest, f.open);
    assert block[1 + |f.open|..] == rest;
  }

  lemma {:induction false} TrimNewline(s: string)
    ensures Trim("\n" + s) == Trim(s)
  {
    assert ("\n" + s)[1..] == s;
  }

  lemma TrimAround(payload: string)
    requires IsTidy(payload)
    ensures Trim("\n" + (payload + "\n")) == payload
  {
    var s := payload + "\n";
    TrimNewline(s);
    assert s[0] == payload[0];
    assert s[|s| - 1] == '\n' && s[..|s| - 1] == payload;
  }

  /** The JSON text of a block that is opened and goes on with `payload`, cut or not. */
  lemma FenceInPayload(f: Format, payload: string, rest: string)
    requires IsFormat(f) && Contains(payload, f.fence)
    ensures Before("" + ("\n" + (payload + rest)), f.fence)
         == Some("\n" + payload[..Find(payload, f.fence).value])
  {
    hide Find;
    var m := Find(payload, f.fence).value;
    var s := "" + ("\n" + (payload + rest));
    NotInEmpty(f.fence);
    FindInFront(payload, rest, f.fence);
    FindSkip("", payload + rest, f.fence);
    assert s[..1 + m] == "\n" + payload[..m];
  }

  lemma FenceBehindPayload(f: Format, payload: string)
    requires IsFormat(f) && !Contains(payload, f.fence)
    ensures Before("" + ("\n" + (payload + ("\n" + (f.fence + ("\n" + ""))))), f.fence)
         == Some("\n" + (payload + "\n"))
  {
    hide Find;
    var b := f.fence + ("\n" + "");
    var a := payload + ("\n" + b);
    var s := "" + ("\n" + a);
    NotInEmpty(f.fence);
    FindHere(f.fence, "\n" + "");
    FindSkip(payload, b, f.fence);
    FindSkip("", a, f.fence);
    assert s[..1 + (|payload| + 1)] == "\n" + (payload + "\n");
  }

  lemma CleanBlock(f: Format, codec: Codec, anchor: Anchor)
    requires IsFormat(f) && IsCodec(codec) && !Contains(codec.print_(anchor), f.fence)
    ensures ParseBlock(f, codec, Body(f, codec.print_(anchor))) == Ok(anchor)
  {
    hide Find, Trim, After, Before;
    var payload := codec.print_(anchor);
    OpenFound(f, "\n" + (payload + ("\n" + (f.fence + ("\n" + "")))));
    Seqs.Empty("\n" + (payload + ("\n" + (f.fence + ("\n" + "")))));
    FenceBehindPayload(f, payload);
    TrimAround(payload);
  }

  /** A payload with a fence in it is cut there, and a cut payload does not parse. */
  lemma FencedBlock(f: Format, codec: Codec, anchor: Anchor)
    requires IsFormat(f) && IsCodec(codec) && Contains(codec.print_(anchor), f.fence)
    ensures ParseBlock(f, codec, Body(f, codec.print_(anchor))).Err?
  {
    hide Find, Trim, After, Before;
    var payload := codec.print_(anchor);
    var rest := "\n" + (f.fence + ("\n" + ""));
    var m := Find(payload, f.fence).value;
    OpenFound(f, "\n" + (payload + rest));
    Seqs.Empty("\n" + (payload + rest));
    FenceInPayload(f, payload, rest);
    TrimNewline(payload[..m]);
    FirstBeforeEnd(payload, f.fence);
  }

  lemma FirstBeforeEnd(s: string, mark: string)
    requires mark != "" && Contains(s, mark)
    ensures Find(s, mark).value < |s|
  {
  }

  /** A block that ends inside its payload. */
  function CutInside(f: Format, payload: string, k: nat): string
    requires k <= |payload|
  {
    "" + ("\n" + (f.open + ("\n" + payload[..k])))
  }

  /** It has no closing fence, or a cut payload. */
  lemma CutBlock(f: Format, codec: Codec, anchor: Anchor, k: nat)
    requires IsFormat(f) && IsCodec(codec) && k < |codec.print_(anchor)|
    ensures ParseBlock(f, codec, CutInside(f, codec.print_(anchor), k)).Err?
  {
    hide Find, Trim, After, Before;
    var payload := codec.print_(anchor);
    var cut := payload[..k];
    OpenFound(f, "\n" + cut);
    CutFence(f, payload, k);
    if Contains(cut, f.fence) {
      TrimNewline(payload[..Find(cut, f.fence).value]);
    }
  }

  lemma FirstInside(s: string, mark: string)
    ensures Contains(s, mark) <==> Find(s, mark).Some?
    ensures Contains(s, mark) ==> Find(s, mark).value <= |s|
  {
  }

  lemma CutFence(f: Format, payload: string, k: nat)
    requires IsFormat(f) && k < |payload|
    ensures var cut := payload[..k];
            if Contains(cut, f.fence) then
              Find(cut, f.fence).value < |payload|
              && Before("\n" + cut, f.fence) == Some("\n" + payload[..Find(cut, f.fence).value])
            else Before("\n" + cut, f.fence) == None
  {
    hide OccursAt, Contains;
    var cut := payload[..k];
    NotInEmpty(f.fence);
    FirstInside(cut, f.fence);
    Seqs.Empty("\n" + cut);
    FindSkip("", cut, f.fence);
    if Contains(cut, f.fence) {
      var m := Find(cut, f.fence).value;
      Seqs.AppendTake("\n", cut, m);
      Seqs.TakeTake(payload, k, m);
    }
  }

  /** From anywhere in front of a block the parser reads it, or fails at it. */
  lemma NextIsBlock(f: Format, codec: Codec, head: string, anchor: Anchor, rest: string)
    requires IsFormat(f) && IsCodec(codec) && !Contains(head, f.start)
    ensures var payload := codec.print_(anchor);
            var found := NextAnchor(f, codec, head + ("\n" + (f.start + Inside(f, payload, rest))));
            if IsClean(f, payload) then found == Next(anchor, "\n" + rest) else found.Broken?
  {
    hide Find, ParseBlock, Body, Inside;
    var payload := codec.print_(anchor);
    StartFound(f, head, Inside(f, payload, rest));
    if Contains(payload, f.end) {
      NextIsCut(f, codec, anchor, rest);
    } else {
      NextIsWhole(f, codec, anchor, rest);
    }
  }

  lemma EndInPayload(f: Format, payload: string, rest: string) returns (k: nat)
    requires IsFormat(f) && Contains(payload, f.end)
    ensures k < |payload|
    ensures var found := Find(Inside(f, payload, rest), f.end);
            found.Some? && Inside(f, payload, rest)[..found.value] == CutInside(f, payload, k)
  {
    hide Contains, OccursAt, Inside, CutInside;
    FirstInside(payload, f.end);
    k := Find(payload, f.end).value;
    EndOfDirty(f, payload, rest);
    FirstBeforeEnd(payload, f.end);
    InsideCut(f, payload, rest, k);
  }

  lemma NextIsCut(f: Format, codec: Codec, anchor: Anchor, rest: string)
    requires IsFormat(f) && IsCodec(codec) && Contains(codec.print_(anchor), f.end)
    ensures var inside := Inside(f, codec.print_(anchor), rest);
            Find(inside, f.end).Some? && ParseBlock(f, codec, inside[..Find(inside, f.end).value]).Err?
  {
    hide *;
    var k := EndInPayload(f, codec.print_(anchor), rest);
    CutBlock(f, codec, anchor, k);
  }

  lemma NextIsWhole(f: Format, codec: Codec, anchor: Anchor, rest: string)
    requires IsFormat(f) && IsCodec(codec) && !Contains(codec.print_(anchor), f.end)
    ensures var inside := Inside(f, codec.print_(anchor), rest);
            && Find(inside, f.end).Some?
            && var end := Find(inside, f.end).value;
               && inside[end + |f.end|..] == "\n" + rest
               && var result := ParseBlock(f, codec, inside[..end]);
                  if Contains(codec.print_(anchor), f.fence) then result.Err? else result == Ok(anchor)
  {
    hide Find, ParseBlock, Body, Inside;
    var payload := codec.print_(anchor);
    var body := Body(f, payload);
    InsideSplits(f, payload, rest);
    EndOfClean(f, payload, rest);
    Seqs.Assoc(body, f.end, "\n" + rest);
    Seqs.AppendParts(body, f.end + ("\n" + rest));
    Seqs.AppendParts(body + f.end, "\n" + rest);
    if Contains(payload, f.fence) {
      FencedBlock(f, codec, anchor);
    } else {
      CleanBlock(f, codec, anchor);
    }
  }

  lemma InsideCut(f: Format, payload: string, rest: string, k: nat)
    requires k <= |payload|
    ensures 1 + |f.open| + 1 + k <= |Inside(f, payload, rest)|
    ensures Inside(f, payload, rest)[..1 + |f.open| + 1 + k] == CutInside(f, payload, k)
  {
  }

  lemma StartFound(f: Format, head: string, inside: string)
    requires IsFormat(f) && !Contains(head, f.start)
    ensures After(head + ("\n" + (f.start + inside)), f.start) == Some(inside)
  {
    hide Find;
    var s := head + ("\n" + (f.start + inside));
    FindHere(f.start, inside);
    FindSkip(head, f.start + inside, f.start);
    assert s[|head| + 1 + |f.start|..] == inside;
  }

  // ----- whole logs

  /** One anchor write, and everything other writers append to the log before the next one. */
  datatype Entry = Entry(anchor: Anchor, behind: string)

  /** A log: some text, then blocks with other text behind each. */
  function Log(f: Format, codec: Codec, head: string, entries: seq<Entry>): string
    decreases |entries|
  {
    if entries == [] then head
    else Log(f, codec, head, entries[..|entries| - 1])
         + Block(f, codec.print_(entries[|entries| - 1].anchor)) + entries[|entries| - 1].behind
  }

  /** The same log, read from the front. */
  function FromFront(f: Format, codec: Codec, head: string, entries: seq<Entry>): string
    decreases |entries|
  {
    if entries == [] then head
    else
      head + ("\n" + (f.start + Inside(f, codec.print_(entries[0].anchor), "")))
      + FromFront(f, codec, entries[0].behind, entries[1..])
  }

  lemma BlockParts(f: Format, payload: string)
    ensures Block(f, payload) == "\n" + (f.start + Inside(f, payload, ""))
  {
  }

  lemma {:induction false} FrontSnoc(f: Format, codec: Codec, head: string, entries: seq<Entry>, last: Entry)
    ensures FromFront(f, codec, head, entries + [last])
         == FromFront(f, codec, head, entries) + Block(f, codec.print_(last.anchor)) + last.behind
    decreases |entries|
  {
    hide Block, Inside;
    BlockParts(f, codec.print_(last.anchor));
    if entries == [] {
      Seqs.Empty([last]);
      assert [last][1..] == [];
    } else {
      var first := entries[0];
      var front := head + ("\n" + (f.start + Inside(f, codec.print_(first.anchor), "")));
      var rest := FromFront(f, codec, first.behind, entries[1..]);
      Seqs.ConsAppend(entries, [last]);
      FrontSnoc(f, codec, first.behind, entries[1..], last);
      Seqs.Assoc(front, rest + Block(f, codec.print_(last.anchor)), last.behind);
      Seqs.Assoc(front, rest, Block(f, codec.print_(last.anchor)));
    }
  }

  lemma {:induction false} LogFromFront(f: Format, codec: Codec, head: string, entries: seq<Entry>)
    ensures Log(f, codec, head, entries) == FromFront(f, codec, head, entries)
    decreases |entries|
  {
    hide Block, Inside;
    if entries != [] {
      var init, last := entries[..|entries| - 1], entries[|entries| - 1];
      Seqs.TakeStep(entries, |entries| - 1);
      assert entries[..|entries|] == entries;
      LogFromFront(f, codec, head, init);
      FrontSnoc(f, codec, head, init, last);
    }
  }

  function Anchors(entries: seq<Entry>): seq<Anchor> {
    if entries == [] then [] else [entries[0].anchor] + Anchors(entries[1..])
  }

  ghost predicate AllClean(f: Format, codec: Codec, entries: seq<Entry>) {
    forall e <- entries :: IsClean(f, codec.print_(e.anchor))
  }

  /** No start marker occurs outside the blocks. */
  ghost predicate NoStrayStart(f: Format, head: string, entries: seq<Entry>) {
    !Contains(head, f.start) && forall e <- entries :: !Contains(e.behind, f.start)
  }

  lemma NewlineBefore(f: Format, text: string)
    requires IsFormat(f) && !Contains(text, f.start)
    ensures !Contains("\n" + text, f.start)
  {
    hide Find;
    NotInEmpty(f.start);
    Seqs.Empty("\n" + text);
    FindSkip("", text, f.start);
  }

  /**
   Parsing a log gives exactly the anchors written to it, in order, if and only if every
   payload is free of the end marker and of a fence; one payload that is not makes the whole
   log unreadable. A start marker inside a payload does no harm.
   */
  lemma {:induction false} ParseFront(f: Format, codec: Codec, head: string, entries: seq<Entry>)
    requires IsFormat(f) && IsCodec(codec) && NoStrayStart(f, head, entries)
    ensures if AllClean(f, codec, entries)
            then Parse(f, codec, FromFront(f, codec, head, entries)) == Ok(Anchors(entries))
            else Parse(f, codec, FromFront(f, codec, head, entries)).Err?
    decreases |entries|
  {
    hide Find, NextAnchor, Inside, IsClean;
    if entries == [] {
      NothingNext(f, codec, head);
    } else {
      var first, rest := entries[0], entries[1..];
      assert first in entries && forall e <- rest :: e in entries;
      var tail := FromFront(f, codec, first.behind, rest);
      FrontStep(f, codec, head, entries);
      NextIsBlock(f, codec, head, first.anchor, tail);
      NewlineBefore(f, first.behind);
      NewlineIn(f, codec, first.behind, rest);
      ParseFront(f, codec, "\n" + first.behind, rest);
      assert AllClean(f, codec, entries) <==> IsClean(f, codec.print_(first.anchor)) && AllClean(f, codec, rest) by {
        assert forall e <- entries :: e == first || e in rest;
      }
    }
  }

  lemma NothingNext(f: Format, codec: Codec, head: string)
    requires !Contains(head, f.start)
    ensures NextAnchor(f, codec, head) == NoMore
  {
  }

  lemma InsideRest(f: Format, payload: string, rest: string)
    ensures Inside(f, payload, "") + rest == Inside(f, payload, rest)
  {
  }

  lemma FrontStep(f: Format, codec: Codec, head: string, entries: seq<Entry>)
    requires entries != []
    ensures FromFront(f, codec, head, entries)
         == var rest := FromFront(f, codec, entries[0].behind, entries[1..]);
            head + ("\n" + (f.start + Inside(f, codec.print_(entries[0].anchor), rest)))
  {
    hide Inside;
    var payload, tail := codec.print_(entries[0].anchor), FromFront(f, codec, entries[0].behind, entries[1..]);
    InsideRest(f, payload, tail);
    Seqs.Assoc(head, "\n" + (f.start + Inside(f, payload, "")), tail);
    Seqs.Assoc("\n", f.start + Inside(f, payload, ""), tail);
    Seqs.Assoc(f.start, Inside(f, payload, ""), tail);
  }

  lemma NewlineIn(f: Format, codec: Codec, head: string, entries: seq<Entry>)
    ensures FromFront(f, codec, "\n" + head, entries) == "\n" + FromFront(f, codec, head, entries)
  {
    hide Inside;
    if entries != [] {
      var block := "\n" + (f.start + Inside(f, codec.print_(entries[0].anchor), ""));
      var tail := FromFront(f, codec, entries[0].behind, entries[1..]);
      Seqs.Assoc("\n", head, block);
      Seqs.Assoc("\n", head + block, tail);
    }
  }

  lemma ParseLog(f: Format, codec: Codec, head: string, entries: seq<Entry>)
    requires IsFormat(f) && IsCodec(codec) && NoStrayStart(f, head, entries)
    ensures if AllClean(f, codec, entries) then Parse(f, codec, Log(f, codec, head, entries)) == Ok(Anchors(entries))
            else Parse(f, codec, Log(f, codec, head, entries)).Err?
  {
    LogFromFront(f, codec, head, entries);
    ParseFront(f, codec, head, entries);
  }

  /** What a caller says in an anchor; session and time are the store's. */
  predicate SameMessage(a: Anchor, b: Anchor) {
    && a.currentTask == b.currentTask && a.planPointer == b.planPointer
    && a.lastDecisions == b.lastDecisions && a.nextStep == b.nextStep
  }

  /** `latest_anchor_for` on parsed anchors. */
  function Latest(anchors: seq<Anchor>, key: SessionKey): Option<Anchor>
    decreases |anchors|
  {
    if anchors == [] then None
    else if KeyOf(anchors[|anchors| - 1]) == key then Some(anchors[|anchors| - 1])
    else Latest(anchors[..|anchors| - 1], key)
  }

  lemma LatestStep(anchors: seq<Anchor>, i: nat, key: SessionKey)
    requires i < |anchors|
    ensures Latest(anchors[..i + 1], key)
         == if KeyOf(anchors[i]) == key then Some(anchors[i]) else Latest(anchors[..i], key)
  {
    Seqs.TakeTake(anchors, i + 1, i);
  }

  lemma NoLatest(key: SessionKey)
    ensures Latest([], key) == None
  {
  }

  // ----- the store

  const HEADER := "---\ntype: log\n" + ("title: Artesian Memory Log\n" + "---\n\n# Log\n")

  lemma LacksFirst(s: string, mark: string)
    requires mark != "" && mark[0] !in s
    ensures !Contains(s, mark)
  {
    forall i: nat ensures !OccursAt(s, mark, i) {
      if i + |mark| <= |s| {
        assert s[i..i + |mark|][0] == s[i];
        assert s[i] in s;
      }
    }
    NotFound(s, mark);
  }

  lemma NotInAppend(a: string, b: string, c: char)
    requires c !in a && c !in b
    ensures c !in a + b
  {
  }

  lemma HeaderHasNoStart()
    ensures !Contains(HEADER, ANCHOR_FORMAT.start)
  {
    var a, b, c := "---\ntype: log\n", "title: Artesian Memory Log\n", "---\n\n# Log\n";
    assert '<' !in a && '<' !in b && '<' !in c;
    NotInAppend(b, c, '<');
    NotInAppend(a, b + c, '<');
    LacksFirst(HEADER, ANCHOR_FORMAT.start);
  }

  function KeyOf(anchor: Anchor): SessionKey {
    if anchor.session.Some? then anchor.session.value else DEFAULT_SESSION
  }

  /** What is stored for a key: the default session is stored as an absent one. */
  function Stored(key: SessionKey, anchor: Anchor, now: int): Anchor {
    anchor.(session := if key.IsDefault() then None else Some(key), updatedAt := now)
  }

  function Answer(result: Result<seq<Anchor>>, key: SessionKey): Result<Option<Anchor>> {
    match result
    case Err(e) => Err(e)
    case Ok(anchors) => Ok(Latest(anchors, key))
  }

  class AnchorStore {
    var log: Option<string>
    const codec: Codec

    constructor (codec: Codec)
      ensures this.codec == codec && log == None
    {
      this.codec, log := codec, None;
    }

    /** `set_for_session`, and `set` for the default key: the log only grows. */
    method SetForSession(key: SessionKey, anchor: Anchor, now: int) returns (stored: Anchor)
      modifies this
      ensures stored == Stored(key, anchor, now) && SameMessage(stored, anchor)
      ensures log == Some((if old(log).None? then HEADER else old(log).value)
                          + Block(ANCHOR_FORMAT, codec.print_(stored)))
    {
      stored := anchor.(session := if key.IsDefault() then None else Some(key));
      stored := stored.(updatedAt := now);
      if log.None? {
        log := Some(HEADER);
      }
      var f := ANCHOR_FORMAT;
      var block := "\n" + f.start + "\n" + f.open + "\n" + codec.print_(stored) + "\n" + f.fence + "\n" + f.end + "\n";
      log := Some(log.value + block);
    }

    method GetForSession(key: SessionKey) returns (result: Result<Option<Anchor>>)
      ensures log.None? ==> result == Ok(None)
      ensures log.Some? ==> result == Answer(Parse(ANCHOR_FORMAT, codec, log.value), key)
    {
      hide Latest, KeyOf, Parse;
      if log.None? {
        return Ok(None);
      }
      var parsed := ParseAnchors(ANCHOR_FORMAT, codec, log.value);
      if parsed.Err? {
        return Err(parsed.error);
      }
      var anchors := parsed.value;
      var i := |anchors|;
      Seqs.TakeAll(anchors);
      NoLatest(key);
      while i > 0
        invariant 0 <= i <= |anchors| && Latest(anchors[..i], key) == Latest(anchors, key)
      {
        i := i - 1;
        LatestStep(anchors, i, key);
        if KeyOf(anchors[i]) == key {
          return Ok(Some(anchors[i]));
        }
      }
      return Ok(None);
    }
  }

  // ----- the log refines a map

  /** A call of `set_for_session`, and the other text appended before the next one. */
  datatype Write = Write(key: SessionKey, anchor: Anchor, now: int, behind: string)

  function Entries(writes: seq<Write>): seq<Entry> {
    if writes == [] then []
    else [Entry(Stored(writes[0].key, writes[0].anchor, writes[0].now), writes[0].behind)] + Entries(writes[1..])
  }

  /** The map from sessions to anchors that the writes build up. */
  function Written(writes: seq<Write>): map<SessionKey, Anchor>
    decreases |writes|
  {
    if writes == [] then map[]
    else
      var last := writes[|writes| - 1];
      Written(writes[..|writes| - 1])[last.key := Stored(last.key, last.anchor, last.now)]
  }

  lemma {:induction false} EntriesSnoc(writes: seq<Write>, last: Write)
    ensures Anchors(Entries(writes + [last])) == Anchors(Entries(writes)) + [Stored(last.key, last.anchor, last.now)]
  {
    if writes == [] {
      Seqs.Empty([last]);
      assert [last][1..] == [];
      assert Entries([last]) == [Entry(Stored(last.key, last.anchor, last.now), last.behind)];
    } else {
      Seqs.ConsAppend(writes, [last]);
      EntriesSnoc(writes[1..], last);
      AnchorsOf(writes);
      AnchorsOf(writes + [last]);
    }
  }

  lemma AnchorsOf(writes: seq<Write>)
    requires writes != []
    ensures Anchors(Entries(writes))
         == [Stored(writes[0].key, writes[0].anchor, writes[0].now)] + Anchors(Entries(writes[1..]))
  {
    var first := Entry(Stored(writes[0].key, writes[0].anchor, writes[0].now), writes[0].behind);
    assert ([first] + Entries(writes[1..]))[1..] == Entries(writes[1..]);
  }

  lemma {:induction false} LatestIsWritten(writes: seq<Write>, key: SessionKey)
    ensures Latest(Anchors(Entries(writes)), key)
         == if key in Written(writes) then Some(Written(writes)[key]) else None
    decreases |writes|
  {
    if writes != [] {
      var init, last := writes[..|writes| - 1], writes[|writes| - 1];
      var stored := Stored(last.key, last.anchor, last.now);
      Seqs.TakeStep(writes, |writes| - 1);
      assert writes[..|writes|] == writes;
      EntriesSnoc(init, last);
      assert (Anchors(Entries(init)) + [stored])[..|Anchors(Entries(init))|] == Anchors(Entries(init));
      LatestIsWritten(init, key);
    }
  }

  /** The anchors of the log are what the map holds, if all payloads are clean. */
  ghost predicate AllWritesClean(codec: Codec, writes: seq<Write>) {
    AllClean(ANCHOR_FORMAT, codec, Entries(writes))
  }

  /**
   A get returns the anchor last written for its session, for every session, if and only if
   all payloads are clean; otherwise every get fails.
   */
  lemma GetIsLastWrite(codec: Codec, head: string, writes: seq<Write>, key: SessionKey)
    requires IsCodec(codec) && NoStrayStart(ANCHOR_FORMAT, head, Entries(writes))
    ensures var answer := Answer(Parse(ANCHOR_FORMAT, codec, Log(ANCHOR_FORMAT, codec, head, Entries(writes))), key);
            if AllWritesClean(codec, writes) then
              answer == Ok(if key in Written(writes) then Some(Written(writes)[key]) else None)
            else answer.Err?
  {
    hide Parse, Log;
    AnchorFormatIsFormat();
    ParseLog(ANCHOR_FORMAT, codec, head, Entries(writes));
    LatestIsWritten(writes, key);
  }

  // ----- payloads that are not clean

  /** Text that JSON strings hold as it is: no quote, no backslash, no control character. */
  predicate IsPlain(s: string) {
    forall i | 0 <= i < |s| :: s[i] >= ' ' && s[i] != '"' && s[i] != '\\'
  }

  /** Printing keeps such text. */
  ghost predicate KeepsPlainText(codec: Codec) {
    forall a: Anchor :: IsPlain(a.currentTask) ==> Contains(codec.print_(a), a.currentTask)
  }

  lemma ContainsPart(s: string, part: string, mark: string)
    requires Contains(s, part) && Contains(part, mark)
    ensures Contains(s, mark)
  {
    var i, j := Find(s, part).value, Find(part, mark).value;
    Seqs.SliceOfSlice(s, i, i + |part|, j, j + |mark|);
    assert OccursAt(s, mark, i + j);
  }

  /** One anchor whose task holds a fence or an end marker, and no anchor can be read, for any key. */
  lemma MarkedTaskBreaksLog(codec: Codec, head: string, writes: seq<Write>, w: Write, key: SessionKey)
    requires IsCodec(codec) && KeepsPlainText(codec) && NoStrayStart(ANCHOR_FORMAT, head, Entries(writes))
    requires w in writes && IsPlain(w.anchor.currentTask)
    requires Contains(w.anchor.currentTask, ANCHOR_FORMAT.fence) || Contains(w.anchor.currentTask, ANCHOR_FORMAT.end)
    ensures Answer(Parse(ANCHOR_FORMAT, codec, Log(ANCHOR_FORMAT, codec, head, Entries(writes))), key).Err?
  {
    hide Parse, Log, Find, Contains, ANCHOR_FORMAT;
    var k :| 0 <= k < |writes| && writes[k] == w;
    var stored := Stored(w.key, w.anchor, w.now);
    EntryAt(writes, k);
    NotClean(codec, stored);
    GetIsLastWrite(codec, head, writes, key);
  }

  lemma {:induction false} EntryAt(writes: seq<Write>, k: nat)
    requires k < |writes|
    ensures |Entries(writes)| == |writes|
    ensures Entries(writes)[k] in Entries(writes)
    ensures Entries(writes)[k].anchor == Stored(writes[k].key, writes[k].anchor, writes[k].now)
  {
    EntriesLength(writes);
    if k > 0 {
      EntryAt(writes[1..], k - 1);
    }
  }

  lemma {:induction false} EntriesLength(writes: seq<Write>)
    ensures |Entries(writes)| == |writes|
  {
    if writes != [] { EntriesLength(writes[1..]); }
  }

  lemma OneEntry(w: Write)
    ensures Entries([w]) == [Entry(Stored(w.key, w.anchor, w.now), w.behind)]
  {
    assert [w][1..] == [];
  }

  lemma NotClean(codec: Codec, anchor: Anchor)
    requires KeepsPlainText(codec) && IsPlain(anchor.currentTask)
    requires Contains(anchor.currentTask, ANCHOR_FORMAT.fence) || Contains(anchor.currentTask, ANCHOR_FORMAT.end)
    ensures !IsClean(ANCHOR_FORMAT, codec.print_(anchor))
  {
    var payload, task := codec.print_(anchor), anchor.currentTask;
    hide ANCHOR_FORMAT, Contains;
    if Contains(task, ANCHOR_FORMAT.fence) { ContainsPart(payload, task, ANCHOR_FORMAT.fence); }
    if Contains(task, ANCHOR_FORMAT.end) { ContainsPart(payload, task, ANCHOR_FORMAT.end); }
  }

  /** For example a task that is a fence: one such write, under whatever key. */
  lemma FenceAsTask(codec: Codec, head: string, written: SessionKey, now: int, key: SessionKey)
    requires IsCodec(codec) && KeepsPlainText(codec) && !Contains(head, ANCHOR_FORMAT.start)
    ensures var anchor := Anchor(None, "```", None, [], "", 0);
            var writes := [Write(written, anchor, now, "")];
            Answer(Parse(ANCHOR_FORMAT, codec, Log(ANCHOR_FORMAT, codec, head, Entries(writes))), key).Err?
  {
    var w := Write(written, Anchor(None, "```", None, [], "", 0), now, "");
    assert Contains("```", ANCHOR_FORMAT.fence);
    MarkersAreMarks();
    NotInEmpty(ANCHOR_FORMAT.start);
    OneEntry(w);
    MarkedTaskBreaksLog(codec, head, [w], w, key);
  }

  // ----- what a get returns

  /** Write `k` is the last for its key. */
  ghost predicate LastFor(writes: seq<Write>, k: nat) {
    k < |writes| && forall j | k < j < |writes| :: writes[j].key != writes[k].key
  }

  lemma {:induction false} WrittenLast(writes: seq<Write>, k: nat)
    requires LastFor(writes, k)
    ensures writes[k].key in Written(writes)
    ensures Written(writes)[writes[k].key] == Stored(writes[k].key, writes[k].anchor, writes[k].now)
    decreases |writes|
  {
    var n := |writes| - 1;
    if k < n {
      assert writes[..n][k] == writes[k];
      WrittenLast(writes[..n], k);
    }
  }

  /** While payloads are clean, a get returns what the last write for its key said, with that key and time. */
  lemma GetReturnsLast(codec: Codec, head: string, writes: seq<Write>, k: nat)
    requires IsCodec(codec) && NoStrayStart(ANCHOR_FORMAT, head, Entries(writes))
    requires AllWritesClean(codec, writes) && LastFor(writes, k)
    ensures var w := writes[k];
            var answer := Answer(Parse(ANCHOR_FORMAT, codec, Log(ANCHOR_FORMAT, codec, head, Entries(writes))), w.key);
            && answer.Ok? && answer.value.Some?
            && SameMessage(answer.value.value, w.anchor) && answer.value.value.updatedAt == w.now
            && answer.value.value.session == (if w.key == DEFAULT_SESSION then None else Some(w.key))
  {
    GetIsLastWrite(codec, head, writes, writes[k].key);
    WrittenLast(writes, k);
    hide Parse, Log, Answer, Written, NoStrayStart, AllWritesClean;
  }
}
