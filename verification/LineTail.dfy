/**
 Tailing a growing log file: each read takes what was appended since the last one, hands out
 the lines completed by it, and keeps the unfinished rest.
 */
module LineTail {
  import opened Options
  import opened Text
  import Seqs

  // ----- files as bytes

  function Utf8Size(c: char): nat {
    var u := c as int;
    if u < 0x80 then 1 else if u < 0x800 then 2 else if u < 0x1_0000 then 3 else 4
  }

  /** How many code points a sequence of `n` bytes can tell apart: seven bits, then eleven, sixteen, twenty-one. */
  function Room(n: nat): nat {
    if n <= 1 then 128 * n else if n == 2 then 2048 else 32 * Room(n - 1)
  }

  /** A character takes as few bytes as can hold its code point, and never more than four. */
  lemma Utf8SizeIsLeast(c: char, n: nat)
    ensures Utf8Size(c) <= n <==> (c as int) < Room(n)
    ensures 1 <= Utf8Size(c) <= 4
  {
    assert Room(3) == 65536 && Room(4) == 2097152;
    if n > 4 { RoomGrows(4, n); }
  }

  lemma {:induction false} RoomGrows(m: nat, n: nat)
    requires 2 <= m <= n
    ensures Room(m) <= Room(n)
  {
    if m < n { RoomGrows(m, n - 1); }
  }

  function Size(s: string): nat {
    if s == "" then 0 else Utf8Size(s[0]) + Size(s[1..])
  }

  /** A file: complete characters, then perhaps some bytes of a character still being written. */
  datatype File = File(text: string, partial: nat) {
    function Length(): nat { Size(text) + partial }
  }

  /** The text from a byte offset on, if a character starts there. */
  function From(text: string, offset: nat): Option<string> {
    if offset == 0 then Some(text)
    else if text == "" || offset < Utf8Size(text[0]) then None
    else From(text[1..], offset - Utf8Size(text[0]))
  }

  lemma {:induction false} SizeAppend(a: string, b: string)
    ensures Size(a + b) == Size(a) + Size(b)
  {
    if a == "" {
      Seqs.Empty(b);
    } else {
      Seqs.ConsAppend(a, b);
      SizeAppend(a[1..], b);
    }
  }

  lemma {:induction false} FromAppend(a: string, b: string)
    ensures From(a + b, Size(a)) == Some(b)
  {
    if a == "" {
      Seqs.Empty(b);
    } else {
      Seqs.ConsAppend(a, b);
      FromAppend(a[1..], b);
    }
  }

  // ----- lines

  /** `trim_end_matches('\r')`: all trailing carriage returns. */
  function TrimCrs(line: string): string {
    if line != "" && line[|line| - 1] == '\r' then TrimCrs(line[..|line| - 1]) else line
  }

  /** The non-blank lines among texts that were each ended by a line feed. */
  function Shown(lines: seq<string>): seq<string> {
    if lines == [] then []
    else (if IsBlank(TrimCrs(lines[0])) then [] else [TrimCrs(lines[0])]) + Shown(lines[1..])
  }

  lemma {:induction false} ShownAppend(a: seq<string>, b: seq<string>)
    ensures Shown(a + b) == Shown(a) + Shown(b)
  {
    if a == [] {
      Seqs.Empty(b);
    } else {
      hide TrimCrs;
      Seqs.ConsAppend(a, b);
      ShownAppend(a[1..], b);
      var line := TrimCrs(a[0]);
      Seqs.Assoc(if IsBlank(line) then [] else [line], Shown(a[1..]), Shown(b));
    }
  }

  /** A whole text cut at its line feeds: the lines it completes, and what is behind the last. */
  function Completed(text: string): seq<string> {
    var parts := Split(text, "\n");
    Shown(parts[..|parts| - 1])
  }

  function Unfinished(text: string): string {
    var parts := Split(text, "\n");
    parts[|parts| - 1]
  }

  // ----- reading

  datatype Reader = Reader(offset: nat, pending: string)

  datatype Outcome = Lines(lines: seq<string>) | InvalidData

  const FRESH := Reader(0, "")

  /** What one call returns, and the reader after it. */
  function Read(r: Reader, file: File): (Outcome, Reader) {
    var start := if file.Length() < r.offset then FRESH else r;
    if file.Length() == start.offset then (Lines([]), start)
    else
      var chunk := From(file.text, start.offset);
      if file.partial > 0 || chunk.None? then (InvalidData, start)
      else
        var pending := start.pending + chunk.value;
        (Lines(Completed(pending)), Reader(start.offset + Size(chunk.value), Unfinished(pending)))
  }

  class Tail {
    var offset: nat
    var pending: string

    ghost function Abstract(): Reader reads this { Reader(offset, pending) }

    constructor ()
      ensures Abstract() == FRESH
    {
      offset, pending := 0, "";
    }

    /** `read_appended_lines` */
    method ReadAppendedLines(file: File) returns (outcome: Outcome)
      modifies this
      ensures (outcome, Abstract()) == Read(old(Abstract()), file)
    {
      hide From, Size, Completed, Unfinished;
      var len := file.Length();
      if len < offset {
        offset := 0;
        pending := "";
      }
      if len == offset {
        return Lines([]);
      }
      var chunk := From(file.text, offset);
      if file.partial > 0 || chunk.None? {
        return InvalidData;
      }
      offset := offset + Size(chunk.value);
      pending := pending + chunk.value;
      var lines := DrainLines();
      return Lines(lines);
    }

    /** Its loop: completed lines leave the pending text. */
    method DrainLines() returns (lines: seq<string>)
      modifies this`pending
      ensures lines == Completed(old(pending)) && pending == Unfinished(old(pending))
    {
      lines := [];
      ghost var parts := Split(pending, "\n");
      ghost var done := 0;
      while Contains(pending, "\n")
        invariant done < |parts| && parts[done..] == Split(pending, "\n")
        invariant lines == Shown(parts[..done])
        decreases |pending|
      {
        var newline := Find(pending, "\n").value;
        var line := TrimCrs(pending[..newline]);
        SplitStep(pending);
        SplitDone(parts, done, pending[..newline], Split(pending[newline + 1..], "\n"));
        pending := pending[newline + 1..];
        if !IsBlank(line) {
          lines := lines + [line];
        }
        done := done + 1;
      }
      assert parts[done..] == [pending];
      assert done == |parts| - 1 && parts[done] == pending;
    }
  }

  lemma SplitStep(s: string)
    requires Contains(s, "\n")
    ensures var i := Find(s, "\n").value;
            Split(s, "\n") == [s[..i]] + Split(s[i + 1..], "\n")
  {
  }

  lemma SplitDone(parts: seq<string>, done: nat, line: string, rest: seq<string>)
    requires done < |parts| && parts[done..] == [line] + rest && rest != []
    ensures done + 1 < |parts| && parts[done] == line && parts[done + 1..] == rest
    ensures Shown(parts[..done + 1])
         == Shown(parts[..done]) + if IsBlank(TrimCrs(line)) then [] else [TrimCrs(line)]
  {
    Seqs.DropStep(parts, done);
    Seqs.AppendParts([line], rest);
    Seqs.TakeStep(parts, done);
    ShownAppend(parts[..done], [line]);
    assert [line][1..] == [];
  }

  // ----- however the file is cut into reads

  /** Appending to a text goes on where its last line stopped. */
  lemma {:induction false} SplitAppend(a: string, b: string)
    ensures var parts := Split(a, "\n");
            Split(a + b, "\n") == parts[..|parts| - 1] + Split(parts[|parts| - 1] + b, "\n")
    decreases |a|
  {
    var parts := Split(a, "\n");
    if Contains(a, "\n") {
      var i := Find(a, "\n").value;
      var line, rest := a[..i], Split(a[i + 1..], "\n");
      SplitStep(a);
      FindInFront(a, b, "\n");
      SplitStep(a + b);
      FrontAndBack(a, b, i);
      SplitAppend(a[i + 1..], b);
      LastOfCons(line, rest);
      Seqs.Assoc([line], rest[..|rest| - 1], Split(rest[|rest| - 1] + b, "\n"));
    } else {
      assert parts == [a];
      assert parts[..0] == [];
      Seqs.Empty(Split(a + b, "\n"));
    }
  }

  lemma FrontAndBack(a: string, b: string, i: nat)
    requires i < |a|
    ensures (a + b)[..i] == a[..i] && (a + b)[i + 1..] == a[i + 1..] + b
  {
  }

  lemma LastOfCons(line: string, rest: seq<string>)
    requires rest != []
    ensures var parts := [line] + rest;
            && parts[|parts| - 1] == rest[|rest| - 1]
            && parts[..|parts| - 1] == [line] + rest[..|rest| - 1]
  {
  }

  lemma CompletedAppend(a: string, b: string)
    ensures Completed(a + b) == Completed(a) + Completed(Unfinished(a) + b)
    ensures Unfinished(a + b) == Unfinished(Unfinished(a) + b)
  {
    hide Split, Shown, Find;
    var front, back := Split(a, "\n"), Split(Unfinished(a) + b, "\n");
    var init := front[..|front| - 1];
    SplitAppend(a, b);
    LastOfAppend(init, back);
    ShownAppend(init, back[..|back| - 1]);
  }

  lemma LastOfAppend(init: seq<string>, back: seq<string>)
    requires back != []
    ensures var parts := init + back;
            && parts[|parts| - 1] == back[|back| - 1]
            && parts[..|parts| - 1] == init + back[..|back| - 1]
  {
  }

  /** All lines handed out over a series of reads, and the reader at the end. */
  function ReadAll(files: seq<File>): (seq<string>, Reader)
    decreases |files|
  {
    if files == [] then ([], FRESH)
    else
      var (lines, r) := ReadAll(files[..|files| - 1]);
      var (outcome, next) := Read(r, files[|files| - 1]);
      (if outcome.Lines? then lines + outcome.lines else lines, next)
  }

  /** Successive states of a file that is only appended to. */
  ghost predicate AppendOnly(files: seq<File>) {
    forall i, j | 0 <= i < j < |files| :: files[i].text <= files[j].text
  }

  /** The text at the last read that did not fall into the middle of a character. */
  function LastWhole(files: seq<File>): string
    decreases |files|
  {
    if files == [] then ""
    else if files[|files| - 1].partial == 0 then files[|files| - 1].text
    else LastWhole(files[..|files| - 1])
  }

  lemma {:induction false} LastWholeIsPrefix(files: seq<File>, file: File)
    requires forall f <- files :: f.text <= file.text
    ensures LastWhole(files) <= file.text
    decreases |files|
  {
    if files != [] {
      assert files[|files| - 1] in files;
      LastWholeIsPrefix(files[..|files| - 1], file);
    }
  }

  /** The reader that has consumed exactly `text`. */
  function Consumed(text: string): Reader {
    Reader(Size(text), Unfinished(text))
  }

  /** One read of a grown file. */
  lemma ReadGrown(text: string, file: File)
    requires text <= file.text
    ensures Read(Consumed(text), file)
         == if file.partial > 0 then (InvalidData, Consumed(text))
            else (Lines(Completed(Unfinished(text) + file.text[|text|..])), Consumed(file.text))
  {
    hide Completed, Unfinished, From;
    var rest := file.text[|text|..];
    assert file.text == text + rest;
    SizeAppend(text, rest);
    FromAppend(text, rest);
    CompletedAppend(text, rest);
    if rest == "" {
      Seqs.Empty(text);
      Seqs.Empty(Unfinished(text));
      NothingNew(text);
    }
  }

  lemma NothingNew(text: string)
    ensures Completed(Unfinished(text)) == []
  {
    var parts := Split(text, "\n");
    assert Unfinished(text) in parts;
    assert Split(Unfinished(text), "\n") == [Unfinished(text)];
    assert [Unfinished(text)][..0] == [];
  }

  /**
   However an append-only file is cut into reads, the lines handed out together are the
   completed, non-blank lines of the text read, and what is pending is its unfinished rest.
   */
  lemma {:induction false} TailingIsBatch(files: seq<File>)
    requires AppendOnly(files)
    ensures ReadAll(files) == (Completed(LastWhole(files)), Consumed(LastWhole(files)))
    decreases |files|
  {
    hide Completed, Consumed, Read;
    if files == [] {
      FreshConsumed();
    } else {
      var init, file := files[..|files| - 1], files[|files| - 1];
      forall f | f in init ensures f.text <= file.text {
        var i :| 0 <= i < |init| && init[i] == f;
        assert files[i].text <= files[|files| - 1].text;
      }
      TailingIsBatch(init);
      var text := LastWhole(init);
      LastWholeIsPrefix(init, file);
      OneMoreRead(text, file);
    }
  }

  lemma OneMoreRead(text: string, file: File)
    requires text <= file.text
    ensures var (outcome, next) := Read(Consumed(text), file);
            var whole := if file.partial == 0 then file.text else text;
            && next == Consumed(whole)
            && (if outcome.Lines? then Completed(text) + outcome.lines else Completed(text)) == Completed(whole)
  {
    hide Completed, Unfinished, Read, Size;
    ReadGrown(text, file);
    if file.partial == 0 {
      CompletedAppend(text, file.text[|text|..]);
      assert text + file.text[|text|..] == file.text;
    }
  }

  /** A file that has become shorter is read again from its start. */
  lemma TruncationRestarts(r: Reader, file: File)
    requires file.Length() < r.offset
    ensures Read(r, file) == Read(FRESH, file)
    ensures file.partial == 0 ==>
      Read(r, file) == (Lines(Completed(file.text)), Consumed(file.text))
  {
    hide Completed, Unfinished, Split;
    if file.partial == 0 {
      FreshConsumed();
      ReadGrown("", file);
      Seqs.Empty(file.text);
      assert file.text[0..] == file.text;
    }
  }

  lemma FreshConsumed()
    ensures Consumed("") == FRESH && Completed("") == []
  {
    assert Split("", "\n") == [""];
    assert [""][..0] == [];
  }

  // ----- what is shown of a line

  function Returns(n: nat): string {
    seq(n, _ => '\r')
  }

  /** All carriage returns before the line break go, and nothing else. */
  lemma {:induction false} TrimCrsIs(line: string, n: nat)
    requires line == "" || line[|line| - 1] != '\r'
    ensures TrimCrs(line + Returns(n)) == line
  {
    var whole := line + Returns(n);
    if n > 0 {
      assert whole[..|whole| - 1] == line + Returns(n - 1);
      TrimCrsIs(line, n - 1);
    } else {
      Seqs.Empty(line);
      assert whole == line;
    }
  }

  /** One line: shown without them, unless nothing else but white space is on it. */
  lemma OneLine(line: string, n: nat)
    requires '\n' !in line && (line == "" || line[|line| - 1] != '\r')
    ensures Completed(line + Returns(n) + "\n") == if IsBlank(line) then [] else [line]
    ensures Unfinished(line + Returns(n) + "\n") == ""
  {
    var text := line + Returns(n) + "\n";
    var i := |line| + n;
    assert text[i..i + 1] == "\n";
    forall k: nat | k < i ensures !OccursAt(text, "\n", k) {
      assert text[k..k + 1][0] == text[k];
      assert k < |line| ==> text[k] == line[k] && line[k] in line;
    }
    FoundAt(text, "\n", i);
    SplitStep(text);
    assert text[..i] == line + Returns(n) && text[i + 1..] == "";
    assert Split("", "\n") == [""];
    TrimCrsIs(line, n);
    assert Split(text, "\n") == [line + Returns(n), ""];
    assert [line + Returns(n), ""][..1] == [line + Returns(n)];
    assert Shown([line + Returns(n)]) == (if IsBlank(line) then [] else [line]) + Shown([]);
  }
}
