/** Values that may be absent. */
module Options {
  datatype Option<+T> = None | Some(value: T)
}

/**
 Strings as the Rust code sees them: sequences of Unicode scalar values, with the
 standard library's notions of white space, trimming, searching, splitting and lines.
 */
module Text {
  import opened Options
  import Seqs

  /** The Unicode White_Space property, which `char::is_whitespace` and `str::trim` use. */
  predicate IsWhitespace(c: char) {
    var u := c as int;
    || 0x09 <= u <= 0x0D || u == 0x20 || u == 0x85 || u == 0xA0 || u == 0x1680
    || 0x2000 <= u <= 0x200A || u == 0x2028 || u == 0x2029 || u == 0x202F
    || u == 0x205F || u == 0x3000
  }

  /** `s.trim().is_empty()` */
  predicate IsBlank(s: string) {
    forall i | 0 <= i < |s| :: IsWhitespace(s[i])
  }

  /** Non-empty, with no white space at either end. */
  predicate IsTidy(s: string) {
    s != "" && !IsWhitespace(s[0]) && !IsWhitespace(s[|s| - 1])
  }

  predicate EndsWith(s: string, suffix: string) {
    |suffix| <= |s| && s[|s| - |suffix|..] == suffix
  }

  function TrimStart(s: string): (r: string)
    ensures EndsWith(s, r) && IsBlank(s[..|s| - |r|])
    ensures r != "" ==> !IsWhitespace(r[0])
  {
    if s != "" && IsWhitespace(s[0]) then
      var r := TrimStart(s[1..]);
      SkipFirst(s, r);
      r
    else s
  }

  lemma SkipFirst(s: string, r: string)
    requires s != "" && IsWhitespace(s[0])
    requires EndsWith(s[1..], r) && IsBlank(s[1..][..|s[1..]| - |r|])
    ensures EndsWith(s, r) && IsBlank(s[..|s| - |r|])
  {
    var k := |s| - |r|;
    Seqs.DropDrop(s, k - 1);
    forall i | 0 <= i < k ensures IsWhitespace(s[..k][i]) {
      if i > 0 { assert s[1..][..k - 1][i - 1] == s[i]; }
    }
  }

  function TrimEnd(s: string): (r: string)
    ensures r <= s && IsBlank(s[|r|..])
    ensures r != "" ==> !IsWhitespace(r[|r| - 1])
  {
    if s != "" && IsWhitespace(s[|s| - 1]) then
      var r := TrimEnd(s[..|s| - 1]);
      assert forall i | |r| <= i < |s| - 1 :: s[i] == s[..|s| - 1][|r|..][i - |r|];
      r
    else s
  }

  function Trim(s: string): (r: string)
    ensures r == "" <==> IsBlank(s)
    ensures r != "" ==> IsTidy(r)
    ensures |r| <= |s|
    ensures IsTidy(s) ==> r == s
  {
    TrimStartBlank(s);
    TrimEndKeepsStart(TrimStart(s));
    TrimEnd(TrimStart(s))
  }

  lemma TrimStartBlank(s: string)
    ensures TrimStart(s) == "" <==> IsBlank(s)
  {
    var a := TrimStart(s);
    if a == "" {
      assert s[..|s|] == s;
    } else {
      assert a[0] == s[|s| - |a|];
    }
  }

  lemma TrimEndKeepsStart(a: string)
    requires a != "" ==> !IsWhitespace(a[0])
    ensures var r := TrimEnd(a);
            (r == "" <==> a == "") && (r != "" ==> IsTidy(r))
  {
    if TrimEnd(a) == "" {
      assert a[0..] == a;
    }
  }

  /** `pat` occurs in `s` at offset `i`. */
  predicate OccursAt(s: string, pat: string, i: int) {
    0 <= i && i + |pat| <= |s| && s[i..i + |pat|] == pat
  }

  predicate Contains(s: string, pat: string) {
    Find(s, pat).Some?
  }

  /** Offset of the first occurrence, as `str::find`. */
  function Find(s: string, pat: string): (r: Option<nat>)
    ensures r.Some? ==> OccursAt(s, pat, r.value)
    ensures forall i :: OccursAt(s, pat, i) ==> r.Some? && r.value <= i
  {
    if pat <= s then
      Some(0)
    else if s == "" then
      None
    else
      var r := Find(s[1..], pat);
      assert !OccursAt(s, pat, 0);
      assert forall i :: OccursAt(s, pat, i) ==> i > 0 && OccursAt(s[1..], pat, i - 1) by {
        forall i | OccursAt(s, pat, i) ensures i > 0 && OccursAt(s[1..], pat, i - 1) {
          assert s[1..][i - 1..i - 1 + |pat|] == s[i..i + |pat|];
        }
      }
      if r.None? then None
      else
        assert s[1..][r.value..r.value + |pat|] == s[r.value + 1..r.value + 1 + |pat|];
        Some(r.value + 1)
  }

  lemma FoundAt(s: string, mark: string, k: nat)
    requires OccursAt(s, mark, k) && forall i: nat | i < k :: !OccursAt(s, mark, i)
    ensures Find(s, mark) == Some(k)
  {
  }

  lemma NotFound(s: string, mark: string)
    requires forall i: nat :: !OccursAt(s, mark, i)
    ensures Find(s, mark) == None
  {
  }

  /** The first occurrence in the front part is the first in the whole. */
  lemma FindInFront(front: string, rest: string, mark: string)
    requires Contains(front, mark)
    ensures Find(front + rest, mark) == Find(front, mark)
  {
    var k := Find(front, mark).value;
    forall i: nat | i <= k ensures OccursAt(front + rest, mark, i) == OccursAt(front, mark, i) {
      OccursInFront(front, rest, mark, i);
    }
    hide OccursAt, Contains;
    FoundAt(front + rest, mark, k);
  }

  lemma OccursInFront(front: string, rest: string, mark: string, i: nat)
    requires i + |mark| <= |front|
    ensures OccursAt(front + rest, mark, i) == OccursAt(front, mark, i)
  {
    assert (front + rest)[i..i + |mark|] == front[i..i + |mark|];
  }

  /** `parts.join(sep)` */
  function Join(parts: seq<string>, sep: string): string {
    if |parts| == 0 then ""
    else if |parts| == 1 then parts[0]
    else parts[0] + sep + Join(parts[1..], sep)
  }

  function Concat(parts: seq<string>): string {
    if |parts| == 0 then "" else parts[0] + Concat(parts[1..])
  }

  /** `s.split(sep)`: the text between successive, non-overlapping occurrences. */
  function Split(s: string, sep: string): (parts: seq<string>)
    requires sep != ""
    ensures |parts| > 0 && Join(parts, sep) == s
    ensures Contains(s, sep) ==> forall part <- parts :: |part| < |s|
    ensures forall part <- parts :: !Contains(part, sep)
    decreases |s|
  {
    match Find(s, sep)
    case None => [s]
    case Some(i) =>
      var rest := Split(s[i + |sep|..], sep);
      assert s == s[..i] + s[i..i + |sep|] + s[i + |sep|..];
      PrefixBeforeFirst(s, sep, i);
      assert forall part <- rest :: |part| <= |s[i + |sep|..]| by {
        if !Contains(s[i + |sep|..], sep) { assert rest == [s[i + |sep|..]]; }
      }
      [s[..i]] + rest
  }

  lemma PrefixBeforeFirst(s: string, pat: string, i: nat)
    requires pat != "" && Find(s, pat) == Some(i)
    ensures !Contains(s[..i], pat)
  {
    var r := Find(s[..i], pat);
    if r.Some? {
      assert s[..i][r.value..r.value + |pat|] == s[r.value..r.value + |pat|];
      assert OccursAt(s, pat, r.value);
    }
  }

  /** One trailing carriage return removed, as `str::lines` does for a terminated line. */
  function StripCr(line: string): string {
    if line != "" && line[|line| - 1] == '\r' then line[..|line| - 1] else line
  }

  /** `s.lines()`: terminators "\n" and "\r\n" removed; no empty line after a final newline. */
  function Lines(s: string): seq<string>
    decreases |s|
  {
    if s == "" then []
    else
      match Find(s, "\n")
      case None => [s]
      case Some(i) => [StripCr(s[..i])] + Lines(s[i + 1..])
  }

  /** What carries meaning: every character except white space and full stops. */
  function Ink(s: string): string {
    if s == "" then ""
    else if IsWhitespace(s[0]) || s[0] == '.' then Ink(s[1..])
    else [s[0]] + Ink(s[1..])
  }

  lemma {:induction false} InkAppend(a: string, b: string)
    ensures Ink(a + b) == Ink(a) + Ink(b)
  {
    if a == "" {
      assert a + b == b;
    } else {
      assert (a + b)[1..] == a[1..] + b;
      InkAppend(a[1..], b);
    }
  }

  lemma {:induction false} InkFree(s: string)
    requires forall i | 0 <= i < |s| :: IsWhitespace(s[i]) || s[i] == '.'
    ensures Ink(s) == ""
  {
    if s != "" { InkFree(s[1..]); }
  }

  lemma {:induction false} InkTrimStart(s: string)
    ensures Ink(TrimStart(s)) == Ink(s)
  {
    if s != "" && IsWhitespace(s[0]) { InkTrimStart(s[1..]); }
  }

  lemma {:induction false} InkTrimEnd(s: string)
    ensures Ink(TrimEnd(s)) == Ink(s)
  {
    if s != "" && IsWhitespace(s[|s| - 1]) {
      InkTrimEnd(s[..|s| - 1]);
      Seqs.TakeDrop(s, |s| - 1);
      InkAppend(s[..|s| - 1], s[|s| - 1..]);
      InkFree(s[|s| - 1..]);
    }
  }

  /** Trimming touches no ink. */
  lemma InkTrim(s: string)
    ensures Ink(Trim(s)) == Ink(s)
  {
    InkTrimStart(s);
    InkTrimEnd(TrimStart(s));
  }

  lemma {:induction false} ConcatAppend(a: seq<string>, b: seq<string>)
    ensures Concat(a + b) == Concat(a) + Concat(b)
  {
    if a == [] {
      assert a + b == b;
    } else {
      assert (a + b)[1..] == a[1..] + b;
      ConcatAppend(a[1..], b);
    }
  }

  /** Joining with a separator that holds no ink adds none. */
  lemma {:induction false} InkJoin(parts: seq<string>, sep: string)
    requires Ink(sep) == ""
    ensures Ink(Join(parts, sep)) == Ink(Concat(parts))
  {
    if |parts| == 1 {
      ConcatCons(parts[0], []);
      Seqs.HeadTail(parts);
      Seqs.Empty(parts[0]);
    } else if |parts| > 1 {
      hide Ink;
      InkJoin(parts[1..], sep);
      InkAppend(parts[0] + sep, Join(parts[1..], sep));
      InkAppend(parts[0], sep);
      Seqs.Empty(Ink(parts[0]));
      InkAppend(parts[0], Concat(parts[1..]));
    }
  }

  /** Splitting into lines loses only line terminators. */
  lemma {:induction false} InkLines(s: string)
    ensures Ink(Concat(Lines(s))) == Ink(s)
    decreases |s|
  {
    if s != "" {
      match Find(s, "\n")
      case None =>
        hide Ink, Find;
        ConcatCons(s, []);
        Seqs.Empty(s);
      case Some(i) =>
        hide Ink, StripCr, Concat, Find;
        var head, rest := s[..i], s[i + 1..];
        AroundFirst(s, i);
        InkLines(rest);
        InkAppend(head + "\n", rest);
        InkAppend(head, "\n");
        NewlineInk();
        Seqs.Empty(Ink(head));
        InkStripCr(head);
        ConcatCons(StripCr(head), Lines(rest));
        InkAppend(StripCr(head), Concat(Lines(rest)));
    }
  }

  lemma ConcatCons(part: string, parts: seq<string>)
    ensures Concat([part] + parts) == part + Concat(parts)
  {
    assert ([part] + parts)[1..] == parts;
  }

  lemma NewlineInk()
    ensures Ink("\n") == "" && Ink("\r") == ""
  {
    InkFree("\n");
    InkFree("\r");
  }

  lemma AroundFirst(s: string, i: nat)
    requires Find(s, "\n") == Some(i)
    ensures i < |s| && s == s[..i] + "\n" + s[i + 1..]
  {
    Seqs.TakeStep(s, i);
    Seqs.TakeDrop(s, i + 1);
  }

  lemma InkStripCr(line: string)
    ensures Ink(StripCr(line)) == Ink(line)
  {
    if line != "" && line[|line| - 1] == '\r' {
      hide Ink;
      assert line == line[..|line| - 1] + "\r";
      InkAppend(line[..|line| - 1], "\r");
      NewlineInk();
      Seqs.Empty(Ink(line[..|line| - 1]));
    }
  }

  /** Trimming takes white space off both ends, and all of it. */
  lemma TrimSplits(s: string) returns (left: string, right: string)
    ensures s == left + Trim(s) + right && IsBlank(left) && IsBlank(right)
    ensures Trim(s) == "" || IsTidy(Trim(s))
  {
    hide *;
    var a := TrimStart(s);
    TrimIs(s);
    left, right := s[..|s| - |a|], a[|TrimEnd(a)|..];
    Seqs.TakeDrop(s, |s| - |a|);
    Seqs.TakeDrop(a, |TrimEnd(a)|);
    Seqs.Assoc(left, TrimEnd(a), right);
  }

  lemma TrimIs(s: string)
    ensures var a := TrimStart(s);
            var b := TrimEnd(a);
            && Trim(s) == b && |a| <= |s| && s[|s| - |a|..] == a && IsBlank(s[..|s| - |a|])
            && |b| <= |a| && a[..|b|] == b && IsBlank(a[|b|..])
            && (b == "" || IsTidy(b))
  {
    hide TrimStart, TrimEnd;
  }

  // ----- lines

  /** The lines with a line break behind each, preceded by a carriage return where `returns` says so. */
  function Terminated(lines: seq<string>, returns_: seq<bool>): string
    requires |lines| == |returns_|
  {
    if lines == [] then ""
    else lines[0] + (if returns_[0] then "\r\n" else "\n") + Terminated(lines[1..], returns_[1..])
  }

  lemma FirstLine(line: string, return_: bool, rest: string)
    requires '\n' !in line && (line == "" || line[|line| - 1] != '\r')
    ensures var s := line + (if return_ then "\r\n" else "\n") + rest;
            Lines(s) == [line] + Lines(rest)
  {
    var front := if return_ then line + "\r" else line;
    NewlineAfter(front, rest);
    if return_ {
      Seqs.Assoc(line, "\r", "\n");
      assert "\r" + "\n" == "\r\n";
      Seqs.AppendParts(line, "\r");
    }
    Seqs.Assoc(front, "\n", rest);
    LinesUnfold(front + ("\n" + rest), |front|);
    Seqs.AppendParts(front, "\n" + rest);
    Seqs.AppendParts(front + "\n", rest);
  }

  lemma LinesUnfold(s: string, i: nat)
    requires Find(s, "\n") == Some(i) && i < |s|
    ensures Lines(s) == [StripCr(s[..i])] + Lines(s[i + 1..])
  {
    hide Find, OccursAt, StripCr;
  }

  lemma NewlineAfter(front: string, rest: string)
    requires '\n' !in front
    ensures Find(front + ("\n" + rest), "\n") == Some(|front|)
  {
    var s := front + ("\n" + rest);
    assert s[|front|..|front| + 1] == "\n";
    forall i: nat | i < |front| ensures !OccursAt(s, "\n", i) {
      assert s[i..i + 1][0] == front[i] && front[i] in front;
    }
    FoundAt(s, "\n", |front|);
  }

  /** Lines are what stands between line breaks, with or without a carriage return before them. */
  lemma {:induction false} LinesInvert(lines: seq<string>, returns_: seq<bool>, last: string)
    requires |lines| == |returns_|
    requires forall i | 0 <= i < |lines| ::
      '\n' !in lines[i] && (lines[i] == "" || lines[i][|lines[i]| - 1] != '\r')
    requires '\n' !in last
    ensures Lines(Terminated(lines, returns_) + last) == lines + (if last == "" then [] else [last])
    decreases |lines|
  {
    if lines == [] {
      forall i ensures !OccursAt(last, "\n", i) {
        if 0 <= i < |last| { assert last[i..i + 1][0] == last[i] && last[i] in last; }
      }
      Seqs.Empty(last);
    } else {
      var rest := Terminated(lines[1..], returns_[1..]) + last;
      var break_ := if returns_[0] then "\r\n" else "\n";
      LinesInvert(lines[1..], returns_[1..], last);
      FirstLine(lines[0], returns_[0], rest);
      Seqs.Assoc(lines[0] + break_, Terminated(lines[1..], returns_[1..]), last);
      Seqs.ConsAppend(lines, if last == "" then [] else [last]);
    }
  }
}
