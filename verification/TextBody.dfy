/**
 The line breaks of a text body: each is written as CRLF, and every text is made to end in one.
 */
module TextBody {
  import Sequences

  /** The text from `i` on with every line break written as CRLF. */
  function Breaks(text: string, i: nat): string
    requires i <= |text|
    decreases |text| - i
  {
    if i == |text| then ""
    else if IsBreak(text[i]) then "\r\n" + Breaks(text, AfterBreak(text, i))
    else [text[i]] + Breaks(text, i + 1)
  }

  predicate IsBreak(c: char) {
    c == '\r' || c == '\n'
  }

  /** Behind a break char, and behind the LF that belongs to a CR. */
  function AfterBreak(text: string, i: nat): (r: nat)
    requires i < |text|
    ensures i < r <= |text|
  {
    if text[i] == '\r' && i + 1 < |text| && text[i + 1] == '\n' then i + 2 else i + 1
  }

  predicate EndsWithBreak(text: string) {
    |text| >= 2 && text[|text| - 2] == '\r' && text[|text| - 1] == '\n'
  }

  function Ended(text: string): string {
    if EndsWithBreak(text) then text else text + "\r\n"
  }

  function Normalized(text: string): string {
    Ended(Breaks(text, 0))
  }

  method Normalize(text: string) returns (lines: string)
    ensures lines == Normalized(text)
  {
    lines := "";
    var i := 0;
    while i < |text|
      invariant i <= |text| && lines + Breaks(text, i) == Breaks(text, 0)
    {
      var c := text[i];
      i := i + 1;
      if c == '\r' {
        if i < |text| && text[i] == '\n' {
          i := i + 1;
        }
        Sequences.Regroup(lines, "\r\n", Breaks(text, i));
        lines := lines + "\r\n";
      } else if c == '\n' {
        Sequences.Regroup(lines, "\r\n", Breaks(text, i));
        lines := lines + "\r\n";
      } else {
        Sequences.Regroup(lines, [c], Breaks(text, i));
        lines := lines + [c];
      }
    }
    if !EndsWithBreak(lines) {
      lines := lines + "\r\n";
    }
  }

  /* ---- Lines ---- */

  /** The lines from `i` on, the first of which starts with `line`; no empty line at the end. */
  function Lines(text: string, i: nat, line: string): seq<string>
    requires i <= |text|
    decreases |text| - i
  {
    if i == |text| then if line == "" then [] else [line]
    else if IsBreak(text[i]) then [line] + Lines(text, AfterBreak(text, i), "")
    else Lines(text, i + 1, line + [text[i]])
  }

  /** What is behind the last break. */
  function LastLine(text: string, i: nat, line: string): string
    requires i <= |text|
    decreases |text| - i
  {
    if i == |text| then line
    else if IsBreak(text[i]) then LastLine(text, AfterBreak(text, i), "")
    else LastLine(text, i + 1, line + [text[i]])
  }

  /** Every line with a CRLF behind it. */
  function Terminated(lines: seq<string>): string {
    if lines == [] then "" else lines[0] + "\r\n" + Terminated(lines[1..])
  }

  predicate IsLine(line: string) {
    '\r' !in line && '\n' !in line
  }

  predicate AreLines(lines: seq<string>) {
    forall i :: 0 <= i < |lines| ==> IsLine(lines[i])
  }

  lemma TerminatedStep(line: string, rest: seq<string>)
    ensures Terminated([line] + rest) == line + "\r\n" + Terminated(rest)
  {
    assert ([line] + rest)[1..] == rest;
  }

  lemma {:induction false} LinesAreLines(text: string, i: nat, line: string)
    requires i <= |text| && IsLine(line)
    ensures AreLines(Lines(text, i, line))
    decreases |text| - i
  {
    if i < |text| {
      if IsBreak(text[i]) {
        LinesAreLines(text, AfterBreak(text, i), "");
      } else {
        LinesAreLines(text, i + 1, line + [text[i]]);
      }
    }
  }

  lemma Four(line: string, breaks: string, end: string)
    ensures line + "\r\n" + ("" + breaks + end) == line + ("\r\n" + breaks) + end
  {
  }

  /** The lines terminated are the text with its breaks written as CRLF, and one at the end if none is there. */
  lemma {:induction false} TerminatedLines(text: string, i: nat, line: string)
    requires i <= |text|
    ensures Terminated(Lines(text, i, line)) ==
      line + Breaks(text, i) + (if LastLine(text, i, line) == "" then "" else "\r\n")
    decreases |text| - i
  {
    if i == |text| {
      if line != "" {
        TerminatedStep(line, []);
        assert [line] + [] == [line];
      }
    } else if IsBreak(text[i]) {
      var next := AfterBreak(text, i);
      TerminatedLines(text, next, "");
      TerminatedStep(line, Lines(text, next, ""));
      Four(line, Breaks(text, next), if LastLine(text, next, "") == "" then "" else "\r\n");
    } else {
      TerminatedLines(text, i + 1, line + [text[i]]);
      Sequences.Regroup(line, [text[i]], Breaks(text, i + 1));
    }
  }

  lemma BreakThen(line: string, rest: string)
    requires |rest| == 1 ==> rest[0] != '\n'
    ensures EndsWithBreak(line + ("\r\n" + rest)) <==> rest == "" || EndsWithBreak(rest)
  {
    var text := line + ("\r\n" + rest);
    if |rest| > 0 {
      assert text[|text| - 1] == rest[|rest| - 1];
    }
    if |rest| > 1 {
      assert text[|text| - 2] == rest[|rest| - 2];
    }
  }

  /** The text ends with a break exactly if nothing is left behind the last one. */
  lemma {:induction false} BreakAtEnd(text: string, i: nat, line: string)
    requires i <= |text| && IsLine(line)
    ensures EndsWithBreak(line + Breaks(text, i)) <==>
      LastLine(text, i, line) == "" && line + Breaks(text, i) != ""
    decreases |text| - i
  {
    if i < |text| {
      if IsBreak(text[i]) {
        var next := AfterBreak(text, i);
        BreakAtEnd(text, next, "");
        assert "" + Breaks(text, next) == Breaks(text, next);
        BreakThen(line, Breaks(text, next));
      } else {
        BreakAtEnd(text, i + 1, line + [text[i]]);
        Sequences.Regroup(line, [text[i]], Breaks(text, i + 1));
      }
    }
  }

  /* ---- Normalised text ---- */

  /** A CR has an LF behind it, an LF a CR in front of it. */
  predicate PairedAt(text: string, i: nat)
    requires i < |text|
  {
    && (text[i] == '\r' ==> i + 1 < |text| && text[i + 1] == '\n')
    && (text[i] == '\n' ==> 0 < i && text[i - 1] == '\r')
  }

  predicate IsPaired(text: string) {
    forall i :: 0 <= i < |text| ==> PairedAt(text, i)
  }

  lemma PairedBehind(line: string, rest: string)
    requires IsLine(line) && IsPaired(rest)
    ensures IsPaired(line + "\r\n" + rest)
  {
    var text := line + "\r\n" + rest;
    var n := |line| + 2;
    forall i | 0 <= i < |text|
      ensures PairedAt(text, i)
    {
      if i < |line| {
        assert text[i] == line[i];
      } else if i >= n {
        assert text[i] == rest[i - n] && PairedAt(rest, i - n);
      }
    }
  }

  lemma {:induction false} TerminatedIsPaired(lines: seq<string>)
    requires AreLines(lines)
    ensures IsPaired(Terminated(lines))
    ensures lines != [] ==> EndsWithBreak(Terminated(lines))
  {
    if lines != [] {
      TerminatedIsPaired(lines[1..]);
      PairedBehind(lines[0], Terminated(lines[1..]));
    }
  }

  lemma {:induction false} LineThrough(text: string, i: nat, end: nat, before: string)
    requires i <= end <= |text| && IsLine(text[i..end])
    ensures Lines(text, i, before) == Lines(text, end, before + text[i..end])
    decreases end - i
  {
    if i < end {
      assert text[i..end][0] == text[i] && text[i..end][1..] == text[i + 1..end];
      assert forall c :: c in text[i + 1..end] ==> c in text[i..end];
      LineThrough(text, i + 1, end, before + [text[i]]);
      assert before + text[i..end] == before + [text[i]] + text[i + 1..end];
    } else {
      assert before + text[i..end] == before;
    }
  }

  lemma {:induction false} LinesOfTerminated(text: string, i: nat, lines: seq<string>)
    requires i <= |text| && text[i..] == Terminated(lines) && AreLines(lines)
    ensures Lines(text, i, "") == lines
    decreases |lines|
  {
    if lines != [] {
      var line, rest, whole := lines[0], Terminated(lines[1..]), text[i..];
      var end := i + |line|;
      assert whole[..|line|] == line && whole[|line|] == '\r' && whole[|line| + 1] == '\n'
        && whole[|line| + 2..] == rest;
      assert text[i..end] == line && text[end] == '\r' && text[end + 1] == '\n' && text[end + 2..] == rest;
      LineThrough(text, i, end, "");
      assert "" + line == line;
      LinesOfTerminated(text, end + 2, lines[1..]);
    }
  }

  /* ---- The main results ---- */

  /** The lines of a text as a body has them: an empty text has one empty line. */
  function BodyLines(text: string): seq<string> {
    if text == "" then [""] else Lines(text, 0, "")
  }

  /** The body is the text's lines, each with a CRLF behind it. */
  lemma NormalizedIsLines(text: string)
    ensures Normalized(text) == Terminated(BodyLines(text)) && AreLines(BodyLines(text)) && BodyLines(text) != []
  {
    if text != "" {
      var breaks := Breaks(text, 0);
      TerminatedLines(text, 0, "");
      BreakAtEnd(text, 0, "");
      LinesAreLines(text, 0, "");
      assert "" + breaks == breaks;
      assert breaks + "" == breaks;
    }
  }

  /** Only CRLF pairs, one at the end, and the lines of the text; they are the same unless the text is empty. */
  lemma NormalizedKeepsLines(text: string)
    ensures IsPaired(Normalized(text)) && EndsWithBreak(Normalized(text))
    ensures Lines(Normalized(text), 0, "") == BodyLines(text)
    ensures Lines(Normalized(text), 0, "") == Lines(text, 0, "") <==> text != ""
  {
    var lines := BodyLines(text);
    NormalizedIsLines(text);
    TerminatedIsPaired(lines);
    assert Normalized(text)[0..] == Terminated(lines);
    LinesOfTerminated(Normalized(text), 0, lines);
  }

  /** Normalising twice is normalising once. */
  lemma NormalizedTwice(text: string)
    ensures Normalized(Normalized(text)) == Normalized(text)
  {
    if text == "" {
      assert Normalized("") == "\r\n";
      assert Breaks("\r\n", 0) == "\r\n" + Breaks("\r\n", 2);
    } else {
      NormalizedKeepsLines(text);
      NormalizedIsLines(text);
      NormalizedIsLines(Normalized(text));
    }
  }
}
