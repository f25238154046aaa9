/** The Content-Disposition values a form printer writes, read back. */
module FormDisposition {
  import opened Wrappers
  import opened Text
  import opened ParseParam
  import opened OptionsHeader

  const FORM_DATA: string := "form-data;"

  /** ` key="text"`. */
  function Quoted(key: string, text: string): string {
    " " + key + "=" + ("\"" + text + "\"")
  }

  function FieldDisposition(name: string): string {
    FORM_DATA + Quoted("name", name)
  }

  function FileDisposition(name: string, filename: string): string {
    FORM_DATA + Quoted("name", name) + ";" + Quoted("filename", filename)
  }

  /** A text whose closing quote is not escaped by a backslash at its end. */
  ghost predicate ClosesItself(text: string) {
    text != "" ==> text[|text| - 1] != '\\'
  }

  /** Every doubled backslash is read as one. */
  function Unescape(text: string): string {
    ReplacePair(text, "\\\\", '\\')
  }

  /** A file name as it arrives: unescaped, without the directories of an old browser. */
  function UnescapeFile(text: string): string {
    if IsWindowsPath(Unescape(text)) then LastComponent(Unescape(text)) else Unescape(text)
  }

  lemma {:induction false} ReplaceKeeps(text: string, pattern: string, with: char, c: char)
    requires |pattern| == 2
    ensures pattern[1] !in text ==> ReplacePair(text, pattern, with) == text
    ensures c != with && c !in text ==> c !in ReplacePair(text, pattern, with)
  {
    if |text| >= 2 {
      assert pattern[1] !in text ==> text[..2] != pattern by {
        assert text[..2][1] == text[1];
      }
      ReplaceKeeps(text[1..], pattern, with, c);
      ReplaceKeeps(text[2..], pattern, with, c);
      assert text == [text[0]] + text[1..] && text == [text[0], text[1]] + text[2..];
    }
  }

  lemma UnquoteQuoted(text: string)
    requires '"' !in text
    ensures Unquote("\"" + text + "\"") == Unescape(text)
  {
    var quoted := "\"" + text + "\"";
    assert quoted[1..|quoted| - 1] == text;
    ReplaceKeeps(text, "\\\\", '\\', '"');
    ReplaceKeeps(Unescape(text), "\\\"", '"', '"');
  }

  /* ---- Segments ---- */

  lemma {:induction false} NoBareQuotes(s: string, from: nat, end: nat)
    requires from <= end <= |s|
    requires forall i :: from <= i < end ==> !BareQuote(s, i)
    ensures BareQuotes(s, from, end) == 0
    decreases end - from
  {
    if from < end {
      NoBareQuotes(s, from + 1, end);
    }
  }

  /** A segment with a bare quote at `a` and, unless it is the last one, another at its end. */
  lemma QuotedSegment(s: string, start: nat, a: nat, end: nat)
    requires start <= a < end - 1 && end <= |s| && BareQuote(s, a)
    requires forall i :: start <= i < a ==> s[i] != '"' && s[i] != ';'
    requires forall i :: a < i < end - 1 ==> s[i] != '"'
    requires end == |s| || (s[end] == ';' && BareQuote(s, end - 1))
    ensures IsSegmentEnd(s, start, end)
  {
    NoBareQuotes(s, start, a);
    forall k | a < k < end ensures BareQuotes(s, start, k) == 1 {
      NoBareQuotes(s, a + 1, k);
      BareQuotesAdd(s, start, a, k);
    }
    BareQuotesAdd(s, start, end - 1, end);
  }

  /** The first `=` of `key=value` is the one between them. */
  lemma FirstEquals(key: string, value: string)
    requires '=' !in key
    ensures FirstIn(key + "=" + value, '=', 0, |key| + 1 + |value|) == Some(|key|)
    ensures (key + "=" + value)[..|key|] == key && (key + "=" + value)[|key| + 1..] == value
  {
    var text := key + "=" + value;
    assert text[..|key|] == key && text[|key| + 1..] == value && text[|key|] == '=';
    forall i | 0 <= i < |key|
      ensures text[i] != '='
    {
      assert text[i] == key[i];
    }
  }

  /** A key that `Parameter` leaves as it is. */
  ghost predicate IsKey(key: string) {
    && key != "" && Lower(key) == key && '=' !in key && '*' !in key
    && !IsPySpace(key[0]) && !IsPySpace(key[|key| - 1])
  }

  lemma ParameterSplit(key: string, value: string)
    requires '=' !in key
    ensures Parameter(key + "=" + value) == Strip(Lower(TrimEnd(key)) + "=" + TrimStart(value))
  {
    FirstEquals(key, value);
  }

  lemma TrimNothing(text: string)
    requires text != ""
    ensures !IsPySpace(text[0]) ==> TrimStart(text) == text
    ensures !IsPySpace(text[|text| - 1]) ==> TrimEnd(text) == text
  {
  }

  lemma {:induction false} TrimEndBehind(a: string, b: string)
    requires a != "" && !IsPySpace(a[|a| - 1])
    ensures TrimEnd(a + b) == a + TrimEnd(b)
  {
    if b == "" {
      assert a + b == a;
    } else {
      assert (a + b)[..|a + b| - 1] == a + b[..|b| - 1];
      TrimEndBehind(a, b[..|b| - 1]);
    }
  }

  lemma StripKey(key: string, value: string)
    requires IsKey(key)
    ensures Strip(" " + key + "=" + value) == key + "=" + TrimEnd(value)
  {
    var text := key + "=" + value;
    assert " " + key + "=" + value == " " + text && (" " + text)[1..] == text;
    assert TrimStart(" " + text) == text;
    TrimEndBehind(key + "=", value);
    assert key + "=" + value == (key + "=") + value;
  }

  /** A segment that starts with a key, as a parameter. */
  lemma KeyParameter(key: string, rest: string)
    requires IsKey(key)
    ensures Parameter(" " + key + "=" + rest) == key + "=" + TrimEnd(TrimStart(rest))
  {
    LowerSpace(key);
    TrimNothing(" " + key);
    ParameterSplit(" " + key, rest);
    StripKey(key, TrimStart(rest));
  }

  lemma ParameterText(key: string, text: string)
    requires IsKey(key)
    ensures Parameter(Quoted(key, text)) == key + "=" + ("\"" + text + "\"")
  {
    TrimNothing("\"" + text + "\"");
    KeyParameter(key, "\"" + text + "\"");
  }

  lemma LowerSpace(key: string)
    requires Lower(key) == key
    ensures Lower(" " + key) == " " + key
  {
    forall i | 0 <= i <= |key| ensures Lower(" " + key)[i] == (" " + key)[i] {
      if i > 0 {
        assert Lower(key)[i - 1] == key[i - 1];
      }
    }
  }

  lemma PairOfKey(key: string, text: string)
    requires IsKey(key) && '"' !in text
    ensures Pair(key + "=" + ("\"" + text + "\"")) ==
      Some((key, if key == "filename" then UnescapeFile(text) else Unescape(text)))
  {
    FirstEquals(key, "\"" + text + "\"");
    UnquoteQuoted(text);
  }

  /** ` key="text"` from `start` on: where the segment ends and which pair it is. */
  lemma QuotedParameter(s: string, start: nat, key: string, text: string, end: nat)
    requires IsKey(key) && ';' !in key && '"' !in key && '"' !in text
    requires start <= end <= |s| && s[start..end] == Quoted(key, text)
    requires end == |s| || (s[end] == ';' && ClosesItself(text))
    ensures IsSegmentEnd(s, start, end)
    ensures Pair(Parameter(s[start..end])) ==
      Some((key, if key == "filename" then UnescapeFile(text) else Unescape(text)))
  {
    var segment := s[start..end];
    var a := 2 + |key|;
    forall i | 0 <= i < |segment|
      ensures s[start + i] == segment[i]
      ensures 0 < i <= |key| ==> segment[i] == key[i - 1]
      ensures a < i < |segment| - 1 ==> segment[i] == text[i - a - 1]
    {
    }
    forall i | start <= i < start + a ensures s[i] != '"' && s[i] != ';' {
      assert s[i] == segment[i - start];
    }
    forall i | start + a < i < end - 1 ensures s[i] != '"' {
      assert s[i] == segment[i - start];
    }
    assert s[start + a] == segment[a] && s[start + a - 1] == segment[a - 1];
    assert s[end - 1] == segment[|segment| - 1] && s[end - 2] == segment[|segment| - 2];
    QuotedSegment(s, start, start + a, end);
    ParameterText(key, text);
    PairOfKey(key, text);
  }

  /* ---- The two dispositions ---- */

  lemma FormDataSegment(s: string)
    requires |s| >= 11 && s[..11] == ";" + FORM_DATA
    ensures s[0] == s[10] == ';' && IsSegmentEnd(s, 1, 10)
  {
    assert forall i :: 0 <= i < 11 ==> s[i] == s[..11][i];
    NoBareQuotes(s, 1, 10);
  }

  lemma Keys()
    ensures IsKey("name") && IsKey("filename")
  {
    assert Lower("name") == "name";
    assert Lower("filename") == "filename";
  }

  lemma SecondSegment(s: string, a: nat)
    requires 0 < a < |s| && s[0] == s[a] == ';'
    requires IsSegmentEnd(s, 1, a) && IsSegmentEnd(s, a + 1, |s|)
    ensures Segments(s, 0) == [s[1..a], s[a + 1..|s|]]
  {
    SegmentsStep(s, 0, a);
    SegmentsStep(s, a, |s|);
  }

  lemma SecondAndThirdSegment(s: string, a: nat, b: nat)
    requires 0 < a < b < |s| && s[0] == s[a] == s[b] == ';'
    requires IsSegmentEnd(s, 1, a) && IsSegmentEnd(s, a + 1, b) && IsSegmentEnd(s, b + 1, |s|)
    ensures Segments(s, 0) == [s[1..a], s[a + 1..b], s[b + 1..|s|]]
  {
    SegmentsStep(s, 0, a);
    SegmentsStep(s, a, b);
    SegmentsStep(s, b, |s|);
  }

  lemma FieldParams(name: string)
    requires '"' !in name
    ensures Params(FieldDisposition(name)) == [("name", Unescape(name))]
  {
    var value := FieldDisposition(name);
    var s := [';'] + value;
    Keys();
    assert s[..11] == ";" + FORM_DATA;
    FormDataSegment(s);
    assert s[11..|s|] == Quoted("name", name);
    QuotedParameter(s, 11, "name", name, |s|);
    SecondSegment(s, 10);
    assert value[9] == s[10];
    assert Parameters(Segments(s, 0))[1..] == [Parameter(s[11..|s|])];
    OnePair(Parameter(s[11..|s|]), ("name", Unescape(name)));
  }

  lemma FileSlices(name: string, filename: string, s: string, mid: nat)
    requires s == [';'] + FileDisposition(name, filename) && mid == 11 + |Quoted("name", name)|
    ensures mid < |s| && s[..11] == ";" + FORM_DATA
    ensures s[11..mid] == Quoted("name", name) && s[mid] == ';'
    ensures s[mid + 1..|s|] == Quoted("filename", filename)
  {
  }

  lemma ParamsOfTwo(value: string, s: string, a: nat, b: nat, p: (string, string), q: (string, string))
    requires s == [';'] + value && 0 < a < b < |s| && s[a] == s[b] == ';'
    requires IsSegmentEnd(s, 1, a) && IsSegmentEnd(s, a + 1, b) && IsSegmentEnd(s, b + 1, |s|)
    requires Pair(Parameter(s[a + 1..b])) == Some(p) && Pair(Parameter(s[b + 1..|s|])) == Some(q)
    ensures Params(value) == [p, q]
  {
    SecondAndThirdSegment(s, a, b);
    ThreeParameters(s[1..a], s[a + 1..b], s[b + 1..|s|], p, q);
    assert value[a - 1] == s[a];
  }

  lemma NameSegment(name: string, filename: string, s: string, mid: nat)
    requires '"' !in name && ClosesItself(name) && s == [';'] + FileDisposition(name, filename)
      && mid == 11 + |Quoted("name", name)|
    ensures 11 <= mid < |s| && IsSegmentEnd(s, 11, mid)
    ensures Pair(Parameter(s[11..mid])) == Some(("name", Unescape(name)))
  {
    FileSlices(name, filename, s, mid);
    Keys();
    QuotedParameter(s, 11, "name", name, mid);
  }

  lemma FilenameSegment(name: string, filename: string, s: string, mid: nat)
    requires '"' !in filename && s == [';'] + FileDisposition(name, filename) && mid == 11 + |Quoted("name", name)|
    ensures mid < |s| && IsSegmentEnd(s, mid + 1, |s|)
    ensures Pair(Parameter(s[mid + 1..|s|])) == Some(("filename", UnescapeFile(filename)))
  {
    FileSlices(name, filename, s, mid);
    Keys();
    QuotedParameter(s, mid + 1, "filename", filename, |s|);
  }

  lemma FileParams(name: string, filename: string)
    requires '"' !in name && ClosesItself(name) && '"' !in filename
    ensures Params(FileDisposition(name, filename)) ==
      [("name", Unescape(name)), ("filename", UnescapeFile(filename))]
  {
    var value := FileDisposition(name, filename);
    var s := [';'] + value;
    var mid := 11 + |Quoted("name", name)|;
    FileSlices(name, filename, s, mid);
    FormDataSegment(s);
    NameSegment(name, filename, s, mid);
    FilenameSegment(name, filename, s, mid);
    ParamsOfTwo(value, s, 10, mid, ("name", Unescape(name)), ("filename", UnescapeFile(filename)));
  }

  lemma ThreeParameters(a: string, b: string, c: string, p: (string, string), q: (string, string))
    requires Pair(Parameter(b)) == Some(p) && Pair(Parameter(c)) == Some(q)
    ensures Pairs(Parameters([a, b, c])[1..]) == [p, q]
  {
    assert Parameters([a, b, c])[1..] == [Parameter(b), Parameter(c)];
    TwoPairs(Parameter(b), p, Parameter(c), q);
  }

  lemma OnePair(segment: string, pair: (string, string))
    requires Pair(segment) == Some(pair)
    ensures Pairs([segment]) == [pair]
  {
  }

  lemma TwoPairs(a: string, p: (string, string), b: string, q: (string, string))
    requires Pair(a) == Some(p) && Pair(b) == Some(q)
    ensures Pairs([a, b]) == [p, q]
  {
    assert [a, b][1..] == [b];
    OnePair(b, q);
  }

  /** A text field: its name, and no file name. */
  lemma FieldReadBack(name: string)
    requires '"' !in name
    ensures Lookup(Params(FieldDisposition(name)), "name") == Some(Unescape(name))
    ensures Lookup(Params(FieldDisposition(name)), "filename") == None
  {
    FieldParams(name);
  }

  /** A file whose name closes its own quotes: its name and its file name. */
  lemma FileReadBack(name: string, filename: string)
    requires '"' !in name && ClosesItself(name) && '"' !in filename
    ensures Lookup(Params(FileDisposition(name, filename)), "name") == Some(Unescape(name))
    ensures Lookup(Params(FileDisposition(name, filename)), "filename") == Some(UnescapeFile(filename))
  {
    FileParams(name, filename);
    var params := Params(FileDisposition(name, filename));
    assert params[..1] == [params[0]];
  }

  /* ---- When a name arrives unchanged ---- */

  lemma {:induction false} UnescapeShrinks(text: string)
    ensures |Unescape(text)| <= |text|
    ensures Unescape(text) == text <==> forall i :: 0 <= i < |text| - 1 ==> !(text[i] == text[i + 1] == '\\')
    ensures Unescape(text) == text <==> |Unescape(text)| == |text|
  {
    if |text| >= 2 {
      if text[..2] == "\\\\" {
        UnescapeShrinks(text[2..]);
        assert text[0] == text[..2][0] && text[1] == text[..2][1];
      } else {
        UnescapeShrinks(text[1..]);
        assert text[..2] == [text[0], text[1]];
        assert text == [text[0]] + text[1..];
        assert forall i :: 0 < i < |text| - 1 ==> text[i] == text[1..][i - 1] && text[i + 1] == text[1..][i];
        assert Unescape(text) == [text[0]] + Unescape(text[1..]);
      }
    }
  }

  ghost predicate HasNoDoubledBackslash(text: string) {
    forall i :: 0 <= i < |text| - 1 ==> !(text[i] == text[i + 1] == '\\')
  }

  /** A quoted name without doubled backslashes is read as it is, and no other one is. */
  lemma NameExact(text: string)
    requires '"' !in text
    ensures Unquote("\"" + text + "\"") == text <==> HasNoDoubledBackslash(text)
  {
    UnquoteQuoted(text);
    UnescapeShrinks(text);
  }

  lemma {:induction false} LastComponentShorter(text: string)
    requires '\\' in text
    ensures |LastComponent(text)| < |text|
  {
    if text[|text| - 1] != '\\' {
      assert text == text[..|text| - 1] + [text[|text| - 1]];
      LastComponentShorter(text[..|text| - 1]);
    }
  }

  lemma WindowsPathHasBackslash(text: string)
    requires IsWindowsPath(text)
    ensures '\\' in text
  {
    assert "\\\\" <= text ==> text[0] == "\\\\"[0];
  }

  lemma UnescapeFileExact(text: string)
    ensures UnescapeFile(text) == text <==> HasNoDoubledBackslash(text) && !IsWindowsPath(text)
    ensures UnescapeFile(text) == text <==> |UnescapeFile(text)| == |text|
  {
    UnescapeShrinks(text);
    var c := Unescape(text);
    if IsWindowsPath(c) {
      WindowsPathHasBackslash(c);
      LastComponentShorter(c);
    }
  }

  /** A quoted file name also loses its directories, so it must not look like a Windows path. */
  lemma FilenameExact(text: string)
    requires '"' !in text
    ensures Pair("filename=" + ("\"" + text + "\"")) == Some(("filename", text)) <==>
      HasNoDoubledBackslash(text) && !IsWindowsPath(text)
  {
    Keys();
    assert "filename" + "=" + ("\"" + text + "\"") == "filename=" + ("\"" + text + "\"");
    PairOfKey("filename", text);
    UnescapeFileExact(text);
  }
}
