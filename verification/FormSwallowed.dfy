/**
 A file whose name ends in a backslash: the backslash escapes the closing quote of the name, so the
 name's parameter runs on into the file name.
 */
module FormSwallowed {
  import opened Wrappers
  import opened Text
  import opened ParseParam
  import opened OptionsHeader
  import opened FormDisposition

  /* ---- Where the segments end ---- */

  predicate NoneHas(segments: seq<string>, c: char) {
    forall i :: 0 <= i < |segments| ==> c !in segments[i]
  }

  /** Behind a `;` with no quote up to the last char, every `;` cuts. */
  lemma {:induction false} SegmentsAreCut(s: string, start: nat)
    requires start < |s| && s[start] == ';'
    requires forall i :: start < i < |s| - 1 ==> s[i] != '"'
    ensures NoneHas(Segments(s, start), ';')
    decreases |s| - start
  {
    var end := SegmentEnd(s, start + 1, start + 1);
    forall k | start < k < end ensures s[k] != ';' {
      NoBareQuotes(s, start + 1, k);
      assert !Separates(s, start + 1, k);
    }
    if end < |s| {
      assert Separates(s, start + 1, end);
      SegmentsAreCut(s, end);
    }
  }

  /** ` key="text"` from `from` to `end`, char by char, with its opening quote at `a`. */
  ghost predicate Stands(s: string, from: nat, a: nat, end: nat) {
    && from < a < end - 1 && end <= |s| && s[a - 1] == '=' && s[a] == '"' && s[end - 1] == '"'
    && (forall i :: from <= i < a ==> s[i] != '"' && s[i] != ';')
    && (forall i :: a < i < end - 1 ==> s[i] != '"')
  }

  lemma QuotedStands(s: string, from: nat, end: nat, key: string, text: string)
    requires key in {"name", "filename"} && '"' !in text
    requires from <= end <= |s| && s[from..end] == Quoted(key, text)
    ensures Stands(s, from, from + |key| + 2, end)
    ensures forall i :: from + |key| + 2 < i < end - 1 ==> s[i] == text[i - from - |key| - 3]
  {
    var q, a := Quoted(key, text), |key| + 2;
    assert q[a - 1] == '=' && q[a] == '"' && q[|q| - 1] == '"';
    assert forall i :: 0 <= i < |q| ==> s[from..end][i] == s[from + i];
    forall i | from <= i < from + a ensures s[i] != '"' && s[i] != ';' {
      assert q[i - from] == s[i];
    }
    forall i | from + a < i < end - 1 ensures s[i] == text[i - from - a - 1] {
      assert q[i - from] == s[i];
    }
    assert s[from + (a - 1)] == q[a - 1] && s[from + a] == q[a] && s[from + (|q| - 1)] == q[|q| - 1];
  }

  /** Where the two quoted texts of a file's disposition stand. */
  ghost predicate IsFileText(s: string, mid: nat) {
    18 < mid < |s| && s[mid] == ';' && Stands(s, 11, 17, mid) && Stands(s, mid + 1, mid + 11, |s|)
  }

  lemma FileText(name: string, filename: string, s: string, mid: nat)
    requires '"' !in name && '"' !in filename
    requires s == [';'] + FileDisposition(name, filename) && mid == 11 + |Quoted("name", name)|
    ensures IsFileText(s, mid)
    ensures name != "" ==> s[mid - 2] == name[|name| - 1]
    ensures forall i :: mid + 11 < i < |s| - 1 ==> s[i] in filename
  {
    FileSlices(name, filename, s, mid);
    QuotedStands(s, 11, mid, "name", name);
    QuotedStands(s, mid + 1, |s|, "filename", filename);
  }

  /** The name's segment swallows the start of the file name, and ends at a `;` of it, if any. */
  lemma SwallowingSegment(s: string, mid: nat, end: nat)
    requires IsFileText(s, mid) && s[mid - 2] == '\\' && IsSegmentEnd(s, 11, end)
    ensures mid + 11 < end && (end < |s| ==> s[end] == ';' && end < |s| - 1)
  {
    forall k | 11 <= k <= mid + 11 ensures !Separates(s, 11, k) {
      if k <= 17 {
        assert s[k] != ';';
      } else {
        NoBareQuotes(s, 11, 17);
        NoBareQuotes(s, 18, k);
        BareQuotesAdd(s, 11, 17, k);
      }
    }
    if end < |s| {
      assert Separates(s, 11, end);
    }
  }

  /* ---- What the parameters hold ---- */

  lemma {:induction false} TrimKeeps(text: string, c: char)
    requires c !in text
    ensures c !in TrimStart(text) && c !in TrimEnd(text)
  {
    if text != "" {
      TrimKeeps(text[1..], c);
      TrimKeeps(text[..|text| - 1], c);
    }
  }

  lemma LowerKeeps(text: string)
    requires ';' !in text
    ensures ';' !in Lower(text)
  {
  }

  lemma ParameterKeeps(segment: string)
    requires ';' !in segment
    ensures ';' !in Parameter(segment)
  {
    match FirstIn(segment, '=', 0, |segment|)
    case None =>
      TrimKeeps(segment, ';');
      TrimKeeps(TrimStart(segment), ';');
    case Some(i) =>
      var key, value := segment[..i], segment[i + 1..];
      TrimKeeps(key, ';');
      TrimKeeps(value, ';');
      LowerKeeps(TrimEnd(key));
      var text := Lower(TrimEnd(key)) + "=" + TrimStart(value);
      TrimKeeps(text, ';');
      TrimKeeps(TrimStart(text), ';');
  }

  lemma UnquoteKeeps(value: string)
    requires ';' !in value
    ensures ';' !in Unquote(value)
  {
    if |value| >= 2 && value[0] == '"' && value[|value| - 1] == '"' {
      var inner := value[1..|value| - 1];
      ReplaceKeeps(inner, "\\\\", '\\', ';');
      ReplaceKeeps(Unescape(inner), "\\\"", '"', ';');
    }
  }

  lemma {:induction false} ComponentKeeps(value: string)
    requires ';' !in value
    ensures ';' !in LastComponent(value)
  {
    if value != "" && value[|value| - 1] != '\\' {
      ComponentKeeps(value[..|value| - 1]);
    }
  }

  lemma PairKeeps(segment: string)
    requires ';' !in segment
    ensures Pair(segment).Some? ==> ';' !in Pair(segment).value.1
  {
    match FirstIn(segment, '=', 0, |segment|)
    case None =>
      UnquoteKeeps("");
      ComponentKeeps(Unquote(""));
    case Some(i) =>
      UnquoteKeeps(segment[i + 1..]);
      ComponentKeeps(Unquote(segment[i + 1..]));
  }

  /** No file name among the parameters holds a `;`. */
  ghost predicate FilenamesPlain(params: seq<(string, string)>) {
    forall i :: 0 <= i < |params| ==> params[i].0 == "filename" ==> ';' !in params[i].1
  }

  lemma {:induction false} PairsArePlain(segments: seq<string>)
    requires NoneHas(segments, ';')
    ensures FilenamesPlain(Pairs(Parameters(segments)))
  {
    if segments != [] {
      ParameterKeeps(segments[0]);
      PairKeeps(Parameter(segments[0]));
      PairsArePlain(segments[1..]);
      assert Parameters(segments)[1..] == Parameters(segments[1..]);
    }
  }

  lemma {:induction false} LookupPlain(params: seq<(string, string)>)
    requires FilenamesPlain(params)
    ensures Lookup(params, "filename").Some? ==> ';' !in Lookup(params, "filename").value
  {
    if params != [] && params[|params| - 1].0 != "filename" {
      LookupPlain(params[..|params| - 1]);
    }
  }

  /** The parameter of a segment that starts with ` name=` is the name. */
  lemma NameParameter(rest: string)
    ensures Pair(Parameter(" name=" + rest)).Some? && Pair(Parameter(" name=" + rest)).value.0 == "name"
  {
    Keys();
    assert " name=" + rest == " " + "name" + "=" + rest;
    KeyParameter("name", rest);
    FirstEquals("name", TrimEnd(TrimStart(rest)));
  }

  lemma ParametersBehind(first: string, second: string, rest: seq<string>)
    ensures Parameters([first] + ([second] + rest))[1..] == [Parameter(second)] + Parameters(rest)
  {
  }

  lemma ParamsFrom(value: string, s: string, end: nat)
    requires s == [';'] + value && 11 <= end <= |s| && s[0] == s[10] == ';' && IsSegmentEnd(s, 1, 10)
    requires IsSegmentEnd(s, 11, end)
    ensures Params(value) == Pairs([Parameter(s[11..end])] + Parameters(Rest(s, end)))
  {
    SegmentsStep(s, 0, 10);
    SegmentsStep(s, 10, end);
    assert value[9] == s[10];
    ParametersBehind(s[1..10], s[11..end], Rest(s, end));
  }

  lemma NameFirst(name: string, s: string, mid: nat, end: nat)
    requires 11 <= mid <= end <= |s| && s[11..mid] == Quoted("name", name)
    ensures Pair(Parameter(s[11..end])).Some? && Pair(Parameter(s[11..end])).value.0 == "name"
  {
    assert s[11..17] == s[11..mid][..6] == " name=";
    assert s[11..end] == " name=" + s[17..end];
    NameParameter(s[17..end]);
  }

  lemma PlainBehind(first: (string, string), rest: seq<(string, string)>)
    requires first.0 != "filename" && FilenamesPlain(rest)
    ensures FilenamesPlain([first] + rest)
    ensures rest == [] ==> Lookup([first] + rest, "filename") == None
  {
    assert forall i :: 0 < i < |rest| + 1 ==> ([first] + rest)[i] == rest[i - 1];
    if rest == [] {
      assert [first] + rest == [first] && [first][..0] == [];
    }
  }

  lemma RestIsPlain(s: string, mid: nat, end: nat)
    requires IsFileText(s, mid) && mid + 11 < end <= |s| && (end < |s| ==> s[end] == ';')
    ensures FilenamesPlain(Pairs(Parameters(Rest(s, end))))
    ensures end == |s| ==> Pairs(Parameters(Rest(s, end))) == []
  {
    if end < |s| {
      SegmentsAreCut(s, end);
      PairsArePlain(Rest(s, end));
    }
  }

  /**
   A file whose name ends in a backslash: its file name is lost, or it holds a `;` and what is read
   in its place holds none.
   */
  lemma SwallowedFilename(name: string, filename: string)
    requires '"' !in name && '"' !in filename && !ClosesItself(name)
    ensures var read := Lookup(Params(FileDisposition(name, filename)), "filename");
      read.Some? ==> ';' in filename && ';' !in read.value
  {
    var value := FileDisposition(name, filename);
    var s, mid := [';'] + value, 11 + |Quoted("name", name)|;
    FileSlices(name, filename, s, mid);
    FormDataSegment(s);
    FileText(name, filename, s, mid);
    var end := SegmentEnd(s, 11, 11);
    SwallowingSegment(s, mid, end);
    NameFirst(name, s, mid, end);
    RestIsPlain(s, mid, end);
    ReadBehind(value, s, end);
  }

  lemma ReadBehind(value: string, s: string, end: nat)
    requires s == [';'] + value && 11 <= end <= |s| && s[0] == s[10] == ';' && IsSegmentEnd(s, 1, 10)
    requires IsSegmentEnd(s, 11, end)
    requires Pair(Parameter(s[11..end])).Some? && Pair(Parameter(s[11..end])).value.0 == "name"
    requires FilenamesPlain(Pairs(Parameters(Rest(s, end))))
    ensures var read := Lookup(Params(value), "filename");
      && (read.Some? ==> ';' !in read.value)
      && (Pairs(Parameters(Rest(s, end))) == [] ==> read == None)
  {
    ParamsFrom(value, s, end);
    var first, rest := Pair(Parameter(s[11..end])).value, Pairs(Parameters(Rest(s, end)));
    FirstPair(Parameter(s[11..end]), Parameters(Rest(s, end)), first);
    PlainBehind(first, rest);
    LookupPlain(Params(value));
  }

  lemma FirstPair(segment: string, rest: seq<string>, pair: (string, string))
    requires Pair(segment) == Some(pair)
    ensures Pairs([segment] + rest) == [pair] + Pairs(rest)
  {
    assert ([segment] + rest)[1..] == rest;
  }
}
