/** `parse_options_header`: the essence of a header value and its parameters. */
module OptionsHeader {
  import opened Wrappers
  import opened Text
  import opened ParseParam

  /** One pair of surrounding quotes removed, then `\\` and `\"` unescaped. */
  function Unquote(value: string): string {
    if |value| >= 2 && value[0] == '"' && value[|value| - 1] == '"' then
      ReplacePair(ReplacePair(value[1..|value| - 1], "\\\\", '\\'), "\\\"", '"')
    else value
  }

  /** The last path component of a file name as old browsers sent it. */
  function LastComponent(value: string): (r: string)
    ensures |r| <= |value|
  {
    if value == "" || value[|value| - 1] == '\\' then ""
    else LastComponent(value[..|value| - 1]) + [value[|value| - 1]]
  }

  predicate IsWindowsPath(value: string) {
    (|value| >= 3 && value[1] == ':' && value[2] == '\\') || "\\\\" <= value
  }

  /** A segment as a parameter; a key with `*` is skipped. */
  function Pair(segment: string): Option<(string, string)> {
    var (key, value) :=
      match FirstIn(segment, '=', 0, |segment|)
      case None => (segment, "")
      case Some(i) => (segment[..i], segment[i + 1..]);
    if '*' in key then None
    else
      var value := Unquote(value);
      Some((key, if key == "filename" && IsWindowsPath(value) then LastComponent(value) else value))
  }

  function Pairs(segments: seq<string>): seq<(string, string)> {
    if segments == [] then []
    else
      (match Pair(segments[0]) case None => [] case Some(p) => [p]) + Pairs(segments[1..])
  }

  function Essence(value: string): string {
    if ';' in value then Parameter(Segments([';'] + value, 0)[0]) else Strip(Lower(value))
  }

  function Params(value: string): seq<(string, string)> {
    if ';' in value then Pairs(Parameters(Segments([';'] + value, 0))[1..]) else []
  }

  /** The value of a parameter: of several with the key, the last one's. */
  function Lookup(params: seq<(string, string)>, key: string): Option<string> {
    if params == [] then None
    else
      var last := params[|params| - 1];
      if last.0 == key then Some(last.1) else Lookup(params[..|params| - 1], key)
  }

  lemma {:induction false} PairsSnoc(segments: seq<string>, last: string)
    ensures Pairs(segments + [last]) ==
      Pairs(segments) + (match Pair(last) case None => [] case Some(p) => [p])
  {
    if segments == [] {
    } else {
      assert (segments + [last])[1..] == segments[1..] + [last];
      PairsSnoc(segments[1..], last);
    }
  }

  method ReadPairs(segments: seq<string>) returns (params: seq<(string, string)>)
    ensures params == Pairs(segments)
  {
    params := [];
    for i := 0 to |segments|
      invariant params == Pairs(segments[..i])
    {
      assert segments[..i + 1] == segments[..i] + [segments[i]];
      PairsSnoc(segments[..i], segments[i]);
      var pair := Pair(segments[i]);
      if pair.Some? {
        params := params + [pair.value];
      }
    }
    assert segments == segments[..|segments|];
  }

  method ReadOptionsHeader(value: Option<string>) returns (essence: string, params: seq<(string, string)>)
    ensures value.None? ==> essence == "" && params == []
    ensures value.Some? ==> essence == Essence(value.value) && params == Params(value.value)
  {
    if value.None? || value.value == "" {
      assert value.Some? ==> Lower(value.value) == "";
      return "", [];
    }
    if ';' !in value.value {
      return Strip(Lower(value.value)), [];
    }
    var segments := ParseParam.ParseParam(value.value);
    params := ReadPairs(segments[1..]);
    return segments[0], params;
  }
}
