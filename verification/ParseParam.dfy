/**
 `_parseparam`: a header value is cut at `;` outside double quotes. The loop that looks for the
 end of a segment works with Python's index rules and swaps its two indices on every round.
 */
module ParseParam {
  import opened Wrappers
  import opened Text

  /* ---- What a segment is ---- */

  /** A double quote that is not immediately preceded by a backslash. */
  predicate BareQuote(s: string, i: nat)
    requires i < |s|
  {
    s[i] == '"' && !(i > 0 && s[i - 1] == '\\')
  }

  function BareQuotes(s: string, from: nat, end: nat): nat
    requires from <= end <= |s|
    decreases end - from
  {
    if from == end then 0
    else (if BareQuote(s, from) then 1 else 0) + BareQuotes(s, from + 1, end)
  }

  /** A `;` with an even number of bare quotes between the start of the segment and itself. */
  predicate Separates(s: string, from: nat, at: nat)
    requires from <= at < |s|
  {
    s[at] == ';' && BareQuotes(s, from, at) % 2 == 0
  }

  /** The end of the segment that starts at `from`: its first separator, or the end of the text. */
  ghost predicate IsSegmentEnd(s: string, from: nat, end: nat) {
    && from <= end <= |s|
    && (end < |s| ==> Separates(s, from, end))
    && forall k {:trigger Separates(s, from, k)} :: from <= k < end ==> !Separates(s, from, k)
  }

  lemma SegmentEndUnique(s: string, from: nat, a: nat, b: nat)
    requires IsSegmentEnd(s, from, a) && IsSegmentEnd(s, from, b)
    ensures a == b
  {
    if a < |s| && b < |s| {
      assert Separates(s, from, a) && Separates(s, from, b);
    }
  }

  function SegmentEnd(s: string, from: nat, at: nat): (end: nat)
    requires from <= at <= |s|
    requires forall k {:trigger Separates(s, from, k)} :: from <= k < at ==> !Separates(s, from, k)
    ensures IsSegmentEnd(s, from, end)
    decreases |s| - at
  {
    if at == |s| || Separates(s, from, at) then at else SegmentEnd(s, from, at + 1)
  }

  /** `key = value` without the blanks around `=`, the key in lowercase; stripped. */
  function Parameter(segment: string): string {
    match FirstIn(segment, '=', 0, |segment|)
    case None => Strip(segment)
    case Some(i) => Strip(Lower(TrimEnd(segment[..i])) + "=" + TrimStart(segment[i + 1..]))
  }

  function Parameters(segments: seq<string>): (r: seq<string>)
    ensures |r| == |segments|
  {
    seq(|segments|, i requires 0 <= i < |segments| => Parameter(segments[i]))
  }

  /** The segments of `s` from the `;` at `start` on. */
  function Segments(s: string, start: nat): (r: seq<string>)
    requires start < |s| && s[start] == ';'
    ensures r != []
    decreases |s| - start
  {
    var end := SegmentEnd(s, start + 1, start + 1);
    [s[start + 1..end]] + if end < |s| then Segments(s, end) else []
  }

  /** The segments still to come when the scan stands at `start`. */
  function Rest(s: string, start: nat): seq<string> {
    if start < |s| && s[start] == ';' then Segments(s, start) else []
  }

  /* ---- Python's `str.find` and `str.count` ---- */

  function Clamp(i: int, n: nat): (r: nat)
    ensures r <= n
    ensures 0 <= i <= n ==> r == i
  {
    if i < 0 then (if i + n < 0 then 0 else i + n) else if i < n then i else n
  }

  function Find(s: string, c: char, start: int, end: int): (r: int)
    ensures r == -1 || (0 <= r < |s| && s[r] == c)
  {
    var a, b := Clamp(start, |s|), Clamp(end, |s|);
    if a > b then -1
    else match FirstIn(s, c, a, b) case None => -1 case Some(p) => p
  }

  /** Occurrences of `pattern` in `[from, end)`, taken from left to right without overlap. */
  function Occurrences(s: string, pattern: string, from: nat, end: nat): nat
    requires end <= |s| && |pattern| > 0
    decreases if from < end then end - from else 0
  {
    if from + |pattern| > end then 0
    else if s[from..from + |pattern|] == pattern then 1 + Occurrences(s, pattern, from + |pattern|, end)
    else Occurrences(s, pattern, from + 1, end)
  }

  method Count(s: string, pattern: string, start: int, end: int) returns (total: nat)
    requires |pattern| > 0
    ensures total == Occurrences(s, pattern, Clamp(start, |s|), Clamp(end, |s|))
  {
    var a, b := Clamp(start, |s|), Clamp(end, |s|);
    total := 0;
    var i := a;
    while i + |pattern| <= b
      invariant total + Occurrences(s, pattern, i, b) == Occurrences(s, pattern, a, b)
      decreases b - i
    {
      if s[i..i + |pattern|] == pattern {
        total := total + 1;
        i := i + |pattern|;
      } else {
        i := i + 1;
      }
    }
  }

  const QUOTE := "\""
  const ESCAPED := "\\\""

  /** Quotes minus escaped quotes are the bare quotes, unless the range splits an escaped quote. */
  lemma {:induction false} CountsBareQuotes(s: string, from: nat, end: nat)
    requires from <= end <= |s|
    requires from == 0 || from == end || !(s[from - 1] == '\\' && s[from] == '"')
    ensures Occurrences(s, QUOTE, from, end) - Occurrences(s, ESCAPED, from, end)
         == BareQuotes(s, from, end)
    decreases end - from
  {
    if from < end {
      if from + 2 <= end && s[from..from + 2] == ESCAPED {
        assert s[from] == ESCAPED[0] == '\\' && s[from + 1] == ESCAPED[1] == '"';
        assert s[from..from + 1] == [s[from]] && s[from + 1..from + 2] == QUOTE;
        CountsBareQuotes(s, from + 2, end);
      } else {
        assert s[from..from + 1] == [s[from]];
        assert from + 2 <= end ==> s[from..from + 2] == [s[from], s[from + 1]];
        CountsBareQuotes(s, from + 1, end);
      }
    }
  }

  lemma {:induction false} BareQuotesAdd(s: string, from: nat, mid: nat, end: nat)
    requires from <= mid <= end <= |s|
    ensures BareQuotes(s, from, mid) + BareQuotes(s, mid, end) == BareQuotes(s, from, end)
    decreases mid - from
  {
    if from < mid {
      BareQuotesAdd(s, from + 1, mid, end);
    }
  }

  /* ---- The loops ---- */

  /** No `;` before `at` separates. */
  ghost predicate Joined(s: string, start: nat, at: nat)
    requires at <= |s|
  {
    forall k {:trigger Separates(s, start, k)} :: start <= k < at ==> !Separates(s, start, k)
  }

  /** A round that judges the `;` at `end`: the quotes up to `ind` are counted. */
  ghost predicate Judging(s: string, start: nat, ind: int, end: int, diff: int) {
    && start <= ind <= end < |s| && s[end] == ';'
    && diff == BareQuotes(s, start, ind)
    && (ind > start ==> s[ind] == ';' && ind < end)
    && (forall k :: ind < k < end ==> s[k] != ';')
    && (ind == start < end ==> s[start] != ';')
    && Joined(s, start, end)
  }

  /**
   A round after the swap: `end` is the position before the rejected `;` at `judged`, `ind` the
   one behind it.
   */
  ghost predicate Swapped(s: string, start: nat, end: int, judged: nat, ind: int, diff: int) {
    && start <= end < judged < |s| && s[judged] == ';'
    && diff == BareQuotes(s, start, judged) && diff % 2 == 1
    && (forall k :: end < k < judged ==> s[k] != ';')
    && ind == Find(s, ';', judged + 1, |s|)
    && Joined(s, start, judged + 1)
  }

  /** The judged `;` ends the segment, or the swap follows. */
  lemma Judge(s: string, start: nat, ind: int, end: int, diff: int)
    requires 1 <= start <= |s| && s[start - 1] == ';'
    requires Judging(s, start, ind, end, diff)
    ensures diff + Occurrences(s, QUOTE, ind, end) - Occurrences(s, ESCAPED, ind, end) == BareQuotes(s, start, end)
    ensures BareQuotes(s, start, end) % 2 == 0 ==> IsSegmentEnd(s, start, end)
    ensures BareQuotes(s, start, end) % 2 == 1 ==>
      Swapped(s, start, ind, end, Find(s, ';', end + 1, |s|), BareQuotes(s, start, end))
  {
    CountsBareQuotes(s, ind, end);
    BareQuotesAdd(s, start, ind, end);
  }

  /** The round after the swap counts nothing and restores the order of the two indices. */
  lemma SwapBack(s: string, start: nat, end: int, judged: nat, ind: int, diff: int)
    requires Swapped(s, start, end, judged, ind, diff)
    ensures Occurrences(s, QUOTE, Clamp(ind, |s|), end) == Occurrences(s, ESCAPED, Clamp(ind, |s|), end) == 0
    ensures Find(s, ';', end + 1, |s|) == judged
    ensures ind != -1 ==> Judging(s, start, judged, ind, diff)
    ensures ind == -1 ==> Joined(s, start, |s|)
  {
  }

  /** The swapping loop. */
  method FindSegmentEnd(s: string, start: nat) returns (end: int)
    requires 1 <= start <= |s| && s[start - 1] == ';'
    ensures start <= end && IsSegmentEnd(s, start, end)
  {
    var n := |s|;
    end := Find(s, ';', start, n);
    var ind: int, diff: int := start, 0;
    ghost var swapped, judged: nat := false, 0;
    while end > 0
      invariant end == -1 ==> Joined(s, start, n)
      invariant end != -1 && !swapped ==> Judging(s, start, ind, end, diff)
      invariant end != -1 && swapped ==> Swapped(s, start, end, judged, ind, diff)
      decreases
        if end == -1 then 0 else if swapped then (if ind == -1 then 1 else 2 * (n - ind) + 2)
        else 2 * (n - end) + 1
    {
      var quotes := Count(s, QUOTE, ind, end);
      var escaped := Count(s, ESCAPED, ind, end);
      if swapped {
        SwapBack(s, start, end, judged, ind, diff);
      } else {
        Judge(s, start, ind, end, diff);
        judged := end;
      }
      diff := diff + quotes - escaped;
      if diff % 2 == 0 {
        break;
      }
      var next := Find(s, ';', end + 1, n);
      swapped := !swapped;
      end, ind := ind, next;
    }
    if end < 0 {
      end := n;
    }
  }

  lemma {:induction false} FirstInSlice(s: string, c: char, from: nat, at: nat, end: nat)
    requires from <= at <= end <= |s|
    ensures FirstIn(s, c, at, end) ==
      match FirstIn(s[from..end], c, at - from, end - from) case None => None case Some(p) => Some(from + p)
    decreases end - at
  {
    if at < end {
      assert s[from..end][at - from] == s[at];
      if s[at] != c {
        FirstInSlice(s, c, from, at + 1, end);
      }
    }
  }

  lemma KeyAndValue(segment: string, i: nat, key: string, value: string)
    requires FirstIn(segment, '=', 0, |segment|) == Some(i) && segment[..i] == key && segment[i + 1..] == value
    ensures Parameter(segment) == Strip(Lower(TrimEnd(key)) + "=" + TrimStart(value))
  {
  }

  /** The segment `[start, end)`, split at its first `=`. */
  method ReadParameter(s: string, start: nat, end: nat) returns (f: string)
    requires start <= end <= |s|
    ensures f == Parameter(s[start..end])
  {
    var i := Find(s, '=', start, end);
    FirstInSlice(s, '=', start, start, end);
    if i == -1 {
      f := Strip(s[start..end]);
    } else {
      var key, value := s[start..i], s[i + 1..end];
      KeyAndValue(s[start..end], i - start, key, value);
      f := Strip(Lower(TrimEnd(key)) + "=" + TrimStart(value));
    }
  }

  lemma SegmentsStep(s: string, start: nat, end: nat)
    requires start < |s| && s[start] == ';' && IsSegmentEnd(s, start + 1, end)
    ensures Segments(s, start) == [s[start + 1..end]] + Rest(s, end)
  {
    SegmentEndUnique(s, start + 1, end, SegmentEnd(s, start + 1, start + 1));
  }

  lemma CutStep(s: string, start: nat, end: nat, cut: seq<string>)
    requires start < |s| && s[start] == ';' && IsSegmentEnd(s, start + 1, end)
    ensures cut + Rest(s, start) == (cut + [s[start + 1..end]]) + Rest(s, end)
  {
    SegmentsStep(s, start, end);
    assert cut + ([s[start + 1..end]] + Rest(s, end)) == (cut + [s[start + 1..end]]) + Rest(s, end);
  }

  lemma ParametersSnoc(segments: seq<string>, last: string)
    ensures Parameters(segments + [last]) == Parameters(segments) + [Parameter(last)]
  {
  }

  method ParseParam(text: string) returns (plist: seq<string>)
    ensures plist == Parameters(Segments([';'] + text, 0))
  {
    var s := [';'] + text;
    var n := |s|;
    plist := [];
    var start: nat := 0;
    ghost var cut: seq<string> := [];
    while Find(s, ';', start, n) == start
      invariant 0 <= start <= n
      invariant cut + Rest(s, start) == Segments(s, 0) && plist == Parameters(cut)
      decreases n - start
    {
      start := start + 1;
      var end := FindSegmentEnd(s, start);
      CutStep(s, start - 1, end, cut);
      var f := ReadParameter(s, start, end);
      ParametersSnoc(cut, s[start..end]);
      plist := plist + [f];
      cut := cut + [s[start..end]];
      start := end;
    }
    assert Rest(s, start) == [] && cut + [] == cut;
  }
}
