/**
 Encoded words (section 2 of RFC 2047) in a header value: finding them and reading their bytes. A
 value is the text's UTF-8 bytes, one char for each.
 */
module EncodedWords {
  import opened Wrappers

  /** A word `=?charset?cte?text?=` at `[start, end)` of a value. */
  datatype Word = Word(start: nat, end: nat, charset: string, base64: bool, text: string)

  /* ---- Which words a value holds ---- */

  predicate IsCte(c: char, base64: bool) {
    if base64 then c == 'b' || c == 'B' else c == 'q' || c == 'Q'
  }

  /** The value holds exactly this word there, and no `?` but the four is part of it. */
  ghost predicate IsWord(v: string, w: Word) {
    && w.start <= w.end <= |v| && '?' !in w.charset && '?' !in w.text
    && exists c | IsCte(c, w.base64) :: v[w.start..w.end] == "=?" + w.charset + "?" + [c] + "?" + w.text + "?="
  }

  function FirstMark(v: string, from: nat): (r: nat)
    requires from <= |v|
    ensures from <= r <= |v| && (r < |v| ==> v[r] == '?')
    decreases |v| - from
  {
    if from == |v| || v[from] == '?' then from else FirstMark(v, from + 1)
  }

  /** The word between four marks, if it is one. */
  function WordBetween(v: string, q0: nat, q1: nat, q2: nat, q3: nat): Option<Word>
    requires 0 < q0 < q1 < q2 < q3 < |v|
  {
    if q3 + 1 == |v| || v[q3 + 1] != '=' then None
    else if q2 != q1 + 2 || v[q1 + 1] !in {'b', 'B', 'q', 'Q'} then None
    else Some(Word(q0 - 1, q3 + 2, v[q0 + 1..q1], v[q1 + 1] == 'b' || v[q1 + 1] == 'B', v[q2 + 1..q3]))
  }

  /** The word that starts at `i`. */
  function WordAt(v: string, i: nat): Option<Word>
    requires i < |v|
  {
    if v[i] != '=' || i + 1 == |v| || v[i + 1] != '?' then None
    else
      var q1 := FirstMark(v, i + 2);
      if q1 == |v| then None
      else
        var q2 := FirstMark(v, q1 + 1);
        if q2 == |v| then None
        else
          var q3 := FirstMark(v, q2 + 1);
          if q3 == |v| then None else WordBetween(v, i + 1, q1, q2, q3)
  }

  /** All words that start at `i` or behind it. */
  function WordsFrom(v: string, i: nat): seq<Word>
    requires i <= |v|
    decreases |v| - i
  {
    if i == |v| then []
    else match WordAt(v, i)
      case None => WordsFrom(v, i + 1)
      case Some(w) => [w] + WordsFrom(v, i + 1)
  }

  function Words(v: string): seq<Word> {
    WordsFrom(v, 0)
  }

  lemma {:induction false} NoMarkBefore(v: string, from: nat)
    requires from <= |v|
    ensures forall k :: from <= k < FirstMark(v, from) ==> v[k] != '?'
    decreases |v| - from
  {
    if from < |v| && v[from] != '?' {
      NoMarkBefore(v, from + 1);
    }
  }

  lemma {:induction false} FirstMarkIs(v: string, from: nat, r: nat)
    requires from <= r <= |v| && (r < |v| ==> v[r] == '?')
    requires forall k :: from <= k < r ==> v[k] != '?'
    ensures FirstMark(v, from) == r
    decreases r - from
  {
    if from < r {
      FirstMarkIs(v, from + 1, r);
    }
  }

  /** What is found at `i` is a word that starts there. */
  lemma FoundIsWord(v: string, i: nat)
    requires i < |v| && WordAt(v, i).Some?
    ensures WordAt(v, i).value.start == i && IsWord(v, WordAt(v, i).value)
  {
    var w := WordAt(v, i).value;
    var q1 := FirstMark(v, i + 2);
    var q2 := FirstMark(v, q1 + 1);
    var q3 := FirstMark(v, q2 + 1);
    NoMarkBefore(v, i + 2);
    NoMarkBefore(v, q2 + 1);
    ShapeBetween(v, i, q1, q2, q3);
    assert IsCte(v[q1 + 1], w.base64);
  }

  /** The text from the first of four marks to the last one, put together from its parts. */
  lemma ShapeBetween(v: string, i: nat, q1: nat, q2: nat, q3: nat)
    requires i + 2 <= q1 && q1 + 2 == q2 < q3 < |v| - 1
    requires v[i] == '=' && v[i + 1] == v[q1] == v[q2] == v[q3] == '?' && v[q3 + 1] == '='
    ensures v[i..q3 + 2] == "=?" + v[i + 2..q1] + "?" + [v[q1 + 1]] + "?" + v[q2 + 1..q3] + "?="
  {
    assert v[i..i + 2] == "=?" && v[q1..q2 + 1] == "?" + [v[q1 + 1]] + "?" && v[q3..q3 + 2] == "?=";
    assert v[i..q3 + 2] == v[i..i + 2] + v[i + 2..q1] + v[q1..q2 + 1] + v[q2 + 1..q3] + v[q3..q3 + 2];
    var open, charset, text, close := v[i..i + 2], v[i + 2..q1], v[q2 + 1..q3], v[q3..q3 + 2];
    assert open + charset + ("?" + [v[q1 + 1]] + "?") + text + close ==
      open + charset + "?" + [v[q1 + 1]] + "?" + text + close;
  }

  /** Every word is found where it starts. */
  lemma WordIsFound(v: string, w: Word)
    requires IsWord(v, w)
    ensures w.start < |v| && WordAt(v, w.start) == Some(w)
  {
    var c :| IsCte(c, w.base64) && v[w.start..w.end] == "=?" + w.charset + "?" + [c] + "?" + w.text + "?=";
    WordThere(v, w, c);
  }

  lemma Cut(v: string, i: nat, a: string, b: string)
    requires i + |a| + |b| <= |v| && v[i..i + |a| + |b|] == a + b
    ensures v[i..i + |a|] == a && v[i + |a|..i + |a| + |b|] == b
  {
    var whole := v[i..i + |a| + |b|];
    assert whole[..|a|] == a && whole[|a|..] == b;
  }

  /** Where the parts of a word are. */
  lemma Layout(v: string, i: nat, charset: string, c: char, text: string)
    requires i + |charset| + |text| + 7 <= |v|
    requires v[i..i + |charset| + |text| + 7] == "=?" + charset + "?" + [c] + "?" + text + "?="
    ensures v[i] == '=' && v[i + 1] == '?' && v[i + 2..i + 2 + |charset|] == charset
    ensures var q := i + 2 + |charset|;
      && v[q] == '?' && v[q + 1] == c && v[q + 2] == '?' && v[q + 3..q + 3 + |text|] == text
      && v[q + 3 + |text|] == '?' && v[q + 4 + |text|] == '='
  {
    var q := i + 2 + |charset|;
    Cut(v, i, "=?" + charset + "?" + [c] + "?" + text, "?=");
    Cut(v, i, "=?" + charset + "?" + [c] + "?", text);
    assert "=?" + charset + "?" + [c] + "?" == "=?" + charset + ['?', c, '?'];
    Cut(v, i, "=?" + charset, ['?', c, '?']);
    Cut(v, i, "=?", charset);
    var open, middle, close := v[i..i + 2], v[q..q + 3], v[q + 3 + |text|..q + 5 + |text|];
    assert open[0] == v[i] && open[1] == v[i + 1];
    assert middle[0] == v[q] && middle[1] == v[q + 1] && middle[2] == v[q + 2];
    assert close[0] == v[q + 3 + |text|] && close[1] == v[q + 4 + |text|];
  }

  lemma MarkBehind(v: string, from: nat, piece: string)
    requires '?' !in piece && from + |piece| < |v|
    requires v[from..from + |piece|] == piece && v[from + |piece|] == '?'
    ensures FirstMark(v, from) == from + |piece|
  {
    forall k | from <= k < from + |piece|
      ensures v[k] != '?'
    {
      assert v[k] == piece[k - from];
    }
    FirstMarkIs(v, from, from + |piece|);
  }

  lemma MarksAround(v: string, i: nat, q1: nat, q2: nat, q3: nat)
    requires i + 2 <= q1 < q2 < q3 < |v| && v[i] == '=' && v[i + 1] == '?'
    requires FirstMark(v, i + 2) == q1 && FirstMark(v, q1 + 1) == q2 && FirstMark(v, q2 + 1) == q3
    ensures WordAt(v, i) == WordBetween(v, i + 1, q1, q2, q3)
  {
  }

  lemma WordThere(v: string, w: Word, c: char)
    requires w.start <= w.end <= |v| && '?' !in w.charset && '?' !in w.text && IsCte(c, w.base64)
    requires v[w.start..w.end] == "=?" + w.charset + "?" + [c] + "?" + w.text + "?="
    ensures w.start < |v| && WordAt(v, w.start) == Some(w)
  {
    assert |v[w.start..w.end]| == |w.charset| + |w.text| + 7;
    Layout(v, w.start, w.charset, c, w.text);
    WordLaidOut(v, w, c);
  }

  lemma MarksLaidOut(v: string, i: nat, charset: string, text: string)
    requires '?' !in charset && '?' !in text && i + |charset| + |text| + 7 <= |v|
    requires v[i + 2..i + 2 + |charset|] == charset
    requires var q := i + 2 + |charset|;
      && v[q] == '?' && v[q + 1] != '?' && v[q + 2] == '?' && v[q + 3..q + 3 + |text|] == text
      && v[q + 3 + |text|] == '?'
    ensures var q := i + 2 + |charset|;
      && FirstMark(v, i + 2) == q && FirstMark(v, q + 1) == q + 2 && FirstMark(v, q + 3) == q + 3 + |text|
  {
    var q := i + 2 + |charset|;
    MarkBehind(v, i + 2, charset);
    FirstMarkIs(v, q + 1, q + 2);
    MarkBehind(v, q + 3, text);
  }

  lemma WordLaidOut(v: string, w: Word, c: char)
    requires w.end == w.start + |w.charset| + |w.text| + 7 <= |v|
    requires '?' !in w.charset && '?' !in w.text && IsCte(c, w.base64)
    requires v[w.start] == '=' && v[w.start + 1] == '?' && v[w.start + 2..w.start + 2 + |w.charset|] == w.charset
    requires var q := w.start + 2 + |w.charset|;
      && v[q] == '?' && v[q + 1] == c && v[q + 2] == '?' && v[q + 3..q + 3 + |w.text|] == w.text
      && v[q + 3 + |w.text|] == '?' && v[q + 4 + |w.text|] == '='
    ensures WordAt(v, w.start) == Some(w)
  {
    var i, q := w.start, w.start + 2 + |w.charset|;
    MarksLaidOut(v, i, w.charset, w.text);
    MarksAround(v, i, q, q + 2, q + 3 + |w.text|);
  }

  predicate Increasing(words: seq<Word>) {
    forall i, j :: 0 <= i < j < |words| ==> words[i].start < words[j].start
  }

  lemma {:induction false} FoundAreWords(v: string, i: nat)
    requires i <= |v|
    ensures forall k :: 0 <= k < |WordsFrom(v, i)| ==> IsWord(v, WordsFrom(v, i)[k]) && i <= WordsFrom(v, i)[k].start
    ensures Increasing(WordsFrom(v, i))
    decreases |v| - i
  {
    if i < |v| {
      FoundAreWords(v, i + 1);
      if WordAt(v, i).Some? {
        FoundIsWord(v, i);
      }
    }
  }

  lemma {:induction false} WordsAreFound(v: string, i: nat, w: Word)
    requires i <= |v| && IsWord(v, w) && i <= w.start
    ensures w in WordsFrom(v, i)
    decreases |v| - i
  {
    WordIsFound(v, w);
    if i < w.start {
      WordsAreFound(v, i + 1, w);
    }
  }

  /** Exactly the occurrences, in increasing order. */
  lemma WordsExact(v: string)
    ensures forall w :: w in Words(v) <==> IsWord(v, w)
    ensures Increasing(Words(v))
  {
    FoundAreWords(v, 0);
    forall w | IsWord(v, w)
      ensures w in Words(v)
    {
      WordsAreFound(v, 0, w);
    }
  }

  /* ---- The scan as it runs ---- */

  /** The positions of all marks at `i` or behind it. */
  function MarksFrom(v: string, i: nat): seq<nat>
    requires i <= |v|
    decreases |v| - i
  {
    var m := FirstMark(v, i);
    if m == |v| then [] else [m] + MarksFrom(v, m + 1)
  }

  method FindMarks(v: string) returns (marks: seq<nat>)
    ensures marks == MarksFrom(v, 0)
  {
    marks := [];
    for i := 0 to |v|
      invariant marks + MarksFrom(v, i) == MarksFrom(v, 0)
    {
      if v[i] == '?' {
        assert marks + ([i] + MarksFrom(v, i + 1)) == marks + [i] + MarksFrom(v, i + 1);
        marks := marks + [i];
      }
    }
  }

  /** No word starts before the char in front of the next mark. */
  lemma {:induction false} NothingUntil(v: string, i: nat, q0: nat)
    requires i < q0 < |v| && forall k :: i < k < q0 ==> v[k] != '?'
    ensures WordsFrom(v, i) == WordsFrom(v, q0 - 1)
    decreases q0 - i
  {
    if i < q0 - 1 {
      NothingUntil(v, i + 1, q0);
    }
  }

  lemma OneMark(v: string, i: nat)
    requires i <= |v| && FirstMark(v, i) < |v|
    ensures |MarksFrom(v, i)| == 1 + |MarksFrom(v, FirstMark(v, i) + 1)|
  {
  }

  lemma FourMarks(v: string, i: nat)
    requires i < |v| && WordAt(v, i).Some?
    ensures |MarksFrom(v, i)| >= 4
  {
    var q1 := FirstMark(v, i + 2);
    var q2 := FirstMark(v, q1 + 1);
    FirstMarkIs(v, i, i + 1);
    OneMark(v, i);
    OneMark(v, i + 2);
    OneMark(v, q1 + 1);
    OneMark(v, q2 + 1);
  }

  /** Behind the fourth mark from the end no word starts. */
  lemma {:induction false} FewMarks(v: string, i: nat)
    requires i <= |v| && |MarksFrom(v, i)| < 4
    ensures WordsFrom(v, i) == []
    decreases |v| - i
  {
    if i < |v| {
      if WordAt(v, i).Some? {
        FourMarks(v, i);
      }
      FewMarks(v, i + 1);
    }
  }

  lemma MarksFollow(v: string, q0: nat, marks: seq<nat>, k: nat)
    requires k + 3 < |marks| && q0 < |v| && marks[k + 1..] == MarksFrom(v, q0 + 1)
    ensures var q1, q2, q3 := marks[k + 1], marks[k + 2], marks[k + 3];
      && q0 < q1 < q2 < q3 < |v|
      && FirstMark(v, q0 + 1) == q1 && FirstMark(v, q1 + 1) == q2 && FirstMark(v, q2 + 1) == q3
  {
    var q1 := FirstMark(v, q0 + 1);
    var q2 := FirstMark(v, q1 + 1);
    assert marks[k + 1..] == [q1] + MarksFrom(v, q1 + 1);
    assert MarksFrom(v, q1 + 1) == [q2] + MarksFrom(v, q2 + 1);
  }

  lemma NextMark(v: string, at: nat, marks: seq<nat>, k: nat)
    requires at <= |v| && k < |marks| && MarksFrom(v, at) == marks[k..]
    ensures FirstMark(v, at) == marks[k] < |v| && MarksFrom(v, marks[k] + 1) == marks[k + 1..]
  {
    assert marks[k + 1..] == marks[k..][1..];
  }

  /** The words that start behind the mark in front of `at`. */
  function WordsBehind(v: string, at: nat): seq<Word>
    requires at <= |v|
  {
    WordsFrom(v, if at == 0 then 0 else at - 1)
  }

  function Found(before: seq<Word>, w: Option<Word>): seq<Word> {
    match w case None => before case Some(word) => before + [word]
  }

  /** From behind one mark to the next one: at most the word in front of it is new. */
  lemma NextWord(v: string, at: nat, before: seq<Word>)
    requires at <= |v| && 0 < FirstMark(v, at) < |v|
    ensures var q0 := FirstMark(v, at);
      before + WordsBehind(v, at) == Found(before, WordAt(v, q0 - 1)) + WordsFrom(v, q0)
  {
    var q0 := FirstMark(v, at);
    NoMarkBefore(v, at);
    NothingUntil(v, if at == 0 then 0 else at - 1, q0);
    match WordAt(v, q0 - 1)
    case None =>
    case Some(w) => assert before + ([w] + WordsFrom(v, q0)) == before + [w] + WordsFrom(v, q0);
  }

  lemma LastWord(v: string, q0: nat)
    requires 0 < q0 < |v| && v[q0] == '?' && v[q0 - 1] == '=' && |MarksFrom(v, q0 + 1)| < 3
    ensures WordAt(v, q0 - 1) == None && WordsFrom(v, q0) == []
  {
    FirstMarkIs(v, q0 - 1, q0);
    OneMark(v, q0 - 1);
    FewMarks(v, q0 - 1);
  }

  lemma NothingBehind(v: string, at: nat)
    requires at <= |v| && |MarksFrom(v, at)| < 3
    ensures WordsBehind(v, at) == []
  {
    if at > 0 && v[at - 1] == '?' {
      FirstMarkIs(v, at - 1, at - 1);
      OneMark(v, at - 1);
    }
    FewMarks(v, if at == 0 then 0 else at - 1);
  }

  /** The word in front of a mark that has three marks behind it. */
  method ReadWord(v: string, marks: seq<nat>, k: nat) returns (w: Option<Word>)
    requires k + 3 < |marks| && 0 < marks[k] < |v| && v[marks[k]] == '?' && v[marks[k] - 1] == '='
    requires MarksFrom(v, marks[k] + 1) == marks[k + 1..]
    ensures w == WordAt(v, marks[k] - 1)
  {
    var q0, q1, q2, q3 := marks[k], marks[k + 1], marks[k + 2], marks[k + 3];
    MarksFollow(v, q0, marks, k);
    MarksAround(v, q0 - 1, q1, q2, q3);
    if q3 + 1 >= |v| || v[q3 + 1] != '=' {
      return None;
    }
    var cte := v[q1 + 1..q2];
    assert |cte| == q2 - q1 - 1 && (|cte| > 0 ==> cte[0] == v[q1 + 1]);
    assert q2 == q1 + 2 ==> cte == [v[q1 + 1]];
    var base64 := false;
    if cte == "b" || cte == "B" {
      base64 := true;
    } else if cte != "q" && cte != "Q" {
      return None;
    }
    return Some(Word(q0 - 1, q3 + 2, v[q0 + 1..q1], base64, v[q2 + 1..q3]));
  }

  /** The word in front of a mark, if one ends in three of the marks behind it. */
  function WordInFront(v: string, q0: nat): Option<Word>
    requires q0 <= |v|
  {
    if q0 == 0 then None else WordAt(v, q0 - 1)
  }

  lemma MarkStep(v: string, at: nat, marks: seq<nat>, k: nat, before: seq<Word>)
    requires at <= |v| && k < |marks| && MarksFrom(v, at) == marks[k..]
    ensures marks[k] < |v| && v[marks[k]] == '?' && MarksFrom(v, marks[k] + 1) == marks[k + 1..]
    ensures before + WordsBehind(v, at) == Found(before, WordInFront(v, marks[k])) + WordsBehind(v, marks[k] + 1)
  {
    NextMark(v, at, marks, k);
    if marks[k] > 0 {
      NextWord(v, at, before);
    }
  }

  /** The word in front of mark `k`, and whether later marks can have one. */
  method ReadInFront(v: string, marks: seq<nat>, k: nat) returns (w: Option<Word>, more: bool)
    requires k < |marks| && marks[k] < |v| && v[marks[k]] == '?' && MarksFrom(v, marks[k] + 1) == marks[k + 1..]
    ensures w == WordInFront(v, marks[k])
    ensures !more ==> |marks| <= k + 3
  {
    var q0 := marks[k];
    if q0 == 0 || v[q0 - 1] != '=' {
      return None, true;
    }
    if |marks| <= k + 3 {
      LastWord(v, q0);
      return None, false;
    }
    w := ReadWord(v, marks, k);
    more := true;
  }

  method FindWords(v: string) returns (words: seq<Word>)
    ensures words == Words(v)
  {
    var marks := FindMarks(v);
    words := [];
    ghost var at: nat := 0;
    for k := 0 to |marks|
      invariant at <= |v| && MarksFrom(v, at) == marks[k..]
      invariant words + WordsBehind(v, at) == Words(v)
    {
      MarkStep(v, at, marks, k, words);
      var w, more := ReadInFront(v, marks, k);
      words := Found(words, w);
      at := marks[k] + 1;
      if !more {
        break;
      }
    }
    NothingBehind(v, at);
  }
}
