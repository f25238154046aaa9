/**
 Where words longer than 75 chars start in a text that is put together: in the text in front of a
 word, in the words of a split word, and in what follows them.
 */
module LongStarts {
  import opened Wrappers
  import opened EncodedWords
  import opened WordPieces
  import opened WordReadBack
  import opened WordForwarding

  /* ---- Words of a text behind another ---- */

  lemma {:induction false} FirstMarkShift(a: string, t: string, from: nat)
    requires from <= |t|
    ensures FirstMark(a + t, |a| + from) == |a| + FirstMark(t, from)
    decreases |t| - from
  {
    if from < |t| && t[from] != '?' {
      FirstMarkShift(a, t, from + 1);
    }
  }

  /** A word with more than 75 chars starts at `i`. */
  predicate StartsLong(t: string, i: nat)
    requires i < |t|
  {
    t[i] == '=' && i + 1 < |t| && t[i + 1] == '?' && LongFrom(t, i, FirstMark(t, i + 2))
  }

  /** The word that starts at `i` and whose second mark is `q1` is a long one. */
  predicate LongFrom(t: string, i: nat, q1: nat)
    requires q1 <= |t|
  {
    && q1 + 2 < |t| && t[q1 + 1] in {'b', 'B', 'q', 'Q'} && t[q1 + 2] == '?'
    && var q3 := FirstMark(t, q1 + 3); q3 + 1 < |t| && t[q3 + 1] == '=' && q3 + 2 > i + MAX_ENCODED_WORD
  }

  lemma StartsLongMeans(t: string, i: nat)
    requires i < |t|
    ensures StartsLong(t, i) <==>
      WordAt(t, i).Some? && WordAt(t, i).value.end > i + MAX_ENCODED_WORD
    ensures WordAt(t, i).Some? ==> WordAt(t, i).value.start == i
  {
    if t[i] == '=' && i + 1 < |t| && t[i + 1] == '?' {
      var q1 := FirstMark(t, i + 2);
      if q1 + 2 < |t| {
        assert t[q1 + 1] != '?' ==> FirstMark(t, q1 + 1) == FirstMark(t, q1 + 2);
        assert FirstMark(t, q1 + 2) == q1 + 2 <==> t[q1 + 2] == '?';
      }
    }
  }

  lemma LongShift(a: string, t: string, i: nat)
    requires i < |t|
    ensures StartsLong(a + t, |a| + i) == StartsLong(t, i)
  {
    if t[i] == '=' && i + 1 < |t| && t[i + 1] == '?' {
      var q1 := FirstMark(t, i + 2);
      FirstMarkShift(a, t, i + 2);
      if q1 + 2 < |t| {
        FirstMarkShift(a, t, q1 + 3);
      }
    }
  }

  ghost predicate HasNoLong(t: string) {
    forall i :: 0 <= i < |t| ==> !StartsLong(t, i)
  }

  /** No long word starts in the first `n` chars. */
  ghost predicate NoLongBefore(t: string, n: nat)
    requires n <= |t|
  {
    forall i :: 0 <= i < n ==> !StartsLong(t, i)
  }

  lemma NoLongSplits(a: string, t: string)
    ensures HasNoLong(a + t) <==> NoLongBefore(a + t, |a|) && HasNoLong(t)
  {
    forall i | 0 <= i < |t| ensures StartsLong(a + t, |a| + i) == StartsLong(t, i) {
      LongShift(a, t, i);
    }
    if NoLongBefore(a + t, |a|) && HasNoLong(t) {
      forall i | 0 <= i < |a + t| ensures !StartsLong(a + t, i) {
        if i >= |a| {
          assert !StartsLong(t, i - |a|);
        }
      }
    }
    if HasNoLong(a + t) {
      forall i | 0 <= i < |t| ensures !StartsLong(t, i) {
        assert !StartsLong(a + t, |a| + i);
      }
    }
  }

  lemma NoLongJoins(a: string, t: string, n: nat)
    requires n <= |t|
    ensures NoLongBefore(a + t, |a| + n) <==> NoLongBefore(a + t, |a|) && NoLongBefore(t, n)
  {
    forall i | 0 <= i < n ensures StartsLong(a + t, |a| + i) == StartsLong(t, i) {
      LongShift(a, t, i);
    }
    if NoLongBefore(a + t, |a|) && NoLongBefore(t, n) {
      forall i | 0 <= i < |a| + n ensures !StartsLong(a + t, i) {
        if i >= |a| {
          assert !StartsLong(t, i - |a|);
        }
      }
    }
    if NoLongBefore(a + t, |a| + n) {
      forall i | 0 <= i < n ensures !StartsLong(t, i) {
        assert !StartsLong(a + t, |a| + i);
      }
    }
  }

  /* ---- The text between long words ---- */

  lemma {:induction false} FirstMarkFront(a: string, t: string, from: nat)
    requires from <= |a|
    ensures FirstMark(a + t, from) == if FirstMark(a, from) < |a| then FirstMark(a, from) else |a| + FirstMark(t, 0)
    decreases |a| - from
  {
    if from == |a| {
      FirstMarkShift(a, t, 0);
    } else if a[from] != '?' {
      FirstMarkFront(a, t, from + 1);
    }
  }

  /** The start of a word in a charset that a word may have. */
  ghost predicate OpensWord(t: string, charset: string) {
    && |charset| > 1 && '?' !in charset && charset[0] != '='
    && |t| > |charset| + 2 && t[0] == '=' && t[1] == '?' && t[2..2 + |charset|] == charset
  }

  lemma OpeningMarks(t: string, charset: string)
    requires OpensWord(t, charset)
    ensures FirstMark(t, 0) == 1 && t[2] != '=' && t[2] != '?' && t[3] != '?'
  {
    FirstMarkIs(t, 0, 1);
    assert t[2..2 + |charset|][0] == t[2] && t[2..2 + |charset|][1] == t[3];
    assert charset[0] in charset && charset[1] in charset;
  }

  /** In front of the start of a word and a space, long words are those of the text alone. */
  lemma GapAlone(gap: string, t: string, charset: string, i: nat)
    requires i < |gap| && IsSpace(gap[|gap| - 1]) && OpensWord(t, charset)
    ensures StartsLong(gap + t, i) == StartsLong(gap, i)
  {
    OpeningMarks(t, charset);
    if gap[i] == '=' && gap[i + 1] == '?' {
      FirstMarkFront(gap, t, i + 2);
      var q1 := FirstMark(gap, i + 2);
      if q1 < |gap| {
        GapAloneFrom(gap, t, charset, i, q1);
      }
    }
  }

  lemma GapAloneFrom(gap: string, t: string, charset: string, i: nat, q1: nat)
    requires i < |gap| && q1 < |gap| && IsSpace(gap[|gap| - 1]) && OpensWord(t, charset)
    ensures LongFrom(gap + t, i, q1) == LongFrom(gap, i, q1)
  {
    OpeningMarks(t, charset);
    if q1 + 2 < |gap| {
      FirstMarkFront(gap, t, q1 + 3);
    }
  }

  lemma GapsAgree(gap: string, t: string, u: string, charset: string)
    requires gap == "" || IsSpace(gap[|gap| - 1])
    requires OpensWord(t, charset) && OpensWord(u, charset)
    ensures NoLongBefore(gap + t, |gap|) <==> NoLongBefore(gap + u, |gap|)
  {
    forall i | 0 <= i < |gap| ensures StartsLong(gap + t, i) == StartsLong(gap + u, i) {
      GapAlone(gap, t, charset, i);
      GapAlone(gap, u, charset, i);
    }
    if NoLongBefore(gap + t, |gap|) {
      forall i | 0 <= i < |gap| ensures !StartsLong(gap + u, i) {
        assert !StartsLong(gap + t, i);
      }
    }
    if NoLongBefore(gap + u, |gap|) {
      forall i | 0 <= i < |gap| ensures !StartsLong(gap + t, i) {
        assert !StartsLong(gap + u, i);
      }
    }
  }

  /* ---- The words of a split word ---- */

  /** A short base64 word of the text. */
  ghost predicate StandsShort(t: string, charset: string, text: string) {
    && Stands(t, 0, charset, text) && '?' !in charset && |charset| > 1 && IsPlainText(text)
    && |charset| + |text| + 7 <= MAX_ENCODED_WORD
  }

  /** In a short word nothing long starts, but perhaps at the last char of its text. */
  lemma InWord(t: string, charset: string, text: string, i: nat)
    requires StandsShort(t, charset, text) && i < |charset| + |text| + 6 && i != |charset| + |text| + 4
    ensures !StartsLong(t, i)
  {
    var q1 := 2 + |charset|;
    var q3 := q1 + 3 + |text|;
    MarksLaidOut(t, 0, charset, text);
    if i > 0 && t[i] == '=' && t[i + 1] == '?' {
      NoMarkBefore(t, 2);
      NoMarkBefore(t, q1 + 3);
      assert i + 1 == q1;
      assert t[q1 + 3..q3][1] == t[q1 + 4];
    }
  }

  /** A word with a space and another word behind it: nothing long starts in it. */
  lemma InnerWord(t: string, charset: string, text: string, u: string)
    requires StandsShort(t, charset, text) && OpensWord(u, charset)
    requires |t| > |charset| + |text| + 7 && t[|charset| + |text| + 7] == ' ' && t[|charset| + |text| + 8..] == u
    ensures NoLongBefore(t, |charset| + |text| + 8)
  {
    var n := |charset| + |text| + 7;
    OpeningMarks(u, charset);
    assert forall k :: 0 <= k < |u| ==> u[k] == t[n + 1 + k];
    forall i | 0 <= i <= n ensures !StartsLong(t, i) {
      if i < n - 1 && i != n - 3 {
        InWord(t, charset, text, i);
      } else if i == n - 3 {
        FirstMarkIs(t, n - 1, n + 2);
      }
    }
  }

  lemma LongInTail(t: string, i: nat, tail: string)
    requires i < |t| && t[i..] == tail
    ensures StartsLong(t, i) == StartsLong(tail, 0)
  {
    assert t == t[..i] + tail;
    LongShift(t[..i], tail, 0);
  }

  /** In the last word, only at its padding a long word can start. */
  lemma OnlyAtPadding(t: string, charset: string, text: string, i: nat)
    requires StandsShort(t, charset, text) && i < |charset| + |text| + 7 && i != |charset| + |text| + 4
    requires |t| == |charset| + |text| + 7 || IsSpace(t[|charset| + |text| + 7])
    ensures !StartsLong(t, i)
  {
    if i < |charset| + |text| + 6 {
      InWord(t, charset, text, i);
    }
  }

  lemma LastChars(t: string, charset: string, text: string)
    requires StandsShort(t, charset, text)
    ensures var n := |charset| + |text| + 7;
      n <= |t| && t[n - 3] == text[|text| - 1] && t[n - 2] == '?' && t[n - 1] == '='
  {
    assert t[|charset| + 5..|charset| + 5 + |text|][|text| - 1] == t[|charset| + |text| + 4];
  }

  lemma AtPadding(t: string, charset: string, text: string, rest: string)
    requires StandsShort(t, charset, text) && t[|charset| + |text| + 7..] == rest
    ensures StartsLong(t, |charset| + |text| + 4) <==> EndsPadded(text) && StartsLong("=?=" + rest, 0)
  {
    LastChars(t, charset, text);
    AtLastChar(t, |charset| + |text| + 4, rest);
  }

  lemma AtLastChar(t: string, i: nat, rest: string)
    requires i + 3 <= |t| && t[i + 1] == '?' && t[i + 2] == '=' && t[i + 3..] == rest
    ensures StartsLong(t, i) <==> t[i] == '=' && StartsLong("=?=" + rest, 0)
  {
    if t[i] == '=' {
      assert t[i..] == t[i..i + 3] + rest && t[i..i + 3] == "=?=";
      LongInTail(t, i, "=?=" + rest);
    }
  }

  lemma LastInBlock(t: string, charset: string, text: string, rest: string)
    requires StandsShort(t, charset, text) && t[|charset| + |text| + 7..] == rest
    requires rest == "" || IsSpace(rest[0])
    ensures NoLongBefore(t, |charset| + |text| + 7) <==> (EndsPadded(text) ==> !StartsLong("=?=" + rest, 0))
  {
    var n := |charset| + |text| + 7;
    AtPadding(t, charset, text, rest);
    assert rest != "" ==> t[n] == rest[0];
    forall i | 0 <= i < n && i != n - 3 ensures !StartsLong(t, i) {
      OnlyAtPadding(t, charset, text, i);
    }
  }

  /* ---- A split word and what follows it ---- */

  /** Texts that are written as short words. */
  ghost predicate AllFit(charset: string, texts: seq<string>) {
    forall i :: 0 <= i < |texts| ==> IsPlainText(texts[i]) && |charset| + |texts[i]| + 7 <= MAX_ENCODED_WORD
  }

  ghost predicate IsCharset(charset: string) {
    '?' !in charset && |charset| > 1 && charset[0] != '='
  }

  lemma BlockOpens(charset: string, texts: seq<string>, rest: string)
    requires texts != [] && IsCharset(charset)
    ensures OpensWord(WriteWords(charset, texts) + rest, charset) && WriteWords(charset, texts) != ""
  {
    var word, t := WriteWord(charset, texts[0]), WriteWords(charset, texts) + rest;
    LaidOut(charset, texts[0]);
    assert word <= WriteWords(charset, texts);
    assert t[0..|word|] == word;
    WrittenStands(t, 0, charset, texts[0]);
  }

  lemma OneStandsShort(charset: string, text: string, rest: string)
    requires IsCharset(charset) && AllFit(charset, [text])
    ensures StandsShort(WriteWord(charset, text) + rest, charset, text)
    ensures |WriteWord(charset, text)| == |charset| + |text| + 7
  {
    var t := WriteWord(charset, text) + rest;
    LaidOut(charset, text);
    assert t[0..|WriteWord(charset, text)|] == WriteWord(charset, text);
    WrittenStands(t, 0, charset, text);
    assert AllFit(charset, [text]) && [text][0] == text;
  }

  lemma FirstInBlock(charset: string, texts: seq<string>, rest: string)
    requires |texts| > 1 && IsCharset(charset) && AllFit(charset, texts)
    ensures var u, n := WriteWords(charset, texts[1..]) + rest, |charset| + |texts[0]| + 8;
      && WriteWords(charset, texts) + rest == WriteWord(charset, texts[0]) + " " + u
      && |WriteWord(charset, texts[0]) + " "| == n
      && NoLongBefore(WriteWord(charset, texts[0]) + " " + u, n)
  {
    var word, u := WriteWord(charset, texts[0]), WriteWords(charset, texts[1..]) + rest;
    assert WriteWords(charset, texts) + rest == word + " " + u;
    assert word + " " + u == word + (" " + u);
    OneStandsShort(charset, texts[0], " " + u);
    BlockOpens(charset, texts[1..], rest);
    InnerWord(word + " " + u, charset, texts[0], u);
  }

  lemma LastOfBlock(charset: string, text: string, rest: string)
    requires IsCharset(charset) && AllFit(charset, [text]) && (rest == "" || IsSpace(rest[0]))
    ensures NoLongBefore(WriteWord(charset, text) + rest, |WriteWord(charset, text)|) <==>
      (EndsPadded(text) ==> !StartsLong("=?=" + rest, 0))
  {
    var word := WriteWord(charset, text);
    OneStandsShort(charset, text, rest);
    assert (word + rest)[|word|..] == rest;
    LastInBlock(word + rest, charset, text, rest);
  }

  /** The first word of several adds nothing. */
  lemma FirstOfBlock(charset: string, texts: seq<string>, rest: string)
    requires |texts| > 1 && IsCharset(charset) && AllFit(charset, texts)
    ensures var block, u := WriteWords(charset, texts), WriteWords(charset, texts[1..]);
      NoLongBefore(block + rest, |block|) <==> NoLongBefore(u + rest, |u|)
  {
    var u, head := WriteWords(charset, texts[1..]), WriteWord(charset, texts[0]) + " ";
    FirstInBlock(charset, texts, rest);
    NoLongJoins(head, u + rest, |u|);
    assert WriteWords(charset, texts) == head + u;
  }

  /** In a split word a long word can only start at the padding of its last word. */
  lemma {:induction false} BlockHolds(charset: string, texts: seq<string>, rest: string)
    requires texts != [] && IsCharset(charset) && AllFit(charset, texts)
    requires rest == "" || IsSpace(rest[0])
    ensures NoLongBefore(WriteWords(charset, texts) + rest, |WriteWords(charset, texts)|) <==>
      (EndsPadded(texts[|texts| - 1]) ==> !StartsLong("=?=" + rest, 0))
    decreases |texts|
  {
    if |texts| == 1 {
      assert texts == [texts[0]];
      LastOfBlock(charset, texts[0], rest);
    } else {
      FirstOfBlock(charset, texts, rest);
      BlockHolds(charset, texts[1..], rest);
    }
  }

  predicate EndsPadded(text: string) {
    text != "" && text[|text| - 1] == '='
  }
}
