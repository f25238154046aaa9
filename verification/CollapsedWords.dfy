/**
 Collapsing the whitespace of a display name makes and breaks no encoded word, and does not make its
 lines longer: an automaton that looks for a word does not see how long a run of whitespace is.
 */
module CollapsedWords {
  import opened Address
  import opened AddressReadBack
  import opened AddressFixpoint
  import opened AddressHeader
  import EncodedWords

  /* ---- An automaton for words ---- */

  /**
   What was read last: a `=`; the start of a word and its charset; the second mark; the letter behind
   it; the third mark and the text; the fourth mark; and whether a word was read.
   */
  datatype Progress = Progress(
    equals: bool, charset: bool, second: bool, letter: bool, text: bool, fourth: bool, found: bool)

  const NOTHING := Progress(false, false, false, false, false, false, false)

  predicate IsLetter(c: char) {
    c in {'b', 'B', 'q', 'Q'}
  }

  function Step(p: Progress, c: char): Progress {
    Progress(
      c == '=',
      if c == '?' then p.equals else p.charset,
      c == '?' && p.charset,
      IsLetter(c) && p.second,
      if c == '?' then p.letter else p.text,
      c == '?' && p.text,
      p.found || (c == '=' && p.fourth))
  }

  function Scan(t: string, i: nat, p: Progress): Progress
    requires i <= |t|
    decreases |t| - i
  {
    if i == |t| then p else Scan(t, i + 1, Step(p, t[i]))
  }

  lemma {:induction false} ScanJoins(a: string, b: string, i: nat, p: Progress)
    requires i <= |a|
    ensures Scan(a + b, i, p) == Scan(a + b, |a|, Scan(a, i, p))
    decreases |a| - i
  {
    if i < |a| {
      ScanJoins(a, b, i + 1, Step(p, a[i]));
    }
  }

  lemma {:induction false} ScanShift(a: string, b: string, i: nat, p: Progress)
    requires i <= |b|
    ensures Scan(a + b, |a| + i, p) == Scan(b, i, p)
    decreases |b| - i
  {
    if i < |b| {
      ScanShift(a, b, i + 1, Step(p, b[i]));
    }
  }

  /* ---- What the automaton knows ---- */

  ghost predicate NoMark(t: string, from: nat, end: nat)
    requires from <= end <= |t|
  {
    forall k :: from <= k < end ==> t[k] != '?'
  }

  /** A word may have started at `i`, and `n` is in its charset. */
  ghost predicate OpensAt(t: string, i: nat, n: nat)
    requires n <= |t|
  {
    i + 2 <= n && t[i] == '=' && t[i + 1] == '?' && NoMark(t, i + 2, n)
  }

  ghost predicate InCharset(t: string, n: nat)
    requires n <= |t|
  {
    exists i: nat :: OpensAt(t, i, n)
  }

  ghost predicate BehindSecond(t: string, n: nat)
    requires n <= |t|
  {
    n > 0 && t[n - 1] == '?' && InCharset(t, n - 1)
  }

  ghost predicate BehindLetter(t: string, n: nat)
    requires n <= |t|
  {
    n > 0 && IsLetter(t[n - 1]) && BehindSecond(t, n - 1)
  }

  /** The text of a word may have started at `m`, and `n` is in it. */
  ghost predicate TextFrom(t: string, m: nat, n: nat)
    requires n <= |t|
  {
    0 < m <= n && t[m - 1] == '?' && BehindLetter(t, m - 1) && NoMark(t, m, n)
  }

  ghost predicate InText(t: string, n: nat)
    requires n <= |t|
  {
    exists m: nat :: TextFrom(t, m, n)
  }

  ghost predicate BehindFourth(t: string, n: nat)
    requires n <= |t|
  {
    n > 0 && t[n - 1] == '?' && InText(t, n - 1)
  }

  ghost predicate EndsAt(t: string, m: nat)
    requires m <= |t|
  {
    m > 0 && t[m - 1] == '=' && BehindFourth(t, m - 1)
  }

  ghost predicate FoundBefore(t: string, n: nat)
    requires n <= |t|
  {
    exists m: nat :: m <= n && EndsAt(t, m)
  }

  ghost predicate Knows(p: Progress, t: string, n: nat)
    requires n <= |t|
  {
    && (p.equals <==> n > 0 && t[n - 1] == '=')
    && (p.charset <==> InCharset(t, n)) && (p.second <==> BehindSecond(t, n))
    && (p.letter <==> BehindLetter(t, n)) && (p.text <==> InText(t, n))
    && (p.fourth <==> BehindFourth(t, n)) && (p.found <==> FoundBefore(t, n))
  }

  lemma CharsetStep(t: string, n: nat)
    requires n < |t|
    ensures InCharset(t, n + 1) <==>
      if t[n] == '?' then n > 0 && t[n - 1] == '=' else InCharset(t, n)
  {
    if t[n] == '?' {
      if n > 0 && t[n - 1] == '=' {
        assert OpensAt(t, n - 1, n + 1);
      }
    } else {
      if InCharset(t, n) {
        var i: nat :| OpensAt(t, i, n);
        assert OpensAt(t, i, n + 1);
      }
      if InCharset(t, n + 1) {
        var i: nat :| OpensAt(t, i, n + 1);
        assert OpensAt(t, i, n);
      }
    }
  }

  lemma TextStep(t: string, n: nat)
    requires n < |t|
    ensures InText(t, n + 1) <==> if t[n] == '?' then BehindLetter(t, n) else InText(t, n)
  {
    if t[n] == '?' {
      if BehindLetter(t, n) {
        assert TextFrom(t, n + 1, n + 1);
      }
    } else {
      if InText(t, n) {
        var m: nat :| TextFrom(t, m, n);
        assert TextFrom(t, m, n + 1);
      }
      if InText(t, n + 1) {
        var m: nat :| TextFrom(t, m, n + 1);
        assert TextFrom(t, m, n);
      }
    }
  }

  lemma FoundStep(t: string, n: nat)
    requires n < |t|
    ensures FoundBefore(t, n + 1) <==> FoundBefore(t, n) || EndsAt(t, n + 1)
  {
    if FoundBefore(t, n + 1) && !EndsAt(t, n + 1) {
      var m: nat :| m <= n + 1 && EndsAt(t, m);
    }
  }

  lemma KnowsStep(t: string, n: nat, p: Progress)
    requires n < |t| && Knows(p, t, n)
    ensures Knows(Step(p, t[n]), t, n + 1)
  {
    CharsetStep(t, n);
    TextStep(t, n);
    FoundStep(t, n);
  }

  lemma {:induction false} ScanKnows(t: string, n: nat, p: Progress)
    requires n <= |t| && Knows(p, t, n)
    ensures Knows(Scan(t, n, p), t, |t|)
    decreases |t| - n
  {
    if n < |t| {
      KnowsStep(t, n, p);
      ScanKnows(t, n + 1, Step(p, t[n]));
    }
  }

  lemma WordFound(t: string, w: EncodedWords.Word)
    requires EncodedWords.IsWord(t, w)
    ensures EndsAt(t, w.end)
  {
    var c :| EncodedWords.IsCte(c, w.base64) && t[w.start..w.end] == "=?" + w.charset + "?" + [c] + "?" + w.text + "?=";
    assert |t[w.start..w.end]| == |w.charset| + |w.text| + 7;
    EncodedWords.Layout(t, w.start, w.charset, c, w.text);
    var q1 := w.start + 2 + |w.charset|;
    forall k | w.start + 2 <= k < q1 ensures t[k] != '?' {
      assert t[w.start + 2..q1][k - w.start - 2] == t[k];
    }
    forall k | q1 + 3 <= k < q1 + 3 + |w.text| ensures t[k] != '?' {
      assert t[q1 + 3..q1 + 3 + |w.text|][k - q1 - 3] == t[k];
    }
    assert OpensAt(t, w.start, q1);
    assert TextFrom(t, q1 + 3, q1 + 3 + |w.text|);
  }

  lemma WordBetweenMarks(t: string, i: nat, m: nat, end: nat) returns (w: EncodedWords.Word)
    requires 3 < m && m + 1 < end <= |t| && t[end - 2] == '?' && t[end - 1] == '='
    requires OpensAt(t, i, m - 3) && TextFrom(t, m, end - 2)
    ensures EncodedWords.IsWord(t, w)
  {
    var c := t[m - 2];
    w := EncodedWords.Word(i, end, t[i + 2..m - 3], c == 'b' || c == 'B', t[m..end - 2]);
    EncodedWords.ShapeBetween(t, i, m - 3, m - 1, end - 2);
    assert EncodedWords.IsCte(c, w.base64);
  }

  lemma FoundWord(t: string, end: nat) returns (w: EncodedWords.Word)
    requires end <= |t| && EndsAt(t, end)
    ensures EncodedWords.IsWord(t, w)
  {
    var m: nat :| TextFrom(t, m, end - 2);
    var i: nat :| OpensAt(t, i, m - 3);
    w := WordBetweenMarks(t, i, m, end);
  }

  /** The automaton finds a word exactly if the text holds one. */
  lemma ScanFinds(t: string)
    ensures Scan(t, 0, NOTHING).found <==> HoldsWord(t)
  {
    ScanKnows(t, 0, NOTHING);
    EncodedWords.WordsExact(t);
    if HoldsWord(t) {
      var w := EncodedWords.Words(t)[0];
      assert w in EncodedWords.Words(t);
      WordFound(t, w);
    }
    if FoundBefore(t, |t|) {
      var m: nat :| m <= |t| && EndsAt(t, m);
      var w := FoundWord(t, m);
      assert w in EncodedWords.Words(t);
    }
  }

  /* ---- Whitespace ---- */

  /** A state that whitespace does not change. */
  ghost predicate IsSettled(p: Progress) {
    !p.equals && !p.second && !p.letter && !p.fourth
  }

  lemma SpaceSettles(p: Progress, c: char)
    requires IsWsp(c)
    ensures IsSettled(Step(p, c)) && Step(p, c) == Step(p, ' ')
    ensures IsSettled(p) ==> Step(p, c) == p
    ensures Step(p, c).found == p.found
  {
  }

  lemma {:induction false} OnlySpaces(t: string, i: nat, p: Progress)
    requires i <= |t| && WordsOf(t, i) == []
    ensures Scan(t, i, p).found == p.found
    decreases |t| - i
  {
    if i < |t| {
      SpaceSettles(p, t[i]);
      OnlySpaces(t, i + 1, Step(p, t[i]));
    }
  }

  /** Reading a word of a text, and reading it alone. */
  lemma {:induction false} ScanWord(t: string, i: nat, end: nat, p: Progress)
    requires i <= end <= |t|
    ensures Scan(t, i, p) == Scan(t, end, Scan(t[i..end], 0, p))
    decreases end - i
  {
    if i < end {
      var rest := t[i + 1..end];
      ScanWord(t, i + 1, end, Step(p, t[i]));
      assert t[i..end] == [t[i]] + rest;
      ScanShift([t[i]], rest, 0, Step(p, t[i]));
    }
  }

  lemma ScanThen(a: string, b: string, p: Progress)
    ensures Scan(a + b, 0, p) == Scan(b, 0, Scan(a, 0, p))
  {
    ScanJoins(a, b, 0, p);
    ScanShift(a, b, 0, Scan(a, 0, p));
  }

  lemma ScanSpace(b: string, p: Progress)
    ensures Scan(" " + b, 0, p) == Scan(b, 0, Step(p, ' '))
  {
    ScanThen(" ", b, p);
    assert Scan(" ", 0, p) == Step(p, ' ');
  }

  /** Behind a word: the whitespace, and the words behind it, joined. */
  lemma BehindWord(t: string, end: nat, p: Progress)
    requires end < |t| && IsWsp(t[end]) && WordsOf(t, end) != []
    requires Scan(t, end + 1, Step(p, ' ')).found == Scan(Join(WordsOf(t, end + 1)), 0, Step(p, ' ')).found
    ensures Scan(t, end, p).found == Scan(" " + Join(WordsOf(t, end)), 0, p).found
  {
    SpaceSettles(p, t[end]);
    ScanSpace(Join(WordsOf(t, end)), p);
  }

  /** From a settled state on, the automaton finds a word in a text exactly if it does in the collapsed text. */
  lemma {:induction false} CollapsedScan(t: string, i: nat, p: Progress)
    requires i <= |t| && IsSettled(p)
    ensures Scan(t, i, p).found == Scan(Join(WordsOf(t, i)), 0, p).found
    decreases |t| - i
  {
    if i < |t| {
      if IsWsp(t[i]) {
        SpaceSettles(p, t[i]);
        CollapsedScan(t, i + 1, p);
      } else {
        var end := WordEnd(t, i + 1);
        var word, rest := t[i..end], WordsOf(t, end);
        var after := Scan(word, 0, p);
        ScanWord(t, i, end, p);
        WordEndInk(t, i + 1);
        if rest == [] {
          OnlySpaces(t, end, after);
          assert [word] + rest == [word];
        } else {
          SpaceSettles(after, ' ');
          CollapsedScan(t, end + 1, Step(after, ' '));
          BehindWord(t, end, after);
          ScanThen(word, " " + Join(rest), p);
          JoinFirst(word, rest);
        }
      }
    }
  }

  lemma JoinFirst(word: string, rest: seq<string>)
    requires rest != []
    ensures Join([word] + rest) == word + (" " + Join(rest))
  {
    assert ([word] + rest)[1..] == rest;
    assert word + " " + Join(rest) == word + (" " + Join(rest));
  }

  /** Collapsing makes and breaks no word. */
  lemma CollapseKeepsWords(t: string)
    ensures HoldsWord(Collapse(t)) <==> HoldsWord(t)
  {
    ScanFinds(t);
    ScanFinds(Collapse(t));
    CollapsedScan(t, 0, NOTHING);
  }

  /* ---- Lines ---- */

  /** The words fit their lines, each with a space in front but the first. */
  ghost predicate WordsFit(words: seq<string>, first: bool, reserve: nat) {
    words == [] ||
    (reserve + |words[0]| + (if first then 0 else 1) <= MAX_LINE && WordsFit(words[1..], false, reserve))
  }

  /** Reading a word, or the rest of one. */
  lemma {:induction false} InkFits(t: string, i: nat, end: nat, run: nat, inWord: bool, reserve: nat)
    requires i < end <= |t| && forall k :: i <= k < end ==> !IsWsp(t[k])
    ensures RunsFit(t, i, run, inWord, reserve) <==>
      reserve + run + (end - i) <= MAX_LINE && RunsFit(t, end, run + (end - i), true, reserve)
    decreases end - i
  {
    if i + 1 < end {
      InkFits(t, i + 1, end, run + 1, true, reserve);
    }
  }

  /** A text that fits its lines has words that fit theirs. */
  lemma {:induction false} FittingWords(t: string, i: nat, run: nat, inWord: bool, first: bool, reserve: nat)
    requires i <= |t| && RunsFit(t, i, run, inWord, reserve)
    requires first || (i < |t| && IsWsp(t[i])) || i == |t| || run > 0
    ensures WordsFit(WordsOf(t, i), first, reserve)
    decreases |t| - i
  {
    if i < |t| {
      if IsWsp(t[i]) {
        FittingWords(t, i + 1, if t[i] == ' ' && inWord then 1 else run + 1, t[i] != ' ', first, reserve);
      } else {
        var end := WordEnd(t, i + 1);
        WordEndInk(t, i + 1);
        InkFits(t, i, end, run, inWord, reserve);
        FittingWords(t, end, run + (end - i), true, false, reserve);
        var rest := WordsOf(t, end);
        assert ([t[i..end]] + rest)[1..] == rest;
      }
    }
  }

  /** Words that fit their lines, joined from `i` on. */
  lemma {:induction false} JoinedFits(t: string, i: nat, words: seq<string>, inWord: bool, run: nat, reserve: nat)
    requires i <= |t| && AllInk(words) && reserve + run <= MAX_LINE
    requires if inWord then WordsFit(words, false, reserve) && t[i..] == (if words == [] then "" else " " + Join(words))
      else WordsFit(words, true, reserve) && run == 0 && t[i..] == Join(words)
    ensures RunsFit(t, i, run, inWord, reserve)
    decreases |words|, inWord
  {
    if words != [] {
      if inWord {
        assert t[i..][0] == ' ' && t[i + 1..] == t[i..][1..] == Join(words);
      }
      var spaces := if inWord then 1 else 0;
      var end := i + spaces + |words[0]|;
      FirstJoined(t, i + spaces, words);
      InkFits(t, i + spaces, end, spaces, false, reserve);
      JoinedFits(t, end, words[1..], true, spaces + |words[0]|, reserve);
    }
  }

  lemma FirstJoined(t: string, i: nat, words: seq<string>)
    requires i <= |t| && words != [] && AllInk(words) && t[i..] == Join(words)
    ensures var end := i + |words[0]|;
      && i < end <= |t| && (forall k :: i <= k < end ==> !IsWsp(t[k]))
      && t[end..] == (if words[1..] == [] then "" else " " + Join(words[1..])) && AllInk(words[1..])
  {
    var word := words[0];
    assert IsInk(word) && AllInk(words[1..]);
    var rest := if words[1..] == [] then "" else " " + Join(words[1..]);
    assert t[i..] == word + rest;
    forall k | i <= k < i + |word| ensures !IsWsp(t[k]) {
      assert t[i..][k - i] == word[k - i];
    }
    assert t[i + |word|..] == t[i..][|word|..];
  }

  lemma CollapseFits(t: string, reserve: nat)
    requires RunsFit(t, 0, 0, false, reserve)
    ensures RunsFit(Collapse(t), 0, 0, false, reserve)
  {
    FittingWords(t, 0, 0, false, true, reserve);
    WordsAreInk(t, 0);
    if WordsOf(t, 0) != [] {
      assert Collapse(t)[0..] == Join(WordsOf(t, 0));
      JoinedFits(Collapse(t), 0, WordsOf(t, 0), false, 0, reserve);
    }
  }
}
