/**
 The whitespace of display names: collapsing it twice is collapsing it once, and it changes nothing
 exactly for the names that are quoted or have no whitespace to collapse.
 */
module AddressFixpoint {
  import opened Address
  import opened AddressPrinter
  import opened AddressReadBack

  /* ---- Words ---- */

  predicate IsInk(word: string) {
    word != "" && forall i :: 0 <= i < |word| ==> !IsWsp(word[i])
  }

  predicate AllInk(words: seq<string>) {
    forall i :: 0 <= i < |words| ==> IsInk(words[i])
  }

  lemma {:induction false} WordEndInk(text: string, i: nat)
    requires i <= |text|
    ensures forall k :: i <= k < WordEnd(text, i) ==> !IsWsp(text[k])
    ensures WordEnd(text, i) < |text| ==> IsWsp(text[WordEnd(text, i)])
    decreases |text| - i
  {
    if i < |text| && !IsWsp(text[i]) {
      WordEndInk(text, i + 1);
    }
  }

  lemma {:induction false} WordsAreInk(text: string, i: nat)
    requires i <= |text|
    ensures AllInk(WordsOf(text, i))
    decreases |text| - i
  {
    if i < |text| {
      if IsWsp(text[i]) {
        WordsAreInk(text, i + 1);
      } else {
        WordEndInk(text, i + 1);
        WordsAreInk(text, WordEnd(text, i + 1));
      }
    }
  }

  /** `rest` is the text from `n` on. */
  ghost predicate IsRest(text: string, rest: string, n: nat) {
    n + |rest| == |text| && forall k :: 0 <= k < |rest| ==> rest[k] == text[n + k]
  }

  lemma {:induction false} WordEndShift(text: string, rest: string, n: nat, i: nat)
    requires IsRest(text, rest, n) && i <= |rest|
    ensures WordEnd(text, n + i) == n + WordEnd(rest, i)
    decreases |rest| - i
  {
    if i < |rest| {
      WordEndShift(text, rest, n, i + 1);
    }
  }

  /** The words from the start of one on. */
  lemma FirstOfWords(text: string, i: nat, end: nat)
    requires i < end <= |text| && !IsWsp(text[i]) && end == WordEnd(text, i + 1)
    ensures WordsOf(text, i) == [text[i..end]] + WordsOf(text, end)
  {
  }

  lemma WordShift(text: string, rest: string, n: nat, i: nat, end: nat)
    requires IsRest(text, rest, n) && i < end <= |rest| && !IsWsp(rest[i]) && end == WordEnd(rest, i + 1)
    requires WordsOf(text, n + end) == WordsOf(rest, end)
    ensures WordsOf(text, n + i) == WordsOf(rest, i)
  {
    WordEndShift(text, rest, n, i + 1);
    FirstOfWords(text, n + i, n + end);
    FirstOfWords(rest, i, end);
    assert text[n + i..n + end] == rest[i..end];
  }

  lemma {:induction false} WordsShift(text: string, rest: string, n: nat, i: nat)
    requires IsRest(text, rest, n) && i <= |rest|
    ensures WordsOf(text, n + i) == WordsOf(rest, i)
    decreases |rest| - i
  {
    if i < |rest| {
      if IsWsp(rest[i]) {
        WordsShift(text, rest, n, i + 1);
      } else {
        var end := WordEnd(rest, i + 1);
        WordsShift(text, rest, n, end);
        WordShift(text, rest, n, i, end);
      }
    }
  }

  /** The first word of a text that starts with it and then ends or has a space. */
  lemma {:induction false} WordEndAt(text: string, i: nat, end: nat)
    requires i <= end <= |text| && (end < |text| ==> IsWsp(text[end]))
    requires forall k :: i <= k < end ==> !IsWsp(text[k])
    ensures WordEnd(text, i) == end
    decreases end - i
  {
    if i < end {
      WordEndAt(text, i + 1, end);
    }
  }

  /** Splitting joined words gives back the words. */
  lemma {:induction false} WordsOfJoin(words: seq<string>)
    requires AllInk(words)
    ensures WordsOf(Join(words), 0) == words
  {
    if words != [] {
      var text, word, rest := Join(words), words[0], words[1..];
      assert forall k :: 0 <= k < |word| ==> text[k] == word[k];
      assert IsInk(word);
      WordEndAt(text, 1, |word|);
      assert text[0..|word|] == word;
      if rest != [] {
        WordsOfJoin(rest);
        WordsShift(text, Join(rest), |word| + 1, 0);
      }
    }
  }

  /* ---- Tidy names ---- */

  predicate TidyAt(text: string, i: nat)
    requires i < |text|
  {
    text[i] != '\t' && (text[i] == ' ' ==> 0 < i && i + 1 < |text| && text[i + 1] != ' ')
  }

  /** No TAB, no space at an end, no two spaces together. */
  predicate IsTidy(text: string) {
    forall i :: 0 <= i < |text| ==> TidyAt(text, i)
  }

  lemma TidyBehind(word: string, rest: string)
    requires IsInk(word) && IsTidy(rest) && rest != "" && !IsWsp(rest[0])
    ensures IsTidy(word + " " + rest)
  {
    var text := word + " " + rest;
    forall i | 0 <= i < |text|
      ensures TidyAt(text, i)
    {
      if i < |word| {
        assert text[i] == word[i];
      } else if i > |word| {
        assert text[i] == rest[i - |word| - 1] && TidyAt(rest, i - |word| - 1);
      }
    }
  }

  lemma {:induction false} JoinIsTidy(words: seq<string>)
    requires AllInk(words)
    ensures IsTidy(Join(words))
    ensures words != [] ==> Join(words) != "" && Join(words)[0] == words[0][0]
  {
    if words != [] {
      assert IsInk(words[0]);
      if |words| > 1 {
        var rest := Join(words[1..]);
        JoinIsTidy(words[1..]);
        assert IsInk(words[1]) && !IsWsp(rest[0]);
        TidyBehind(words[0], rest);
      }
    }
  }

  lemma {:induction false} TidyJoined(text: string, i: nat)
    requires IsTidy(text) && i < |text| && !IsWsp(text[i])
    ensures Join(WordsOf(text, i)) == text[i..] && WordsOf(text, i) != []
    decreases |text| - i
  {
    var end := WordEnd(text, i + 1);
    WordEndInk(text, i + 1);
    if end < |text| {
      assert TidyAt(text, end) && TidyAt(text, end + 1);
      TidyJoined(text, end + 1);
      assert WordsOf(text, end) == WordsOf(text, end + 1);
      var rest := WordsOf(text, end);
      assert ([text[i..end]] + rest)[1..] == rest;
      assert text[i..] == text[i..end] + " " + text[end + 1..];
    }
  }

  /** Collapsing changes nothing exactly on tidy texts. */
  lemma CollapseExact(text: string)
    ensures Collapse(text) == text <==> IsTidy(text)
  {
    WordsAreInk(text, 0);
    JoinIsTidy(WordsOf(text, 0));
    if IsTidy(text) && text != "" {
      assert TidyAt(text, 0);
      TidyJoined(text, 0);
      assert text[0..] == text;
    }
  }

  lemma {:induction false} JoinChars(text: string, i: nat)
    requires i <= |text|
    ensures forall k :: 0 <= k < |Join(WordsOf(text, i))| ==>
      Join(WordsOf(text, i))[k] == ' ' || Join(WordsOf(text, i))[k] in text
    decreases |text| - i
  {
    if i < |text| {
      if IsWsp(text[i]) {
        JoinChars(text, i + 1);
      } else {
        var end := WordEnd(text, i + 1);
        var rest := WordsOf(text, end);
        JoinChars(text, end);
        assert ([text[i..end]] + rest)[1..] == rest;
        assert forall k :: 0 <= k < end - i ==> text[i..end][k] in text;
      }
    }
  }

  lemma ShownTwice(display: string)
    ensures Shown(Shown(display)) == Shown(display)
    ensures IsPlain(display) ==> IsPlain(Shown(display))
  {
    if !HasSpecial(display) {
      var shown := Collapse(display);
      JoinChars(display, 0);
      forall i | 0 <= i < |shown|
        ensures shown[i] !in SPECIALS
        ensures IsPlain(display) ==> IsPlainChar(shown[i])
      {
        if shown[i] != ' ' {
          var k :| 0 <= k < |display| && display[k] == shown[i];
        }
      }
      WordsAreInk(display, 0);
      WordsOfJoin(WordsOf(display, 0));
    }
  }

  /** What is shown is exact for a quoted name, and for a tidy one. */
  lemma ShownExact(display: string)
    ensures Shown(display) == display <==> HasSpecial(display) || IsTidy(display)
  {
    CollapseExact(display);
  }
}
