/**
 Reading the words a long word was split into: they are found again, each of them is at most 75
 chars long, and their bytes make up those of the long word.
 */
module WordReadBack {
  import opened Wrappers
  import opened Text
  import opened EncodedWords
  import opened WordSplitting
  import opened WordPieces
  import Base64

  /** The marks of a word behind its first one. */
  ghost predicate HasMarks(v: string, o: nat, q1: nat, q2: nat, q3: nat) {
    && o + 2 <= q1 < q2 < q3 < |v|
    && FirstMark(v, o + 2) == q1 && FirstMark(v, q1 + 1) == q2 && FirstMark(v, q2 + 1) == q3
  }

  /** A text between marks that is no single char is no encoding. */
  lemma NotAWord(v: string, i: nat)
    requires i + 1 < |v| && v[i + 1] == '?'
    requires var a := FirstMark(v, i + 2); a < |v| ==> FirstMark(v, a + 1) != a + 2
    ensures WordAt(v, i) == None
  {
  }

  /** Nothing starts behind the start of a word, up to its third mark. */
  lemma NothingEarly(v: string, o: nat, q1: nat, q2: nat, q3: nat)
    requires HasMarks(v, o, q1, q2, q3) && q3 != q2 + 2 && v[q2 - 1] != '='
    ensures WordsFrom(v, o + 1) == WordsFrom(v, q2)
  {
    NothingToSecond(v, o, q1);
    NothingBetween(v, q1, q2);
    NotStarting(v, q2 - 1);
  }

  lemma NotStarting(v: string, i: nat)
    requires i < |v| && v[i] != '='
    ensures WordsFrom(v, i) == WordsFrom(v, i + 1)
  {
  }

  lemma NothingToSecond(v: string, o: nat, q1: nat)
    requires o + 2 <= q1 < |v| && FirstMark(v, o + 2) == q1
    ensures WordsFrom(v, o + 1) == WordsFrom(v, q1 - 1)
  {
    NoMarkBefore(v, o + 2);
    NothingUntil(v, o + 1, q1);
  }

  /** Behind its start, a word whose text is no single char holds no word of its own. */
  lemma NothingInside(v: string, o: nat, q1: nat, q2: nat, q3: nat)
    requires HasMarks(v, o, q1, q2, q3) && q3 != q2 + 2 && v[q2 - 1] != '='
    ensures WordsFrom(v, o + 1) == WordsFrom(v, q3 - 1)
  {
    NothingEarly(v, o, q1, q2, q3);
    NoMarkBefore(v, q2 + 1);
    NothingUntil(v, q2, q3);
  }

  lemma NothingAfter(v: string, q3: nat)
    requires 0 < q3 < |v| && v[q3] == '?' && FirstMark(v, q3 + 1) == |v|
    ensures WordsFrom(v, q3 - 1) == []
  {
    LastMark(v, q3);
    if v[q3 - 1] != '?' {
      FirstMarkIs(v, q3 - 1, q3);
    } else {
      FirstMarkIs(v, q3 - 1, q3 - 1);
      OneMark(v, q3 - 1);
    }
    FewMarks(v, q3 - 1);
  }

  lemma LastMark(v: string, q3: nat)
    requires q3 < |v| && v[q3] == '?' && FirstMark(v, q3 + 1) == |v|
    ensures |MarksFrom(v, q3)| == 1
  {
    FirstMarkIs(v, q3, q3);
    OneMark(v, q3);
  }

  lemma NothingBetween(v: string, q3: nat, next: nat)
    requires 0 < q3 < next < |v| && v[q3] == '?' && FirstMark(v, q3 + 1) == next
    requires FirstMark(v, next + 1) != next + 2
    ensures WordsFrom(v, q3 - 1) == WordsFrom(v, next - 1)
  {
    NoMarkBefore(v, q3 + 1);
    NotAWord(v, q3 - 1);
    NothingUntil(v, q3, next);
  }

  /* ---- The words of a split word ---- */

  function TheWord(o: nat, charset: string, text: string): Word {
    Word(o, o + |charset| + |text| + 7, charset, true, text)
  }

  /** The words the texts are written as, from `o` on. */
  function Expected(o: nat, charset: string, texts: seq<string>): seq<Word>
    decreases |texts|
  {
    if texts == [] then []
    else [TheWord(o, charset, texts[0])] + Expected(o + |charset| + |texts[0]| + 8, charset, texts[1..])
  }

  /** More than one char, and no mark. */
  predicate IsPlainText(text: string) {
    '?' !in text && |text| > 1
  }

  lemma LaidOut(charset: string, text: string)
    ensures WriteWord(charset, text) == "=?" + charset + "?" + ['b'] + "?" + text + "?="
    ensures |WriteWord(charset, text)| == |charset| + |text| + 7
  {
  }

  /** A base64 word of the value, char by char. */
  predicate Stands(v: string, o: nat, charset: string, text: string) {
    var q1 := o + 2 + |charset|;
    && q1 + 5 + |text| <= |v| && v[o] == '=' && v[o + 1] == '?' && v[o + 2..q1] == charset
    && v[q1] == '?' && v[q1 + 1] == 'b' && v[q1 + 2] == '?' && v[q1 + 3..q1 + 3 + |text|] == text
    && v[q1 + 3 + |text|] == '?' && v[q1 + 4 + |text|] == '='
  }

  lemma WrittenStands(v: string, o: nat, charset: string, text: string)
    requires HoldsAt(v, o, WriteWord(charset, text))
    ensures Stands(v, o, charset, text)
  {
    LaidOut(charset, text);
    Layout(v, o, charset, 'b', text);
  }

  /** A base64 word of the value, with its marks. */
  ghost predicate IsWritten(v: string, o: nat, charset: string, text: string) {
    var q1 := o + 2 + |charset|;
    && IsPlainText(text) && q1 + 5 + |text| <= |v| && v[o] == '=' && v[o + 1] == '?'
    && WordAt(v, o) == Some(TheWord(o, charset, text))
    && HasMarks(v, o, q1, q1 + 2, q1 + 3 + |text|) && v[q1 + 1] == 'b' && v[q1 + 4 + |text|] == '='
  }

  lemma StandingIsWritten(v: string, o: nat, charset: string, text: string)
    requires '?' !in charset && IsPlainText(text) && Stands(v, o, charset, text)
    ensures IsWritten(v, o, charset, text)
  {
    WordLaidOut(v, TheWord(o, charset, text), 'b');
    MarksLaidOut(v, o, charset, text);
  }

  /** A written word is found, and nothing else up to its last mark, which is returned. */
  lemma WordFound(v: string, o: nat, charset: string, text: string) returns (q3: nat)
    requires IsWritten(v, o, charset, text)
    ensures 0 < q3 && q3 + 2 == o + |charset| + |text| + 7 <= |v| && v[q3] == '?' && v[q3 + 1] == '='
    ensures WordsFrom(v, o) == [TheWord(o, charset, text)] + WordsFrom(v, q3 - 1)
  {
    var q1 := o + 2 + |charset|;
    q3 := q1 + 3 + |text|;
    NothingInside(v, o, q1, q1 + 2, q3);
  }

  /** A word that ends the value. */
  lemma LastRead(v: string, o: nat, charset: string, text: string)
    requires IsWritten(v, o, charset, text) && o + |charset| + |text| + 7 == |v|
    ensures WordsFrom(v, o) == [TheWord(o, charset, text)]
  {
    var q3 := WordFound(v, o, charset, text);
    FirstMarkIs(v, q3 + 1, |v|);
    NothingAfter(v, q3);
  }

  lemma SpaceBetween(v: string, q3: nat)
    requires 0 < q3 && q3 + 4 < |v| && FirstMark(v, q3 + 5) != q3 + 6
    requires v[q3] == '?' && v[q3 + 1] == '=' && v[q3 + 2] == ' ' && v[q3 + 3] == '=' && v[q3 + 4] == '?'
    ensures WordsFrom(v, q3 - 1) == WordsFrom(v, q3 + 3)
  {
    FirstMarkIs(v, q3 + 1, q3 + 4);
    NothingBetween(v, q3, q3 + 4);
  }

  /** A word starts at `o`, and its charset is no single char. */
  predicate OpensAt(v: string, o: nat) {
    o + 1 < |v| && v[o] == '=' && v[o + 1] == '?' && FirstMark(v, o + 2) != o + 3
  }

  lemma StandingOpens(v: string, o: nat, charset: string, text: string)
    requires '?' !in charset && |charset| > 1 && IsPlainText(text) && Stands(v, o, charset, text)
    ensures OpensAt(v, o)
  {
    MarksLaidOut(v, o, charset, text);
  }

  lemma StandingFound(v: string, o: nat, end: nat, charset: string, text: string)
    requires '?' !in charset && IsPlainText(text) && Stands(v, o, charset, text)
    requires end == o + |charset| + |text| + 7
    ensures 3 <= end <= |v| && v[end - 2] == '?' && v[end - 1] == '='
    ensures WordsFrom(v, o) == [TheWord(o, charset, text)] + WordsFrom(v, end - 3)
  {
    StandingIsWritten(v, o, charset, text);
    var q3 := WordFound(v, o, charset, text);
  }

  lemma Parts(v: string, o: nat, a: string, b: string)
    requires o <= |v| && v[o..] == a + " " + b
    ensures HoldsAt(v, o, a) && o + |a| < |v| && v[o + |a|] == ' ' && v[o + |a| + 1..] == b
  {
    var rest := v[o..];
    assert rest[..|a|] == a && rest[|a|] == ' ' && rest[|a| + 1..] == b;
  }

  /** The words stand one after the other, with spaces between them, up to the end. */
  predicate AllStand(v: string, o: nat, charset: string, texts: seq<string>)
    decreases |texts|
  {
    texts != [] ==>
      var end := o + |charset| + |texts[0]| + 7;
      && Stands(v, o, charset, texts[0])
      && if |texts| == 1 then end == |v| else end < |v| && v[end] == ' ' && AllStand(v, end + 1, charset, texts[1..])
  }

  lemma FirstStands(v: string, o: nat, charset: string, text: string, rest: string)
    requires o <= |v| && v[o..] == WriteWord(charset, text) + " " + rest
    ensures var end := o + |charset| + |text| + 7;
      Stands(v, o, charset, text) && end < |v| && v[end] == ' ' && v[end + 1..] == rest
  {
    LaidOut(charset, text);
    Parts(v, o, WriteWord(charset, text), rest);
    WrittenStands(v, o, charset, text);
  }

  lemma LastStands(v: string, o: nat, charset: string, text: string)
    requires o <= |v| && v[o..] == WriteWord(charset, text)
    ensures Stands(v, o, charset, text) && o + |charset| + |text| + 7 == |v|
  {
    LaidOut(charset, text);
    assert v[o..o + |WriteWord(charset, text)|] == v[o..];
    WrittenStands(v, o, charset, text);
  }

  /** The first word stands, and the others are written behind the space. */
  lemma FirstOfWords(v: string, o: nat, charset: string, texts: seq<string>)
    requires o <= |v| && v[o..] == WriteWords(charset, texts) && |texts| > 1
    ensures var end := o + |charset| + |texts[0]| + 7;
      && Stands(v, o, charset, texts[0]) && end < |v| && v[end] == ' '
      && v[end + 1..] == WriteWords(charset, texts[1..])
  {
    FirstStands(v, o, charset, texts[0], WriteWords(charset, texts[1..]));
  }

  lemma OneStands(v: string, o: nat, charset: string, texts: seq<string>)
    requires o <= |v| && v[o..] == WriteWords(charset, texts) && |texts| == 1
    ensures AllStand(v, o, charset, texts)
  {
    LastStands(v, o, charset, texts[0]);
  }

  lemma MoreStand(v: string, o: nat, next: nat, charset: string, texts: seq<string>)
    requires |texts| > 1 && Stands(v, o, charset, texts[0]) && next == o + |charset| + |texts[0]| + 8
    requires next <= |v| && v[next - 1] == ' ' && AllStand(v, next, charset, texts[1..])
    ensures AllStand(v, o, charset, texts)
  {
  }

  lemma {:induction false} WrittenStand(v: string, o: nat, charset: string, texts: seq<string>)
    requires o <= |v| && v[o..] == WriteWords(charset, texts) && texts != []
    ensures AllStand(v, o, charset, texts)
    decreases |texts|
  {
    if |texts| == 1 {
      OneStands(v, o, charset, texts);
    } else {
      FirstOfWords(v, o, charset, texts);
      var next := o + |charset| + |texts[0]| + 8;
      WrittenStand(v, next, charset, texts[1..]);
      MoreStand(v, o, next, charset, texts);
    }
  }

  lemma NextStands(v: string, end: nat, charset: string, next: string)
    requires 2 < end < |v| && v[end - 2] == '?' && v[end - 1] == '=' && v[end] == ' '
    requires '?' !in charset && |charset| > 1 && IsPlainText(next) && Stands(v, end + 1, charset, next)
    ensures WordsFrom(v, end - 3) == WordsFrom(v, end + 1)
  {
    StandingOpens(v, end + 1, charset, next);
    SpaceBetween(v, end - 2);
  }

  /** A word with a space and another word behind it. */
  lemma TwoRead(v: string, o: nat, end: nat, charset: string, text: string, next: string)
    requires '?' !in charset && |charset| > 1 && IsPlainText(text) && IsPlainText(next)
    requires Stands(v, o, charset, text) && end == o + |charset| + |text| + 7
    requires end < |v| && v[end] == ' ' && Stands(v, end + 1, charset, next)
    ensures WordsFrom(v, o) == [TheWord(o, charset, text)] + WordsFrom(v, end + 1)
  {
    StandingFound(v, o, end, charset, text);
    NextStands(v, end, charset, next);
  }

  lemma OneRead(v: string, o: nat, charset: string, text: string)
    requires '?' !in charset && IsPlainText(text) && Stands(v, o, charset, text) && o + |charset| + |text| + 7 == |v|
    ensures WordsFrom(v, o) == [TheWord(o, charset, text)]
  {
    StandingIsWritten(v, o, charset, text);
    LastRead(v, o, charset, text);
  }

  /** The words found are exactly those written. */
  lemma {:induction false} WordsRead(v: string, o: nat, charset: string, texts: seq<string>)
    requires AllStand(v, o, charset, texts) && texts != [] && '?' !in charset && |charset| > 1
    requires forall i :: 0 <= i < |texts| ==> IsPlainText(texts[i])
    ensures o <= |v| && WordsFrom(v, o) == Expected(o, charset, texts)
    decreases |texts|
  {
    if |texts| == 1 {
      OneRead(v, o, charset, texts[0]);
      assert Expected(o, charset, texts) == [TheWord(o, charset, texts[0])] + [];
    } else {
      TwoRead(v, o, o + |charset| + |texts[0]| + 7, charset, texts[0], texts[1]);
      WordsRead(v, o + |charset| + |texts[0]| + 8, charset, texts[1..]);
    }
  }

  /** Each text is read as its piece, so all together they are read as the bytes. */
  lemma {:induction false} ExpectedDecode(o: nat, charset: string, texts: seq<string>, pieces: seq<seq<byte>>,
      decode: WordDecoder)
    requires |texts| == |pieces|
    requires forall k, start :: 0 <= k < |texts| ==> decode(TheWord(start, charset, texts[k])) == Some(pieces[k])
    ensures DecodeAll(Expected(o, charset, texts), decode) == Some(Concat(pieces))
    decreases |texts|
  {
    if texts != [] {
      var word, next := TheWord(o, charset, texts[0]), o + |charset| + |texts[0]| + 8;
      ExpectedDecode(next, charset, texts[1..], pieces[1..], decode);
      assert ([word] + Expected(next, charset, texts[1..]))[1..] == Expected(next, charset, texts[1..]);
    }
  }

  predicate AllShort(words: seq<Word>) {
    forall i :: 0 <= i < |words| ==> words[i].start <= words[i].end <= words[i].start + MAX_ENCODED_WORD
  }

  lemma {:induction false} ExpectedShort(o: nat, charset: string, texts: seq<string>)
    requires forall i :: 0 <= i < |texts| ==> |charset| + |texts[i]| + 7 <= MAX_ENCODED_WORD
    ensures AllShort(Expected(o, charset, texts))
    decreases |texts|
  {
    if texts != [] {
      ExpectedShort(o + |charset| + |texts[0]| + 8, charset, texts[1..]);
    }
  }

  /* ---- Base64 texts ---- */

  lemma EncodedFits(charset: string, piece: seq<byte>)
    requires Room(charset).Some? && 0 < |piece| <= Room(charset).value
    ensures IsPlainText(Base64.Encode(piece)) && |charset| + |Base64.Encode(piece)| + 7 <= MAX_ENCODED_WORD
  {
    Base64.NoEquals(piece);
    Base64.EncodedLength(piece);
  }

  lemma EncodedDecodes(o: nat, charset: string, piece: seq<byte>)
    requires IsAsciiCompatible(CharsetName(charset))
    ensures DECODE_WORD(TheWord(o, charset, Base64.Encode(piece))) == Some(piece)
  {
    Base64.EncodeThenDecode(piece);
  }

  /* ---- The main result ---- */

  /**
   A word in a readable charset that was split: the text is words of at most 75 chars whose bytes
   make up the bytes that were split.
   */
  lemma SplitReadsBack(charset: string, bytes: seq<byte>, valid: Utf8Check)
    requires IsAsciiCompatible(CharsetName(charset)) && '?' !in charset
    requires SplitWord(charset, bytes, valid).Some?
    ensures var v := SplitWord(charset, bytes, valid).value;
      AllShort(Words(v)) && DecodeAll(Words(v), DECODE_WORD) == Some(bytes)
  {
    var v, room := SplitWord(charset, bytes, valid).value, Room(charset).value;
    var pieces := Pieces(bytes, 0, room, IsUtf8(charset)).value;
    var texts := Encodings(pieces);
    PiecesPartition(bytes, 0, room, IsUtf8(charset));
    CompatibleNames(CharsetName(charset));
    assert v[0..] == v && bytes[0..] == bytes;
    forall k | 0 <= k < |pieces|
      ensures IsPlainText(texts[k]) && |charset| + |texts[k]| + 7 <= MAX_ENCODED_WORD
    {
      EncodedFits(charset, pieces[k]);
    }
    forall k, start | 0 <= k < |pieces|
      ensures DECODE_WORD(TheWord(start, charset, texts[k])) == Some(pieces[k])
    {
      EncodedDecodes(start, charset, pieces[k]);
    }
    if texts != [] {
      WrittenStand(v, 0, charset, texts);
      WordsRead(v, 0, charset, texts);
    }
    ExpectedDecode(0, charset, texts, pieces, DECODE_WORD);
    ExpectedShort(0, charset, texts);
  }

  /** Splitting fails only if the charset leaves no room, the bytes are no UTF-8 or a character is too wide. */
  lemma SplitExists(charset: string, bytes: seq<byte>, valid: Utf8Check)
    ensures SplitWord(charset, bytes, valid).Some? <==>
      && Room(charset).Some? && (IsUtf8(charset) ==> valid(bytes))
      && forall o :: 0 <= o < |bytes| && MayEnd(bytes, o, IsUtf8(charset)) ==>
           Fits(bytes, o, Room(charset).value, IsUtf8(charset))
  {
    if Room(charset).Some? {
      PiecesExist(bytes, 0, Room(charset).value, IsUtf8(charset));
    }
  }
}
