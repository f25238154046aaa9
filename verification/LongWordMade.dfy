/** Values in which splitting a long word makes another one. */
module LongWordMade {
  import opened Wrappers
  import opened Text
  import opened EncodedWords
  import opened WordSplitting
  import opened WordPieces
  import opened WordForwarding
  import opened LongStarts
  import opened ForwardedWords

  /** 70 times the letter a, and 80 times the letter b. */
  predicate AreLetters(a: string, b: string) {
    && |a| == 70 && (forall k :: 0 <= k < 70 ==> a[k] == 'a')
    && |b| == 80 && (forall k :: 0 <= k < 80 ==> b[k] == 'b')
  }

  function Behind(b: string): string {
    " x?q?" + b + "?="
  }

  /** A long word, and behind it a text that is no word. */
  function Value(a: string, b: string): string {
    "=?utf-8?q?" + a + "?=" + Behind(b)
  }

  lemma BehindChars(a: string, b: string)
    requires AreLetters(a, b)
    ensures var t := Behind(b);
      && |t| == 87 && t[0] == ' ' && t[1] == 'x' && t[2] == '?' && t[3] == 'q' && t[4] == '?'
      && t[85] == '?' && t[86] == '=' && forall k :: 5 <= k < 85 ==> t[k] == 'b'
  {
  }

  lemma ValueChars(a: string, b: string)
    requires AreLetters(a, b)
    ensures var v := Value(a, b);
      && |v| == 169 && v[82..] == Behind(b) && v[0..82] == "=?" + "utf-8" + "?" + ['q'] + "?" + a + "?="
  {
    var head := "=?utf-8?q?" + a + "?=";
    assert head == "=?" + "utf-8" + "?" + ['q'] + "?" + a + "?=";
    assert Value(a, b) == head + Behind(b);
  }

  lemma {:induction false} NoStarts(v: string, i: nat)
    requires i <= |v| && forall k :: i <= k < |v| - 1 ==> !(v[k] == '=' && v[k + 1] == '?')
    ensures WordsFrom(v, i) == []
    decreases |v| - i
  {
    if i < |v| {
      NoStarts(v, i + 1);
    }
  }

  lemma OneStart(a: string, b: string, k: nat)
    requires AreLetters(a, b) && 1 <= k < 168
    ensures |Value(a, b)| == 169 && !(Value(a, b)[k] == '=' && Value(a, b)[k + 1] == '?')
  {
    var v, t := Value(a, b), Behind(b);
    ValueChars(a, b);
    BehindChars(a, b);
    assert v[k] == if k >= 82 then v[82..][k - 82] else v[0..82][k];
    assert v[82] == v[82..][0];
  }

  lemma TheWords(a: string, b: string)
    requires AreLetters(a, b)
    ensures Words(Value(a, b)) == [Word(0, 82, "utf-8", false, a)]
  {
    var v, w := Value(a, b), Word(0, 82, "utf-8", false, a);
    ValueChars(a, b);
    assert IsCte('q', false) && IsWord(v, w);
    WordIsFound(v, w);
    forall k | 1 <= k < |v| - 1 ensures !(v[k] == '=' && v[k + 1] == '?') {
      OneStart(a, b, k);
    }
    NoStarts(v, 1);
  }

  predicate AreBytes(bytes: seq<byte>, n: nat) {
    |bytes| == n && forall k :: 0 <= k < n ==> bytes[k] == 97
  }

  lemma {:induction false} PlainQ(text: string, i: nat)
    requires i <= |text| && forall k :: 0 <= k < |text| ==> text[k] == 'a'
    ensures AreBytes(DecodeQ(text, i), |text| - i)
    decreases |text| - i
  {
    if i < |text| {
      PlainQ(text, i + 1);
    }
  }

  lemma Utf8Name()
    ensures CharsetName("utf-8") == "utf_8"
  {
    var a := "utf-8";
    assert a[1..] == "tf-8" && "tf-8"[1..] == "f-8" && "f-8"[1..] == "-8" && "-8"[1..] == "8" && "8"[1..] == "";
    assert BeforeStar("8") == "8";
    assert BeforeStar("-8") == "-8";
    assert BeforeStar("f-8") == "f-8";
    assert BeforeStar("tf-8") == "tf-8";
  }

  lemma TheBytes(a: string, b: string) returns (bytes: seq<byte>)
    requires AreLetters(a, b)
    ensures AreBytes(bytes, 70) && SafeBytes(Word(0, 82, "utf-8", false, a), false) == Some(bytes)
  {
    Utf8Name();
    PlainQ(a, 0);
    bytes := DecodeQ(a, 0);
  }

  lemma ThePieces(bytes: seq<byte>)
    requires AreBytes(bytes, 70)
    ensures Pieces(bytes, 0, 45, true) == Some([bytes[0..45], bytes[45..70]])
  {
    var first, second := bytes[0..45], bytes[45..70];
    assert WordPieces.Cut(bytes, 0, 45, true) == 45;
    assert WordPieces.Cut(bytes, 45, 45, true) == 25;
    assert Pieces(bytes, 70, 45, true) == Some([]);
    assert Pieces(bytes, 45, 45, true) == Some([second] + []);
    assert [second] + [] == [second] && [first] + [second] == [first, second];
    assert Pieces(bytes, 0, 45, true) == Some([first] + [second]);
  }

  /** A word that is split, and whose last piece is padded. */
  lemma SplitIsPadded(w: Word, bytes: seq<byte>, pieces: seq<seq<byte>>, valid: Utf8Check)
    requires SafeBytes(w, false) == Some(bytes) && bytes != [] && valid(bytes)
    requires Room(w.charset) == Some(45) && IsUtf8(w.charset) && Pieces(bytes, 0, 45, true) == Some(pieces)
    requires pieces != [] && |pieces[|pieces| - 1]| % 3 != 0
    ensures Replacement(w, false, valid).Some? && !IsEmpty(w) && LeavesPadding(w)
  {
  }

  /** The last piece has 25 bytes. */
  lemma ThePiece(a: string, b: string, bytes: seq<byte>, valid: Utf8Check)
    requires AreLetters(a, b) && AreBytes(bytes, 70) && valid(bytes)
    requires SafeBytes(Word(0, 82, "utf-8", false, a), false) == Some(bytes)
    ensures var w := Word(0, 82, "utf-8", false, a);
      Replacement(w, false, valid).Some? && !IsEmpty(w) && LeavesPadding(w)
  {
    ThePieces(bytes);
    Utf8Name();
    SplitIsPadded(Word(0, 82, "utf-8", false, a), bytes, [bytes[0..45], bytes[45..70]], valid);
  }

  lemma MadeLong(a: string, b: string)
    requires AreLetters(a, b)
    ensures StartsLong("=?=" + Behind(b), 0)
  {
    var t := "=?=" + Behind(b);
    BehindChars(a, b);
    assert t == "=?= x?q?" + b + "?=";
    FirstMarkIs(t, 2, 5);
    FirstMarkIs(t, 8, 88);
  }

  lemma TheLongWord(a: string, b: string)
    requires AreLetters(a, b)
    ensures var v, w := Value(a, b), Word(0, 82, "utf-8", false, a);
      InRange(v, Words(v)) && Words(v) == [w] && LongWords(v, Words(v)) == [w]
    ensures var v, w := Value(a, b), Word(0, 82, "utf-8", false, a); Apart(v, [w], 0) && Kept(v, [], 82) == Behind(b)
  {
    var v, w := Value(a, b), Word(0, 82, "utf-8", false, a);
    ValueChars(a, b);
    BehindChars(a, b);
    TheWords(a, b);
    assert [w][1..] == [] && LongWords(v, []) == [] && [w] + [] == [w];
    assert v[82] == v[82..][0] == ' ';
  }

  lemma PaddedMakesOne(v: string, w: Word)
    requires InRange(v, [w]) && Apart(v, [w], 0) && !IsEmpty(w) && LeavesPadding(w)
    requires StartsLong("=?=" + Kept(v, [], w.end), 0)
    ensures !MakesNone(v, [w], 0)
  {
    assert [w][1..] == [];
  }

  /** A long word can be left: such a value is forwarded, and then holds a long word that it did not hold before. */
  lemma LongWordIsMade(a: string, b: string, valid: Utf8Check)
    requires AreLetters(a, b) && forall bytes :: AreBytes(bytes, 70) ==> valid(bytes)
    ensures var r := Forwardable(Value(a, b), false, false, valid);
      r.Some? && exists w :: w in Words(r.value) && w.end > w.start + MAX_ENCODED_WORD
  {
    var bytes := TheBytes(a, b);
    TheLongWord(a, b);
    ThePiece(a, b, bytes, valid);
    MadeLong(a, b);
    PaddedMakesOne(Value(a, b), Word(0, 82, "utf-8", false, a));
    ForwardableIs(Value(a, b), false, false, valid);
    NoLongWordLeft(Value(a, b), false, false, valid);
  }
}
