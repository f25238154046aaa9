/**
 Forwarding a printable header value: every encoded word in it is checked, words longer than 75
 chars are split, and nothing else changes.
 */
module WordForwarding {
  import opened Wrappers
  import opened Text
  import opened EncodedWords
  import opened WordSplitting
  import opened WordPieces
  import opened WordReadBack
  import Sequences

  predicate IsBlank(b: byte) {
    b == SPACE || b == TAB
  }

  /** The bytes of the specials of a display name. */
  const SPECIAL_BYTES: set<byte> := {40, 41, 60, 62, 64, 44, 58, 59, 46, 34, 91, 93, 92}

  /** The bytes `=?` somewhere. */
  predicate HoldsStart(bytes: seq<byte>) {
    exists i :: 0 <= i < |bytes| - 1 && bytes[i] == 61 && bytes[i + 1] == 63
  }

  predicate IsAscii(bytes: seq<byte>) {
    forall i :: 0 <= i < |bytes| ==> bytes[i] < 128
  }

  predicate HoldsSpecial(bytes: seq<byte>) {
    exists i :: 0 <= i < |bytes| && bytes[i] in SPECIAL_BYTES
  }

  /** Decoded bytes that a receiver would read otherwise. */
  predicate IsUnsafe(bytes: seq<byte>, phrase: bool) {
    || HoldsStart(bytes)
    || (bytes != [] && IsBlank(bytes[0]))
    || (bytes != [] && IsBlank(bytes[|bytes| - 1]))
    || (phrase && IsAscii(bytes) && HoldsSpecial(bytes))
  }

  /** The bytes of a word that may be forwarded. */
  function SafeBytes(w: Word, phrase: bool): Option<seq<byte>> {
    var bytes :- DecodeWord(w);
    if IsUnsafe(bytes, phrase) then None else Some(bytes)
  }

  predicate IsSpace(c: char) {
    c == ' ' || c == '\t'
  }

  /** Whitespace or an end of the value on both sides. */
  predicate IsDelimited(v: string, w: Word)
    requires w.start <= w.end <= |v|
  {
    && (w.start == 0 || IsSpace(v[w.start - 1]))
    && (w.end == |v| || IsSpace(v[w.end]))
  }

  predicate IsLong(w: Word)
    requires w.start <= w.end
  {
    w.end - w.start > MAX_ENCODED_WORD
  }

  /** Words as `Words` gives them: ranges of the value, in increasing order. */
  predicate InRange(v: string, words: seq<Word>) {
    forall i :: 0 <= i < |words| ==> words[i].start <= words[i].end <= |v|
  }

  lemma {:induction false} FoundInRange(v: string, i: nat)
    requires i <= |v|
    ensures InRange(v, WordsFrom(v, i))
    decreases |v| - i
  {
    if i < |v| {
      FoundInRange(v, i + 1);
    }
  }

  /* ---- What is forwarded ---- */

  function LongWords(v: string, words: seq<Word>): (r: seq<Word>)
    requires InRange(v, words)
    ensures InRange(v, r)
  {
    if words == [] then []
    else if IsLong(words[0]) then [words[0]] + LongWords(v, words[1..])
    else LongWords(v, words[1..])
  }

  /** Every word can be read and reads the same for the receiver. */
  predicate AllSafe(words: seq<Word>, phrase: bool) {
    forall i :: 0 <= i < |words| ==> SafeBytes(words[i], phrase).Some?
  }

  /** Long words stand alone and do not overlap one another or what is behind `from`. */
  predicate Apart(v: string, longs: seq<Word>, from: nat)
    requires InRange(v, longs)
    decreases |longs|
  {
    longs != [] ==> from <= longs[0].start && IsDelimited(v, longs[0]) && Apart(v, longs[1..], longs[0].end)
  }

  /** What a long word is replaced by. */
  function Replacement(w: Word, phrase: bool, valid: Utf8Check): Option<string> {
    var bytes :- SafeBytes(w, phrase);
    SplitWord(w.charset, bytes, valid)
  }

  /** How long words are replaced. */
  type Replacer = Word -> Option<string>

  function Replacing(phrase: bool, valid: Utf8Check): Replacer {
    w => Replacement(w, phrase, valid)
  }

  predicate AllSplit(longs: seq<Word>, replace: Replacer) {
    forall i :: 0 <= i < |longs| ==> replace(longs[i]).Some?
  }

  /** The value from `from` on with every long word replaced and nothing else changed. */
  function Replaced(v: string, longs: seq<Word>, from: nat, replace: Replacer): string
    requires InRange(v, longs) && from <= |v| && Apart(v, longs, from) && AllSplit(longs, replace)
    decreases |longs|
  {
    if longs == [] then v[from..]
    else
      v[from..longs[0].start] + replace(longs[0]).value + Replaced(v, longs[1..], longs[0].end, replace)
  }

  /** The loop over the words, from the word `k` on. */
  function ForwardFrom(v: string, words: seq<Word>, copied: nat, phrase: bool, quoted: bool,
      valid: Utf8Check): Option<string>
    requires InRange(v, words) && copied <= |v|
    decreases |words|
  {
    if words == [] then Some(v[copied..])
    else
      var w := words[0];
      var bytes :- SafeBytes(w, phrase);
      if !IsLong(w) then ForwardFrom(v, words[1..], copied, phrase, quoted, valid)
      else if quoted || !IsDelimited(v, w) || w.start < copied then None
      else
        var piece :- SplitWord(w.charset, bytes, valid);
        var rest :- ForwardFrom(v, words[1..], w.end, phrase, quoted, valid);
        Some(v[copied..w.start] + piece + rest)
  }

  function Forwardable(v: string, phrase: bool, quoted: bool, valid: Utf8Check): Option<string> {
    FoundInRange(v, 0);
    ForwardFrom(v, Words(v), 0, phrase, quoted, valid)
  }

  function Behind(out: string, rest: Option<string>): Option<string> {
    match rest case None => None case Some(text) => Some(out + text)
  }

  lemma BehindNothing(rest: Option<string>)
    ensures Behind("", rest) == rest
  {
    match rest
    case None =>
    case Some(text) => assert "" + text == text;
  }

  /** What a word has to offer: nothing if it is refused, its bytes otherwise. */
  method ReadWordSafely(w: Word, phrase: bool) returns (r: Option<seq<byte>>)
    ensures r == SafeBytes(w, phrase)
  {
    var bytes := DecodeWord(w);
    if bytes.None? || IsUnsafe(bytes.value, phrase) {
      return None;
    }
    return bytes;
  }

  /** The loop at a long word that is replaced. */
  lemma LongStep(v: string, words: seq<Word>, copied: nat, phrase: bool, quoted: bool, valid: Utf8Check, piece: string)
    requires InRange(v, words) && copied <= |v| && words != [] && SafeBytes(words[0], phrase).Some? && IsLong(words[0])
    requires !quoted && IsDelimited(v, words[0]) && copied <= words[0].start
    requires SplitWord(words[0].charset, SafeBytes(words[0], phrase).value, valid) == Some(piece)
    ensures ForwardFrom(v, words, copied, phrase, quoted, valid) ==
      Behind(v[copied..words[0].start] + piece, ForwardFrom(v, words[1..], words[0].end, phrase, quoted, valid))
  {
  }

  lemma BehindBehind(out: string, a: string, rest: Option<string>)
    ensures Behind(out, Behind(a, rest)) == Behind(out + a, rest)
  {
    match rest
    case None =>
    case Some(text) => assert out + (a + text) == out + a + text;
  }

  method Forward(v: string, phrase: bool, quoted: bool, valid: Utf8Check) returns (r: Option<string>)
    ensures r == Forwardable(v, phrase, quoted, valid)
  {
    var words := FindWords(v);
    FoundInRange(v, 0);
    var out := "";
    var copied: nat := 0;
    ghost var goal := ForwardFrom(v, words, 0, phrase, quoted, valid);
    assert words[0..] == words;
    BehindNothing(goal);
    for k := 0 to |words|
      invariant copied <= |v|
      invariant goal == Behind(out, ForwardFrom(v, words[k..], copied, phrase, quoted, valid))
    {
      var w := words[k];
      assert words[k..][0] == w && words[k..][1..] == words[k + 1..];
      var bytes := ReadWordSafely(w, phrase);
      if bytes.None? {
        return None;
      }
      if w.end - w.start <= MAX_ENCODED_WORD {
        continue;
      }
      if quoted || !IsDelimited(v, w) || w.start < copied {
        return None;
      }
      var piece := Split(w.charset, bytes.value, valid);
      if piece.None? {
        return None;
      }
      LongStep(v, words[k..], copied, phrase, quoted, valid, piece.value);
      BehindBehind(out, v[copied..w.start] + piece.value, ForwardFrom(v, words[k + 1..], w.end, phrase, quoted, valid));
      Sequences.Regroup(out, v[copied..w.start], piece.value);
      out := out + v[copied..w.start];
      out := out + piece.value;
      copied := w.end;
    }
    return Some(out + v[copied..]);
  }

  /* ---- The main results ---- */

  lemma SafeStep(words: seq<Word>, phrase: bool)
    requires words != []
    ensures AllSafe(words, phrase) <==> SafeBytes(words[0], phrase).Some? && AllSafe(words[1..], phrase)
  {
    forall i | 0 <= i < |words| - 1
      ensures words[1..][i] == words[i + 1]
    {
    }
    if AllSafe(words[1..], phrase) && SafeBytes(words[0], phrase).Some? {
      forall i | 0 <= i < |words|
        ensures SafeBytes(words[i], phrase).Some?
      {
        assert i > 0 ==> SafeBytes(words[1..][i - 1], phrase).Some?;
      }
    }
  }

  /** The loop accepts exactly when all words are safe and all long ones can be replaced. */
  lemma {:induction false} ForwardIs(v: string, words: seq<Word>, copied: nat, phrase: bool, quoted: bool,
      valid: Utf8Check)
    requires InRange(v, words) && copied <= |v|
    ensures var longs := LongWords(v, words);
      if AllSafe(words, phrase) && Apart(v, longs, copied) && AllSplit(longs, Replacing(phrase, valid))
        && (quoted ==> longs == [])
      then ForwardFrom(v, words, copied, phrase, quoted, valid) ==
        Some(Replaced(v, longs, copied, Replacing(phrase, valid)))
      else ForwardFrom(v, words, copied, phrase, quoted, valid) == None
    decreases |words|
  {
    if words != [] {
      var w, rest := words[0], words[1..];
      ForwardIs(v, rest, if IsLong(w) then w.end else copied, phrase, quoted, valid);
      var longs := LongWords(v, rest);
      assert ([w] + longs)[1..] == longs;
      SafeStep(words, phrase);
    }
  }

  /**
   A value is forwarded if and only if every word in it is safe, no long word is quoted, undelimited
   or overlapping another, and each can be split; only the long words are replaced.
   */
  lemma ForwardableIs(v: string, phrase: bool, quoted: bool, valid: Utf8Check)
    ensures InRange(v, Words(v))
    ensures var longs := LongWords(v, Words(v));
      Forwardable(v, phrase, quoted, valid) ==
        if AllSafe(Words(v), phrase) && Apart(v, longs, 0) && AllSplit(longs, Replacing(phrase, valid))
          && (quoted ==> longs == [])
        then Some(Replaced(v, longs, 0, Replacing(phrase, valid)))
        else None
  {
    FoundInRange(v, 0);
    ForwardIs(v, Words(v), 0, phrase, quoted, valid);
  }

  /** Without a long word a safe value is forwarded as it is. */
  lemma ShortWordsUnchanged(v: string, phrase: bool, quoted: bool, valid: Utf8Check)
    requires InRange(v, Words(v)) && LongWords(v, Words(v)) == [] && AllSafe(Words(v), phrase)
    ensures Forwardable(v, phrase, quoted, valid) == Some(v)
  {
    ForwardableIs(v, phrase, quoted, valid);
    assert v[0..] == v;
  }

  /** What replaces a long word of a value is words of at most 75 chars with its bytes. */
  lemma ReplacementMeans(v: string, w: Word, phrase: bool, valid: Utf8Check)
    requires w in Words(v) && Replacement(w, phrase, valid).Some?
    ensures var piece := Replacement(w, phrase, valid).value;
      AllShort(Words(piece)) && DecodeAll(Words(piece), DECODE_WORD) == DecodeWord(w)
  {
    WordsExact(v);
    SplitReadsBack(w.charset, DecodeWord(w).value, valid);
  }
}
