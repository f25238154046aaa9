/**
 The words of a forwarded value: whether a word longer than 75 chars is left in it. One can only be
 made by the padding of a split word together with the text behind it, or where a long word without
 any bytes is dropped; the received value tells.
 */
module ForwardedWords {
  import opened Wrappers
  import opened Text
  import opened EncodedWords
  import opened WordSplitting
  import opened WordPieces
  import opened WordReadBack
  import opened WordForwarding
  import opened LongStarts
  import Base64
  import Sequences

  lemma CompatibleStart(charset: string)
    requires IsAsciiCompatible(CharsetName(charset)) && '?' !in charset
    ensures IsCharset(charset)
  {
    var name := CharsetName(charset);
    CompatibleNames(name);
    assert name[0] == NameChar(charset[0]);
    assert name[0] != '_';
  }

  /* ---- What a caller can see of a long word ---- */

  /** A word without bytes. A long one is dropped. */
  predicate IsEmpty(w: Word) {
    DecodeWord(w) == Some([])
  }

  /** The bytes of a word, cut as they are when it is split. */
  function PiecesOf(w: Word): Option<seq<seq<byte>>> {
    var bytes :- DecodeWord(w);
    var room :- Room(w.charset);
    Pieces(bytes, 0, room, IsUtf8(w.charset))
  }

  /** The last piece is no whole number of groups of three bytes, so base64 pads it. */
  predicate LeavesPadding(w: Word) {
    var pieces := PiecesOf(w);
    pieces.Some? && pieces.value != [] && |pieces.value[|pieces.value| - 1]| % 3 != 0
  }

  lemma PaddingEnds(piece: seq<byte>)
    requires piece != []
    ensures EndsPadded(Base64.Encode(piece)) <==> |piece| % 3 != 0
  {
    Base64.NoEquals(piece);
    var text, padding := Base64.Encode(piece), Base64.Padding(|piece|);
    if padding == "" {
      assert text == Base64.Symbols(piece);
    } else {
      assert text[|text| - 1] == padding[|padding| - 1];
    }
  }

  /* ---- What replaces one long word ---- */

  /** What replaces a long word, in front of a space or the end, is nothing, or words that all fit. */
  ghost predicate HoldsShort(w: Word, replace: Replacer, rest: string) {
    '?' !in w.charset && replace(w).Some? && (rest == "" || IsSpace(rest[0])) ==>
      var piece := replace(w).value;
      && IsCharset(w.charset)
      && if IsEmpty(w) then piece == "" else ReplacedBy(w, piece, rest)
  }

  ghost predicate ReplacedBy(w: Word, piece: string, rest: string) {
    && OpensWord(piece + rest, w.charset)
    && (NoLongBefore(piece + rest, |piece|) <==> (LeavesPadding(w) ==> !StartsLong("=?=" + rest, 0)))
  }

  ghost predicate IsSound(replace: Replacer) {
    forall w, rest :: HoldsShort(w, replace, rest)
  }

  lemma ReplacingIsSound(phrase: bool, valid: Utf8Check)
    ensures IsSound(Replacing(phrase, valid))
  {
    forall w: Word, rest: string ensures HoldsShort(w, Replacing(phrase, valid), rest) {
      if '?' !in w.charset && Replacement(w, phrase, valid).Some? && (rest == "" || IsSpace(rest[0])) {
        ReplacementHolds(w, phrase, valid, rest);
      }
    }
  }

  /** A replacement is the word's pieces, written one by one. */
  lemma ReplacementIs(w: Word, phrase: bool, valid: Utf8Check) returns (pieces: seq<seq<byte>>)
    requires Replacement(w, phrase, valid).Some?
    ensures PiecesOf(w) == Some(pieces) && IsEmpty(w) == (pieces == [])
    ensures IsAsciiCompatible(CharsetName(w.charset)) && Room(w.charset).Some?
    ensures forall k :: 0 <= k < |pieces| ==> 0 < |pieces[k]| <= Room(w.charset).value
    ensures Replacement(w, phrase, valid) == Some(WriteWords(w.charset, Encodings(pieces)))
  {
    var bytes := SafeBytes(w, phrase).value;
    pieces := Pieces(bytes, 0, Room(w.charset).value, IsUtf8(w.charset)).value;
    PiecesPartition(bytes, 0, Room(w.charset).value, IsUtf8(w.charset));
  }

  lemma PiecesHold(charset: string, pieces: seq<seq<byte>>, rest: string)
    requires pieces != [] && IsCharset(charset) && Room(charset).Some? && (rest == "" || IsSpace(rest[0]))
    requires forall k :: 0 <= k < |pieces| ==> 0 < |pieces[k]| <= Room(charset).value
    ensures var piece := WriteWords(charset, Encodings(pieces));
      && OpensWord(piece + rest, charset)
      && (NoLongBefore(piece + rest, |piece|) <==>
          (|pieces[|pieces| - 1]| % 3 != 0 ==> !StartsLong("=?=" + rest, 0)))
  {
    var texts := Encodings(pieces);
    forall k | 0 <= k < |pieces|
      ensures IsPlainText(texts[k]) && |charset| + |texts[k]| + 7 <= MAX_ENCODED_WORD
    {
      EncodedFits(charset, pieces[k]);
    }
    BlockOpens(charset, texts, rest);
    BlockHolds(charset, texts, rest);
    PaddingEnds(pieces[|pieces| - 1]);
  }

  lemma ReplacementHolds(w: Word, phrase: bool, valid: Utf8Check, rest: string)
    requires '?' !in w.charset && Replacement(w, phrase, valid).Some?
    requires rest == "" || IsSpace(rest[0])
    ensures HoldsShort(w, Replacing(phrase, valid), rest)
  {
    var pieces := ReplacementIs(w, phrase, valid);
    CompatibleStart(w.charset);
    WrittenHolds(w, pieces, rest);
  }

  lemma WrittenHolds(w: Word, pieces: seq<seq<byte>>, rest: string)
    requires IsCharset(w.charset) && Room(w.charset).Some? && (rest == "" || IsSpace(rest[0]))
    requires PiecesOf(w) == Some(pieces) && IsEmpty(w) == (pieces == [])
    requires forall k :: 0 <= k < |pieces| ==> 0 < |pieces[k]| <= Room(w.charset).value
    ensures var piece := WriteWords(w.charset, Encodings(pieces));
      if IsEmpty(w) then piece == "" else ReplacedBy(w, piece, rest)
  {
    if pieces != [] {
      PiecesHold(w.charset, pieces, rest);
    }
  }

  /* ---- The condition ---- */

  /** The value from `from` on as received, only the long words without bytes dropped. */
  function Kept(v: string, longs: seq<Word>, from: nat): string
    requires InRange(v, longs) && from <= |v| && Apart(v, longs, from)
    decreases |longs|
  {
    if longs == [] then v[from..]
    else
      v[from..if IsEmpty(longs[0]) then longs[0].start else longs[0].end] + Kept(v, longs[1..], longs[0].end)
  }

  /** The condition for one long word, with `gap` in front of it and `rest` behind it. */
  ghost predicate MakesNoneHere(gap: string, w: Word, rest: string) {
    if IsEmpty(w) then NoLongBefore(gap + rest, |gap|) else LeavesPadding(w) ==> !StartsLong("=?=" + rest, 0)
  }

  /**
   No long word is made, as the received value tells: where a long word is split, the padding of its
   last piece makes none with the text behind it; where one without bytes is dropped, the text in
   front of it makes none.
   */
  ghost predicate MakesNone(v: string, longs: seq<Word>, from: nat)
    requires InRange(v, longs) && from <= |v| && Apart(v, longs, from)
    decreases |longs|
  {
    longs != [] ==>
      && MakesNoneHere(v[from..longs[0].start], longs[0], Kept(v, longs[1..], longs[0].end))
      && MakesNone(v, longs[1..], longs[0].end)
  }

  /* ---- The whole value ---- */

  /** Every long word of the value from `from` on is one of these. */
  ghost predicate HoldsAll(v: string, longs: seq<Word>, from: nat) {
    && Increasing(longs) && (forall k :: 0 <= k < |longs| ==> IsWord(v, longs[k]))
    && forall i :: from <= i < |v| && StartsLong(v, i) ==> exists k :: 0 <= k < |longs| && longs[k].start == i
  }

  lemma RestHoldsAll(v: string, longs: seq<Word>, from: nat)
    requires HoldsAll(v, longs, from) && longs != [] && from <= longs[0].start < longs[0].end
    ensures HoldsAll(v, longs[1..], longs[0].end)
  {
    var rest := longs[1..];
    assert forall k :: 0 <= k < |rest| ==> rest[k] == longs[k + 1];
    forall i | longs[0].end <= i < |v| && StartsLong(v, i)
      ensures exists k :: 0 <= k < |rest| && rest[k].start == i
    {
      var k :| 0 <= k < |longs| && longs[k].start == i;
      assert rest[k - 1].start == i;
    }
  }

  lemma WordOpens(v: string, w: Word, behind: string)
    requires IsWord(v, w) && IsCharset(w.charset)
    ensures w.start < w.end && OpensWord(v[w.start..w.end] + behind, w.charset)
  {
    var c :| IsCte(c, w.base64) && v[w.start..w.end] == "=?" + w.charset + "?" + [c] + "?" + w.text + "?=";
    assert |v[w.start..w.end]| == |w.charset| + |w.text| + 7;
    Layout(v, w.start, w.charset, c, w.text);
    var t := v[w.start..w.end] + behind;
    assert t[2..2 + |w.charset|] == v[w.start + 2..w.start + 2 + |w.charset|];
  }

  /** In front of the first long word of the value nothing long starts. */
  lemma GapHoldsNone(v: string, longs: seq<Word>, from: nat)
    requires HoldsAll(v, longs, from) && longs != [] && from <= longs[0].start <= |v|
    ensures v[from..] == v[from..longs[0].start] + v[longs[0].start..]
    ensures NoLongBefore(v[from..longs[0].start] + v[longs[0].start..], longs[0].start - from)
  {
    var gap, tail := v[from..longs[0].start], v[longs[0].start..];
    assert v == v[..from] + (gap + tail);
    assert forall k :: 0 < k < |longs| ==> longs[0].start < longs[k].start;
    forall i | 0 <= i < |gap| ensures !StartsLong(gap + tail, i) {
      LongShift(v[..from], gap + tail, i);
    }
  }

  lemma EndHoldsNone(v: string, from: nat)
    requires from <= |v| && HoldsAll(v, [], from)
    ensures HasNoLong(v[from..])
  {
    assert v == v[..from] + v[from..];
    forall i | 0 <= i < |v[from..]| ensures !StartsLong(v[from..], i) {
      LongShift(v[..from], v[from..], i);
    }
  }

  /** What follows a long word, replaced or not, is a space or nothing. */
  lemma RestIsSpaced(v: string, longs: seq<Word>, from: nat, replace: Replacer)
    requires InRange(v, longs) && from <= |v| && Apart(v, longs, from) && AllSplit(longs, replace)
    requires from > 0 && (from == |v| || IsSpace(v[from])) && !IsSpace(v[from - 1])
    ensures var rest := Replaced(v, longs, from, replace); rest == "" || IsSpace(rest[0])
  {
    if longs != [] {
      assert longs[0].start > from by {
        assert IsDelimited(v, longs[0]);
      }
    }
  }

  /** The text in front of the first long word, the word, and the rest, each with its long words. */
  lemma SplitValue(gap: string, piece: string, rest: string)
    ensures HasNoLong(gap + piece + rest) <==>
      NoLongBefore(gap + (piece + rest), |gap|) && NoLongBefore(piece + rest, |piece|) && HasNoLong(rest)
  {
    assert gap + piece + rest == gap + (piece + rest);
    NoLongSplits(gap, piece + rest);
    NoLongSplits(piece, rest);
  }

  lemma FirstPiece(v: string, longs: seq<Word>, from: nat, piece: string, rest: string)
    requires HoldsAll(v, longs, from) && longs != [] && from <= longs[0].start <= |v|
    requires IsDelimited(v, longs[0]) && IsCharset(longs[0].charset) && (from == 0 || !IsSpace(v[from - 1]))
    requires if IsEmpty(longs[0]) then piece == "" else ReplacedBy(longs[0], piece, rest)
    ensures var gap := v[from..longs[0].start];
      HasNoLong(gap + piece + rest) <==> HasNoLong(rest) && MakesNoneHere(gap, longs[0], rest)
  {
    var w := longs[0];
    var gap := v[from..w.start];
    SplitValue(gap, piece, rest);
    if IsEmpty(w) {
      assert piece + rest == rest;
    } else {
      GapStaysShort(v, longs, from, piece + rest);
    }
  }

  /** The text in front of the first long word has no long word in front of a replacement either. */
  lemma GapStaysShort(v: string, longs: seq<Word>, from: nat, t: string)
    requires HoldsAll(v, longs, from) && longs != [] && from <= longs[0].start <= |v|
    requires IsDelimited(v, longs[0]) && IsCharset(longs[0].charset) && OpensWord(t, longs[0].charset)
    ensures var gap := v[from..longs[0].start]; NoLongBefore(gap + t, |gap|)
  {
    var w, gap := longs[0], v[from..longs[0].start];
    WordOpens(v, w, v[w.end..]);
    assert v[w.start..] == v[w.start..w.end] + v[w.end..];
    GapHoldsNone(v, longs, from);
    assert gap != "" ==> gap[|gap| - 1] == v[w.start - 1];
    GapsAgree(gap, t, v[w.start..], w.charset);
  }

  lemma RestSplits(longs: seq<Word>, replace: Replacer)
    requires AllSplit(longs, replace) && longs != []
    ensures AllSplit(longs[1..], replace)
  {
    forall i | 0 <= i < |longs| - 1 ensures replace(longs[1..][i]).Some? {
      assert longs[1..][i] == longs[i + 1];
    }
  }

  /** Behind the first long word. */
  lemma BehindFirst(v: string, longs: seq<Word>, from: nat)
    requires InRange(v, longs) && Apart(v, longs, from) && HoldsAll(v, longs, from) && longs != []
    ensures from <= longs[0].start < longs[0].end && !IsSpace(v[longs[0].end - 1])
    ensures longs[0].end == |v| || IsSpace(v[longs[0].end])
    ensures InRange(v, longs[1..]) && Apart(v, longs[1..], longs[0].end) && HoldsAll(v, longs[1..], longs[0].end)
  {
    EndOfWord(v, longs[0]);
    RestHoldsAll(v, longs, from);
    assert forall i :: 0 <= i < |longs| - 1 ==> longs[1..][i] == longs[i + 1];
  }

  lemma FirstReplaced(v: string, longs: seq<Word>, from: nat, replace: Replacer, rest: string)
    requires HoldsAll(v, longs, from) && longs != [] && from <= longs[0].start <= longs[0].end <= |v|
    requires IsDelimited(v, longs[0]) && (from == 0 || !IsSpace(v[from - 1]))
    requires replace(longs[0]).Some? && (rest == "" || IsSpace(rest[0])) && IsSound(replace)
    ensures var gap, piece := v[from..longs[0].start], replace(longs[0]).value;
      HasNoLong(gap + piece + rest) <==> HasNoLong(rest) && MakesNoneHere(gap, longs[0], rest)
  {
    assert HoldsShort(longs[0], replace, rest);
    FirstPiece(v, longs, from, replace(longs[0]).value, rest);
  }

  lemma EndOfWord(v: string, w: Word)
    requires IsWord(v, w)
    ensures w.start < w.end <= |v| && v[w.end - 1] == '='
  {
    var c :| IsCte(c, w.base64) && v[w.start..w.end] == "=?" + w.charset + "?" + [c] + "?" + w.text + "?=";
    assert v[w.start..w.end][w.end - w.start - 1] == '=';
  }

  /** The value with its long words replaced, one long word at a time. */
  lemma OneMore(v: string, longs: seq<Word>, from: nat, replace: Replacer) returns (rest: string)
    requires InRange(v, longs) && from <= |v| && Apart(v, longs, from) && AllSplit(longs, replace)
    requires HoldsAll(v, longs, from) && (from == 0 || !IsSpace(v[from - 1])) && longs != []
    ensures InRange(v, longs[1..]) && Apart(v, longs[1..], longs[0].end) && HoldsAll(v, longs[1..], longs[0].end)
    ensures AllSplit(longs[1..], replace) && 0 < longs[0].end && !IsSpace(v[longs[0].end - 1])
    ensures rest == Replaced(v, longs[1..], longs[0].end, replace) && (rest == "" || IsSpace(rest[0]))
  {
    BehindFirst(v, longs, from);
    RestSplits(longs, replace);
    RestIsSpaced(v, longs[1..], longs[0].end, replace);
    rest := Replaced(v, longs[1..], longs[0].end, replace);
  }

  /* ---- The replaced value and the received one ---- */

  /** In front of a word that is split, and in front of what it is split into, the same long words start. */
  lemma SplitAgrees(v: string, w: Word, front: string, split: string, kept: string, i: nat)
    requires IsWord(v, w) && IsCharset(w.charset) && OpensWord(split, w.charset)
    requires i < |front| && IsSpace(front[|front| - 1])
    ensures StartsLong(front + split, i) == StartsLong(front + (v[w.start..w.end] + kept), i)
  {
    WordOpens(v, w, kept);
    GapAlone(front, split, w.charset, i);
    GapAlone(front, v[w.start..w.end] + kept, w.charset, i);
  }

  lemma KeptStep(v: string, longs: seq<Word>, from: nat, front: string)
    requires InRange(v, longs) && from <= |v| && Apart(v, longs, from) && longs != []
    ensures var w, kept := longs[0], Kept(v, longs[1..], longs[0].end);
      front + Kept(v, longs, from) ==
        front + v[from..w.start] + (if IsEmpty(w) then kept else v[w.start..w.end] + kept)
  {
    var w, kept := longs[0], Kept(v, longs[1..], longs[0].end);
    if !IsEmpty(w) {
      assert v[from..w.end] == v[from..w.start] + v[w.start..w.end];
      Sequences.Regroup(v[from..w.start], v[w.start..w.end], kept);
      Sequences.Regroup(front, v[from..w.start], v[w.start..w.end] + kept);
    } else {
      Sequences.Regroup(front, v[from..w.start], kept);
    }
  }

  lemma ReplacedStep(v: string, longs: seq<Word>, from: nat, replace: Replacer, front: string)
    requires InRange(v, longs) && from <= |v| && Apart(v, longs, from) && AllSplit(longs, replace) && longs != []
    requires AllSplit(longs[1..], replace)
    ensures front + Replaced(v, longs, from, replace) ==
      front + v[from..longs[0].start] + (replace(longs[0]).value + Replaced(v, longs[1..], longs[0].end, replace))
  {
    var gap, piece := v[from..longs[0].start], replace(longs[0]).value;
    var rest := Replaced(v, longs[1..], longs[0].end, replace);
    Sequences.Regroup(gap, piece, rest);
    Sequences.Regroup(front, gap, piece + rest);
  }

  /** At the first long word: the rest, where it is dropped, decides. */
  lemma OneAgrees(v: string, w: Word, from: nat, piece: string, rest: string, kept: string, front: string, i: nat)
    requires 0 < from <= w.start && IsWord(v, w) && IsDelimited(v, w) && !IsSpace(v[from - 1]) && i < |front|
    requires IsCharset(w.charset) && if IsEmpty(w) then piece == "" else ReplacedBy(w, piece, rest)
    requires IsEmpty(w) ==>
      StartsLong(front + v[from..w.start] + rest, i) == StartsLong(front + v[from..w.start] + kept, i)
    ensures StartsLong(front + v[from..w.start] + (piece + rest), i) ==
      StartsLong(front + v[from..w.start] + (if IsEmpty(w) then kept else v[w.start..w.end] + kept), i)
  {
    if IsEmpty(w) {
      assert piece + rest == rest;
    } else {
      GapEndsInSpace(v, w, from);
      SplitAgrees(v, w, front + v[from..w.start], piece + rest, kept, i);
    }
  }

  lemma AgreesHere(v: string, longs: seq<Word>, from: nat, replace: Replacer, rest: string, front: string, i: nat)
    requires InRange(v, longs) && 0 < from <= |v| && Apart(v, longs, from) && AllSplit(longs, replace)
    requires longs != [] && IsWord(v, longs[0]) && !IsSpace(v[from - 1]) && i < |front|
    requires IsSound(replace) && (rest == "" || IsSpace(rest[0]))
    requires AllSplit(longs[1..], replace) && rest == Replaced(v, longs[1..], longs[0].end, replace)
    requires var gap := v[from..longs[0].start];
      IsEmpty(longs[0]) ==>
        StartsLong(front + gap + rest, i) == StartsLong(front + gap + Kept(v, longs[1..], longs[0].end), i)
    ensures StartsLong(front + Replaced(v, longs, from, replace), i) == StartsLong(front + Kept(v, longs, from), i)
  {
    KeptStep(v, longs, from, front);
    ReplacedStep(v, longs, from, replace, front);
    assert HoldsShort(longs[0], replace, rest);
    var kept := Kept(v, longs[1..], longs[0].end);
    OneAgrees(v, longs[0], from, replace(longs[0]).value, rest, kept, front, i);
  }

  /** In a text in front, the same long words start whether the words behind it are replaced or kept. */
  lemma {:induction false} KeptAgrees(v: string, longs: seq<Word>, from: nat, replace: Replacer, front: string, i: nat)
    requires InRange(v, longs) && 0 < from <= |v| && Apart(v, longs, from) && AllSplit(longs, replace)
    requires HoldsAll(v, longs, from) && !IsSpace(v[from - 1]) && IsSound(replace) && i < |front|
    ensures StartsLong(front + Replaced(v, longs, from, replace), i) == StartsLong(front + Kept(v, longs, from), i)
    decreases |longs|
  {
    if longs != [] {
      var rest := OneMore(v, longs, from, replace);
      if IsEmpty(longs[0]) {
        KeptAgrees(v, longs[1..], longs[0].end, replace, front + v[from..longs[0].start], i);
      }
      AgreesHere(v, longs, from, replace, rest, front, i);
    }
  }

  lemma GapEndsInSpace(v: string, w: Word, from: nat)
    requires 0 < from <= w.start <= w.end <= |v| && !IsSpace(v[from - 1]) && IsDelimited(v, w)
    ensures var gap := v[from..w.start]; gap != "" && IsSpace(gap[|gap| - 1])
  {
  }

  /** The condition for one long word is the same for what follows it replaced and as received. */
  lemma KeptDecides(v: string, longs: seq<Word>, from: nat, replace: Replacer, rest: string)
    requires InRange(v, longs) && from <= |v| && Apart(v, longs, from) && AllSplit(longs, replace)
    requires HoldsAll(v, longs, from) && (from == 0 || !IsSpace(v[from - 1])) && IsSound(replace) && longs != []
    requires AllSplit(longs[1..], replace) && InRange(v, longs[1..]) && Apart(v, longs[1..], longs[0].end)
    requires rest == Replaced(v, longs[1..], longs[0].end, replace)
    ensures var gap := v[from..longs[0].start];
      MakesNoneHere(gap, longs[0], rest) <==> MakesNoneHere(gap, longs[0], Kept(v, longs[1..], longs[0].end))
  {
    var w, gap, kept := longs[0], v[from..longs[0].start], Kept(v, longs[1..], longs[0].end);
    BehindFirst(v, longs, from);
    KeptAgrees(v, longs[1..], w.end, replace, "=?=", 0);
    forall i | 0 <= i < |gap| ensures StartsLong(gap + rest, i) == StartsLong(gap + kept, i) {
      KeptAgrees(v, longs[1..], w.end, replace, gap, i);
    }
    SameLongs(gap, rest, kept);
  }

  lemma SameLongs(gap: string, t: string, u: string)
    requires forall i :: 0 <= i < |gap| ==> StartsLong(gap + t, i) == StartsLong(gap + u, i)
    ensures NoLongBefore(gap + t, |gap|) <==> NoLongBefore(gap + u, |gap|)
  {
    forall i | 0 <= i < |gap| ensures StartsLong(gap + t, i) == StartsLong(gap + u, i) {
    }
  }

  /** The first long word and the rest: whether either makes or holds a long word. */
  lemma OneReplaced(v: string, longs: seq<Word>, from: nat, replace: Replacer) returns (rest: string, none: bool)
    requires InRange(v, longs) && from <= |v| && Apart(v, longs, from) && AllSplit(longs, replace)
    requires HoldsAll(v, longs, from) && (from == 0 || !IsSpace(v[from - 1])) && IsSound(replace) && longs != []
    ensures InRange(v, longs[1..]) && Apart(v, longs[1..], longs[0].end) && HoldsAll(v, longs[1..], longs[0].end)
    ensures AllSplit(longs[1..], replace) && 0 < longs[0].end && !IsSpace(v[longs[0].end - 1])
    ensures rest == Replaced(v, longs[1..], longs[0].end, replace)
    ensures HasNoLong(Replaced(v, longs, from, replace)) <==> HasNoLong(rest) && none
    ensures MakesNone(v, longs, from) <==> none && MakesNone(v, longs[1..], longs[0].end)
  {
    rest := OneMore(v, longs, from, replace);
    none := MakesNoneHere(v[from..longs[0].start], longs[0], rest);
    FirstReplaced(v, longs, from, replace, rest);
    KeptDecides(v, longs, from, replace, rest);
  }

  /** No long word is left from `from` on exactly if none is made. */
  lemma {:induction false} ReplacedHoldsNone(v: string, longs: seq<Word>, from: nat, replace: Replacer)
    requires InRange(v, longs) && from <= |v| && Apart(v, longs, from) && AllSplit(longs, replace)
    requires HoldsAll(v, longs, from) && (from == 0 || !IsSpace(v[from - 1])) && IsSound(replace)
    ensures HasNoLong(Replaced(v, longs, from, replace)) <==> MakesNone(v, longs, from)
    decreases |longs|
  {
    if longs == [] {
      EndHoldsNone(v, from);
    } else {
      var rest, none := OneReplaced(v, longs, from, replace);
      ReplacedHoldsNone(v, longs[1..], longs[0].end, replace);
    }
  }

  lemma LongWordsStep(v: string, words: seq<Word>, w: Word)
    requires InRange(v, words) && words != []
    ensures InRange(v, words[1..])
    ensures w in LongWords(v, words) <==> (w == words[0] && IsLong(words[0])) || w in LongWords(v, words[1..])
    ensures w in words <==> w == words[0] || w in words[1..]
  {
    assert words == [words[0]] + words[1..];
  }

  /** The long words of a value are its words that are long. */
  lemma {:induction false} LongWordsAre(v: string, words: seq<Word>, w: Word)
    requires InRange(v, words)
    ensures w in LongWords(v, words) <==> w in words && w.start <= w.end && IsLong(w)
    decreases |words|
  {
    if words != [] {
      LongWordsStep(v, words, w);
      LongWordsAre(v, words[1..], w);
    }
  }

  lemma {:induction false} LongWordsIncrease(v: string, words: seq<Word>)
    requires InRange(v, words) && Increasing(words)
    ensures Increasing(LongWords(v, words))
    decreases |words|
  {
    if words != [] {
      var rest := words[1..];
      assert forall k :: 0 <= k < |rest| ==> rest[k] == words[k + 1];
      LongWordsIncrease(v, rest);
      FirstIsBefore(v, words);
      assert LongWords(v, words) ==
        if IsLong(words[0]) then [words[0]] + LongWords(v, rest) else LongWords(v, rest);
    }
  }

  lemma FirstIsBefore(v: string, words: seq<Word>)
    requires InRange(v, words) && Increasing(words) && words != [] && InRange(v, words[1..])
    ensures var longs := LongWords(v, words[1..]);
      forall k :: 0 <= k < |longs| ==> words[0].start < longs[k].start
  {
    var longs := LongWords(v, words[1..]);
    forall k | 0 <= k < |longs| ensures words[0].start < longs[k].start {
      LongWordsAre(v, words[1..], longs[k]);
      var j :| 0 <= j < |words[1..]| && words[1..][j] == longs[k];
      assert words[j + 1] == longs[k];
    }
  }

  lemma ValueHoldsAll(v: string)
    ensures InRange(v, Words(v)) && HoldsAll(v, LongWords(v, Words(v)), 0)
  {
    FoundInRange(v, 0);
    WordsExact(v);
    LongWordsIncrease(v, Words(v));
    var longs := LongWords(v, Words(v));
    forall k | 0 <= k < |longs| ensures IsWord(v, longs[k]) {
      LongWordsAre(v, Words(v), longs[k]);
    }
    forall i | 0 <= i < |v| && StartsLong(v, i) ensures exists k :: 0 <= k < |longs| && longs[k].start == i {
      StartsLongMeans(v, i);
      FoundIsWord(v, i);
      LongWordsAre(v, Words(v), WordAt(v, i).value);
    }
  }

  /** A value has no long word exactly if none of its words is longer than 75 chars. */
  lemma HasNoLongMeans(v: string)
    ensures HasNoLong(v) <==> forall w :: w in Words(v) ==> w.end <= w.start + MAX_ENCODED_WORD
  {
    WordsExact(v);
    forall i | 0 <= i < |v| && StartsLong(v, i)
      ensures WordAt(v, i).Some? && WordAt(v, i).value in Words(v)
      ensures WordAt(v, i).value.end > WordAt(v, i).value.start + MAX_ENCODED_WORD
    {
      StartsLongMeans(v, i);
      FoundIsWord(v, i);
    }
    forall w | w in Words(v) && w.end > w.start + MAX_ENCODED_WORD
      ensures w.start < |v| && StartsLong(v, w.start)
    {
      WordIsFound(v, w);
      StartsLongMeans(v, w.start);
    }
  }

  /**
   Which forwarded values hold no word longer than 75 chars: exactly those where no split or dropped
   word makes one with the text around it.
   */
  lemma NoLongWordLeft(v: string, phrase: bool, quoted: bool, valid: Utf8Check)
    requires Forwardable(v, phrase, quoted, valid).Some?
    ensures InRange(v, Words(v))
    ensures var longs := LongWords(v, Words(v));
      && Apart(v, longs, 0) && AllSplit(longs, Replacing(phrase, valid))
      && ((forall w :: w in Words(Forwardable(v, phrase, quoted, valid).value) ==> w.end <= w.start + MAX_ENCODED_WORD)
          <==> MakesNone(v, longs, 0))
  {
    ForwardableIs(v, phrase, quoted, valid);
    ValueHoldsAll(v);
    ReplacingIsSound(phrase, valid);
    ReplacedHoldsNone(v, LongWords(v, Words(v)), 0, Replacing(phrase, valid));
    HasNoLongMeans(Forwardable(v, phrase, quoted, valid).value);
  }
}
