/**
 Splitting the bytes of a long encoded word into pieces that end between characters, and writing
 each piece as a base64 word.
 */
module WordPieces {
  import opened Wrappers
  import opened Text
  import opened EncodedWords
  import opened WordSplitting
  import Base64
  import Sequences

  const MAX_ENCODED_WORD: nat := 75

  /** A UTF-8 continuation byte starts no character. */
  predicate IsContinuation(b: byte) {
    128 <= b < 192
  }

  predicate IsBoundary(bytes: seq<byte>, i: nat)
    requires i <= |bytes|
  {
    i == 0 || i == |bytes| || !IsContinuation(bytes[i])
  }

  /** The bytes one word has room for, or nothing if the charset takes it all. */
  function Room(charset: string): Option<nat> {
    if |charset| + 7 > MAX_ENCODED_WORD then None else Some((MAX_ENCODED_WORD - (|charset| + 7)) / 4 * 3)
  }

  function CutBack(bytes: seq<byte>, from: nat, cut: nat, utf8: bool): (r: nat)
    requires from + cut <= |bytes|
    ensures r <= cut
    decreases cut
  {
    if utf8 && cut > 0 && !IsBoundary(bytes, from + cut) then CutBack(bytes, from, cut - 1, utf8) else cut
  }

  function Cut(bytes: seq<byte>, from: nat, room: nat, utf8: bool): (r: nat)
    requires from <= |bytes|
    ensures r <= room && from + r <= |bytes|
  {
    CutBack(bytes, from, if |bytes| - from < room then |bytes| - from else room, utf8)
  }

  /** The pieces from `from` on; nothing if one would be empty. */
  function Pieces(bytes: seq<byte>, from: nat, room: nat, utf8: bool): Option<seq<seq<byte>>>
    requires from <= |bytes|
    decreases |bytes| - from
  {
    if from == |bytes| then Some([])
    else
      var cut := Cut(bytes, from, room, utf8);
      if cut == 0 then None
      else
        var rest :- Pieces(bytes, from + cut, room, utf8);
        Some([bytes[from..from + cut]] + rest)
  }

  function WriteWord(charset: string, text: string): string {
    "=?" + charset + "?b?" + text + "?="
  }

  function WriteWords(charset: string, texts: seq<string>): string {
    if texts == [] then ""
    else if |texts| == 1 then WriteWord(charset, texts[0])
    else WriteWord(charset, texts[0]) + " " + WriteWords(charset, texts[1..])
  }

  function Encodings(pieces: seq<seq<byte>>): (r: seq<string>)
    ensures |r| == |pieces| && forall i :: 0 <= i < |pieces| ==> r[i] == Base64.Encode(pieces[i])
  {
    seq(|pieces|, i requires 0 <= i < |pieces| => Base64.Encode(pieces[i]))
  }

  /** Whether bytes are UTF-8 is decided outside this model. */
  type Utf8Check = seq<byte> -> bool

  function SplitWord(charset: string, bytes: seq<byte>, valid: Utf8Check): Option<string> {
    var room :- Room(charset);
    if IsUtf8(charset) && !valid(bytes) then None
    else
      var pieces :- Pieces(bytes, 0, room, IsUtf8(charset));
      Some(WriteWords(charset, Encodings(pieces)))
  }

  method FindCut(bytes: seq<byte>, from: nat, room: nat, utf8: bool) returns (cut: nat)
    requires from <= |bytes|
    ensures cut == Cut(bytes, from, room, utf8)
  {
    cut := if |bytes| - from < room then |bytes| - from else room;
    while utf8 && cut > 0 && !IsBoundary(bytes, from + cut)
      invariant from + cut <= |bytes| && CutBack(bytes, from, cut, utf8) == Cut(bytes, from, room, utf8)
    {
      cut := cut - 1;
    }
  }

  function Behind(before: seq<seq<byte>>, rest: Option<seq<seq<byte>>>): Option<seq<seq<byte>>> {
    match rest case None => None case Some(pieces) => Some(before + pieces)
  }

  lemma NextPiece(bytes: seq<byte>, from: nat, room: nat, utf8: bool, before: seq<seq<byte>>, cut: nat)
    requires from < |bytes| && cut == Cut(bytes, from, room, utf8)
    ensures Behind(before, Pieces(bytes, from, room, utf8)) ==
      if cut == 0 then None else Behind(before + [bytes[from..from + cut]], Pieces(bytes, from + cut, room, utf8))
  {
    if cut > 0 {
      match Pieces(bytes, from + cut, room, utf8)
      case None =>
      case Some(rest) => Sequences.Regroup(before, [bytes[from..from + cut]], rest);
    }
  }

  lemma BehindNothing(rest: Option<seq<seq<byte>>>)
    ensures Behind([], rest) == rest
  {
    match rest
    case None =>
    case Some(pieces) => assert [] + pieces == pieces;
  }

  method Split(charset: string, bytes: seq<byte>, valid: Utf8Check) returns (r: Option<string>)
    ensures r == SplitWord(charset, bytes, valid)
  {
    if |charset| + 7 > MAX_ENCODED_WORD {
      return None;
    }
    var room := (MAX_ENCODED_WORD - (|charset| + 7)) / 4 * 3;
    var utf8 := IsUtf8(charset);
    if utf8 && !valid(bytes) {
      return None;
    }
    var pieces: seq<seq<byte>> := [];
    var from := 0;
    BehindNothing(Pieces(bytes, 0, room, utf8));
    while from < |bytes|
      invariant from <= |bytes|
      invariant Pieces(bytes, 0, room, utf8) == Behind(pieces, Pieces(bytes, from, room, utf8))
    {
      var cut := FindCut(bytes, from, room, utf8);
      NextPiece(bytes, from, room, utf8, pieces, cut);
      if cut == 0 {
        return None;
      }
      pieces := pieces + [bytes[from..from + cut]];
      from := from + cut;
    }
    r := Some(WriteWords(charset, Encodings(pieces)));
    assert pieces + [] == pieces;
  }

  /* ---- The pieces ---- */

  function Concat(pieces: seq<seq<byte>>): seq<byte> {
    if pieces == [] then [] else pieces[0] + Concat(pieces[1..])
  }

  lemma {:induction false} CutIsBoundary(bytes: seq<byte>, from: nat, cut: nat)
    requires from + cut <= |bytes|
    ensures var r := CutBack(bytes, from, cut, true);
      (r > 0 ==> IsBoundary(bytes, from + r)) &&
      forall e :: from + r < e <= from + cut ==> !IsBoundary(bytes, e)
    decreases cut
  {
    if cut > 0 && !IsBoundary(bytes, from + cut) {
      CutIsBoundary(bytes, from, cut - 1);
    }
  }

  /** Where the pieces end. */
  ghost predicate EndsAtBoundaries(bytes: seq<byte>, from: nat, pieces: seq<seq<byte>>)
    requires from <= |bytes|
    decreases |pieces|
  {
    pieces != [] ==>
      && from + |pieces[0]| <= |bytes| && IsBoundary(bytes, from + |pieces[0]|)
      && EndsAtBoundaries(bytes, from + |pieces[0]|, pieces[1..])
  }

  lemma PartitionStep(bytes: seq<byte>, from: nat, end: nat, rest: seq<seq<byte>>)
    requires from <= end <= |bytes| && Concat(rest) == bytes[end..]
    ensures ([bytes[from..end]] + rest)[1..] == rest && Concat([bytes[from..end]] + rest) == bytes[from..]
  {
    assert ([bytes[from..end]] + rest)[1..] == rest;
    assert bytes[from..] == bytes[from..end] + bytes[end..];
  }

  /** The pieces make up the bytes; none is empty or too long, and every one ends between characters. */
  lemma {:induction false} PiecesPartition(bytes: seq<byte>, from: nat, room: nat, utf8: bool)
    requires from <= |bytes| && Pieces(bytes, from, room, utf8).Some?
    ensures var pieces := Pieces(bytes, from, room, utf8).value;
      && Concat(pieces) == bytes[from..]
      && (forall i :: 0 <= i < |pieces| ==> 0 < |pieces[i]| <= room)
      && (utf8 ==> EndsAtBoundaries(bytes, from, pieces))
    decreases |bytes| - from
  {
    if from < |bytes| {
      var cut := Cut(bytes, from, room, utf8);
      PiecesPartition(bytes, from + cut, room, utf8);
      if utf8 {
        CutIsBoundary(bytes, from, if |bytes| - from < room then |bytes| - from else room);
      }
      PartitionStep(bytes, from, from + cut, Pieces(bytes, from + cut, room, utf8).value);
    }
  }

  predicate MayEnd(bytes: seq<byte>, e: nat, utf8: bool)
    requires e <= |bytes|
  {
    utf8 ==> IsBoundary(bytes, e)
  }

  /** The character at `from` ends within the room. */
  ghost predicate Fits(bytes: seq<byte>, from: nat, room: nat, utf8: bool) {
    exists e :: from < e <= |bytes| && MayEnd(bytes, e, utf8) && e <= from + room
  }

  lemma CutFits(bytes: seq<byte>, from: nat, room: nat, utf8: bool)
    requires from < |bytes|
    ensures Cut(bytes, from, room, utf8) > 0 <==> Fits(bytes, from, room, utf8)
  {
    var most := if |bytes| - from < room then |bytes| - from else room;
    var cut := Cut(bytes, from, room, utf8);
    if utf8 {
      CutIsBoundary(bytes, from, most);
    }
    if cut > 0 {
      assert MayEnd(bytes, from + cut, utf8);
    }
  }

  /** Splitting works if and only if every character of the rest fits the room. */
  lemma {:induction false} PiecesExist(bytes: seq<byte>, from: nat, room: nat, utf8: bool)
    requires from <= |bytes| && MayEnd(bytes, from, utf8)
    ensures Pieces(bytes, from, room, utf8).Some? <==>
      forall o :: from <= o < |bytes| && MayEnd(bytes, o, utf8) ==> Fits(bytes, o, room, utf8)
    decreases |bytes| - from
  {
    if from < |bytes| {
      var cut := Cut(bytes, from, room, utf8);
      CutFits(bytes, from, room, utf8);
      if cut > 0 {
        if utf8 {
          CutIsBoundary(bytes, from, if |bytes| - from < room then |bytes| - from else room);
        }
        PiecesExist(bytes, from + cut, room, utf8);
        assert MayEnd(bytes, from + cut, utf8);
        forall o | from <= o < from + cut
          ensures Fits(bytes, o, room, utf8)
        {
          assert from + cut <= o + room;
        }
      }
    }
  }
}
