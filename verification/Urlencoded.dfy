/**
 URL-encoded forms: the parser, which cuts the body at `&` and `=` and decodes names and values, and
 the writer clients use. Text is what an abstract UTF-8 codec makes of bytes.
 */
module Urlencoded {
  import opened Wrappers
  import opened Text
  import opened Percent

  const AMPERSAND: byte := 38
  const PLUS: byte := 43
  const EQUALS: byte := 61

  /** The UTF-8 codec, which is not part of this model. */
  datatype Codec = Codec(encode: string -> seq<byte>, decode: seq<byte> -> string)

  predicate AllAscii(bytes: seq<byte>) {
    forall i :: 0 <= i < |bytes| ==> bytes[i] < 128
  }

  /** Encoded text is decoded again, and ASCII bytes are the chars they stand for. */
  ghost predicate Sound(codec: Codec) {
    && (forall s :: codec.decode(codec.encode(s)) == s)
    && (forall b :: AllAscii(b) ==> codec.decode(b) == Latin1(b))
  }

  datatype Limits = Limits(maxFields: int, maxPartSize: int)

  type Fields = seq<(string, string)>

  /* ---- The parser ---- */

  /** `replace('+', " ")`. */
  function Spaces(bytes: seq<byte>): (r: seq<byte>)
    ensures |r| == |bytes|
  {
    seq(|bytes|, i requires 0 <= i < |bytes| => if bytes[i] == PLUS then SPACE else bytes[i])
  }

  function AsciiEnd(bytes: seq<byte>, i: nat): (r: nat)
    requires i <= |bytes|
    ensures i <= r <= |bytes|
    decreases |bytes| - i
  {
    if i == |bytes| || bytes[i] >= 128 then i else AsciiEnd(bytes, i + 1)
  }

  function OtherEnd(bytes: seq<byte>, i: nat): (r: nat)
    requires i <= |bytes|
    ensures i <= r <= |bytes|
    ensures i < |bytes| && bytes[i] >= 128 ==> i < r
    decreases |bytes| - i
  {
    if i == |bytes| || bytes[i] < 128 then i else OtherEnd(bytes, i + 1)
  }

  /** Runs of ASCII are percent-decoded, other latin-1 chars stay. */
  function Runs(bytes: seq<byte>, i: nat, codec: Codec): string
    requires i <= |bytes|
    decreases |bytes| - i
  {
    if i == |bytes| then ""
    else
      var ascii := AsciiEnd(bytes, i);
      var other := OtherEnd(bytes, ascii);
      AsciiStops(bytes, i);
      codec.decode(Decoded(bytes[i..ascii], 0)) + Latin1(bytes[ascii..other]) + Runs(bytes, other, codec)
  }

  lemma {:induction false} AsciiStops(bytes: seq<byte>, i: nat)
    requires i <= |bytes|
    ensures AsciiEnd(bytes, i) < |bytes| ==> bytes[AsciiEnd(bytes, i)] >= 128
    ensures i < |bytes| && bytes[i] < 128 ==> i < AsciiEnd(bytes, i)
    decreases |bytes| - i
  {
    if i < |bytes| && bytes[i] < 128 {
      AsciiStops(bytes, i + 1);
    }
  }

  /** `unquote_plus` of latin-1 text. */
  function UnquotePlus(bytes: seq<byte>, codec: Codec): string {
    var text := Spaces(bytes);
    if PERCENT !in text then Latin1(text) else Runs(text, 0, codec)
  }

  /** Name and value of one field. */
  function ParseField(field: seq<byte>, codec: Codec): (string, string) {
    var eq := FirstOf(field, EQUALS, 0);
    if eq == |field| then (UnquotePlus(field, codec), UnquotePlus([], codec))
    else (UnquotePlus(field[..eq], codec), UnquotePlus(field[eq + 1..], codec))
  }

  /** Whether a field is refused: the sizes are looked at for data only. */
  predicate IsTooLarge(field: seq<byte>, limits: Limits) {
    var eq := FirstOf(field, EQUALS, 0);
    || (eq > 0 && eq > limits.maxPartSize)
    || (eq + 1 < |field| && |field| - 1 > limits.maxPartSize)
  }

  /** The fields of the pieces, or nothing if a limit is exceeded. */
  function ReadFields(pieces: seq<seq<byte>>, before: Fields, limits: Limits, codec: Codec): Option<Fields>
    decreases |pieces|
  {
    if pieces == [] then Some(before)
    else if pieces[0] == [] then ReadFields(pieces[1..], before, limits, codec)
    else if IsTooLarge(pieces[0], limits) || |before| + 1 > limits.maxFields then None
    else ReadFields(pieces[1..], before + [ParseField(pieces[0], codec)], limits, codec)
  }

  function Parse(body: seq<byte>, limits: Limits, codec: Codec): Option<Fields> {
    ReadFields(Split(body, AMPERSAND, 0), [], limits, codec)
  }

  /* ---- The parser as it runs ---- */

  lemma AppendRun(out: string, a: string, b: string, rest: string)
    ensures out + (a + b + rest) == out + a + b + rest
  {
  }

  method Unquote(bytes: seq<byte>, codec: Codec) returns (out: string)
    ensures out == UnquotePlus(bytes, codec)
  {
    var text := Spaces(bytes);
    if PERCENT !in text {
      return Latin1(text);
    }
    out := "";
    var i := 0;
    while i < |text|
      invariant i <= |text| && out + Runs(text, i, codec) == Runs(text, 0, codec)
    {
      var ascii := AsciiEnd(text, i);
      var decoded := UnquoteToBytes(text[i..ascii]);
      var other := OtherEnd(text, ascii);
      AsciiStops(text, i);
      AppendRun(out, codec.decode(decoded), Latin1(text[ascii..other]), Runs(text, other, codec));
      out := out + codec.decode(decoded);
      out := out + Latin1(text[ascii..other]);
      i := other;
    }
  }

  method ReadUrlencoded(body: seq<byte>, limits: Limits, codec: Codec) returns (r: Option<Fields>)
    ensures r == Parse(body, limits, codec)
  {
    var pieces := Split(body, AMPERSAND, 0);
    var items: Fields := [];
    assert pieces[0..] == pieces;
    for k := 0 to |pieces|
      invariant Parse(body, limits, codec) == ReadFields(pieces[k..], items, limits, codec)
    {
      var field := pieces[k];
      assert pieces[k..][0] == field && pieces[k..][1..] == pieces[k + 1..];
      if field == [] {
        continue;
      }
      if IsTooLarge(field, limits) {
        return None;
      }
      if |items| + 1 > limits.maxFields {
        return None;
      }
      var eq := FirstOf(field, EQUALS, 0);
      var name, value;
      if eq < |field| {
        name := Unquote(field[..eq], codec);
        value := Unquote(field[eq + 1..], codec);
      } else {
        name := Unquote(field, codec);
        value := Unquote([], codec);
      }
      items := items + [(name, value)];
    }
    return Some(items);
  }

  /* ---- The writer ---- */

  predicate IsUnreserved(b: byte) {
    48 <= b <= 57 || 65 <= b <= 90 || 97 <= b <= 122 || b == 95 || b == 46 || b == 45 || b == 126
  }

  /** One byte of a name or value; `space` is what a space is written as. */
  function QuoteByte(b: byte, space: byte): seq<byte> {
    if b == SPACE then [space]
    else if IsUnreserved(b) then [b]
    else [PERCENT, HexChar(b as nat / 16), HexChar(b as nat % 16)]
  }

  function QuoteFrom(bytes: seq<byte>, space: byte): seq<byte> {
    if bytes == [] then [] else QuoteByte(bytes[0], space) + QuoteFrom(bytes[1..], space)
  }

  function Quote(text: string, codec: Codec): seq<byte> {
    QuoteFrom(codec.encode(text), PLUS)
  }

  function EncodeField(field: (string, string), codec: Codec): seq<byte> {
    Quote(field.0, codec) + [EQUALS] + Quote(field.1, codec)
  }

  function EncodeFields(fields: Fields, codec: Codec): (r: seq<seq<byte>>)
    ensures |r| == |fields| && forall i :: 0 <= i < |fields| ==> r[i] == EncodeField(fields[i], codec)
  {
    seq(|fields|, i requires 0 <= i < |fields| => EncodeField(fields[i], codec))
  }

  /** The pieces with `&` between them. */
  function JoinPieces(pieces: seq<seq<byte>>): seq<byte> {
    if pieces == [] then [] else if |pieces| == 1 then pieces[0] else pieces[0] + [AMPERSAND] + JoinPieces(pieces[1..])
  }

  function UrlEncode(fields: Fields, codec: Codec): seq<byte> {
    JoinPieces(EncodeFields(fields, codec))
  }

  /* ---- A quoted text ---- */

  lemma {:induction false} SpacesOfQuoted(bytes: seq<byte>)
    ensures Spaces(QuoteFrom(bytes, PLUS)) == QuoteFrom(bytes, SPACE)
  {
    if bytes != [] {
      SpacesOfQuoted(bytes[1..]);
      var a, b := QuoteByte(bytes[0], PLUS), QuoteFrom(bytes[1..], PLUS);
      assert Spaces(a + b) == Spaces(a) + Spaces(b);
      assert Spaces(a) == QuoteByte(bytes[0], SPACE);
    }
  }

  /** No `&` and no `=` in a quoted text, and ASCII only. */
  lemma {:induction false} QuotedBytes(bytes: seq<byte>, space: byte)
    requires space == PLUS || space == SPACE
    ensures AllAscii(QuoteFrom(bytes, space))
    ensures AMPERSAND !in QuoteFrom(bytes, space) && EQUALS !in QuoteFrom(bytes, space)
  {
    if bytes != [] {
      QuotedBytes(bytes[1..], space);
    }
  }

  lemma ByteDecodes(text: seq<byte>, i: nat, b: byte)
    requires i + |QuoteByte(b, SPACE)| <= |text| && text[i..i + |QuoteByte(b, SPACE)|] == QuoteByte(b, SPACE)
    ensures Decoded(text, i) == [b] + Decoded(text, i + |QuoteByte(b, SPACE)|)
  {
    var piece := text[i..i + |QuoteByte(b, SPACE)|];
    assert piece[0] == text[i];
    if |piece| == 3 {
      assert piece[1] == text[i + 1] && piece[2] == text[i + 2];
    }
  }

  lemma {:induction false} QuotedDecodes(text: seq<byte>, i: nat, bytes: seq<byte>)
    requires i <= |text| && text[i..] == QuoteFrom(bytes, SPACE)
    ensures Decoded(text, i) == bytes
    decreases |bytes|
  {
    if bytes != [] {
      var piece := QuoteByte(bytes[0], SPACE);
      assert text[i..][..|piece|] == piece;
      assert text[i + |piece|..] == text[i..][|piece|..] == QuoteFrom(bytes[1..], SPACE);
      ByteDecodes(text, i, bytes[0]);
      QuotedDecodes(text, i + |piece|, bytes[1..]);
    }
  }

  lemma {:induction false} AllAsciiEnd(bytes: seq<byte>, i: nat)
    requires i <= |bytes| && AllAscii(bytes)
    ensures AsciiEnd(bytes, i) == |bytes|
    decreases |bytes| - i
  {
    if i < |bytes| {
      AllAsciiEnd(bytes, i + 1);
    }
  }

  lemma OneRun(text: seq<byte>, codec: Codec)
    requires AllAscii(text) && text != []
    ensures Runs(text, 0, codec) == codec.decode(Decoded(text, 0))
  {
    AllAsciiEnd(text, 0);
    assert text[0..|text|] == text && Latin1(text[|text|..]) == "";
  }

  /** A quoted text is read back. */
  lemma QuotedReadsBack(s: string, codec: Codec)
    requires Sound(codec)
    ensures UnquotePlus(Quote(s, codec), codec) == s
  {
    var bytes := codec.encode(s);
    var text := QuoteFrom(bytes, SPACE);
    SpacesOfQuoted(bytes);
    QuotedBytes(bytes, SPACE);
    assert text[0..] == text;
    QuotedDecodes(text, 0, bytes);
    if PERCENT !in text {
      PlainRun(text, 0, |text|);
      assert text[0..|text|] + [] == text;
    } else {
      OneRun(text, codec);
    }
  }

  /** On ASCII without a plus sign, the form decoder is the path decoder. */
  lemma DecodersAgree(path: seq<byte>, codec: Codec)
    requires Sound(codec) && AllAscii(path) && PLUS !in path
    ensures UnquotePlus(path, codec) == codec.decode(Decoded(path, 0))
  {
    assert Spaces(path) == path;
    if PERCENT !in path {
      PlainRun(path, 0, |path|);
      assert path[0..|path|] + [] == path;
    } else {
      OneRun(path, codec);
    }
  }

  lemma {:induction false} FirstOfIs(bytes: seq<byte>, mark: byte, from: nat, r: nat)
    requires from <= r <= |bytes| && (r < |bytes| ==> bytes[r] == mark)
    requires forall k :: from <= k < r ==> bytes[k] != mark
    ensures FirstOf(bytes, mark, from) == r
    decreases r - from
  {
    if from < r {
      FirstOfIs(bytes, mark, from + 1, r);
    }
  }

  lemma FieldReadsBack(field: (string, string), codec: Codec)
    requires Sound(codec)
    ensures ParseField(EncodeField(field, codec), codec) == field
  {
    var name, value, bytes := Quote(field.0, codec), Quote(field.1, codec), EncodeField(field, codec);
    QuotedBytes(codec.encode(field.0), PLUS);
    FirstOfIs(bytes, EQUALS, 0, |name|);
    assert bytes[..|name|] == name && bytes[|name| + 1..] == value;
    QuotedReadsBack(field.0, codec);
    QuotedReadsBack(field.1, codec);
  }

  /* ---- A list of fields ---- */

  lemma PieceEnds(body: seq<byte>, i: nat, piece: seq<byte>, rest: seq<byte>)
    requires i <= |body| && body[i..] == piece + [AMPERSAND] + rest && AMPERSAND !in piece
    ensures FirstOf(body, AMPERSAND, i) == i + |piece| < |body|
    ensures body[i..i + |piece|] == piece && body[i + |piece| + 1..] == rest
  {
    var tail := body[i..];
    assert forall k :: i <= k < |body| ==> body[k] == tail[k - i];
    assert tail[..|piece|] == piece && tail[|piece| + 1..] == rest;
    FirstOfIs(body, AMPERSAND, i, i + |piece|);
  }

  lemma LastPiece(body: seq<byte>, i: nat, piece: seq<byte>)
    requires i <= |body| && body[i..] == piece && AMPERSAND !in piece
    ensures Split(body, AMPERSAND, i) == [piece]
  {
    assert forall k :: i <= k < |body| ==> body[k] == piece[k - i];
    FirstOfIs(body, AMPERSAND, i, |body|);
  }

  ghost predicate HoldNoMark(pieces: seq<seq<byte>>) {
    forall k :: 0 <= k < |pieces| ==> AMPERSAND !in pieces[k]
  }

  lemma FirstHoldsNoMark(pieces: seq<seq<byte>>)
    requires HoldNoMark(pieces) && pieces != []
    ensures AMPERSAND !in pieces[0] && HoldNoMark(pieces[1..]) && pieces == [pieces[0]] + pieces[1..]
  {
  }

  lemma {:induction false} SplitJoined(body: seq<byte>, i: nat, pieces: seq<seq<byte>>)
    requires i <= |body| && pieces != [] && body[i..] == JoinPieces(pieces) && HoldNoMark(pieces)
    ensures Split(body, AMPERSAND, i) == pieces
    decreases |pieces|
  {
    FirstHoldsNoMark(pieces);
    if |pieces| == 1 {
      LastPiece(body, i, pieces[0]);
    } else {
      FirstPiece(body, i, pieces[0], JoinPieces(pieces[1..]));
      SplitJoined(body, i + |pieces[0]| + 1, pieces[1..]);
    }
  }

  lemma FirstPiece(body: seq<byte>, i: nat, piece: seq<byte>, rest: seq<byte>)
    requires i <= |body| && body[i..] == piece + [AMPERSAND] + rest && AMPERSAND !in piece
    ensures i + |piece| + 1 <= |body| && body[i + |piece| + 1..] == rest
    ensures Split(body, AMPERSAND, i) == [piece] + Split(body, AMPERSAND, i + |piece| + 1)
  {
    PieceEnds(body, i, piece, rest);
  }

  /** A piece that is read as this field. */
  ghost predicate Reads(piece: seq<byte>, field: (string, string), codec: Codec) {
    piece != [] && ParseField(piece, codec) == field
  }

  /** Room for all pieces, none of them too large. */
  predicate IsWithin(pieces: seq<seq<byte>>, before: nat, limits: Limits) {
    && (pieces != [] ==> before + |pieces| <= limits.maxFields)
    && forall i :: 0 <= i < |pieces| ==> !IsTooLarge(pieces[i], limits)
  }

  lemma WithinStep(pieces: seq<seq<byte>>, before: nat, limits: Limits)
    requires pieces != []
    ensures IsWithin(pieces, before, limits) <==>
      !IsTooLarge(pieces[0], limits) && before + 1 <= limits.maxFields && IsWithin(pieces[1..], before + 1, limits)
  {
    assert forall i :: 0 <= i < |pieces| - 1 ==> pieces[1..][i] == pieces[i + 1];
    if !IsTooLarge(pieces[0], limits) && IsWithin(pieces[1..], before + 1, limits) {
      forall i | 0 <= i < |pieces|
        ensures !IsTooLarge(pieces[i], limits)
      {
        assert i > 0 ==> !IsTooLarge(pieces[1..][i - 1], limits);
      }
    }
  }

  lemma {:induction false} PiecesReadBack(pieces: seq<seq<byte>>, fields: Fields, before: Fields, limits: Limits,
      codec: Codec)
    requires |pieces| == |fields| && forall i :: 0 <= i < |pieces| ==> Reads(pieces[i], fields[i], codec)
    ensures ReadFields(pieces, before, limits, codec) ==
      if IsWithin(pieces, |before|, limits) then Some(before + fields) else None
    decreases |pieces|
  {
    if pieces == [] {
      assert before + fields == before;
    } else {
      FirstRead(pieces, fields[0], before, limits, codec);
      WithinStep(pieces, |before|, limits);
      PiecesReadBack(pieces[1..], fields[1..], before + [fields[0]], limits, codec);
      assert before + [fields[0]] + fields[1..] == before + fields;
    }
  }

  lemma FirstRead(pieces: seq<seq<byte>>, field: (string, string), before: Fields, limits: Limits, codec: Codec)
    requires pieces != [] && Reads(pieces[0], field, codec)
    ensures ReadFields(pieces, before, limits, codec) ==
      if IsTooLarge(pieces[0], limits) || |before| + 1 > limits.maxFields then None
      else ReadFields(pieces[1..], before + [field], limits, codec)
  {
  }

  lemma NothingSent(limits: Limits, codec: Codec)
    ensures Parse([], limits, codec) == Some([])
  {
    var pieces := Split([], AMPERSAND, 0);
    assert pieces[0] == [] && pieces[1..] == [];
    assert ReadFields(pieces[1..], [], limits, codec) == Some([]);
  }

  /**
   Decoding an encoded list of fields gives back exactly the fields, empty names and values included,
   if and only if they are within the limits.
   */
  lemma EncodeThenParse(fields: Fields, limits: Limits, codec: Codec)
    requires Sound(codec)
    ensures Parse(UrlEncode(fields, codec), limits, codec) ==
      if IsWithin(EncodeFields(fields, codec), 0, limits) then Some(fields) else None
  {
    if fields == [] {
      NothingSent(limits, codec);
    } else {
      var body, pieces := UrlEncode(fields, codec), EncodeFields(fields, codec);
      forall i | 0 <= i < |fields|
        ensures AMPERSAND !in pieces[i] && Reads(pieces[i], fields[i], codec)
      {
        QuotedBytes(codec.encode(fields[i].0), PLUS);
        QuotedBytes(codec.encode(fields[i].1), PLUS);
        FieldReadsBack(fields[i], codec);
      }
      assert body[0..] == body;
      SplitJoined(body, 0, pieces);
      PiecesReadBack(pieces, fields, [], limits, codec);
      assert [] + fields == fields;
    }
  }
}
