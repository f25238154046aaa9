/**
 Bytes, latin-1 text and the Python string operations the form parser relies on.
 */
module Text {
  import opened Wrappers

  newtype byte = i: int | 0 <= i < 256

  const TAB: byte := 9
  const LF: byte := 10
  const CR: byte := 13
  const SPACE: byte := 32
  const DASH: byte := 45
  const COLON: byte := 58

  /** One char per byte, as header values are decoded. */
  function Latin1(bytes: seq<byte>): (text: string)
    ensures |text| == |bytes|
    ensures forall i :: 0 <= i < |bytes| ==> text[i] == bytes[i] as char
  {
    seq(|bytes|, i requires 0 <= i < |bytes| => bytes[i] as char)
  }

  /** The inverse: a char outside latin-1 becomes `?`. */
  function Latin1Bytes(text: string): (bytes: seq<byte>)
    ensures |bytes| == |text|
    ensures forall i :: 0 <= i < |text| ==>
      bytes[i] == if text[i] as int < 256 then text[i] as byte else 63
  {
    seq(|text|, i requires 0 <= i < |text| => if text[i] as int < 256 then text[i] as byte else 63)
  }

  lemma Latin1Inverse(bytes: seq<byte>)
    ensures Latin1Bytes(Latin1(bytes)) == bytes
  {
  }

  /** The piece stands in the text at `i`. */
  predicate HoldsAt(text: string, i: nat, piece: string) {
    i + |piece| <= |text| && text[i..i + |piece|] == piece
  }

  /** Unicode lowercase of a latin-1 char. */
  function LowerChar(c: char): char {
    if 'A' <= c <= 'Z' || (0xC0 <= c as int <= 0xDE && c as int != 0xD7) then
      (c as int + 32) as char
    else c
  }

  function Lower(text: string): (r: string)
    ensures |r| == |text|
  {
    seq(|text|, i requires 0 <= i < |text| => LowerChar(text[i]))
  }

  /** ASCII-only case folding of a byte, for header names. */
  function LowerByte(b: byte): byte {
    if 65 <= b <= 90 then b + 32 else b
  }

  predicate EqIgnoreCase(a: seq<byte>, b: seq<byte>) {
    |a| == |b| && forall i :: 0 <= i < |a| ==> LowerByte(a[i]) == LowerByte(b[i])
  }

  /** Python's `str.isspace()`. */
  predicate IsPySpace(c: char) {
    var n := c as int;
    || 9 <= n <= 13
    || 0x1c <= n <= 0x20
    || n in {0x85, 0xa0, 0x1680, 0x2028, 0x2029, 0x202f, 0x205f, 0x3000}
    || 0x2000 <= n <= 0x200a
  }

  function TrimStart(text: string): string {
    if text == "" || !IsPySpace(text[0]) then text else TrimStart(text[1..])
  }

  function TrimEnd(text: string): string {
    if text == "" || !IsPySpace(text[|text| - 1]) then text else TrimEnd(text[..|text| - 1])
  }

  /** Python's `str.strip()`. */
  function Strip(text: string): string {
    TrimEnd(TrimStart(text))
  }

  /** The first index in `[from, end)` that holds `c`. */
  function FirstIn(text: string, c: char, from: nat, end: nat): (r: Option<nat>)
    requires from <= end <= |text|
    ensures r.None? ==> forall i :: from <= i < end ==> text[i] != c
    ensures r.Some? ==> from <= r.value < end && text[r.value] == c
    ensures r.Some? ==> forall i :: from <= i < r.value ==> text[i] != c
    decreases end - from
  {
    if from == end then None
    else if text[from] == c then Some(from)
    else FirstIn(text, c, from + 1, end)
  }

  /** Replaces every occurrence of the two-char pattern, left to right. */
  function ReplacePair(text: string, pattern: string, with: char): (r: string)
    requires |pattern| == 2
    ensures |r| <= |text|
  {
    if |text| < 2 then text
    else if text[..2] == pattern then [with] + ReplacePair(text[2..], pattern, with)
    else [text[0]] + ReplacePair(text[1..], pattern, with)
  }

  /* ---- Hex digits ---- */

  function HexDigit(b: byte): (r: Option<nat>)
    ensures r.Some? ==> r.value < 16
  {
    if 48 <= b <= 57 then Some((b - 48) as nat)
    else if 97 <= b <= 102 then Some((b - 87) as nat)
    else if 65 <= b <= 70 then Some((b - 55) as nat)
    else None
  }

  function HexChar(v: nat): (b: byte)
    requires v < 16
    ensures HexDigit(b) == Some(v)
  {
    if v < 10 then (48 + v) as byte else (55 + v) as byte
  }
}
