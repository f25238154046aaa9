/**
 The two charsets of the form parser: latin-1, and UTF-8 (section 4 of RFC 3629) with latin-1 as the
 fallback for bytes that are no UTF-8.
 */
module Charsets {
  import opened Wrappers
  import opened Text

  /** The value of `n` continuation bytes behind the value `high`. */
  function Continued(bytes: seq<byte>, n: nat, high: nat): Option<nat>
    requires n <= |bytes|
    decreases n
  {
    if n == 0 then Some(high)
    else if 128 <= bytes[0] < 192 then Continued(bytes[1..], n - 1, high * 64 + (bytes[0] as nat - 128))
    else None
  }

  /** How many bytes the character takes that starts with the byte. */
  function Width(b: byte): Option<nat> {
    if b < 128 then Some(1)
    else if 194 <= b < 224 then Some(2)
    else if 224 <= b < 240 then Some(3)
    else if 240 <= b < 245 then Some(4)
    else None
  }

  /** The bits that the first byte of a character adds. */
  function HighBits(b: byte, width: nat): nat {
    if width == 2 then b as nat % 32 else if width == 3 then b as nat % 16 else b as nat % 8
  }

  /** A code point in its shortest form that is a character. */
  predicate IsCharacter(point: nat, width: nat) {
    && (if width == 2 then 0x80 else if width == 3 then 0x800 else 0x1_0000) <= point < 0x11_0000
    && !(0xD800 <= point < 0xE000)
  }

  /** The first character, and its width. */
  function FirstChar(bytes: seq<byte>): (r: Option<(char, nat)>)
    requires bytes != []
    ensures r.Some? ==> 0 < r.value.1 <= |bytes|
    ensures r.Some? ==> if bytes[0] < 128 then r.value == (bytes[0] as char, 1) else r.value.0 as int >= 128
  {
    var width :- Width(bytes[0]);
    if |bytes| < width then None
    else if width == 1 then Some((bytes[0] as char, 1))
    else
      var point :- Continued(bytes[1..], width - 1, HighBits(bytes[0], width));
      if IsCharacter(point, width) then Some((point as char, width)) else None
  }

  /** The text of UTF-8 bytes. */
  function Utf8(bytes: seq<byte>): Option<string>
    decreases |bytes|
  {
    if bytes == [] then Some("")
    else
      var first :- FirstChar(bytes);
      var rest :- Utf8(bytes[first.1..]);
      Some([first.0] + rest)
  }

  /** UTF-8, and latin-1 for everything else. */
  function Utf8OrLatin1(bytes: seq<byte>): string {
    match Utf8(bytes) case Some(text) => text case None => Latin1(bytes)
  }

  /* ---- Text that clients write ---- */

  /** The lowest six bits of a code point, or of what is left of it, as a continuation byte. */
  function Continuation(bits: nat): byte {
    (128 + bits % 64) as byte
  }

  function EncodeChar(c: char): seq<byte> {
    var n := c as nat;
    if n < 0x80 then [n as byte]
    else if n < 0x800 then [(192 + n / 64) as byte, Continuation(n)]
    else if n < 0x1_0000 then [(224 + n / 64 / 64) as byte, Continuation(n / 64), Continuation(n)]
    else [(240 + n / 64 / 64 / 64) as byte, Continuation(n / 64 / 64), Continuation(n / 64), Continuation(n)]
  }

  function EncodeUtf8(text: string): seq<byte> {
    if text == "" then [] else EncodeChar(text[0]) + EncodeUtf8(text[1..])
  }

  lemma OneContinued(bytes: seq<byte>, n: nat, high: nat, bits: nat)
    requires 0 < n <= |bytes| && bytes[0] == Continuation(bits) && high == bits / 64
    ensures Continued(bytes, n, high) == Continued(bytes[1..], n - 1, bits)
  {
  }

  /** The continuation bytes of a code point, behind its highest bits. */
  lemma TwoContinued(bytes: seq<byte>, n: nat, high: nat, bits: nat)
    requires 1 < n <= |bytes| && bytes[0] == Continuation(bits / 64) && bytes[1] == Continuation(bits)
    requires high == bits / 64 / 64
    ensures Continued(bytes, n, high) == Continued(bytes[2..], n - 2, bits)
  {
    OneContinued(bytes, n, high, bits / 64);
    OneContinued(bytes[1..], n - 1, bits / 64, bits);
    assert bytes[1..][1..] == bytes[2..];
  }

  lemma HighBitsRead(high: nat)
    ensures high < 32 ==>
      HighBits((192 + high) as byte, 2) == high && (1 < high ==> Width((192 + high) as byte) == Some(2))
    ensures high < 16 ==> HighBits((224 + high) as byte, 3) == high && Width((224 + high) as byte) == Some(3)
    ensures high < 8 ==>
      HighBits((240 + high) as byte, 4) == high && (high < 5 ==> Width((240 + high) as byte) == Some(4))
  {
  }

  /** A first byte and its continuation bytes are the character whose code point they make up. */
  lemma FirstIs(bytes: seq<byte>, width: nat, high: nat, c: char)
    requires bytes != [] && 1 < width <= |bytes| && Width(bytes[0]) == Some(width) && HighBits(bytes[0], width) == high
    requires Continued(bytes[1..], width - 1, high) == Some(c as nat) && IsCharacter(c as nat, width)
    ensures FirstChar(bytes) == Some((c, width))
  {
  }

  lemma CharReadsBack(c: char, rest: seq<byte>)
    ensures FirstChar(EncodeChar(c) + rest) == Some((c, |EncodeChar(c)|))
  {
    var n, bytes := c as nat, EncodeChar(c) + rest;
    if n >= 0x1_0000 {
      HighBitsRead(n / 64 / 64 / 64);
      OneContinued(bytes[1..], 3, n / 64 / 64 / 64, n / 64 / 64);
      TwoContinued(bytes[1..][1..], 2, n / 64 / 64, n);
      FirstIs(bytes, 4, n / 64 / 64 / 64, c);
    } else if n >= 0x800 {
      HighBitsRead(n / 64 / 64);
      TwoContinued(bytes[1..], 2, n / 64 / 64, n);
      FirstIs(bytes, 3, n / 64 / 64, c);
    } else if n >= 0x80 {
      HighBitsRead(n / 64);
      OneContinued(bytes[1..], 1, n / 64, n);
      FirstIs(bytes, 2, n / 64, c);
    }
  }

  lemma {:induction false} EncodedReadsBack(text: string)
    ensures Utf8(EncodeUtf8(text)) == Some(text)
    decreases |text|
  {
    if text != "" {
      var first, rest := EncodeChar(text[0]), EncodeUtf8(text[1..]);
      CharReadsBack(text[0], rest);
      EncodedReadsBack(text[1..]);
      assert (first + rest)[|first|..] == rest && [text[0]] + text[1..] == text;
    }
  }

  lemma {:induction false} LastContinued(bytes: seq<byte>, n: nat, high: nat)
    requires 0 < n <= |bytes| && Continued(bytes, n, high).Some?
    ensures var point := Continued(bytes, n, high).value;
      bytes[n - 1] == Continuation(point) && Continued(bytes, n - 1, high) == Some(point / 64)
    decreases n
  {
    if n > 1 {
      LastContinued(bytes[1..], n - 1, high * 64 + (bytes[0] as nat - 128));
    }
  }

  /** The last two of several continuation bytes. */
  lemma LastTwoContinued(bytes: seq<byte>, n: nat, high: nat)
    requires 1 < n <= |bytes| && Continued(bytes, n, high).Some?
    ensures var point := Continued(bytes, n, high).value;
      && bytes[n - 1] == Continuation(point) && bytes[n - 2] == Continuation(point / 64)
      && Continued(bytes, n - 2, high) == Some(point / 64 / 64)
  {
    LastContinued(bytes, n, high);
    LastContinued(bytes, n - 1, high);
  }

  lemma WideIsEncoded(bytes: seq<byte>)
    requires bytes != [] && Width(bytes[0]) == Some(4) && FirstChar(bytes).Some?
    ensures bytes[..4] == EncodeChar(FirstChar(bytes).value.0)
  {
    LastTwoContinued(bytes[1..], 3, HighBits(bytes[0], 4));
    LastContinued(bytes[1..], 1, HighBits(bytes[0], 4));
  }

  /** The bytes of a character are those it is encoded as. */
  lemma CharIsEncoded(bytes: seq<byte>)
    requires bytes != [] && FirstChar(bytes).Some?
    ensures var (c, width) := FirstChar(bytes).value; bytes[..width] == EncodeChar(c)
  {
    var width := FirstChar(bytes).value.1;
    if width == 4 {
      WideIsEncoded(bytes);
    } else if width == 3 {
      LastTwoContinued(bytes[1..], 2, HighBits(bytes[0], width));
    } else if width == 2 {
      LastContinued(bytes[1..], 1, HighBits(bytes[0], width));
    }
  }

  lemma EncodeStep(c: char, rest: string)
    ensures EncodeUtf8([c] + rest) == EncodeChar(c) + EncodeUtf8(rest)
  {
    assert ([c] + rest)[1..] == rest;
  }

  /** The first character, and what is behind it. */
  lemma NextChar(bytes: seq<byte>) returns (c: char, rest: seq<byte>, text: string)
    requires bytes != [] && Utf8(bytes).Some?
    ensures |rest| < |bytes| && bytes == EncodeChar(c) + rest
    ensures Utf8(rest) == Some(text) && Utf8(bytes) == Some([c] + text)
  {
    var first := FirstChar(bytes).value;
    CharIsEncoded(bytes);
    c, rest, text := first.0, bytes[first.1..], Utf8(bytes[first.1..]).value;
  }

  lemma {:induction false} DecodedIsEncoded(bytes: seq<byte>)
    ensures Utf8(bytes).Some? ==> EncodeUtf8(Utf8(bytes).value) == bytes
    decreases |bytes|
  {
    if bytes != [] && Utf8(bytes).Some? {
      var c, rest, text := NextChar(bytes);
      DecodedIsEncoded(rest);
      EncodeStep(c, text);
    }
  }

  /** Bytes are read as UTF-8 exactly if they are a text's encoding, and then as that text. */
  lemma Utf8Exact(bytes: seq<byte>, text: string)
    ensures Utf8(bytes) == Some(text) <==> bytes == EncodeUtf8(text)
  {
    EncodedReadsBack(text);
    DecodedIsEncoded(bytes);
  }

  /* ---- What both charsets keep ---- */

  /** The ASCII chars of a text, in order. */
  function AsciiOf(text: string): string {
    if text == "" then ""
    else if text[0] as int < 128 then [text[0]] + AsciiOf(text[1..])
    else AsciiOf(text[1..])
  }

  /** Decoding keeps the ASCII bytes in their order and makes no other ASCII chars. */
  ghost predicate KeepsAscii(decode: seq<byte> -> string) {
    forall bytes :: AsciiOf(decode(bytes)) == AsciiOf(Latin1(bytes))
  }

  lemma {:induction false} ContinuedIsHigh(bytes: seq<byte>, n: nat, high: nat)
    requires n <= |bytes| && Continued(bytes, n, high).Some?
    ensures forall i :: 0 <= i < n ==> bytes[i] >= 128
    decreases n
  {
    if n > 0 {
      ContinuedIsHigh(bytes[1..], n - 1, high * 64 + (bytes[0] as nat - 128));
      assert forall i :: 0 < i < n ==> bytes[i] == bytes[1..][i - 1];
    }
  }

  /** Bytes that are not ASCII leave no trace. */
  lemma {:induction false} HighBytesAreDropped(bytes: seq<byte>, n: nat)
    requires n <= |bytes| && forall i :: 0 <= i < n ==> bytes[i] >= 128
    ensures AsciiOf(Latin1(bytes)) == AsciiOf(Latin1(bytes[n..]))
    decreases n
  {
    if n > 0 {
      assert Latin1(bytes)[1..] == Latin1(bytes[1..]) && bytes[1..][n - 1..] == bytes[n..];
      HighBytesAreDropped(bytes[1..], n - 1);
    }
  }

  lemma FirstCharAscii(bytes: seq<byte>)
    requires bytes != [] && FirstChar(bytes).Some?
    ensures var (c, width) := FirstChar(bytes).value;
      AsciiOf(Latin1(bytes)) == (if c as int < 128 then [c] else "") + AsciiOf(Latin1(bytes[width..]))
  {
    var (c, width) := FirstChar(bytes).value;
    if bytes[0] < 128 {
      assert Latin1(bytes)[1..] == Latin1(bytes[1..]);
    } else {
      ContinuedIsHigh(bytes[1..], width - 1, HighBits(bytes[0], width));
      assert forall i :: 0 < i < width ==> bytes[i] == bytes[1..][i - 1];
      HighBytesAreDropped(bytes, width);
    }
  }

  lemma {:induction false} Utf8Ascii(bytes: seq<byte>)
    ensures Utf8(bytes).Some? ==> AsciiOf(Utf8(bytes).value) == AsciiOf(Latin1(bytes))
    decreases |bytes|
  {
    if bytes != [] && Utf8(bytes).Some? {
      var (c, width) := FirstChar(bytes).value;
      Utf8Ascii(bytes[width..]);
      FirstCharAscii(bytes);
      assert ([c] + Utf8(bytes[width..]).value)[1..] == Utf8(bytes[width..]).value;
    }
  }

  /** Whatever the bytes, both charsets of the parser keep their ASCII. */
  lemma CharsetsKeepAscii()
    ensures KeepsAscii(Utf8OrLatin1) && KeepsAscii(Latin1)
  {
    forall bytes ensures AsciiOf(Utf8OrLatin1(bytes)) == AsciiOf(Latin1(bytes)) {
      Utf8Ascii(bytes);
    }
  }

  lemma {:induction false} AsciiMember(text: string, c: char)
    requires c as int < 128
    ensures c in AsciiOf(text) <==> c in text
  {
    if text != "" {
      AsciiMember(text[1..], c);
      assert text == [text[0]] + text[1..];
    }
  }
}
