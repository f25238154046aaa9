/**
 Reading an encoded word's bytes, and the splitting of a word that is too long: base64 words of at most
 75 chars, cut between characters, that decode to the same bytes.
 */
module WordSplitting {
  import opened Wrappers
  import opened Text
  import opened EncodedWords
  import Base64
  import Sequences

  /* ---- Charsets ---- */

  function BeforeStar(charset: string): string {
    if charset == "" || charset[0] == '*' then "" else [charset[0]] + BeforeStar(charset[1..])
  }

  predicate IsAlnum(c: char) {
    'a' <= c <= 'z' || 'A' <= c <= 'Z' || '0' <= c <= '9'
  }

  function NameChar(c: char): char {
    if 'A' <= c <= 'Z' then (c as int + 32) as char else if IsAlnum(c) || c == '.' then c else '_'
  }

  /** The charset without a language, normalised. */
  function CharsetName(charset: string): (r: string)
    ensures |r| <= |charset|
  {
    var name := BeforeStar(charset);
    BeforeStarShorter(charset);
    seq(|name|, i requires 0 <= i < |name| => NameChar(name[i]))
  }

  lemma {:induction false} BeforeStarShorter(charset: string)
    ensures |BeforeStar(charset)| <= |charset|
  {
    if charset != "" {
      BeforeStarShorter(charset[1..]);
    }
  }

  predicate Numbered(name: string, prefix: string, numbers: set<string>) {
    prefix <= name && name[|prefix|..] in numbers
  }

  const ISO_PARTS: set<string> := {
    "1", "2", "3", "4", "5", "6", "7", "8", "9", "10", "11", "12", "13", "14", "15", "16"}

  const CODE_PAGES: set<string> := {"1250", "1251", "1252", "1253", "1254", "1255", "1256", "1257", "1258"}

  /** The charsets in which every ASCII byte stands for its own character. */
  predicate IsAsciiCompatible(name: string) {
    || name in {"utf_8", "utf8", "us_ascii", "ascii", "latin_1", "latin1", "l1"}
    || Numbered(name, "iso_8859_", ISO_PARTS)
    || Numbered(name, "iso8859_", ISO_PARTS)
    || Numbered(name, "windows_", CODE_PAGES)
    || Numbered(name, "cp", CODE_PAGES)
  }

  predicate IsUtf8(charset: string) {
    CharsetName(charset) == "utf_8" || CharsetName(charset) == "utf8"
  }

  lemma CompatibleNames(name: string)
    requires IsAsciiCompatible(name)
    ensures |name| >= 2
  {
  }

  /* ---- The quoted-printable form ---- */

  function HexValue(c: char): (r: Option<nat>)
    ensures r.Some? ==> r.value < 16
  {
    if c as int < 256 then HexDigit(c as byte) else None
  }

  function ByteOf(c: char): byte {
    if c as int < 256 then c as byte else 63
  }

  /** The byte two hex digits at `i` stand for. */
  function HexByte(text: string, i: nat): Option<byte> {
    if i + 1 >= |text| then None
    else
      var high :- HexValue(text[i]);
      var low :- HexValue(text[i + 1]);
      Some((high * 16 + low) as byte)
  }

  function DecodeQ(text: string, i: nat): seq<byte>
    requires i <= |text|
    decreases |text| - i
  {
    if i == |text| then []
    else if text[i] == '=' && HexByte(text, i + 1).Some? then
      [HexByte(text, i + 1).value] + DecodeQ(text, i + 3)
    else [if text[i] == '_' then SPACE else ByteOf(text[i])] + DecodeQ(text, i + 1)
  }

  method ReadQ(text: string) returns (out: seq<byte>)
    ensures out == DecodeQ(text, 0)
  {
    out := [];
    var i := 0;
    while i < |text|
      invariant i <= |text| && out + DecodeQ(text, i) == DecodeQ(text, 0)
    {
      var hex := HexByte(text, i + 1);
      if text[i] == '=' && hex.Some? {
        Sequences.Regroup(out, [hex.value], DecodeQ(text, i + 3));
        out := out + [hex.value];
        i := i + 3;
        continue;
      }
      var b := if text[i] == '_' then SPACE else ByteOf(text[i]);
      Sequences.Regroup(out, [b], DecodeQ(text, i + 1));
      out := out + [b];
      i := i + 1;
    }
  }

  /** How one byte may be written: a space as `_`, an allowed byte as it is, any other as `=XX`. */
  function WriteByte(b: byte, plain: set<byte>): string {
    if b == SPACE then "_"
    else if b in plain && b != 61 && b != 95 then [b as char]
    else ['=', HexChar(b as nat / 16) as char, HexChar(b as nat % 16) as char]
  }

  function WriteQ(bytes: seq<byte>, plain: set<byte>): string {
    if bytes == [] then "" else WriteByte(bytes[0], plain) + WriteQ(bytes[1..], plain)
  }

  lemma ByteReadsBack(b: byte, plain: set<byte>, text: string, i: nat)
    requires i + |WriteByte(b, plain)| <= |text|
    requires text[i..i + |WriteByte(b, plain)|] == WriteByte(b, plain)
    ensures DecodeQ(text, i) == [b] + DecodeQ(text, i + |WriteByte(b, plain)|)
  {
    var piece := text[i..i + |WriteByte(b, plain)|];
    assert piece[0] == text[i];
    if |piece| == 3 {
      assert piece[1] == text[i + 1] && piece[2] == text[i + 2];
    }
  }

  /** Whatever a writer leaves plain, the bytes come back. */
  lemma {:induction false} WriteThenDecodeQ(bytes: seq<byte>, plain: set<byte>, text: string, i: nat)
    requires i <= |text| && text[i..] == WriteQ(bytes, plain)
    ensures DecodeQ(text, i) == bytes
    decreases |bytes|
  {
    if bytes != [] {
      var piece := WriteByte(bytes[0], plain);
      assert text[i..][..|piece|] == piece;
      assert text[i + |piece|..] == text[i..][|piece|..] == WriteQ(bytes[1..], plain);
      ByteReadsBack(bytes[0], plain, text, i);
      WriteThenDecodeQ(bytes[1..], plain, text, i + |piece|);
    }
  }

  /* ---- Decoding a word ---- */

  /** The bytes of a word in an ASCII-compatible charset. */
  function DecodeWord(w: Word): Option<seq<byte>> {
    if !IsAsciiCompatible(CharsetName(w.charset)) then None
    else if !w.base64 then Some(DecodeQ(w.text, 0))
    else Base64.Decode(Base64.TrimEquals(w.text))
  }

  type WordDecoder = Word -> Option<seq<byte>>

  const DECODE_WORD: WordDecoder := w => DecodeWord(w)

  /** The bytes of all words of a list. */
  function DecodeAll(words: seq<Word>, decode: WordDecoder): Option<seq<byte>> {
    if words == [] then Some([])
    else
      var first :- decode(words[0]);
      var rest :- DecodeAll(words[1..], decode);
      Some(first + rest)
  }
}
