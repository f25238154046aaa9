/**
 Base64 with the standard alphabet (section 4 of RFC 4648), padded when written; read without its
 padding and with any trailing bits, as encoded words are.
 */
module Base64 {
  import opened Wrappers
  import opened Text

  function Symbol(v: nat): char
    requires v < 64
  {
    if v < 26 then ('A' as int + v) as char
    else if v < 52 then ('a' as int + (v - 26)) as char
    else if v < 62 then ('0' as int + (v - 52)) as char
    else if v == 62 then '+'
    else '/'
  }

  function SymbolValue(c: char): (r: Option<nat>)
    ensures r.Some? ==> r.value < 64
  {
    if 'A' <= c <= 'Z' then Some(c as int - 'A' as int)
    else if 'a' <= c <= 'z' then Some(c as int - 'a' as int + 26)
    else if '0' <= c <= '9' then Some(c as int - '0' as int + 52)
    else if c == '+' then Some(62)
    else if c == '/' then Some(63)
    else None
  }

  lemma SymbolRead(v: nat)
    requires v < 64
    ensures SymbolValue(Symbol(v)) == Some(v)
  {
  }

  /** The symbols of the bytes, without padding. */
  function Symbols(bytes: seq<byte>): string {
    if bytes == [] then ""
    else
      var a := bytes[0] as nat;
      if |bytes| == 1 then [Symbol(a / 4), Symbol(a % 4 * 16)]
      else
        var b := bytes[1] as nat;
        if |bytes| == 2 then [Symbol(a / 4), Symbol(a % 4 * 16 + b / 16), Symbol(b % 16 * 4)]
        else
          var c := bytes[2] as nat;
          [Symbol(a / 4), Symbol(a % 4 * 16 + b / 16), Symbol(b % 16 * 4 + c / 64), Symbol(c % 64)]
          + Symbols(bytes[3..])
  }

  function Padding(n: nat): string {
    if n % 3 == 1 then "==" else if n % 3 == 2 then "=" else ""
  }

  function Encode(bytes: seq<byte>): string {
    Symbols(bytes) + Padding(|bytes|)
  }

  /** `trim_end_matches('=')`. */
  function TrimEquals(text: string): string {
    if text == "" || text[|text| - 1] != '=' then text else TrimEquals(text[..|text| - 1])
  }

  function DecodePair(x: char, y: char): Option<byte> {
    var v :- SymbolValue(x);
    var w :- SymbolValue(y);
    Some((v * 4 + w / 16) as byte)
  }

  function DecodeMiddle(y: char, z: char): Option<byte> {
    var w :- SymbolValue(y);
    var u :- SymbolValue(z);
    Some((w % 16 * 16 + u / 4) as byte)
  }

  function DecodeLast(z: char, t: char): Option<byte> {
    var u :- SymbolValue(z);
    var s :- SymbolValue(t);
    Some((u % 4 * 64 + s) as byte)
  }

  function Decode(text: string): Option<seq<byte>> {
    if text == "" then Some([])
    else if |text| == 1 then None
    else
      var a :- DecodePair(text[0], text[1]);
      if |text| == 2 then Some([a])
      else
        var b :- DecodeMiddle(text[1], text[2]);
        if |text| == 3 then Some([a, b])
        else
          var c :- DecodeLast(text[2], text[3]);
          var rest :- Decode(text[4..]);
          Some([a, b, c] + rest)
  }

  /* ---- Round trip ---- */

  lemma BytesRead(a: byte, b: byte, c: byte)
    ensures DecodePair(Symbol(a as nat / 4), Symbol(a as nat % 4 * 16 + b as nat / 16)) == Some(a)
    ensures DecodeMiddle(Symbol(a as nat % 4 * 16 + b as nat / 16), Symbol(b as nat % 16 * 4 + c as nat / 64)) ==
      Some(b)
    ensures DecodeLast(Symbol(b as nat % 16 * 4 + c as nat / 64), Symbol(c as nat % 64)) == Some(c)
  {
    SymbolRead(a as nat / 4);
    SymbolRead(a as nat % 4 * 16 + b as nat / 16);
    SymbolRead(b as nat % 16 * 4 + c as nat / 64);
    SymbolRead(c as nat % 64);
  }

  lemma GroupDecodes(group: string, rest: string, a: byte, b: byte, c: byte)
    requires |group| == 4 && DecodePair(group[0], group[1]) == Some(a)
    requires DecodeMiddle(group[1], group[2]) == Some(b) && DecodeLast(group[2], group[3]) == Some(c)
    requires Decode(rest).Some?
    ensures Decode(group + rest) == Some([a, b, c] + Decode(rest).value)
  {
    assert (group + rest)[4..] == rest;
  }

  lemma PairDecodes(x: char, y: char)
    ensures Decode([x, y]) == match DecodePair(x, y) case None => None case Some(a) => Some([a])
  {
  }

  lemma TripleDecodes(x: char, y: char, z: char, a: byte, b: byte)
    requires DecodePair(x, y) == Some(a) && DecodeMiddle(y, z) == Some(b)
    ensures Decode([x, y, z]) == Some([a, b])
  {
  }

  lemma OneDecodes(a: byte)
    ensures Decode(Symbols([a])) == Some([a])
  {
    BytesRead(a, 0, 0);
    PairDecodes(Symbol(a as nat / 4), Symbol(a as nat % 4 * 16));
  }

  lemma TwoSymbols(a: byte, b: byte)
    ensures Symbols([a, b]) ==
      [Symbol(a as nat / 4), Symbol(a as nat % 4 * 16 + b as nat / 16), Symbol(b as nat % 16 * 4)]
  {
  }

  lemma TwoDecodes(a: byte, b: byte)
    ensures Decode(Symbols([a, b])) == Some([a, b])
  {
    TwoSymbols(a, b);
    BytesRead(a, b, 0);
    TripleDecodes(Symbol(a as nat / 4), Symbol(a as nat % 4 * 16 + b as nat / 16), Symbol(b as nat % 16 * 4), a, b);
  }

  lemma ShortDecodes(bytes: seq<byte>)
    requires |bytes| < 3
    ensures Decode(Symbols(bytes)) == Some(bytes)
  {
    if |bytes| == 1 {
      assert bytes == [bytes[0]];
      OneDecodes(bytes[0]);
    } else if |bytes| == 2 {
      assert bytes == [bytes[0], bytes[1]];
      TwoDecodes(bytes[0], bytes[1]);
    }
  }

  lemma {:induction false} SymbolsDecode(bytes: seq<byte>)
    ensures Decode(Symbols(bytes)) == Some(bytes)
  {
    if |bytes| < 3 {
      ShortDecodes(bytes);
    } else {
      BytesRead(bytes[0], bytes[1], bytes[2]);
      SymbolsDecode(bytes[3..]);
      var group := Symbols(bytes)[..4];
      assert Symbols(bytes) == group + Symbols(bytes[3..]);
      GroupDecodes(group, Symbols(bytes[3..]), bytes[0], bytes[1], bytes[2]);
      assert bytes == [bytes[0], bytes[1], bytes[2]] + bytes[3..];
    }
  }

  lemma {:induction false} NoEquals(bytes: seq<byte>)
    ensures forall i :: 0 <= i < |Symbols(bytes)| ==> Symbols(bytes)[i] != '=' && Symbols(bytes)[i] != '?'
  {
    if |bytes| >= 3 {
      NoEquals(bytes[3..]);
    }
  }

  lemma TrimEncoded(bytes: seq<byte>)
    ensures TrimEquals(Encode(bytes)) == Symbols(bytes)
  {
    var s, n := Symbols(bytes), |bytes|;
    NoEquals(bytes);
    assert TrimEquals(s) == s;
    assert (s + "=")[..|s|] == s && (s + "==")[..|s| + 1] == s + "=";
    assert s + "" == s;
  }

  /** What is written is read back. */
  lemma EncodeThenDecode(bytes: seq<byte>)
    ensures Decode(TrimEquals(Encode(bytes))) == Some(bytes)
  {
    TrimEncoded(bytes);
    SymbolsDecode(bytes);
  }

  lemma {:induction false} SymbolsLength(bytes: seq<byte>, k: nat)
    requires 3 * k <= |bytes| < 3 * k + 3
    ensures |Symbols(bytes)| == 4 * k + (if |bytes| == 3 * k then 0 else |bytes| - 3 * k + 1)
  {
    if k > 0 {
      SymbolsLength(bytes[3..], k - 1);
    }
  }

  /** Four chars for every started group of three bytes. */
  lemma EncodedLength(bytes: seq<byte>)
    ensures |Encode(bytes)| == (|bytes| + 2) / 3 * 4
  {
    SymbolsLength(bytes, |bytes| / 3);
  }
}
