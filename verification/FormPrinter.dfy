/** The multipart printer of the parity cases, as `requests` and Go's writer send a form. */
module FormPrinter {
  import opened Text
  import opened FormSpec
  import opened FormDisposition
  import opened FormFraming

  /** A form value to send; names are bytes in the charset of the form. */
  datatype Sent =
    | Field(name: seq<byte>, data: seq<byte>)
    | Upload(name: seq<byte>, filename: seq<byte>, contentType: seq<byte>, data: seq<byte>)

  /** The HTML5 form encoding of a name: quotes and line breaks are percent-encoded. */
  function QuoteParam(name: seq<byte>): seq<byte> {
    if name == [] then []
    else
      (if name[0] == 34 then [37, 50, 50] else if name[0] == CR then [37, 48, 68]
       else if name[0] == LF then [37, 48, 65] else [name[0]]) + QuoteParam(name[1..])
  }

  function DispositionText(part: Sent): string {
    match part
    case Field(name, _) => FieldDisposition(Latin1(QuoteParam(name)))
    case Upload(name, filename, _, _) =>
      FileDisposition(Latin1(QuoteParam(name)), Latin1(QuoteParam(filename)))
  }

  /** A printed part as headers and data. */
  function RawOf(part: Sent): Raw {
    var disposition := Header(CONTENT_DISPOSITION, Latin1Bytes(DispositionText(part)));
    match part
    case Field(_, data) => Raw([disposition], data)
    case Upload(_, _, contentType, data) => Raw([disposition, Header(CONTENT_TYPE, contentType)], data)
  }

  function RawsOf(parts: seq<Sent>): (r: seq<Raw>)
    ensures |r| == |parts|
  {
    if parts == [] then [] else [RawOf(parts[0])] + RawsOf(parts[1..])
  }

  /** The printed form. */
  function Printed(parts: seq<Sent>, setup: Setup): seq<byte> {
    Framed(RawsOf(parts), setup)
  }

  lemma OneHeaderText(a: Header, data: seq<byte>)
    ensures RawText(Raw([a], data)) == a.name + [COLON, SPACE] + a.value + CRLF + CRLF + data
  {
    assert TextOf([a]) == HeaderText(a.name, a.value) + TextOf([]);
  }

  lemma TwoHeadersText(a: Header, b: Header, data: seq<byte>)
    ensures RawText(Raw([a, b], data)) ==
      a.name + [COLON, SPACE] + a.value + CRLF + b.name + [COLON, SPACE] + b.value + CRLF + CRLF + data
  {
    OneHeaderText(b, data);
    assert [a, b][1..] == [b];
    assert TextOf([a, b]) == HeaderText(a.name, a.value) + TextOf([b]);
  }

  method PrintPart(part: Sent) returns (out: seq<byte>)
    ensures out == RawText(RawOf(part))
  {
    var disposition := Latin1Bytes(DispositionText(part));
    out := CONTENT_DISPOSITION + [COLON, SPACE] + disposition + CRLF;
    ghost var first := Header(CONTENT_DISPOSITION, disposition);
    match part
    case Field(_, data) =>
      OneHeaderText(first, data);
      out := out + CRLF + data;
    case Upload(_, _, contentType, data) =>
      TwoHeadersText(first, Header(CONTENT_TYPE, contentType), data);
      out := out + CONTENT_TYPE + [COLON, SPACE] + contentType + CRLF + CRLF + data;
  }

  lemma FramedSnoc(out: seq<byte>, text: seq<byte>, parts: seq<Raw>, setup: Setup)
    requires parts != [] && text == RawText(parts[0])
    ensures out + Framed(parts, setup) ==
      (out + setup.Dashes() + CRLF + text + CRLF) + Framed(parts[1..], setup)
  {
    var d, more := setup.Dashes(), Framed(parts[1..], setup);
    assert out + (d + (CRLF + (text + (CRLF + more)))) == (out + d + CRLF + text + CRLF) + more;
  }

  method PrintForm(parts: seq<Sent>, setup: Setup) returns (out: seq<byte>)
    ensures out == Printed(parts, setup)
  {
    out := [];
    assert parts[0..] == parts && out + Printed(parts, setup) == Printed(parts, setup);
    for k := 0 to |parts|
      invariant out + Framed(RawsOf(parts[k..]), setup) == Printed(parts, setup)
    {
      var text := PrintPart(parts[k]);
      var raws := RawsOf(parts[k..]);
      assert raws[0] == RawOf(parts[k]) && raws[1..] == RawsOf(parts[k + 1..]) by {
        assert parts[k..][1..] == parts[k + 1..];
      }
      FramedSnoc(out, text, raws, setup);
      out := out + setup.Dashes() + CRLF + text + CRLF;
    }
    out := out + (setup.Dashes() + ([DASH, DASH] + CRLF));
  }
}
