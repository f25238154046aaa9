/**
 The framing of a multipart form: raw parts printed between boundaries are read back as exactly
 these parts, and each is then accepted or refused by its headers and data alone.
 */
module FormFraming {
  import opened Wrappers
  import opened Text
  import opened FormSpec
  import opened FormDelimiter

  /* ---- The printer of raw parts ---- */

  datatype Raw = Raw(headers: seq<Header>, data: seq<byte>)

  const CRLF: seq<byte> := [CR, LF]

  function HeaderText(name: seq<byte>, value: seq<byte>): seq<byte> {
    name + ([COLON, SPACE] + (value + CRLF))
  }

  function TextOf(headers: seq<Header>): seq<byte> {
    if headers == [] then [] else HeaderText(headers[0].name, headers[0].value) + TextOf(headers[1..])
  }

  function RawText(part: Raw): seq<byte> {
    TextOf(part.headers) + (CRLF + part.data)
  }

  function Framed(parts: seq<Raw>, setup: Setup): seq<byte> {
    if parts == [] then setup.Dashes() + ([DASH, DASH] + CRLF)
    else setup.Dashes() + (CRLF + (RawText(parts[0]) + (CRLF + Framed(parts[1..], setup))))
  }

  /* ---- Reading known bytes ---- */

  lemma OccursSplit(body: seq<byte>, a: seq<byte>, b: seq<byte>, i: nat)
    requires OccursAt(body, a + b, i)
    ensures OccursAt(body, a, i) && OccursAt(body, b, i + |a|)
  {
    OccursMeaning(body, a + b, i);
    OccursMeaning(body, a, i);
    OccursMeaning(body, b, i + |a|);
    assert body[i..i + |a|] == (a + b)[..|a|] && body[i + |a|..i + |a| + |b|] == (a + b)[|a|..];
  }

  lemma OccursIndex(body: seq<byte>, a: seq<byte>, i: nat, k: nat)
    requires OccursAt(body, a, i) && k < |a|
    ensures body[i + k] == a[k]
  {
    OccursMeaning(body, a, i);
  }

  lemma OccursSlice(body: seq<byte>, a: seq<byte>, i: nat)
    requires OccursAt(body, a, i)
    ensures body[i..i + |a|] == a
  {
    OccursMeaning(body, a, i);
  }

  lemma {:induction false} FindByteAfter(body: seq<byte>, text: seq<byte>, b: byte, i: nat)
    requires OccursAt(body, text, i) && b !in text
    requires i + |text| < |body| && body[i + |text|] == b
    ensures FindByte(body, b, i) == Some(i + |text|)
    decreases |text|
  {
    if text != [] {
      OccursIndex(body, text, i, 0);
      assert text == [text[0]] + text[1..];
      OccursSplit(body, [text[0]], text[1..], i);
      FindByteAfter(body, text[1..], b, i + 1);
    }
  }

  /** The bytes of a printed header at `i`. */
  ghost predicate HeaderAt(body: seq<byte>, i: nat, name: seq<byte>, value: seq<byte>) {
    var colon := i + |name|;
    var cr := colon + 2 + |value|;
    && OccursAt(body, name, i) && OccursAt(body, value, colon + 2)
    && cr + 1 < |body| && body[colon] == COLON && body[colon + 1] == SPACE && body[cr] == CR && body[cr + 1] == LF
  }

  lemma HeaderBytes(body: seq<byte>, i: nat, name: seq<byte>, value: seq<byte>)
    requires OccursAt(body, HeaderText(name, value), i)
    ensures HeaderAt(body, i, name, value)
  {
    var colon := i + |name|;
    OccursSplit(body, name, [COLON, SPACE] + (value + CRLF), i);
    OccursSplit(body, [COLON, SPACE], value + CRLF, colon);
    OccursSplit(body, value, CRLF, colon + 2);
    OccursIndex(body, [COLON, SPACE], colon, 0);
    OccursIndex(body, [COLON, SPACE], colon, 1);
    OccursIndex(body, CRLF, colon + 2 + |value|, 0);
    OccursIndex(body, CRLF, colon + 2 + |value|, 1);
  }

  lemma FieldAt(body: seq<byte>, i: nat, name: seq<byte>, value: seq<byte>)
    requires HeaderAt(body, i, name, value)
    requires name != [] && AllToken(name) && CR !in value && (value != [] ==> value[0] != SPACE)
    requires |name| + 2 + |value| <= MAX_HEADER_SIZE
    ensures FormSpec.Field(body, i) == Done(Header(name, value), i + |name| + |value| + 4)
  {
    var colon := i + |name|;
    FindByteAfter(body, name, COLON, i);
    FindByteAfter(body, value, CR, colon + 2);
    NoSpaceAt(body, value, colon + 2);
    OccursSlice(body, name, i);
    OccursSlice(body, value, colon + 2);
  }

  lemma NoSpaceAt(body: seq<byte>, value: seq<byte>, i: nat)
    requires OccursAt(body, value, i) && (value != [] ==> value[0] != SPACE)
    requires i + |value| < |body| && body[i + |value|] == CR
    ensures SkipSpaces(body, i) == i
  {
    if value != [] {
      OccursIndex(body, value, i, 0);
    }
  }

  lemma HeaderLineAt(body: seq<byte>, i: nat, name: seq<byte>, value: seq<byte>, count: nat)
    requires OccursAt(body, HeaderText(name, value), i)
    requires name != [] && AllToken(name) && CR !in value && (value != [] ==> value[0] != SPACE)
    requires |name| + 2 + |value| <= MAX_HEADER_SIZE && count < MAX_HEADER_COUNT
    ensures HeaderLine(body, i, count) == Done(Some(Header(name, value)), i + |HeaderText(name, value)|)
  {
    HeaderBytes(body, i, name, value);
    FieldAt(body, i, name, value);
    OccursIndex(body, name, i, 0);
  }

  lemma BlankLineAt(body: seq<byte>, i: nat, count: nat)
    requires OccursAt(body, CRLF, i)
    ensures HeaderLine(body, i, count) == Done(None, i + 2)
  {
    OccursIndex(body, CRLF, i, 0);
    OccursIndex(body, CRLF, i, 1);
  }

  ghost predicate PlainHeader(h: Header) {
    && h.name != [] && AllToken(h.name) && CR !in h.value && (h.value != [] ==> h.value[0] != SPACE)
    && |h.name| + 2 + |h.value| <= MAX_HEADER_SIZE
  }

  lemma HeadersStep(body: seq<byte>, i: nat, read: seq<Header>, h: Header, next: nat)
    requires i <= |body| && HeaderLine(body, i, |read|) == Done(Some(h), next)
    ensures Headers(body, i, read) == Headers(body, next, read + [h])
  {
  }

  lemma HeadersEnd(body: seq<byte>, i: nat, read: seq<Header>)
    requires OccursAt(body, CRLF, i)
    ensures Headers(body, i, read) == Done(read, i + 2)
  {
    BlankLineAt(body, i, |read|);
  }

  lemma FirstHeaderAt(body: seq<byte>, i: nat, headers: seq<Header>, count: nat) returns (next: nat)
    requires OccursAt(body, TextOf(headers), i) && headers != []
    requires PlainHeader(headers[0]) && count < MAX_HEADER_COUNT
    ensures HeaderLine(body, i, count) == Done(Some(headers[0]), next)
    ensures OccursAt(body, TextOf(headers[1..]), next) && next + |TextOf(headers[1..])| == i + |TextOf(headers)|
  {
    var h := headers[0];
    var text := HeaderText(h.name, h.value);
    OccursSplit(body, text, TextOf(headers[1..]), i);
    HeaderLineAt(body, i, h.name, h.value, count);
    next := i + |text|;
  }

  ghost predicate AllPlain(headers: seq<Header>) {
    headers == [] || (PlainHeader(headers[0]) && AllPlain(headers[1..]))
  }

  lemma {:induction false} HeaderListAt(body: seq<byte>, i: nat, headers: seq<Header>, read: seq<Header>)
    requires OccursAt(body, TextOf(headers), i) && OccursAt(body, CRLF, i + |TextOf(headers)|)
    requires AllPlain(headers)
    requires |read| + |headers| <= MAX_HEADER_COUNT
    ensures Headers(body, i, read) == Done(read + headers, i + |TextOf(headers)| + 2)
    decreases |headers|
  {
    if headers == [] {
      HeadersEnd(body, i, read);
      assert read + headers == read;
    } else {
      var next := FirstHeaderAt(body, i, headers, |read|);
      HeadersStep(body, i, read, headers[0], next);
      HeaderListAt(body, next, headers[1..], read + [headers[0]]);
      HeadThenTail(read, headers);
    }
  }

  lemma HeadThenTail(read: seq<Header>, headers: seq<Header>)
    requires headers != []
    ensures read + [headers[0]] + headers[1..] == read + headers
  {
  }

  /* ---- One part ---- */

  /** What a raw part must keep to so that it is framed as one part. */
  ghost predicate Frameable(part: Raw, setup: Setup) {
    && |part.headers| <= MAX_HEADER_COUNT
    && AllPlain(part.headers)
    && forall k: nat :: !OccursAt(part.data, setup.Delimiter(), k)
  }

  lemma RawPieces(body: seq<byte>, i: nat, part: Raw, setup: Setup) returns (start: nat)
    requires Frameable(part, setup) && OccursAt(body, RawText(part), i)
    ensures Headers(body, i, []) == Done(part.headers, start)
    ensures OccursAt(body, part.data, start) && start + |part.data| == i + |RawText(part)|
  {
    var head := TextOf(part.headers);
    OccursSplit(body, head, CRLF + part.data, i);
    OccursSplit(body, CRLF, part.data, i + |head|);
    HeaderListAt(body, i, part.headers, []);
    assert [] + part.headers == part.headers;
    start := i + |head| + 2;
  }

  /** The data of a part ends where it was printed to end. */
  lemma DataEnd(body: seq<byte>, start: nat, data: seq<byte>, setup: Setup)
    requires CR !in setup.boundary && OccursAt(body, data, start)
    requires TrueDelimiter(body, setup.Delimiter(), start + |data|)
    requires forall k: nat :: !OccursAt(data, setup.Delimiter(), k)
    ensures PartEnd(body, setup.Delimiter(), start) ==
      Done(Following(body, start + |data| + |setup.Delimiter()|) == Follow.Dashes, start + |data|)
  {
    var d := setup.Delimiter();
    BoundaryWithoutCr(setup);
    PartEndsAtFirstTrueDelimiter(body, d, start);
    forall k: nat | start <= k < start + |data| ensures !TrueDelimiter(body, d, k) {
      if OccursAt(body, d, k) {
        NotInData(body, start, data, d, k);
      }
    }
  }

  lemma NotInData(body: seq<byte>, start: nat, data: seq<byte>, d: seq<byte>, k: nat)
    requires PlainDelimiter(d) && OccursAt(body, data, start) && OccursAt(body, d, start + |data|)
    requires OccursAt(body, d, k) && start <= k < start + |data|
    ensures OccursAt(data, d, k - start)
  {
    DelimiterBytes(body, d, start + |data|, start + |data|);
    if start + |data| < k + |d| {
      DelimiterBytes(body, d, k, start + |data|);
    }
    OccursMeaning(body, data, start);
    OccursMeaning(body, d, k);
    OccursMeaning(data, d, k - start);
    forall i | 0 <= i < |d| ensures data[k - start + i] == d[i] {
      assert body[start + (k - start + i)] == data[k - start + i];
    }
  }

  /** A started part and its data. */
  function Finished(started: Started, part: Raw, last: bool, setup: Setup): Result<Part, FormError> {
    match Finish(started, part.headers, part.data, setup)
    case Err(e) => Err(e)
    case Ok(item) => Ok(Part(item, started.files, started.fields, last))
  }

  /** A part as its headers and data alone decide it. */
  function Interpret(part: Raw, files: nat, fields: nat, last: bool, setup: Setup): Result<Part, FormError> {
    match Begin(part.headers, files, fields, setup)
    case Err(e) => Err(e)
    case Ok(started) => Finished(started, part, last, setup)
  }

  /** The same with the index behind the part. */
  function Scanned(r: Result<Part, FormError>, next: nat): Scan<Part> {
    match r case Err(e) => Bad(e) case Ok(p) => Done(p, next)
  }

  lemma PartBodyAt(body: seq<byte>, start: nat, end: nat, part: Raw, started: Started, last: bool, setup: Setup)
    requires CR !in setup.boundary && OccursAt(body, part.data, start) && end == start + |part.data|
    requires TrueDelimiter(body, setup.Delimiter(), end)
    requires forall k: nat :: !OccursAt(part.data, setup.Delimiter(), k)
    requires last <==> Following(body, end + |setup.Delimiter()|) == Follow.Dashes
    ensures PartBody(body, start, started, part.headers, setup) ==
      Scanned(Finished(started, part, last, setup), end + |setup.Delimiter()| + 2)
  {
    DataEnd(body, start, part.data, setup);
    OccursSlice(body, part.data, start);
  }

  lemma BegunPart(body: seq<byte>, i: nat, start: nat, part: Raw, files: nat, fields: nat, setup: Setup)
    requires i <= |body| && Headers(body, i, []) == Done(part.headers, start)
    ensures OnePart(body, i, files, fields, setup) ==
      match Begin(part.headers, files, fields, setup)
      case Err(e) => Bad(e)
      case Ok(started) => PartBody(body, start, started, part.headers, setup)
  {
  }

  lemma OnePartAt(body: seq<byte>, i: nat, end: nat, part: Raw, files: nat, fields: nat, last: bool, setup: Setup)
    requires CR !in setup.boundary && Frameable(part, setup)
    requires OccursAt(body, RawText(part), i) && end == i + |RawText(part)|
    requires TrueDelimiter(body, setup.Delimiter(), end)
    requires last <==> Following(body, end + |setup.Delimiter()|) == Follow.Dashes
    ensures OnePart(body, i, files, fields, setup) ==
      Scanned(Interpret(part, files, fields, last, setup), end + |setup.Delimiter()| + 2)
  {
    var start := RawPieces(body, i, part, setup);
    BegunPart(body, i, start, part, files, fields, setup);
    var begun := Begin(part.headers, files, fields, setup);
    if begun.Ok? {
      PartBodyAt(body, start, end, part, begun.value, last, setup);
    }
  }

  /* ---- The whole form ---- */

  /** What a framed form holds behind its first "--boundary". */
  function Tail(parts: seq<Raw>, setup: Setup): seq<byte> {
    if parts == [] then [DASH, DASH] + CRLF
    else CRLF + (RawText(parts[0]) + (CRLF + Framed(parts[1..], setup)))
  }

  lemma FramedTail(parts: seq<Raw>, setup: Setup)
    ensures Framed(parts, setup) == setup.Dashes() + Tail(parts, setup)
    ensures CRLF + Framed(parts, setup) == setup.Delimiter() + Tail(parts, setup)
  {
    assert CRLF + (setup.Dashes() + Tail(parts, setup)) == setup.Delimiter() + Tail(parts, setup);
  }

  lemma FollowingBytes(body: seq<byte>, i: nat, a: byte, b: byte)
    requires OccursAt(body, [a, b], i)
    ensures a == CR && b == LF ==> Following(body, i) == Break
    ensures a == DASH && b == DASH ==> Following(body, i) == Follow.Dashes
  {
    OccursIndex(body, [a, b], i, 0);
    OccursIndex(body, [a, b], i, 1);
  }

  lemma LastTailAt(body: seq<byte>, i: nat, setup: Setup)
    requires OccursAt(body, Tail([], setup), i)
    ensures Following(body, i) == Follow.Dashes
  {
    OccursSplit(body, [DASH, DASH], CRLF, i);
    FollowingBytes(body, i, DASH, DASH);
  }

  lemma NextTailAt(body: seq<byte>, i: nat, parts: seq<Raw>, setup: Setup)
    requires parts != [] && OccursAt(body, Tail(parts, setup), i)
    ensures Following(body, i) == Break && PartAt(body, i + 2, parts, setup)
  {
    var text := RawText(parts[0]);
    BreakAt(body, i, text + (CRLF + Framed(parts[1..], setup)));
    NextPartAt(body, i + 2, text, parts[1..], setup);
  }

  lemma BreakAt(body: seq<byte>, i: nat, rest: seq<byte>)
    requires OccursAt(body, CRLF + rest, i)
    ensures Following(body, i) == Break && OccursAt(body, rest, i + 2)
  {
    OccursSplit(body, CRLF, rest, i);
    FollowingBytes(body, i, CR, LF);
  }

  lemma NextPartAt(body: seq<byte>, i: nat, text: seq<byte>, rest: seq<Raw>, setup: Setup)
    requires OccursAt(body, text + (CRLF + Framed(rest, setup)), i)
    ensures OccursAt(body, text, i) && OccursAt(body, setup.Delimiter(), i + |text|)
    ensures OccursAt(body, Tail(rest, setup), i + |text| + |setup.Delimiter()|)
  {
    FramedTail(rest, setup);
    SplitAgain(body, i, text, setup.Delimiter(), Tail(rest, setup), CRLF + Framed(rest, setup));
  }

  lemma SplitAgain(body: seq<byte>, i: nat, a: seq<byte>, b: seq<byte>, c: seq<byte>, bc: seq<byte>)
    requires bc == b + c && OccursAt(body, a + bc, i)
    ensures OccursAt(body, a, i) && OccursAt(body, b, i + |a|) && OccursAt(body, c, i + |a| + |b|)
  {
    OccursSplit(body, a, bc, i);
    OccursSplit(body, b, c, i + |a|);
  }

  /** The first of `parts` is printed at `i`, and the others behind it. */
  ghost predicate PartAt(body: seq<byte>, i: nat, parts: seq<Raw>, setup: Setup)
    requires parts != []
  {
    var end := i + |RawText(parts[0])|;
    && OccursAt(body, RawText(parts[0]), i)
    && OccursAt(body, setup.Delimiter(), end)
    && OccursAt(body, Tail(parts[1..], setup), end + |setup.Delimiter()|)
  }

  /** The form as the parts alone decide it: the first refusal, or all items in order. */
  function InterpretAll(parts: seq<Raw>, files: nat, fields: nat, items: seq<Item>, setup: Setup):
    Result<seq<Item>, FormError>
  {
    if parts == [] then Ok(items)
    else match Interpret(parts[0], files, fields, parts[1..] == [], setup)
      case Err(e) => Err(e)
      case Ok(p) => InterpretAll(parts[1..], p.files, p.fields, items + [p.item], setup)
  }

  ghost predicate AllFrameable(parts: seq<Raw>, setup: Setup) {
    parts == [] || (Frameable(parts[0], setup) && AllFrameable(parts[1..], setup))
  }

  /** What follows the delimiter behind a part: the next part, or the end of the form. */
  lemma TailAt(body: seq<byte>, after: nat, rest: seq<Raw>, setup: Setup)
    requires OccursAt(body, Tail(rest, setup), after)
    ensures (Following(body, after) == Follow.Dashes) == (rest == [])
    ensures rest == [] || Following(body, after) == Break
    ensures rest != [] ==> PartAt(body, after + 2, rest, setup)
  {
    if rest == [] {
      LastTailAt(body, after, setup);
    } else {
      NextTailAt(body, after, rest, setup);
    }
  }

  /** The delimiter behind a part is a true one, and the last one exactly if no part follows. */
  lemma DelimiterThere(body: seq<byte>, end: nat, next: nat, rest: seq<Raw>, setup: Setup)
    requires OccursAt(body, setup.Delimiter(), end) && OccursAt(body, Tail(rest, setup), end + |setup.Delimiter()|)
    requires next == end + |setup.Delimiter()| + 2
    ensures TrueDelimiter(body, setup.Delimiter(), end)
    ensures rest == [] <==> Following(body, end + |setup.Delimiter()|) == Follow.Dashes
    ensures rest != [] ==> PartAt(body, next, rest, setup)
  {
    TailAt(body, end + |setup.Delimiter()|, rest, setup);
  }

  lemma FirstPartAt(body: seq<byte>, i: nat, parts: seq<Raw>, files: nat, fields: nat, setup: Setup) returns (next: nat)
    requires CR !in setup.boundary && parts != [] && PartAt(body, i, parts, setup)
    requires Frameable(parts[0], setup)
    ensures OnePart(body, i, files, fields, setup) ==
      Scanned(Interpret(parts[0], files, fields, parts[1..] == [], setup), next)
    ensures parts[1..] != [] ==> PartAt(body, next, parts[1..], setup)
  {
    var end := i + |RawText(parts[0])|;
    next := end + |setup.Delimiter()| + 2;
    DelimiterThere(body, end, next, parts[1..], setup);
    OnePartAt(body, i, end, parts[0], files, fields, parts[1..] == [], setup);
  }

  lemma {:induction false} PartsAt(
    body: seq<byte>, i: nat, parts: seq<Raw>, files: nat, fields: nat, items: seq<Item>, setup: Setup)
    requires CR !in setup.boundary && parts != [] && PartAt(body, i, parts, setup)
    requires AllFrameable(parts, setup)
    ensures Parts(body, i, files, fields, items, setup) == InterpretAll(parts, files, fields, items, setup)
    decreases |parts|
  {
    var next := FirstPartAt(body, i, parts, files, fields, setup);
    match Interpret(parts[0], files, fields, parts[1..] == [], setup)
    case Err(_) =>
    case Ok(p) =>
      if parts[1..] != [] {
        PartsAt(body, next, parts[1..], p.files, p.fields, items + [p.item], setup);
      }
  }

  lemma {:induction false} ExpectAt(body: seq<byte>, from: nat, wanted: seq<byte>, k: nat)
    requires k <= |wanted| && OccursAt(body, wanted, from)
    ensures Expect(body, from + k, wanted, k) == Done((), from + |wanted|)
    decreases |wanted| - k
  {
    if k < |wanted| {
      OccursIndex(body, wanted, from, k);
      ExpectAt(body, from, wanted, k + 1);
    }
  }

  /**
   Framing is transparent: whatever follows a framed form, the parser decides it exactly as the
   raw parts decide, one after the other.
   */
  lemma FramingTransparent(body: seq<byte>, parts: seq<Raw>, setup: Setup)
    requires CR !in setup.boundary && Framed(parts, setup) <= body
    requires AllFrameable(parts, setup)
    ensures Form(body, setup) == InterpretAll(parts, 0, 0, [], setup)
  {
    var n := |setup.Dashes()|;
    OpeningAt(body, parts, setup);
    TailAt(body, n, parts, setup);
    OpenedForm(body, n, setup);
    if parts != [] {
      PartsAt(body, n + 2, parts, 0, 0, [], setup);
    }
  }

  /** A form whose first delimiter ends at `n`. */
  lemma OpenedForm(body: seq<byte>, n: nat, setup: Setup)
    requires LeadingBreaks(body, 0) == 0 && Expect(body, 0, setup.Dashes(), 0) == Done((), n) && n <= |body|
    requires Following(body, n) == Break || Following(body, n) == Follow.Dashes
    ensures Following(body, n) == Break ==> n + 2 <= |body|
    ensures Form(body, setup) == if Following(body, n) == Break then Parts(body, n + 2, 0, 0, [], setup) else Ok([])
  {
  }

  lemma OpeningAt(body: seq<byte>, parts: seq<Raw>, setup: Setup)
    requires Framed(parts, setup) <= body
    ensures OccursAt(body, Tail(parts, setup), |setup.Dashes()|)
    ensures LeadingBreaks(body, 0) == 0
    ensures Expect(body, 0, setup.Dashes(), 0) == Done((), |setup.Dashes()|)
  {
    FramedTail(parts, setup);
    OccursMeaning(body, Framed(parts, setup), 0);
    OccursSplit(body, setup.Dashes(), Tail(parts, setup), 0);
    OccursIndex(body, setup.Dashes(), 0, 0);
    ExpectAt(body, 0, setup.Dashes(), 0);
  }
}
