/** What the parser makes of a printed form. */
module FormRoundTrip {
  import opened Wrappers
  import opened Text
  import opened FormSpec
  import opened FormDisposition
  import opened FormFraming
  import opened FormPrinter
  import Sequences

  /* ---- The headers of a printed part ---- */

  /** The headers are within the size limit and the content type is one line. */
  ghost predicate PlainHeaders(part: Sent) {
    && 21 + |DispositionText(part)| <= MAX_HEADER_SIZE
    && (part.Upload? ==>
      && 14 + |part.contentType| <= MAX_HEADER_SIZE && CR !in part.contentType
      && (part.contentType != [] ==> part.contentType[0] != SPACE))
  }

  lemma {:induction false} QuoteParamPlain(name: seq<byte>)
    ensures 34 !in QuoteParam(name) && CR !in QuoteParam(name) && LF !in QuoteParam(name)
  {
    if name != [] {
      QuoteParamPlain(name[1..]);
    }
  }

  lemma Latin1Plain(bytes: seq<byte>, b: byte)
    requires b !in bytes
    ensures b as char !in Latin1(bytes)
  {
  }

  lemma DispositionPlain(part: Sent)
    ensures CR !in Latin1Bytes(DispositionText(part))
    ensures Latin1(Latin1Bytes(DispositionText(part))) == DispositionText(part)
    ensures |DispositionText(part)| > 0 && DispositionText(part)[0] == 'f'
  {
    QuoteParamPlain(part.name);
    Latin1Plain(QuoteParam(part.name), CR);
    if part.Upload? {
      QuoteParamPlain(part.filename);
      Latin1Plain(QuoteParam(part.filename), CR);
    }
    var text := DispositionText(part);
    forall i | 0 <= i < |text| ensures text[i] as int < 256 && text[i] as int != 13 {
      DispositionChar(part, i);
    }
  }

  lemma QuotedChar(key: string, bytes: seq<byte>, i: nat)
    requires CR !in bytes && key in {"name", "filename"} && i < |Quoted(key, Latin1(bytes))|
    ensures Quoted(key, Latin1(bytes))[i] as int < 256 && Quoted(key, Latin1(bytes))[i] as int != 13
  {
    var k := i - |key| - 3;
    if 0 <= k < |bytes| {
      assert Quoted(key, Latin1(bytes))[i] == Latin1(bytes)[k];
    }
  }

  lemma DispositionChar(part: Sent, i: nat)
    requires i < |DispositionText(part)|
    ensures DispositionText(part)[i] as int < 256 && DispositionText(part)[i] as int != 13
  {
    QuoteParamPlain(part.name);
    var first := FORM_DATA + Quoted("name", Latin1(QuoteParam(part.name)));
    if |FORM_DATA| <= i < |first| {
      QuotedChar("name", QuoteParam(part.name), i - |FORM_DATA|);
    } else if |first| < i {
      QuoteParamPlain(part.filename);
      QuotedChar("filename", QuoteParam(part.filename), i - |first| - 1);
    }
  }

  lemma HeaderNames()
    ensures AllToken(CONTENT_DISPOSITION) && AllToken(CONTENT_TYPE)
    ensures |CONTENT_DISPOSITION| == 19 && |CONTENT_TYPE| == 12
    ensures EqIgnoreCase(CONTENT_DISPOSITION, CONTENT_DISPOSITION) && EqIgnoreCase(CONTENT_TYPE, CONTENT_TYPE)
    ensures !EqIgnoreCase(CONTENT_TYPE, CONTENT_DISPOSITION) && !EqIgnoreCase(CONTENT_DISPOSITION, CONTENT_TYPE)
  {
  }

  lemma HeadersArePlain(part: Sent)
    requires PlainHeaders(part)
    ensures AllPlain(RawOf(part).headers) && |RawOf(part).headers| <= 2
  {
    HeaderNames();
    DispositionPlain(part);
    var first := Header(CONTENT_DISPOSITION, Latin1Bytes(DispositionText(part)));
    assert PlainHeader(first);
    if part.Upload? {
      OnePlain(Header(CONTENT_TYPE, part.contentType));
      assert RawOf(part).headers[1..] == [Header(CONTENT_TYPE, part.contentType)];
    } else {
      OnePlain(first);
    }
  }

  lemma OnePlain(h: Header)
    requires PlainHeader(h)
    ensures AllPlain([h])
  {
    assert [h][1..] == [];
  }

  lemma KeptHeaders(part: Sent)
    ensures Disposition(RawOf(part).headers) == Some(Latin1Bytes(DispositionText(part)))
    ensures ContentType(RawOf(part).headers) == if part.Upload? then Some(part.contentType) else None
  {
    HeaderNames();
    var first := Header(CONTENT_DISPOSITION, Latin1Bytes(DispositionText(part)));
    if part.Upload? {
      assert RawOf(part).headers[..1] == [first];
      assert RawOf(part).headers[1..] == [Header(CONTENT_TYPE, part.contentType)];
    } else {
      assert RawOf(part).headers[1..] == [];
    }
  }

  /* ---- One part ---- */

  function ReceivedName(name: seq<byte>): seq<byte> {
    Latin1Bytes(Unescape(Latin1(QuoteParam(name))))
  }

  function ReceivedFilename(filename: seq<byte>): seq<byte> {
    Latin1Bytes(UnescapeFile(Latin1(QuoteParam(filename))))
  }

  /** The item a printed part arrives as. */
  function Received(part: Sent, setup: Setup): Item {
    match part
    case Field(name, data) => Item(setup.decode(ReceivedName(name)), Plain(setup.decode(data)))
    case Upload(name, filename, contentType, data) =>
      Item(setup.decode(ReceivedName(name)),
        File(FormSpec.Upload(setup.decode(ReceivedFilename(filename)), Some(Latin1(contentType)), data)))
  }

  ghost predicate NoTrailingBackslash(name: seq<byte>) {
    name != [] ==> name[|name| - 1] != 92
  }

  /** The name of a file stands in front of another parameter, so it must not escape its closing quote. */
  ghost predicate ClosesName(part: Sent) {
    part.Upload? ==> NoTrailingBackslash(part.name)
  }

  /** What a printed part must keep to so that it is framed as one part. */
  ghost predicate Sendable(part: Sent, setup: Setup) {
    PlainHeaders(part) && forall k: nat :: !OccursAt(part.data, setup.Delimiter(), k)
  }

  ghost predicate AllSendable(parts: seq<Sent>, setup: Setup) {
    parts == [] || (Sendable(parts[0], setup) && AllSendable(parts[1..], setup))
  }

  ghost predicate AllClose(parts: seq<Sent>) {
    parts == [] || (ClosesName(parts[0]) && AllClose(parts[1..]))
  }

  lemma {:induction false} QuoteParamEnd(name: seq<byte>)
    ensures '"' !in Latin1(QuoteParam(name))
    ensures ClosesItself(Latin1(QuoteParam(name))) <==> NoTrailingBackslash(name)
  {
    QuoteParamPlain(name);
    Latin1Plain(QuoteParam(name), 34);
    if name != [] {
      QuoteParamLast(name);
    }
  }

  lemma {:induction false} QuoteParamLast(name: seq<byte>)
    requires name != []
    ensures QuoteParam(name) != []
    ensures QuoteParam(name)[|QuoteParam(name)| - 1] == 92 <==> name[|name| - 1] == 92
  {
    if |name| > 1 {
      QuoteParamLast(name[1..]);
    } else {
      assert QuoteParam(name[1..]) == [];
    }
  }

  lemma BeginAt(part: Sent, files: nat, fields: nat, setup: Setup)
    requires ClosesName(part)
    requires if part.Upload? then !Exceeds(files + 1, setup.limits.maxFiles)
      else !Exceeds(fields + 1, setup.limits.maxFields)
    ensures Begin(RawOf(part).headers, files, fields, setup) == Ok(
      match part
      case Field(name, _) => Started(setup.decode(ReceivedName(name)), None, files, fields + 1)
      case Upload(name, filename, _, _) =>
        Started(setup.decode(ReceivedName(name)), Some(setup.decode(ReceivedFilename(filename))), files + 1, fields))
  {
    KeptHeaders(part);
    DispositionPlain(part);
    QuoteParamEnd(part.name);
    match part
    case Field(name, _) =>
      FieldReadBack(Latin1(QuoteParam(name)));
    case Upload(name, filename, _, _) =>
      QuoteParamEnd(filename);
      FileReadBack(Latin1(QuoteParam(name)), Latin1(QuoteParam(filename)));
  }

  ghost predicate FitsLimits(part: Sent, files: nat, fields: nat, setup: Setup) {
    match part
    case Upload(_, _, _, _) => !Exceeds(files + 1, setup.limits.maxFiles)
    case Field(_, data) =>
      !Exceeds(fields + 1, setup.limits.maxFields) && (data != [] ==> !Exceeds(|data|, setup.limits.maxPartSize))
  }

  lemma FinishAt(started: Started, part: Sent, files: nat, fields: nat, setup: Setup)
    requires FitsLimits(part, files, fields, setup)
    requires started.name == setup.decode(ReceivedName(part.name))
    requires started.filename ==
      if part.Upload? then Some(setup.decode(ReceivedFilename(part.filename))) else None
    ensures Finish(started, RawOf(part).headers, part.data, setup) == Ok(Received(part, setup))
  {
    KeptHeaders(part);
  }

  /** The counts after the part. */
  function Counts(part: Sent, files: nat, fields: nat): (nat, nat) {
    if part.Upload? then (files + 1, fields) else (files, fields + 1)
  }

  lemma InterpretSent(part: Sent, files: nat, fields: nat, last: bool, setup: Setup)
    requires ClosesName(part) && FitsLimits(part, files, fields, setup)
    ensures Interpret(RawOf(part), files, fields, last, setup) ==
      Ok(Part(Received(part, setup), Counts(part, files, fields).0, Counts(part, files, fields).1, last))
  {
    BeginAt(part, files, fields, setup);
    FinishAt(Begin(RawOf(part).headers, files, fields, setup).value, part, files, fields, setup);
  }

  /* ---- The whole form ---- */

  ghost predicate WithinLimits(parts: seq<Sent>, files: nat, fields: nat, setup: Setup) {
    parts == [] ||
    (FitsLimits(parts[0], files, fields, setup) &&
     WithinLimits(parts[1..], Counts(parts[0], files, fields).0, Counts(parts[0], files, fields).1, setup))
  }

  function ReceivedAll(parts: seq<Sent>, setup: Setup): seq<Item> {
    if parts == [] then [] else [Received(parts[0], setup)] + ReceivedAll(parts[1..], setup)
  }

  lemma {:induction false} InterpretAllSent(
    parts: seq<Sent>, files: nat, fields: nat, items: seq<Item>, setup: Setup)
    requires AllClose(parts) && WithinLimits(parts, files, fields, setup)
    ensures InterpretAll(RawsOf(parts), files, fields, items, setup) == Ok(items + ReceivedAll(parts, setup))
    decreases |parts|
  {
    if parts == [] {
      assert items + ReceivedAll(parts, setup) == items;
    } else {
      var part, rest := parts[0], parts[1..];
      var raws := RawsOf(parts);
      FirstRaw(parts);
      InterpretSent(part, files, fields, raws[1..] == [], setup);
      var counts := Counts(part, files, fields);
      InterpretAllSent(rest, counts.0, counts.1, items + [Received(part, setup)], setup);
      Sequences.Regroup(items, [Received(part, setup)], ReceivedAll(rest, setup));
    }
  }

  lemma {:induction false} AllAreFrameable(parts: seq<Sent>, setup: Setup)
    requires AllSendable(parts, setup)
    ensures AllFrameable(RawsOf(parts), setup)
  {
    if parts != [] {
      FirstRaw(parts);
      HeadersArePlain(parts[0]);
      AllAreFrameable(parts[1..], setup);
    }
  }

  lemma FirstRaw(parts: seq<Sent>)
    requires parts != []
    ensures RawsOf(parts) != [] && RawsOf(parts)[0] == RawOf(parts[0]) && RawsOf(parts)[1..] == RawsOf(parts[1..])
  {
  }

  /**
   The round trip: a printed form is parsed into exactly its parts, in order, whatever follows it.
   */
  lemma RoundTrip(body: seq<byte>, parts: seq<Sent>, setup: Setup)
    requires CR !in setup.boundary && Printed(parts, setup) <= body
    requires AllSendable(parts, setup) && AllClose(parts) && WithinLimits(parts, 0, 0, setup)
    ensures Form(body, setup) == Ok(ReceivedAll(parts, setup))
  {
    AllAreFrameable(parts, setup);
    InterpretAllSent(parts, 0, 0, [], setup);
    FramingTransparent(body, RawsOf(parts), setup);
    assert [] + ReceivedAll(parts, setup) == ReceivedAll(parts, setup);
  }
}
