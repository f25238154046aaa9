/** When a printed form arrives exactly as it was sent. */
module FormExact {
  import opened Wrappers
  import opened Text
  import opened OptionsHeader
  import opened FormSpec
  import opened FormDisposition
  import opened FormFraming
  import opened FormPrinter
  import opened FormRoundTrip
  import opened Charsets
  import FormSwallowed

  /* ---- Names ---- */

  lemma {:induction false} QuoteParamIdentity(name: seq<byte>)
    ensures QuoteParam(name) == name <==> 34 !in name && CR !in name && LF !in name
    ensures |QuoteParam(name)| >= |name|
  {
    QuoteParamPlain(name);
    if name != [] {
      QuoteParamIdentity(name[1..]);
      assert name == [name[0]] + name[1..];
    }
  }

  ghost predicate NoDoubledBackslash(name: seq<byte>) {
    forall i :: 0 <= i < |name| - 1 ==> !(name[i] == name[i + 1] == 92)
  }

  /** A name that the printer and the unquoting leave as it is. */
  ghost predicate IsClean(name: seq<byte>) {
    34 !in name && CR !in name && LF !in name && NoDoubledBackslash(name)
  }

  lemma {:induction false} UnescapeChars(text: string, c: char)
    requires c in Unescape(text)
    ensures c in text
  {
    if |text| >= 2 {
      assert text == [text[0]] + text[1..] && text == [text[0], text[1]] + text[2..];
      if text[..2] == "\\\\" {
        assert text[..2][0] == text[0];
        if c in Unescape(text[2..]) {
          UnescapeChars(text[2..], c);
        }
      } else if c in Unescape(text[1..]) {
        UnescapeChars(text[1..], c);
      }
    }
  }

  lemma {:induction false} ComponentChars(text: string, c: char)
    requires c in LastComponent(text)
    ensures c in text
  {
    if c in LastComponent(text[..|text| - 1]) {
      ComponentChars(text[..|text| - 1], c);
    }
  }

  lemma BackslashesInText(name: seq<byte>)
    ensures NoDoubledBackslash(name) <==> HasNoDoubledBackslash(Latin1(name))
  {
    assert forall i :: 0 <= i < |name| ==> (name[i] == 92 <==> Latin1(name)[i] == '\\');
  }

  lemma LatinReadsBack(text: string)
    requires forall c :: c in text ==> c as int < 256
    ensures Latin1(Latin1Bytes(text)) == text
  {
    assert forall i :: 0 <= i < |text| ==> text[i] in text;
  }

  lemma LatinChars(bytes: seq<byte>, b: byte)
    ensures b as char in Latin1(bytes) <==> b in bytes
  {
    if b as char in Latin1(bytes) {
      var i :| 0 <= i < |bytes| && Latin1(bytes)[i] == b as char;
      assert bytes[i] as int == b as int;
    }
    if b in bytes {
      var i :| 0 <= i < |bytes| && bytes[i] == b;
      assert Latin1(bytes)[i] == b as char;
    }
  }

  /** Unescaping drops no char that is not ASCII. */
  lemma {:induction false} UnescapeAscii(text: string)
    ensures |text| - |AsciiOf(text)| == |Unescape(text)| - |AsciiOf(Unescape(text))|
  {
    if |text| >= 2 {
      if text[..2] == "\\\\" {
        assert text[0] == text[..2][0] == '\\' && text[1] == text[..2][1] == '\\' && text[1..][1..] == text[2..];
        UnescapeAscii(text[2..]);
        FirstAscii('\\', Unescape(text[2..]));
      } else {
        UnescapeAscii(text[1..]);
        FirstAscii(text[0], Unescape(text[1..]));
      }
    }
  }

  lemma FirstAscii(c: char, rest: string)
    ensures AsciiOf([c] + rest) == if c as int < 128 then [c] + AsciiOf(rest) else AsciiOf(rest)
  {
    assert ([c] + rest)[1..] == rest;
  }

  /** Where a text has the ASCII chars of the name, but only chars of its quoted form, nothing was quoted. */
  lemma NothingQuoted(name: seq<byte>, text: string)
    requires AsciiOf(text) == AsciiOf(Latin1(name))
    requires forall c :: c in text ==> c in Latin1(QuoteParam(name))
    ensures QuoteParam(name) == name
  {
    QuoteParamPlain(name);
    forall b: byte | b in {34, CR, LF} ensures b !in name {
      LatinChars(QuoteParam(name), b);
      AsciiMember(text, b as char);
      AsciiMember(Latin1(name), b as char);
      LatinChars(name, b);
    }
    QuoteParamIdentity(name);
  }

  /** Unescaping that leaves all ASCII chars leaves everything. */
  lemma NothingUnescaped(text: string)
    requires AsciiOf(Unescape(text)) == AsciiOf(text)
    ensures Unescape(text) == text
  {
    UnescapeAscii(text);
    UnescapeShrinks(text);
  }

  lemma ReceivedNameText(name: seq<byte>)
    ensures Latin1(ReceivedName(name)) == Unescape(Latin1(QuoteParam(name)))
    ensures forall c :: c in Unescape(Latin1(QuoteParam(name))) ==> c in Latin1(QuoteParam(name))
  {
    var text := Latin1(QuoteParam(name));
    forall c | c in Unescape(text) ensures c in text && c as int < 256 {
      UnescapeChars(text, c);
    }
    LatinReadsBack(Unescape(text));
  }

  /** A name is decoded as if it had been sent as it is exactly if it is clean. */
  lemma NameUnchanged(name: seq<byte>, decode: seq<byte> -> string)
    ensures IsClean(name) ==> ReceivedName(name) == name
    ensures KeepsAscii(decode) && decode(ReceivedName(name)) == decode(name) ==> IsClean(name)
  {
    QuoteParamIdentity(name);
    BackslashesInText(name);
    UnescapeShrinks(Latin1(name));
    Latin1Inverse(name);
    if KeepsAscii(decode) && decode(ReceivedName(name)) == decode(name) {
      ReceivedNameText(name);
      assert AsciiOf(Latin1(ReceivedName(name))) == AsciiOf(Latin1(name));
      NothingQuoted(name, Latin1(ReceivedName(name)));
      NothingUnescaped(Latin1(name));
    }
  }

  lemma FilenameChars(text: string, c: char)
    requires c in UnescapeFile(text)
    ensures c in text
  {
    if IsWindowsPath(Unescape(text)) {
      ComponentChars(Unescape(text), c);
    }
    UnescapeChars(text, c);
  }

  lemma {:induction false} ComponentEndsPath(text: string)
    ensures '\\' !in LastComponent(text)
  {
    if text != "" && text[|text| - 1] != '\\' {
      ComponentEndsPath(text[..|text| - 1]);
    }
  }

  /** Reading a file name that leaves all ASCII chars leaves everything: a path would lose a backslash. */
  lemma NothingCut(text: string)
    requires AsciiOf(UnescapeFile(text)) == AsciiOf(text)
    ensures UnescapeFile(text) == text
  {
    if IsWindowsPath(Unescape(text)) {
      WindowsPathHasBackslash(Unescape(text));
      UnescapeChars(text, '\\');
      ComponentEndsPath(Unescape(text));
      AsciiMember(text, '\\');
      AsciiMember(UnescapeFile(text), '\\');
    } else {
      NothingUnescaped(text);
    }
  }

  lemma ReceivedFilenameText(filename: seq<byte>)
    ensures Latin1(ReceivedFilename(filename)) == UnescapeFile(Latin1(QuoteParam(filename)))
    ensures forall c :: c in UnescapeFile(Latin1(QuoteParam(filename))) ==> c in Latin1(QuoteParam(filename))
  {
    var text := Latin1(QuoteParam(filename));
    forall c | c in UnescapeFile(text) ensures c in text && c as int < 256 {
      FilenameChars(text, c);
    }
    LatinReadsBack(UnescapeFile(text));
  }

  lemma FilenameUnchanged(filename: seq<byte>, decode: seq<byte> -> string)
    ensures IsClean(filename) && !IsWindowsPath(Latin1(filename)) ==> ReceivedFilename(filename) == filename
    ensures KeepsAscii(decode) && decode(ReceivedFilename(filename)) == decode(filename) ==>
      IsClean(filename) && !IsWindowsPath(Latin1(filename))
  {
    QuoteParamIdentity(filename);
    BackslashesInText(filename);
    UnescapeFileExact(Latin1(filename));
    Latin1Inverse(filename);
    if KeepsAscii(decode) && decode(ReceivedFilename(filename)) == decode(filename) {
      ReceivedFilenameText(filename);
      assert AsciiOf(Latin1(ReceivedFilename(filename))) == AsciiOf(Latin1(filename));
      NothingQuoted(filename, Latin1(ReceivedFilename(filename)));
      NothingCut(Latin1(filename));
    }
  }

  /* ---- One part ---- */

  /** The item that says exactly what was sent. */
  function AsSent(part: Sent, setup: Setup): Item {
    match part
    case Field(name, data) => Item(setup.decode(name), Plain(setup.decode(data)))
    case Upload(name, filename, contentType, data) =>
      Item(setup.decode(name), File(FormSpec.Upload(setup.decode(filename), Some(Latin1(contentType)), data)))
  }

  /** Names without quote, CR, LF and doubled backslash; a file's name closes, and its file name is no path. */
  ghost predicate IsExact(part: Sent) {
    && IsClean(part.name) && ClosesName(part)
    && (part.Upload? ==> IsClean(part.filename) && !IsWindowsPath(Latin1(part.filename)))
  }

  lemma ExactIsReceived(part: Sent, setup: Setup)
    ensures IsExact(part) ==> Received(part, setup) == AsSent(part, setup)
    ensures KeepsAscii(setup.decode) && ClosesName(part) && Received(part, setup) == AsSent(part, setup) ==>
      IsExact(part)
  {
    NameUnchanged(part.name, setup.decode);
    if part.Upload? {
      FilenameUnchanged(part.filename, setup.decode);
    }
  }

  lemma {:induction false} QuoteParamSemicolon(name: seq<byte>)
    requires 59 in QuoteParam(name)
    ensures 59 in name
  {
    if name[0] != 59 {
      QuoteParamSemicolon(name[1..]);
    }
  }

  lemma SemicolonByte(text: string)
    ensures 59 in Latin1Bytes(text) ==> ';' in text
  {
    if 59 in Latin1Bytes(text) {
      var i :| 0 <= i < |text| && Latin1Bytes(text)[i] == 59;
      assert text[i] as int == 59 && text[i] in text;
    }
  }

  /** A text with a `;` and bytes whose text has none are not decoded alike. */
  lemma SemicolonTells(filename: seq<byte>, read: string, decode: seq<byte> -> string)
    requires KeepsAscii(decode) && 59 in filename && ';' !in read
    ensures decode(Latin1Bytes(read)) != decode(filename)
  {
    var bytes := Latin1Bytes(read);
    LatinChars(filename, 59);
    LatinChars(bytes, 59);
    SemicolonByte(read);
    assert AsciiOf(decode(bytes)) == AsciiOf(Latin1(bytes)) && AsciiOf(decode(filename)) == AsciiOf(Latin1(filename));
    AsciiMember(Latin1(bytes), ';');
    AsciiMember(Latin1(filename), ';');
  }

  /** The file name that is read behind a name that does not close. */
  lemma SwallowedIsNotDecoded(name: seq<byte>, filename: seq<byte>, decode: seq<byte> -> string)
    requires KeepsAscii(decode) && !NoTrailingBackslash(name)
    ensures var read :=
        Lookup(Params(FileDisposition(Latin1(QuoteParam(name)), Latin1(QuoteParam(filename)))), "filename");
      read.Some? ==> decode(Latin1Bytes(read.value)) != decode(filename)
  {
    QuoteParamEnd(name);
    QuoteParamEnd(filename);
    var sentName, sentFilename := Latin1(QuoteParam(name)), Latin1(QuoteParam(filename));
    FormSwallowed.SwallowedFilename(sentName, sentFilename);
    var read := Lookup(Params(FileDisposition(sentName, sentFilename)), "filename");
    if read.Some? {
      LatinChars(QuoteParam(filename), 59);
      QuoteParamSemicolon(filename);
      SemicolonTells(filename, read.value, decode);
    }
  }

  /** An upload whose name swallows its file name never arrives as it was sent. */
  lemma SwallowedIsNotExact(part: Sent, files: nat, fields: nat, last: bool, setup: Setup)
    requires KeepsAscii(setup.decode) && !ClosesName(part)
    ensures var r := Interpret(RawOf(part), files, fields, last, setup);
      r.Ok? ==> r.value.item != AsSent(part, setup)
  {
    KeptHeaders(part);
    DispositionPlain(part);
    SwallowedIsNotDecoded(part.name, part.filename, setup.decode);
  }

  /** The part alone: read as sent and counted, exactly if it is exact and within the limits. */
  lemma PartArrives(part: Sent, files: nat, fields: nat, last: bool, setup: Setup)
    ensures var r := Interpret(RawOf(part), files, fields, last, setup);
      && (IsExact(part) && FitsLimits(part, files, fields, setup) ==>
        r == Ok(Part(AsSent(part, setup), Counts(part, files, fields).0, Counts(part, files, fields).1, last)))
      && (KeepsAscii(setup.decode) && r.Ok? && r.value.item == AsSent(part, setup) ==>
        IsExact(part) && FitsLimits(part, files, fields, setup))
  {
    ExactIsReceived(part, setup);
    if ClosesName(part) {
      if FitsLimits(part, files, fields, setup) {
        InterpretSent(part, files, fields, last, setup);
      } else {
        TooLarge(part, files, fields, last, setup);
      }
    } else if KeepsAscii(setup.decode) {
      SwallowedIsNotExact(part, files, fields, last, setup);
    }
  }

  lemma TooLarge(part: Sent, files: nat, fields: nat, last: bool, setup: Setup)
    requires ClosesName(part) && !FitsLimits(part, files, fields, setup)
    ensures Interpret(RawOf(part), files, fields, last, setup).Err?
  {
    KeptHeaders(part);
    DispositionPlain(part);
    QuoteParamEnd(part.name);
    match part
    case Field(name, _) =>
      FieldReadBack(Latin1(QuoteParam(name)));
    case Upload(name, filename, _, _) =>
      QuoteParamEnd(filename);
      FileReadBack(Latin1(QuoteParam(name)), Latin1(QuoteParam(filename)));
  }

  /* ---- The whole form ---- */

  function AllAsSent(parts: seq<Sent>, setup: Setup): (r: seq<Item>)
    ensures |r| == |parts|
  {
    if parts == [] then [] else [AsSent(parts[0], setup)] + AllAsSent(parts[1..], setup)
  }

  ghost predicate AllExact(parts: seq<Sent>) {
    parts == [] || (IsExact(parts[0]) && AllExact(parts[1..]))
  }

  lemma {:induction false} ExactClose(parts: seq<Sent>)
    requires AllExact(parts)
    ensures AllClose(parts)
  {
    if parts != [] {
      ExactClose(parts[1..]);
    }
  }

  lemma {:induction false} ExactReceived(parts: seq<Sent>, setup: Setup)
    requires AllExact(parts)
    ensures ReceivedAll(parts, setup) == AllAsSent(parts, setup)
  {
    if parts != [] {
      ExactIsReceived(parts[0], setup);
      ExactReceived(parts[1..], setup);
    }
  }

  /** Items that were read stay in front. */
  lemma {:induction false} ItemsStay(raws: seq<Raw>, files: nat, fields: nat, items: seq<Item>, setup: Setup)
    ensures var r := InterpretAll(raws, files, fields, items, setup);
      r.Ok? ==> items <= r.value && |r.value| == |items| + |raws|
    decreases |raws|
  {
    if raws != [] {
      var first := Interpret(raws[0], files, fields, raws[1..] == [], setup);
      if first.Ok? {
        ItemsStay(raws[1..], first.value.files, first.value.fields, items + [first.value.item], setup);
      }
    }
  }

  lemma FirstItem(raws: seq<Raw>, files: nat, fields: nat, items: seq<Item>, all: seq<Item>, setup: Setup)
    returns (first: Part)
    requires raws != [] && InterpretAll(raws, files, fields, items, setup) == Ok(all)
    ensures Interpret(raws[0], files, fields, raws[1..] == [], setup) == Ok(first)
    ensures |items| < |all| && all[|items|] == first.item
    ensures InterpretAll(raws[1..], first.files, first.fields, items + [first.item], setup) == Ok(all)
  {
    first := Interpret(raws[0], files, fields, raws[1..] == [], setup).value;
    ItemsStay(raws[1..], first.files, first.fields, items + [first.item], setup);
    assert (items + [first.item])[|items|] == first.item;
  }

  lemma SentSplit(parts: seq<Sent>, items: seq<Item>, setup: Setup)
    requires parts != []
    ensures var all := items + AllAsSent(parts, setup);
      && all[|items|] == AsSent(parts[0], setup)
      && all == items + [AsSent(parts[0], setup)] + AllAsSent(parts[1..], setup)
  {
  }

  /** If the form arrives as it was sent, then so does its first part. */
  lemma FirstArrives(parts: seq<Sent>, files: nat, fields: nat, items: seq<Item>, setup: Setup)
    requires parts != [] && KeepsAscii(setup.decode)
    requires InterpretAll(RawsOf(parts), files, fields, items, setup) == Ok(items + AllAsSent(parts, setup))
    ensures IsExact(parts[0]) && FitsLimits(parts[0], files, fields, setup)
    ensures InterpretAll(RawsOf(parts[1..]), Counts(parts[0], files, fields).0, Counts(parts[0], files, fields).1,
        items + [AsSent(parts[0], setup)], setup) ==
      Ok(items + [AsSent(parts[0], setup)] + AllAsSent(parts[1..], setup))
  {
    FirstRaw(parts);
    SentSplit(parts, items, setup);
    var first := FirstItem(RawsOf(parts), files, fields, items, items + AllAsSent(parts, setup), setup);
    PartArrives(parts[0], files, fields, RawsOf(parts)[1..] == [], setup);
  }

  lemma {:induction false} ArrivingIsExact(
    parts: seq<Sent>, files: nat, fields: nat, items: seq<Item>, setup: Setup)
    requires KeepsAscii(setup.decode)
    requires InterpretAll(RawsOf(parts), files, fields, items, setup) == Ok(items + AllAsSent(parts, setup))
    ensures AllExact(parts) && WithinLimits(parts, files, fields, setup)
    decreases |parts|
  {
    if parts != [] {
      FirstArrives(parts, files, fields, items, setup);
      var counts := Counts(parts[0], files, fields);
      ArrivingIsExact(parts[1..], counts.0, counts.1, items + [AsSent(parts[0], setup)], setup);
    }
  }

  /**
   The exact condition: a printed form, whatever follows it, is parsed into exactly what was sent if its
   names are clean, the name of a file does not end in a backslash, its file name is no Windows path, and
   the form is within the limits; and with a charset that keeps ASCII, as both of the parser do, only if so.
   */
  lemma ArrivesExactly(body: seq<byte>, parts: seq<Sent>, setup: Setup)
    requires CR !in setup.boundary && Printed(parts, setup) <= body && AllSendable(parts, setup)
    ensures AllExact(parts) && WithinLimits(parts, 0, 0, setup) ==> Form(body, setup) == Ok(AllAsSent(parts, setup))
    ensures KeepsAscii(setup.decode) && Form(body, setup) == Ok(AllAsSent(parts, setup)) ==>
      AllExact(parts) && WithinLimits(parts, 0, 0, setup)
  {
    AllAreFrameable(parts, setup);
    FramingTransparent(body, RawsOf(parts), setup);
    if AllExact(parts) && WithinLimits(parts, 0, 0, setup) {
      ExactClose(parts);
      ExactReceived(parts, setup);
      RoundTrip(body, parts, setup);
    }
    if KeepsAscii(setup.decode) && Form(body, setup) == Ok(AllAsSent(parts, setup)) {
      assert [] + AllAsSent(parts, setup) == AllAsSent(parts, setup);
      ArrivingIsExact(parts, 0, 0, [], setup);
    }
  }

  /** A text field arrives with its name exactly if the name is clean; a backslash at its end does no harm. */
  lemma FieldArrivesExactly(name: seq<byte>, data: seq<byte>, setup: Setup)
    requires CR !in setup.boundary && KeepsAscii(setup.decode) && AllSendable([Field(name, data)], setup)
    requires FitsLimits(Field(name, data), 0, 0, setup)
    ensures Form(Printed([Field(name, data)], setup), setup) == Ok([AsSent(Field(name, data), setup)]) <==>
      IsClean(name)
  {
    OnePartArrives(Field(name, data), setup);
  }

  lemma OnePartArrives(part: Sent, setup: Setup)
    requires CR !in setup.boundary && KeepsAscii(setup.decode)
    requires AllSendable([part], setup) && FitsLimits(part, 0, 0, setup)
    ensures Form(Printed([part], setup), setup) == Ok([AsSent(part, setup)]) <==> IsExact(part)
  {
    ArrivesExactly(Printed([part], setup), [part], setup);
    assert [part][1..] == [] && AllAsSent([part], setup) == [AsSent(part, setup)];
    assert AllExact([part]) <==> IsExact(part);
    assert WithinLimits([], Counts(part, 0, 0).0, Counts(part, 0, 0).1, setup);
  }

  /** An upload: also its name must not end in a backslash, and its file name must be clean and no path. */
  lemma UploadArrivesExactly(part: Sent, setup: Setup)
    requires CR !in setup.boundary && KeepsAscii(setup.decode) && part.Upload?
    requires AllSendable([part], setup) && FitsLimits(part, 0, 0, setup)
    ensures Form(Printed([part], setup), setup) == Ok([AsSent(part, setup)]) <==>
      && IsClean(part.name) && (part.name != [] ==> part.name[|part.name| - 1] != 92)
      && IsClean(part.filename) && !IsWindowsPath(Latin1(part.filename))
  {
    OnePartArrives(part, setup);
  }
}
