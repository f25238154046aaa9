/** The index-driven multipart parser, proved against the functions of FormSpec. */
module FormParser {
  import opened Wrappers
  import opened Text
  import opened OptionsHeader
  import opened FormSpec

  method ReadOpening(body: seq<byte>, setup: Setup) returns (r: Scan<bool>)
    ensures r == Opening(body, setup)
  {
    var i := 0;
    while i < |body| && (body[i] == CR || body[i] == LF)
      invariant i <= |body|
      invariant LeadingBreaks(body, 0) == LeadingBreaks(body, i)
    {
      i := i + 1;
    }
    if i > 0 && i < |body| && body[i] != DASH {
      return Bad(BadRequest);
    }
    var wanted := setup.Dashes();
    for k := 0 to |wanted|
      invariant i <= |body|
      invariant Expect(body, LeadingBreaks(body, 0), wanted, 0) == Expect(body, i, wanted, k)
    {
      match ByteAt(body, i)
      case None => return More;
      case Some(b) =>
        if b != wanted[k] {
          return Bad(BadRequest);
        }
        i := i + 1;
    }
    match (ByteAt(body, i), ByteAt(body, i + 1)) {
      case (None, _) => return More;
      case (Some(a), None) => return if a == DASH || a == CR then More else Bad(BadRequest);
      case (Some(a), Some(b)) =>
        if a == DASH && b == DASH {
          return Done(false, i + 2);
        } else if a == CR && b == LF {
          return Done(true, i + 2);
        } else {
          return Bad(BadRequest);
        }
    }
  }

  /** A header from behind its colon; `read` bytes of it are counted. */
  method ReadFieldValue(body: seq<byte>, start: nat, colon: nat, read: nat) returns (r: Scan<Header>)
    requires start <= colon < |body| && read == colon + 1 - start <= MAX_HEADER_SIZE
    ensures r == NamedField(body, start, colon)
  {
    var i, size := colon + 1, read;
    while ByteAt(body, i) == Some(SPACE)
      invariant colon < i <= |body| && size == i - start <= MAX_HEADER_SIZE
      invariant SkipSpaces(body, colon + 1) == SkipSpaces(body, i)
      decreases |body| - i
    {
      size := size + 1;
      i := i + 1;
      if size > MAX_HEADER_SIZE {
        return Bad(BadRequest);
      }
    }
    var cr := FindByte(body, CR, i);
    size := size + (if cr.Some? then cr.value else |body|) - i;
    if size > MAX_HEADER_SIZE {
      return Bad(BadRequest);
    }
    if cr.None? {
      return More;
    }
    match ByteAt(body, cr.value + 1)
    case None => return More;
    case Some(b) =>
      return if b == LF then Done(Header(body[start..colon], body[i..cr.value]), cr.value + 2) else Bad(BadRequest);
  }

  method ReadField(body: seq<byte>, start: nat) returns (r: Scan<Header>)
    requires start < |body|
    ensures r == Field(body, start)
  {
    var colon := FindByte(body, COLON, start);
    var end := if colon.Some? then colon.value else |body|;
    var size := end - start + (if colon.Some? then 1 else 0);
    var name := body[start..end];
    assert end == |body| ==> name == body[start..];
    if size > MAX_HEADER_SIZE || !AllToken(name) {
      return Bad(BadRequest);
    }
    if colon.None? {
      assert name == body[start..];
      return More;
    }
    if name == [] {
      return Bad(BadRequest);
    }
    r := ReadFieldValue(body, start, end, size);
  }

  lemma {:induction false} NoteHeader(read: seq<Header>, h: Header)
    ensures Disposition(read + [h]) ==
      if EqIgnoreCase(h.name, CONTENT_DISPOSITION) then Some(h.value) else Disposition(read)
    ensures ContentType(read + [h]) ==
      if ContentType(read).None? && EqIgnoreCase(h.name, CONTENT_TYPE) then Some(h.value) else ContentType(read)
  {
    assert (read + [h])[..|read|] == read;
    if read != [] {
      assert (read + [h])[1..] == read[1..] + [h];
      NoteHeader(read[1..], h);
    }
  }

  lemma NotBoth(name: seq<byte>)
    requires EqIgnoreCase(name, CONTENT_DISPOSITION)
    ensures !EqIgnoreCase(name, CONTENT_TYPE)
  {
    assert |CONTENT_DISPOSITION| == 19 && |CONTENT_TYPE| == 12;
  }

  /** What a header changes in the two headers the parser keeps. */
  method KeepHeader(h: Header, disposition: Option<seq<byte>>, contentType: Option<seq<byte>>, ghost read: seq<Header>)
    returns (disposition': Option<seq<byte>>, contentType': Option<seq<byte>>)
    requires disposition == Disposition(read) && contentType == ContentType(read)
    ensures disposition' == Disposition(read + [h]) && contentType' == ContentType(read + [h])
  {
    disposition', contentType' := disposition, contentType;
    NoteHeader(read, h);
    if EqIgnoreCase(h.name, CONTENT_DISPOSITION) {
      NotBoth(h.name);
      disposition' := Some(h.value);
    } else if EqIgnoreCase(h.name, CONTENT_TYPE) && contentType.None? {
      contentType' := Some(h.value);
    }
  }

  /** One line of the header loop. */
  method ReadHeaderLine(body: seq<byte>, i: nat, count: nat) returns (r: Scan<Option<Header>>)
    requires i <= |body|
    ensures r == HeaderLine(body, i, count)
  {
    match (ByteAt(body, i), ByteAt(body, i + 1)) {
      case (None, _) => return More;
      case (Some(a), None) =>
        if a == CR {
          return More;
        }
      case (Some(a), Some(b)) =>
        if a == CR {
          return if b == LF then Done(None, i + 2) else Bad(BadRequest);
        }
    }
    if count + 1 > MAX_HEADER_COUNT {
      return Bad(BadRequest);
    }
    var field := ReadField(body, i);
    match field
    case More => return More;
    case Bad(e) => return Bad(e);
    case Done(h, next) => return Done(Some(h), next);
  }

  /** The headers of a part, with its last Content-Disposition and first Content-Type. */
  method ReadHeaders(body: seq<byte>, start: nat)
    returns (end: Scan<()>, disposition: Option<seq<byte>>, contentType: Option<seq<byte>>)
    requires start <= |body|
    ensures match Headers(body, start, [])
      case More => end == More
      case Bad(e) => end == Bad(e)
      case Done(headers, next) =>
        && end == Done((), next)
        && disposition == Disposition(headers) && contentType == ContentType(headers)
  {
    disposition, contentType := None, None;
    var i: nat, count: nat := start, 0;
    ghost var read: seq<Header> := [];
    while true
      invariant start <= i <= |body| && count == |read|
      invariant disposition == Disposition(read) && contentType == ContentType(read)
      invariant Headers(body, start, []) == Headers(body, i, read)
      decreases |body| - i
    {
      var line := ReadHeaderLine(body, i, count);
      match line
      case More => return More, None, None;
      case Bad(e) => return Bad(e), None, None;
      case Done(None, next) => return Done((), next), disposition, contentType;
      case Done(Some(h), next) =>
        count := count + 1;
        disposition, contentType := KeepHeader(h, disposition, contentType, read);
        read := read + [h];
        i := next;
    }
  }

  /** The search for the delimiter that ends the part data which starts at `start`. */
  method FindPartEnd(body: seq<byte>, delimiter: seq<byte>, start: nat) returns (r: Scan<bool>)
    requires start <= |body| && delimiter != []
    ensures r == PartEnd(body, delimiter, start)
  {
    var search := start;
    while true
      invariant start <= search <= |body|
      invariant PartEnd(body, delimiter, start) == PartEnd(body, delimiter, search)
      decreases |body| - search
    {
      var found := FindSeq(body, delimiter, search);
      if found.None? {
        return More;
      }
      var at := found.value;
      var after := at + |delimiter|;
      match (ByteAt(body, after), ByteAt(body, after + 1)) {
        case (None, _) => return More;
        case (Some(a), None) =>
          if a == CR || a == DASH {
            return More;
          }
          search := after;
        case (Some(a), Some(b)) =>
          if a == CR && b == LF {
            return Done(false, at);
          } else if a == DASH && b == DASH {
            return Done(true, at);
          } else if a == CR || a == DASH {
            search := after + 1;
          } else {
            search := after;
          }
      }
    }
  }

  /** A part without a name is refused, and so is one too many of its kind. */
  method BeginPart(disposition: Option<seq<byte>>, ghost headers: seq<Header>, files: nat, fields: nat, setup: Setup)
    returns (r: Result<Started, FormError>)
    requires disposition == Disposition(headers)
    ensures r == Begin(headers, files, fields, setup)
  {
    var _, params := ReadOptionsHeader(match disposition case None => None case Some(d) => Some(Latin1(d)));
    var name := Lookup(params, "name");
    if name.None? {
      return Err(BadRequest);
    }
    var filename := Lookup(params, "filename");
    var decoded := setup.decode(Latin1Bytes(name.value));
    if filename.Some? {
      if Exceeds(files + 1, setup.limits.maxFiles) {
        return Err(TooLarge);
      }
      return Ok(Started(decoded, Some(setup.decode(Latin1Bytes(filename.value))), files + 1, fields));
    } else {
      if Exceeds(fields + 1, setup.limits.maxFields) {
        return Err(TooLarge);
      }
      return Ok(Started(decoded, None, files, fields + 1));
    }
  }

  method ReadPart(body: seq<byte>, i: nat, files: nat, fields: nat, setup: Setup) returns (r: Scan<Part>)
    requires i <= |body|
    ensures r == OnePart(body, i, files, fields, setup)
  {
    var head, disposition, contentType := ReadHeaders(body, i);
    if !head.Done? {
      return if head.Bad? then Bad(head.error) else More;
    }
    ghost var headers := Headers(body, i, []).value;
    var start := head.next;
    var begun := BeginPart(disposition, headers, files, fields, setup);
    if begun.Err? {
      return Bad(begun.error);
    }
    var started := begun.value;
    var found := FindPartEnd(body, setup.Delimiter(), start);
    if !found.Done? {
      return if found.Bad? then Bad(found.error) else More;
    }
    var end := found.next;
    var data := body[start..end];
    var value;
    match started.filename {
      case Some(f) =>
        value := File(Upload(f, match contentType case None => None case Some(t) => Some(Latin1(t)), data));
      case None =>
        if data != [] && Exceeds(|data|, setup.limits.maxPartSize) {
          return Bad(TooLarge);
        }
        value := Plain(setup.decode(data));
    }
    var part := Part(Item(started.name, value), started.files, started.fields, found.value);
    return Done(part, end + |setup.Delimiter()| + 2);
  }

  /** The parser: the items of all finished parts, or the first error. */
  method Multipart(body: seq<byte>, setup: Setup) returns (r: Result<seq<Item>, FormError>)
    ensures r == Form(body, setup)
  {
    var opening := ReadOpening(body, setup);
    if opening.Bad? {
      return Err(opening.error);
    }
    if opening.More? || !opening.value {
      return Ok([]);
    }
    var items: seq<Item> := [];
    var i: nat, files: nat, fields: nat := opening.next, 0, 0;
    while true
      invariant i <= |body|
      invariant Form(body, setup) == Parts(body, i, files, fields, items, setup)
      decreases |body| - i
    {
      var part := ReadPart(body, i, files, fields, setup);
      match part
      case More => return Ok(items);
      case Bad(e) => return Err(e);
      case Done(p, next) =>
        items := items + [p.item];
        if p.last {
          return Ok(items);
        }
        files, fields, i := p.files, p.fields, next;
    }
  }
}
