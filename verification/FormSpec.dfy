/**
 What a multipart form body means, as functions of the body and an index. A scan that runs out of
 bytes is `More`: the parser then ends the form with the parts it has.
 */
module FormSpec {
  import opened Wrappers
  import opened Text
  import opened OptionsHeader

  datatype FormError = BadRequest | TooLarge

  datatype Upload = Upload(filename: string, contentType: Option<string>, data: seq<byte>)

  datatype Value = Plain(text: string) | File(upload: Upload)

  datatype Item = Item(name: string, value: Value)

  datatype Limits = Limits(maxFiles: int, maxFields: int, maxPartSize: int)

  /** The boundary and the charset decoder from the content type, and the limits of the route. */
  datatype Setup = Setup(boundary: seq<byte>, decode: seq<byte> -> string, limits: Limits) {
    function Dashes(): (r: seq<byte>)
      ensures |r| == |boundary| + 2
    {
      [DASH, DASH] + boundary
    }

    function Delimiter(): (r: seq<byte>)
      ensures |r| == |boundary| + 4
    {
      [CR, LF] + Dashes()
    }
  }

  const MAX_HEADER_COUNT: nat := 8
  const MAX_HEADER_SIZE: nat := 4096 + 128

  const CONTENT_DISPOSITION: seq<byte> :=
    [67, 111, 110, 116, 101, 110, 116, 45, 68, 105, 115, 112, 111, 115, 105, 116, 105, 111, 110]
  const CONTENT_TYPE: seq<byte> := [67, 111, 110, 116, 101, 110, 116, 45, 84, 121, 112, 101]

  predicate Exceeds(len: nat, max: int) {
    len > max
  }

  predicate IsToken(b: byte) {
    || 48 <= b <= 57 || 65 <= b <= 90 || 97 <= b <= 122
    || b in {33, 35, 36, 37, 38, 39, 42, 43, 45, 46, 94, 95, 96, 124, 126}
  }

  predicate AllToken(bytes: seq<byte>) {
    forall i :: 0 <= i < |bytes| ==> IsToken(bytes[i])
  }

  /** The outcome of reading from an index: `next` is where reading goes on. */
  datatype Scan<+T> = More | Bad(error: FormError) | Done(value: T, next: nat)

  /* ---- Searching ---- */

  function FindByte(body: seq<byte>, b: byte, from: nat): (r: Option<nat>)
    requires from <= |body|
    ensures r.Some? ==> from <= r.value < |body| && body[r.value] == b
    decreases |body| - from
  {
    if from == |body| then None
    else if body[from] == b then Some(from)
    else FindByte(body, b, from + 1)
  }

  predicate MatchesFrom(body: seq<byte>, needle: seq<byte>, at: nat, k: nat)
    requires at + |needle| <= |body| && k <= |needle|
    decreases |needle| - k
  {
    k == |needle| || (body[at + k] == needle[k] && MatchesFrom(body, needle, at, k + 1))
  }

  predicate OccursAt(body: seq<byte>, needle: seq<byte>, at: nat) {
    at + |needle| <= |body| && MatchesFrom(body, needle, at, 0)
  }

  lemma {:induction false} MatchesMeaning(body: seq<byte>, needle: seq<byte>, at: nat, k: nat)
    requires at + |needle| <= |body| && k <= |needle|
    ensures MatchesFrom(body, needle, at, k) <==> forall i :: k <= i < |needle| ==> body[at + i] == needle[i]
    decreases |needle| - k
  {
    if k < |needle| {
      MatchesMeaning(body, needle, at, k + 1);
    }
  }

  lemma OccursMeaning(body: seq<byte>, needle: seq<byte>, at: nat)
    requires at + |needle| <= |body|
    ensures OccursAt(body, needle, at) <==> body[at..at + |needle|] == needle
    ensures OccursAt(body, needle, at) <==> forall i :: 0 <= i < |needle| ==> body[at + i] == needle[i]
  {
    MatchesMeaning(body, needle, at, 0);
    var slice := body[at..at + |needle|];
    assert forall i :: 0 <= i < |needle| ==> slice[i] == body[at + i];
  }

  function FindSeq(body: seq<byte>, needle: seq<byte>, from: nat): (r: Option<nat>)
    requires from <= |body|
    ensures r.Some? ==> from <= r.value && r.value + |needle| <= |body|
    decreases |body| - from
  {
    if from + |needle| > |body| then None
    else if OccursAt(body, needle, from) then Some(from)
    else FindSeq(body, needle, from + 1)
  }

  /** The byte at `i`, if any. */
  function ByteAt(body: seq<byte>, i: nat): Option<byte> {
    if i < |body| then Some(body[i]) else None
  }

  /** What follows a boundary: its two bytes, or too few bytes to tell. */
  datatype Follow = Short | Dashes | Break | Other

  function Following(body: seq<byte>, i: nat): (r: Follow)
    ensures r.Dashes? || r.Break? ==> i + 2 <= |body|
    ensures r.Other? ==> i < |body|
  {
    match (ByteAt(body, i), ByteAt(body, i + 1))
    case (None, _) => Short
    case (Some(a), None) => if a == CR || a == DASH then Short else Other
    case (Some(a), Some(b)) =>
      if a == CR && b == LF then Break else if a == DASH && b == DASH then Follow.Dashes else Other
  }

  /* ---- The opening boundary ---- */

  function LeadingBreaks(body: seq<byte>, from: nat): (n: nat)
    requires from <= |body|
    ensures from <= n <= |body|
    decreases |body| - from
  {
    if from < |body| && (body[from] == CR || body[from] == LF) then LeadingBreaks(body, from + 1) else from
  }

  function Expect(body: seq<byte>, from: nat, wanted: seq<byte>, k: nat): (r: Scan<()>)
    requires from <= |body| && k <= |wanted|
    ensures r.Done? ==> r.next == from + |wanted| - k <= |body|
    decreases |wanted| - k
  {
    if k == |wanted| then Done((), from)
    else if from == |body| then More
    else if body[from] != wanted[k] then Bad(BadRequest)
    else Expect(body, from + 1, wanted, k + 1)
  }

  /** Where the first part begins, or an empty form (`false`). */
  function Opening(body: seq<byte>, setup: Setup): (r: Scan<bool>)
    ensures r.Done? ==> r.next <= |body|
  {
    var i := LeadingBreaks(body, 0);
    if 0 < i < |body| && body[i] != DASH then Bad(BadRequest)
    else match Expect(body, i, setup.Dashes(), 0)
      case More => More
      case Bad(e) => Bad(e)
      case Done(_, n) =>
        match Following(body, n)
        case Short => More
        case Dashes => Done(false, n + 2)
        case Break => Done(true, n + 2)
        case Other => Bad(BadRequest)
  }

  /* ---- Part headers ---- */

  datatype Header = Header(name: seq<byte>, value: seq<byte>)

  /** The value of the last Content-Disposition header of a part. */
  function Disposition(headers: seq<Header>): Option<seq<byte>> {
    if headers == [] then None
    else
      var last := headers[|headers| - 1];
      if EqIgnoreCase(last.name, CONTENT_DISPOSITION) then Some(last.value)
      else Disposition(headers[..|headers| - 1])
  }

  /** The value of the first Content-Type header of a part. */
  function ContentType(headers: seq<Header>): Option<seq<byte>> {
    if headers == [] then None
    else if EqIgnoreCase(headers[0].name, CONTENT_TYPE) then Some(headers[0].value)
    else ContentType(headers[1..])
  }

  /** Whether the blank line that ends the headers comes next. */
  function BlankLine(body: seq<byte>, i: nat): (r: Scan<bool>)
    ensures r.Done? ==> i < |body| && i <= r.next <= |body|
  {
    match (ByteAt(body, i), ByteAt(body, i + 1))
    case (None, _) => More
    case (Some(a), None) => if a == CR then More else Done(false, i)
    case (Some(a), Some(b)) =>
      if a != CR then Done(false, i) else if b == LF then Done(true, i + 2) else Bad(BadRequest)
  }

  function SkipSpaces(body: seq<byte>, from: nat): (n: nat)
    requires from <= |body|
    ensures from <= n <= |body|
    decreases |body| - from
  {
    if from < |body| && body[from] == SPACE then SkipSpaces(body, from + 1) else from
  }

  /** A header from behind its colon; `start` is the index of its name. */
  function NamedField(body: seq<byte>, start: nat, colon: nat): (r: Scan<Header>)
    requires start <= colon < |body|
    ensures r.Done? ==> colon < r.next <= |body|
  {
    var i := SkipSpaces(body, colon + 1);
    if i - start > MAX_HEADER_SIZE then Bad(BadRequest)
    else match FindByte(body, CR, i)
      case None => if |body| - start > MAX_HEADER_SIZE then Bad(BadRequest) else More
      case Some(cr) =>
        if cr - start > MAX_HEADER_SIZE then Bad(BadRequest)
        else match ByteAt(body, cr + 1)
          case None => More
          case Some(b) =>
            if b == LF then Done(Header(body[start..colon], body[i..cr]), cr + 2) else Bad(BadRequest)
  }

  function Field(body: seq<byte>, i: nat): (r: Scan<Header>)
    requires i <= |body|
    ensures r.Done? ==> i < r.next <= |body|
  {
    match FindByte(body, COLON, i)
    case None => if |body| - i > MAX_HEADER_SIZE || !AllToken(body[i..]) then Bad(BadRequest) else More
    case Some(colon) =>
      if colon + 1 - i > MAX_HEADER_SIZE || !AllToken(body[i..colon]) || colon == i then Bad(BadRequest)
      else NamedField(body, i, colon)
  }

  /** The next header line after `count` others, or nothing for the blank line. */
  function HeaderLine(body: seq<byte>, i: nat, count: nat): (r: Scan<Option<Header>>)
    requires i <= |body|
    ensures r.Done? ==> i < r.next <= |body|
  {
    match BlankLine(body, i)
    case More => More
    case Bad(e) => Bad(e)
    case Done(blank, next) =>
      if blank then Done(None, next)
      else if count + 1 > MAX_HEADER_COUNT then Bad(BadRequest)
      else match Field(body, i)
        case More => More
        case Bad(e) => Bad(e)
        case Done(h, next) => Done(Some(h), next)
  }

  /** The headers of a part from `i` on, after those in `read`. */
  function Headers(body: seq<byte>, i: nat, read: seq<Header>): (r: Scan<seq<Header>>)
    requires i <= |body|
    ensures r.Done? ==> i < r.next <= |body|
    decreases |body| - i
  {
    match HeaderLine(body, i, |read|)
    case More => More
    case Bad(e) => Bad(e)
    case Done(None, next) => Done(read, next)
    case Done(Some(h), next) => Headers(body, next, read + [h])
  }

  /* ---- Parts ---- */

  /** A part whose headers are read; the counts include it. */
  datatype Started = Started(name: string, filename: Option<string>, files: nat, fields: nat)

  function Begin(headers: seq<Header>, files: nat, fields: nat, setup: Setup): (r: Result<Started, FormError>) {
    var params := match Disposition(headers) case None => [] case Some(d) => Params(Latin1(d));
    match Lookup(params, "name")
    case None => Err(BadRequest)
    case Some(name) =>
      var name := setup.decode(Latin1Bytes(name));
      match Lookup(params, "filename")
      case Some(f) =>
        if Exceeds(files + 1, setup.limits.maxFiles) then Err(TooLarge)
        else Ok(Started(name, Some(setup.decode(Latin1Bytes(f))), files + 1, fields))
      case None =>
        if Exceeds(fields + 1, setup.limits.maxFields) then Err(TooLarge)
        else Ok(Started(name, None, files, fields + 1))
  }

  /** The delimiter that ends the part data, and whether it is the last one; `next` is its index. */
  function PartEnd(body: seq<byte>, delimiter: seq<byte>, search: nat): (r: Scan<bool>)
    requires delimiter != [] && search <= |body|
    ensures r.Done? ==> search <= r.next && r.next + |delimiter| + 2 <= |body|
    decreases |body| - search
  {
    match FindSeq(body, delimiter, search)
    case None => More
    case Some(at) =>
      var after := at + |delimiter|;
      match Following(body, after)
      case Short => More
      case Break => Done(false, at)
      case Dashes => Done(true, at)
      case Other => PartEnd(body, delimiter, ResumeAt(body, after))
  }

  /** Where the search goes on behind a delimiter that is data. */
  function ResumeAt(body: seq<byte>, after: nat): (r: nat)
    requires after < |body|
    ensures after <= r <= |body|
  {
    if body[after] == CR || body[after] == DASH then after + 1 else after
  }

  function Finish(started: Started, headers: seq<Header>, data: seq<byte>, setup: Setup): Result<Item, FormError> {
    match started.filename
    case Some(filename) =>
      var contentType := match ContentType(headers) case None => None case Some(t) => Some(Latin1(t));
      Ok(Item(started.name, File(Upload(filename, contentType, data))))
    case None =>
      if data != [] && Exceeds(|data|, setup.limits.maxPartSize) then Err(TooLarge)
      else Ok(Item(started.name, Plain(setup.decode(data))))
  }

  /** One part: its item, the new counts and whether it is the last one. */
  datatype Part = Part(item: Item, files: nat, fields: nat, last: bool)

  /** A part from its data on. */
  function PartBody(body: seq<byte>, start: nat, started: Started, headers: seq<Header>, setup: Setup): (r: Scan<Part>)
    requires start <= |body|
    ensures r.Done? ==> start < r.next <= |body|
  {
    match PartEnd(body, setup.Delimiter(), start)
    case More => More
    case Bad(e) => Bad(e)
    case Done(last, end) =>
      match Finish(started, headers, body[start..end], setup)
      case Err(e) => Bad(e)
      case Ok(item) => Done(Part(item, started.files, started.fields, last), end + |setup.Delimiter()| + 2)
  }

  function OnePart(body: seq<byte>, i: nat, files: nat, fields: nat, setup: Setup): (r: Scan<Part>)
    requires i <= |body|
    ensures r.Done? ==> i < r.next <= |body|
  {
    match Headers(body, i, [])
    case More => More
    case Bad(e) => Bad(e)
    case Done(headers, start) =>
      match Begin(headers, files, fields, setup)
      case Err(e) => Bad(e)
      case Ok(started) => PartBody(body, start, started, headers, setup)
  }

  /** The form, from the part at `i` on, after the parts already read into `items`. */
  function Parts(body: seq<byte>, i: nat, files: nat, fields: nat, items: seq<Item>, setup: Setup):
    Result<seq<Item>, FormError>
    requires i <= |body|
    decreases |body| - i
  {
    match OnePart(body, i, files, fields, setup)
    case More => Ok(items)
    case Bad(e) => Err(e)
    case Done(part, next) =>
      if part.last then Ok(items + [part.item])
      else Parts(body, next, part.files, part.fields, items + [part.item], setup)
  }

  function Form(body: seq<byte>, setup: Setup): Result<seq<Item>, FormError> {
    match Opening(body, setup)
    case More => Ok([])
    case Bad(e) => Err(e)
    case Done(parts, i) => if parts then Parts(body, i, 0, 0, [], setup) else Ok([])
  }
}
