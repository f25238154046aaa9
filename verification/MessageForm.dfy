/**
 The fields of a message request: the specification, one step for each form item, and the two
 programs that compute it, one over plain vectors and one over an ordered dictionary.
 */
module MessageForm {
  import opened Wrappers
  import Address

  datatype Upload = Upload(filename: string, contentType: Option<string>, data: seq<int>)

  datatype Value = Text(text: string) | File(upload: Upload)

  datatype Item = Item(key: string, value: Value)

  datatype Attachment = Attachment(filename: string, contentType: string, data: seq<int>)

  /** The three limits of the route, as configured. */
  datatype Settings = Settings(maxBodyBytes: int, maxAttachmentBytes: int, maxAttachments: int)

  datatype FormError =
    | UnsupportedField
    | HeaderNotText
    | UnknownField
    | NotText
    | NotFile
    | UploadTooLarge
    | BodyTooLarge
    | TooManyFiles
    | NotOneFrom
    | NoSubject
    | NoText

  datatype Form = Form(
    from: seq<string>,
    to: seq<string>,
    cc: seq<string>,
    bcc: seq<string>,
    subject: Option<string>,
    text: Option<string>,
    html: Option<string>,
    amp: Option<string>,
    headers: seq<(string, string)>,
    attachments: seq<Attachment>,
    inlines: seq<Attachment>,
    total: nat)

  const EMPTY: Form := Form([], [], [], [], None, None, None, None, [], [], [], 0)

  const KNOWN_FIELDS: set<string> := {
    "from", "to", "cc", "bcc", "subject", "text", "html", "amp-html", "attachment", "inline"}

  predicate IsUnsupported(key: string) {
    "v:" <= key || "o:" <= key || "t:" <= key || key == "recipient-variables" || key == "template"
  }

  predicate IsHeader(key: string) {
    "h:" <= key
  }

  /** What a key means to the route. */
  datatype Kind =
    | Unsupported | Header
    | From | To | Cc | Bcc | Subject
    | TextBody | HtmlBody | AmpBody
    | AttachmentFile | InlineFile
    | Unknown

  function KnownKind(key: string): Kind {
    if key == "from" then From
    else if key == "to" then To
    else if key == "cc" then Cc
    else if key == "bcc" then Bcc
    else if key == "subject" then Subject
    else if key == "text" then TextBody
    else if key == "html" then HtmlBody
    else if key == "amp-html" then AmpBody
    else if key == "attachment" then AttachmentFile
    else if key == "inline" then InlineFile
    else Unknown
  }

  function KindOf(key: string): Kind {
    if IsUnsupported(key) then Unsupported else if IsHeader(key) then Header else KnownKind(key)
  }

  lemma KnownKinds(key: string)
    ensures key in KNOWN_FIELDS <==> KnownKind(key) != Unknown
    ensures KnownKind(key) != Unsupported && KnownKind(key) != Header
  {
  }

  /** A form item, with its key understood; the name is that of a header. */
  datatype Field = Field(kind: Kind, name: string, value: Value)

  function FieldOf(item: Item): Field {
    Field(KindOf(item.key), if IsHeader(item.key) then item.key[2..] else "", item.value)
  }

  /** The entry of this name gets the text, at its place; a new name goes to the end. */
  function Put(headers: seq<(string, string)>, name: string, text: string): seq<(string, string)> {
    if headers == [] then [(name, text)]
    else if headers[0].0 == name then [(name, text)] + headers[1..]
    else [headers[0]] + Put(headers[1..], name, text)
  }

  function ReadUpload(value: Value, settings: Settings): Result<Attachment, FormError> {
    if value.Text? then Err(NotFile)
    else
      var u := value.upload;
      if |u.data| > settings.maxAttachmentBytes then Err(UploadTooLarge)
      else
        Ok(Attachment(
          if u.filename == "" then "attachment" else u.filename,
          if u.contentType.None? || u.contentType.value == "" then "application/octet-stream" else u.contentType.value,
          u.data))
  }

  /** A body text counts towards the aggregate, also when it is overwritten later. */
  function AddBody(f: Form, kind: Kind, text: string, settings: Settings): Result<Form, FormError> {
    var total := f.total + Address.Utf8Bytes(text);
    if total > settings.maxBodyBytes then Err(BodyTooLarge)
    else if kind == TextBody then Ok(f.(total := total, text := Some(text)))
    else if kind == HtmlBody then Ok(f.(total := total, html := Some(text)))
    else Ok(f.(total := total, amp := Some(text)))
  }

  /** One text field: a list gets longer, a scalar is overwritten. */
  function AddText(f: Form, kind: Kind, text: string, settings: Settings): Result<Form, FormError> {
    match kind
    case From => Ok(f.(from := f.from + [text]))
    case To => Ok(f.(to := f.to + [text]))
    case Cc => Ok(f.(cc := f.cc + [text]))
    case Bcc => Ok(f.(bcc := f.bcc + [text]))
    case Subject => Ok(f.(subject := Some(text)))
    case _ => AddBody(f, kind, text, settings)
  }

  function AddFile(f: Form, kind: Kind, a: Attachment, settings: Settings): Result<Form, FormError> {
    var total := f.total + |a.data|;
    if total > settings.maxBodyBytes then Err(BodyTooLarge)
    else if |f.attachments| + |f.inlines| + 1 > settings.maxAttachments then Err(TooManyFiles)
    else if kind == AttachmentFile then Ok(f.(total := total, attachments := f.attachments + [a]))
    else Ok(f.(total := total, inlines := f.inlines + [a]))
  }

  function AddUpload(f: Form, kind: Kind, value: Value, settings: Settings): Result<Form, FormError> {
    var a :- ReadUpload(value, settings);
    AddFile(f, kind, a, settings)
  }

  function StepField(f: Form, field: Field, settings: Settings): Result<Form, FormError> {
    match field.kind
    case Unsupported => Err(UnsupportedField)
    case Header =>
      if field.value.File? then Err(HeaderNotText) else Ok(f.(headers := Put(f.headers, field.name, field.value.text)))
    case Unknown => Err(UnknownField)
    case AttachmentFile => AddUpload(f, AttachmentFile, field.value, settings)
    case InlineFile => AddUpload(f, InlineFile, field.value, settings)
    case kind => if field.value.File? then Err(NotText) else AddText(f, kind, field.value.text, settings)
  }

  function Step(f: Form, item: Item, settings: Settings): Result<Form, FormError> {
    StepField(f, FieldOf(item), settings)
  }

  /** The items in order; the first error wins. */
  function Fold(items: seq<Item>, settings: Settings): Result<Form, FormError> {
    if items == [] then Ok(EMPTY)
    else
      var f :- Fold(items[..|items| - 1], settings);
      Step(f, items[|items| - 1], settings)
  }

  /** What every form must have. */
  function Complete(f: Form): Result<Form, FormError> {
    if |f.from| != 1 then Err(NotOneFrom)
    else if f.subject.None? then Err(NoSubject)
    else if f.text.None? && f.html.None? then Err(NoText)
    else Ok(f)
  }

  function Parse(items: seq<Item>, settings: Settings): Result<Form, FormError> {
    var f :- Fold(items, settings);
    Complete(f)
  }

  /** An error does not depend on the items behind it. */
  lemma {:induction false} ErrorStays(items: seq<Item>, k: nat, settings: Settings)
    requires k <= |items| && Fold(items[..k], settings).Err?
    ensures Fold(items, settings) == Fold(items[..k], settings)
  {
    if k < |items| {
      assert items[..|items| - 1][..k] == items[..k];
      ErrorStays(items[..|items| - 1], k, settings);
    } else {
      assert items[..k] == items;
    }
  }

  lemma FoldNext(items: seq<Item>, i: nat, settings: Settings)
    requires i < |items| && Fold(items[..i], settings).Ok?
    ensures Fold(items[..i + 1], settings) == Step(Fold(items[..i], settings).value, items[i], settings)
  {
    assert items[..i + 1][..i] == items[..i];
  }

  /* ---- Over vectors ---- */

  lemma {:induction false} PutAt(headers: seq<(string, string)>, i: nat, name: string, text: string)
    requires i <= |headers| && forall j :: 0 <= j < i ==> headers[j].0 != name
    requires i < |headers| ==> headers[i].0 == name
    ensures Put(headers, name, text) == if i < |headers| then headers[i := (name, text)] else headers + [(name, text)]
  {
    if i == 0 {
      if headers != [] {
        assert [(name, text)] + headers[1..] == headers[0 := (name, text)];
      }
    } else {
      var rest := headers[1..];
      assert forall j :: 0 <= j < i - 1 ==> rest[j].0 == headers[j + 1].0;
      PutAt(rest, i - 1, name, text);
      BehindFirst(headers, i, (name, text));
    }
  }

  /** Changing or appending an entry behind the first one. */
  lemma BehindFirst(headers: seq<(string, string)>, i: nat, entry: (string, string))
    requires 0 < i <= |headers|
    ensures [headers[0]] + (headers[1..] + [entry]) == headers + [entry]
    ensures i < |headers| ==> [headers[0]] + headers[1..][i - 1 := entry] == headers[i := entry]
  {
  }

  method PutHeader(headers: seq<(string, string)>, name: string, text: string) returns (r: seq<(string, string)>)
    ensures r == Put(headers, name, text)
  {
    for i := 0 to |headers|
      invariant forall j :: 0 <= j < i ==> headers[j].0 != name
    {
      if headers[i].0 == name {
        PutAt(headers, i, name, text);
        return headers[i := (name, text)];
      }
    }
    PutAt(headers, |headers|, name, text);
    return headers + [(name, text)];
  }

  method ReadFile(parsed: Form, key: string, value: Value, settings: Settings) returns (r: Result<Form, FormError>)
    requires key == "attachment" || key == "inline"
    ensures r == AddUpload(parsed, if key == "attachment" then AttachmentFile else InlineFile, value, settings)
  {
    var attachment := ReadUpload(value, settings);
    if attachment.Err? {
      return Err(attachment.error);
    }
    var total := parsed.total + |attachment.value.data|;
    if total > settings.maxBodyBytes {
      return Err(BodyTooLarge);
    }
    var attachments, inlines := parsed.attachments, parsed.inlines;
    if key == "attachment" {
      attachments := attachments + [attachment.value];
    } else {
      inlines := inlines + [attachment.value];
    }
    if |attachments| + |inlines| > settings.maxAttachments {
      return Err(TooManyFiles);
    }
    return Ok(parsed.(total := total, attachments := attachments, inlines := inlines));
  }

  method ReadText(parsed: Form, key: string, text: string, settings: Settings) returns (r: Result<Form, FormError>)
    requires KnownKind(key) !in {Unknown, AttachmentFile, InlineFile}
    ensures r == AddText(parsed, KnownKind(key), text, settings)
  {
    if key == "from" {
      return Ok(parsed.(from := parsed.from + [text]));
    } else if key == "to" {
      return Ok(parsed.(to := parsed.to + [text]));
    } else if key == "cc" {
      return Ok(parsed.(cc := parsed.cc + [text]));
    } else if key == "bcc" {
      return Ok(parsed.(bcc := parsed.bcc + [text]));
    } else if key == "subject" {
      return Ok(parsed.(subject := Some(text)));
    }
    var total := parsed.total + Address.Utf8Bytes(text);
    if total > settings.maxBodyBytes {
      return Err(BodyTooLarge);
    }
    if key == "text" {
      return Ok(parsed.(total := total, text := Some(text)));
    } else if key == "html" {
      return Ok(parsed.(total := total, html := Some(text)));
    } else {
      return Ok(parsed.(total := total, amp := Some(text)));
    }
  }

  method ReadItem(parsed: Form, item: Item, settings: Settings) returns (r: Result<Form, FormError>)
    ensures r == Step(parsed, item, settings)
  {
    var key, value := item.key, item.value;
    if IsUnsupported(key) {
      return Err(UnsupportedField);
    }
    if "h:" <= key {
      if value.File? {
        return Err(HeaderNotText);
      }
      var headers := PutHeader(parsed.headers, key[2..], value.text);
      return Ok(parsed.(headers := headers));
    }
    KnownKinds(key);
    if key !in KNOWN_FIELDS {
      return Err(UnknownField);
    }
    if key == "attachment" || key == "inline" {
      r := ReadFile(parsed, key, value, settings);
    } else if value.File? {
      return Err(NotText);
    } else {
      r := ReadText(parsed, key, value.text, settings);
    }
  }

  method ParseForm(items: seq<Item>, settings: Settings) returns (r: Result<Form, FormError>)
    ensures r == Parse(items, settings)
  {
    var parsed := EMPTY;
    for i := 0 to |items|
      invariant Fold(items[..i], settings) == Ok(parsed)
    {
      FoldNext(items, i, settings);
      var next := ReadItem(parsed, items[i], settings);
      if next.Err? {
        ErrorStays(items, i + 1, settings);
        return Err(next.error);
      }
      parsed := next.value;
    }
    assert items[..|items|] == items;
    return Complete(parsed);
  }
}
