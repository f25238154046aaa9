/**
 The route's own reading of the form: lists and scalars updated in place, and an insertion-ordered
 dictionary of header fields. It computes what module MessageForm specifies.
 */
module RouteForm {
  import opened Wrappers
  import opened MessageForm
  import Address

  /** A dictionary that keeps its keys in the order in which they were first set. */
  class OrderedDict {
    var keys: seq<string>
    var values: map<string, string>

    predicate Valid()
      reads this
    {
      && (forall i, j :: 0 <= i < j < |keys| ==> keys[i] != keys[j])
      && (forall i :: 0 <= i < |keys| ==> keys[i] in values)
      && (forall k :: k in values ==> k in keys)
    }

    function Entries(): (r: seq<(string, string)>)
      requires Valid()
      reads this
      ensures |r| == |keys| && forall i :: 0 <= i < |r| ==> r[i] == (keys[i], values[keys[i]])
    {
      seq(|keys|, i requires 0 <= i < |keys| && keys[i] in values reads this => (keys[i], values[keys[i]]))
    }

    constructor ()
      ensures Valid() && Entries() == []
    {
      keys, values := [], map[];
    }

    /** `d[name] = text`. */
    method Set(name: string, text: string)
      requires Valid()
      modifies this
      ensures Valid() && Entries() == Put(old(Entries()), name, text)
    {
      if name in values {
        Update(name, text);
      } else {
        Insert(name, text);
      }
    }

    method Update(name: string, text: string)
      requires Valid() && name in values
      modifies this`values
      ensures Valid() && Entries() == Put(old(Entries()), name, text)
    {
      ghost var before := Entries();
      ghost var i :| 0 <= i < |keys| && keys[i] == name;
      ValueChanged(before, keys, values, i, text);
      values := values[name := text];
      assert Entries() == Put(before, name, text);
    }

    method Insert(name: string, text: string)
      requires Valid() && name !in values
      modifies this
      ensures Valid() && Entries() == Put(old(Entries()), name, text)
    {
      ghost var before := Entries();
      PutAt(before, |before|, name, text);
      keys := keys + [name];
      values := values[name := text];
      assert Entries() == before + [(name, text)];
    }
  }

  function BodyKind(key: string): Kind {
    if key == "text" then TextBody else if key == "html" then HtmlBody else AmpBody
  }

  lemma BodyKindIs(key: string)
    requires key == "text" || key == "html" || key == "amp-html"
    ensures KnownKind(key) == BodyKind(key)
  {
  }

  /** The entries after one value has changed. */
  lemma ValueChanged(
    before: seq<(string, string)>, keys: seq<string>, values: map<string, string>, i: nat, text: string)
    requires forall i, j :: 0 <= i < j < |keys| ==> keys[i] != keys[j]
    requires |before| == |keys| && i < |keys|
    requires forall j :: 0 <= j < |keys| ==> keys[j] in values && before[j] == (keys[j], values[keys[j]])
    ensures var after := Put(before, keys[i], text);
      && |after| == |keys|
      && forall j :: 0 <= j < |keys| ==> after[j] == (keys[j], values[keys[i] := text][keys[j]])
  {
    PutAt(before, i, keys[i], text);
  }

  class FormReader {
    const settings: Settings
    var fromAddresses: seq<string>
    var to: seq<string>
    var cc: seq<string>
    var bcc: seq<string>
    var subject: Option<string>
    var text: Option<string>
    var html: Option<string>
    var ampHtml: Option<string>
    const customHeaders: OrderedDict
    var attachments: seq<Attachment>
    var inlines: seq<Attachment>
    var totalBodyBytes: nat

    predicate Valid()
      reads this, customHeaders
    {
      customHeaders.Valid()
    }

    /** The form as read so far. */
    function Current(): Form
      requires Valid()
      reads this, customHeaders
    {
      Form(fromAddresses, to, cc, bcc, subject, text, html, ampHtml, customHeaders.Entries(),
           attachments, inlines, totalBodyBytes)
    }

    constructor (settings: Settings)
      ensures Valid() && Current() == EMPTY && this.settings == settings && fresh(customHeaders)
    {
      this.settings := settings;
      fromAddresses, to, cc, bcc := [], [], [], [];
      subject, text, html, ampHtml := None, None, None, None;
      attachments, inlines, totalBodyBytes := [], [], 0;
      customHeaders := new OrderedDict();
    }

    /** Counts a text; whether the total is still within the limit. */
    method TrackText(content: string) returns (ok: bool)
      modifies this`totalBodyBytes
      ensures totalBodyBytes == old(totalBodyBytes) + Address.Utf8Bytes(content)
      ensures ok == (totalBodyBytes <= settings.maxBodyBytes)
    {
      totalBodyBytes := totalBodyBytes + Address.Utf8Bytes(content);
      return totalBodyBytes <= settings.maxBodyBytes;
    }

    method HandleBody(key: string, content: string) returns (e: Option<FormError>)
      requires Valid() && (key == "text" || key == "html" || key == "amp-html")
      modifies this`totalBodyBytes, this`text, this`html, this`ampHtml
      ensures Valid()
      ensures match AddBody(old(Current()), BodyKind(key), content, settings)
        case Err(error) => e == Some(error)
        case Ok(f) => e == None && Current() == f
    {
      var ok := TrackText(content);
      if !ok {
        return Some(BodyTooLarge);
      }
      if key == "text" {
        text := Some(content);
      } else if key == "html" {
        html := Some(content);
      } else {
        ampHtml := Some(content);
      }
      return None;
    }

    method HandleText(key: string, content: string) returns (e: Option<FormError>)
      requires Valid() && KnownKind(key) !in {Unknown, AttachmentFile, InlineFile}
      modifies this
      ensures Valid()
      ensures match AddText(old(Current()), KnownKind(key), content, settings)
        case Err(error) => e == Some(error)
        case Ok(f) => e == None && Current() == f
    {
      if key == "from" {
        fromAddresses := fromAddresses + [content];
      } else if key == "to" {
        to := to + [content];
      } else if key == "cc" {
        cc := cc + [content];
      } else if key == "bcc" {
        bcc := bcc + [content];
      } else if key == "subject" {
        subject := Some(content);
      } else {
        BodyKindIs(key);
        e := HandleBody(key, content);
        return;
      }
      return None;
    }

    method HandleFile(key: string, value: Value) returns (e: Option<FormError>)
      requires Valid() && (key == "attachment" || key == "inline")
      modifies this
      ensures Valid()
      ensures match AddUpload(
        old(Current()), if key == "attachment" then AttachmentFile else InlineFile, value, settings)
        case Err(error) => e == Some(error)
        case Ok(f) => e == None && Current() == f
    {
      var read := ReadUpload(value, settings);
      if read.Err? {
        return Some(read.error);
      }
      var att := read.value;
      totalBodyBytes := totalBodyBytes + |att.data|;
      if totalBodyBytes > settings.maxBodyBytes {
        return Some(BodyTooLarge);
      }
      if key == "attachment" {
        attachments := attachments + [att];
      } else {
        inlines := inlines + [att];
      }
      if |attachments| + |inlines| > settings.maxAttachments {
        return Some(TooManyFiles);
      }
      return None;
    }

    method Handle(item: Item) returns (e: Option<FormError>)
      requires Valid()
      modifies this, customHeaders
      ensures Valid()
      ensures match Step(old(Current()), item, settings)
        case Err(error) => e == Some(error)
        case Ok(f) => e == None && Current() == f
    {
      var key, value := item.key, item.value;
      if IsUnsupported(key) {
        return Some(UnsupportedField);
      }
      if "h:" <= key {
        if value.File? {
          return Some(HeaderNotText);
        }
        customHeaders.Set(key[2..], value.text);
        return None;
      }
      e := HandleKnown(key, value);
    }

    method HandleKnown(key: string, value: Value) returns (e: Option<FormError>)
      requires Valid()
      modifies this
      ensures Valid()
      ensures match StepField(old(Current()), Field(KnownKind(key), "", value), settings)
        case Err(error) => e == Some(error)
        case Ok(f) => e == None && Current() == f
    {
      KnownKinds(key);
      if key !in KNOWN_FIELDS {
        return Some(UnknownField);
      }
      if key == "attachment" || key == "inline" {
        e := HandleFile(key, value);
      } else if value.File? {
        return Some(NotText);
      } else {
        e := HandleText(key, value.text);
      }
    }
  }

  method ParseRouteForm(items: seq<Item>, settings: Settings) returns (r: Result<Form, FormError>)
    ensures r == Parse(items, settings)
  {
    var reader := new FormReader(settings);
    for i := 0 to |items|
      invariant reader.Valid() && fresh(reader) && fresh(reader.customHeaders) && reader.settings == settings
      invariant Fold(items[..i], settings) == Ok(reader.Current())
    {
      FoldNext(items, i, settings);
      var e := reader.Handle(items[i]);
      if e.Some? {
        ErrorStays(items, i + 1, settings);
        return Err(e.value);
      }
    }
    assert items[..|items|] == items;
    if |reader.fromAddresses| != 1 {
      return Err(NotOneFrom);
    }
    if reader.subject.None? {
      return Err(NoSubject);
    }
    if reader.text.None? && reader.html.None? {
      return Err(NoText);
    }
    return Ok(reader.Current());
  }
}
