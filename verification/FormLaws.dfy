/**
 What an accepted form holds, field by field, and exactly which forms are accepted.
 */
module FormLaws {
  import opened Wrappers
  import opened MessageForm
  import Address

  function FieldsOf(items: seq<Item>): (r: seq<Field>)
    ensures |r| == |items| && forall i :: 0 <= i < |items| ==> r[i] == FieldOf(items[i])
  {
    seq(|items|, i requires 0 <= i < |items| => FieldOf(items[i]))
  }

  function FoldFields(fields: seq<Field>, settings: Settings): Result<Form, FormError>
    decreases |fields|
  {
    if fields == [] then Ok(EMPTY)
    else
      var f :- FoldFields(Front(fields), settings);
      StepField(f, Last(fields), settings)
  }

  lemma {:induction false} FoldIsOfFields(items: seq<Item>, settings: Settings)
    ensures Fold(items, settings) == FoldFields(FieldsOf(items), settings)
    decreases |items|
  {
    if items != [] {
      FoldIsOfFields(items[..|items| - 1], settings);
      assert FieldsOf(items[..|items| - 1]) == Front(FieldsOf(items));
    }
  }

  /* ---- Each field on its own ---- */

  function Front(fields: seq<Field>): seq<Field>
    requires fields != []
  {
    fields[..|fields| - 1]
  }

  function Last(fields: seq<Field>): Field
    requires fields != []
  {
    fields[|fields| - 1]
  }

  /** The texts of a field in form order. */
  function TextsOf(fields: seq<Field>, kind: Kind): seq<string>
    decreases |fields|
  {
    if fields == [] then []
    else if Last(fields).kind == kind && Last(fields).value.Text? then
      TextsOf(Front(fields), kind) + [Last(fields).value.text]
    else TextsOf(Front(fields), kind)
  }

  /** The last text of a field. */
  function LastText(fields: seq<Field>, kind: Kind): Option<string>
    decreases |fields|
  {
    if fields == [] then None
    else if Last(fields).kind == kind && Last(fields).value.Text? then Some(Last(fields).value.text)
    else LastText(Front(fields), kind)
  }

  function AttachmentOf(u: Upload): Attachment {
    Attachment(
      if u.filename == "" then "attachment" else u.filename,
      if u.contentType.None? || u.contentType.value == "" then "application/octet-stream" else u.contentType.value,
      u.data)
  }

  /** The uploads of a field in form order. */
  function FilesOf(fields: seq<Field>, kind: Kind): seq<Attachment>
    decreases |fields|
  {
    if fields == [] then []
    else if Last(fields).kind == kind && Last(fields).value.File? then
      FilesOf(Front(fields), kind) + [AttachmentOf(Last(fields).value.upload)]
    else FilesOf(Front(fields), kind)
  }

  predicate IsBody(kind: Kind) {
    kind == TextBody || kind == HtmlBody || kind == AmpBody
  }

  predicate IsFile(kind: Kind) {
    kind == AttachmentFile || kind == InlineFile
  }

  /** The bytes an item adds to the aggregate, also when it is overwritten later. */
  function Weight(field: Field): nat {
    if IsFile(field.kind) && field.value.File? then |field.value.upload.data|
    else if IsBody(field.kind) && field.value.Text? then Address.Utf8Bytes(field.value.text)
    else 0
  }

  function TotalWeight(fields: seq<Field>): nat
    decreases |fields|
  {
    if fields == [] then 0 else TotalWeight(Front(fields)) + Weight(Last(fields))
  }

  function FileCount(fields: seq<Field>): nat {
    |FilesOf(fields, AttachmentFile)| + |FilesOf(fields, InlineFile)|
  }

  /** The fields of a form after these items. */
  ghost predicate HoldsLists(f: Form, fields: seq<Field>) {
    && f.from == TextsOf(fields, From) && f.to == TextsOf(fields, To)
    && f.cc == TextsOf(fields, Cc) && f.bcc == TextsOf(fields, Bcc)
  }

  ghost predicate HoldsTexts(f: Form, fields: seq<Field>) {
    && f.subject == LastText(fields, Subject) && f.text == LastText(fields, TextBody)
    && f.html == LastText(fields, HtmlBody) && f.amp == LastText(fields, AmpBody)
  }

  ghost predicate HoldsFiles(f: Form, fields: seq<Field>) {
    && f.attachments == FilesOf(fields, AttachmentFile) && f.inlines == FilesOf(fields, InlineFile)
    && f.total == TotalWeight(fields)
  }

  lemma StepHoldsLists(f: Form, fields: seq<Field>, settings: Settings)
    requires fields != [] && HoldsLists(f, Front(fields)) && StepField(f, Last(fields), settings).Ok?
    ensures HoldsLists(StepField(f, Last(fields), settings).value, fields)
  {
  }

  function ScalarOf(f: Form, kind: Kind): Option<string> {
    match kind
    case Subject => f.subject
    case TextBody => f.text
    case HtmlBody => f.html
    case _ => f.amp
  }

  lemma StepHoldsText(f: Form, fields: seq<Field>, kind: Kind, settings: Settings)
    requires kind in {Subject, TextBody, HtmlBody, AmpBody}
    requires fields != [] && ScalarOf(f, kind) == LastText(Front(fields), kind)
      && StepField(f, Last(fields), settings).Ok?
    ensures ScalarOf(StepField(f, Last(fields), settings).value, kind) == LastText(fields, kind)
  {
    StepScalar(f, Last(fields), kind, settings);
  }

  lemma StepScalar(f: Form, field: Field, kind: Kind, settings: Settings)
    requires kind in {Subject, TextBody, HtmlBody, AmpBody} && StepField(f, field, settings).Ok?
    ensures field.kind == kind ==> field.value.Text?
    ensures ScalarOf(StepField(f, field, settings).value, kind) ==
      if field.kind == kind then Some(field.value.text) else ScalarOf(f, kind)
  {
  }

  lemma StepHoldsTexts(f: Form, fields: seq<Field>, settings: Settings)
    requires fields != [] && HoldsTexts(f, Front(fields)) && StepField(f, Last(fields), settings).Ok?
    ensures HoldsTexts(StepField(f, Last(fields), settings).value, fields)
  {
    StepHoldsText(f, fields, Subject, settings);
    StepHoldsText(f, fields, TextBody, settings);
    StepHoldsText(f, fields, HtmlBody, settings);
    StepHoldsText(f, fields, AmpBody, settings);
  }

  lemma StepHoldsFiles(f: Form, fields: seq<Field>, settings: Settings)
    requires fields != [] && HoldsFiles(f, Front(fields)) && StepField(f, Last(fields), settings).Ok?
    ensures HoldsFiles(StepField(f, Last(fields), settings).value, fields)
  {
  }

  lemma {:induction false} FoldHolds(fields: seq<Field>, settings: Settings)
    requires FoldFields(fields, settings).Ok?
    ensures var f := FoldFields(fields, settings).value;
      HoldsLists(f, fields) && HoldsTexts(f, fields) && HoldsFiles(f, fields)
    decreases |fields|
  {
    if fields != [] {
      FoldHolds(Front(fields), settings);
      var f := FoldFields(Front(fields), settings).value;
      StepHoldsLists(f, fields, settings);
      StepHoldsTexts(f, fields, settings);
      StepHoldsFiles(f, fields, settings);
    }
  }

  /* ---- Which forms are accepted ---- */

  predicate IsCounted(kind: Kind) {
    IsBody(kind) || IsFile(kind)
  }

  /** An item that no form is refused for on its own. */
  predicate IsGood(field: Field, settings: Settings) {
    && field.kind != Unsupported && field.kind != Unknown
    && if IsFile(field.kind)
       then field.value.File? && |field.value.upload.data| <= settings.maxAttachmentBytes
       else field.value.Text?
  }

  predicate AllGood(fields: seq<Field>, settings: Settings) {
    forall i :: 0 <= i < |fields| ==> IsGood(fields[i], settings)
  }

  predicate AnyCounted(fields: seq<Field>) {
    exists i :: 0 <= i < |fields| && IsCounted(fields[i].kind)
  }

  /** Within the limits, which are looked at only when something is counted. */
  predicate IsWithinLimits(fields: seq<Field>, settings: Settings) {
    && (AnyCounted(fields) ==> TotalWeight(fields) <= settings.maxBodyBytes)
    && (FileCount(fields) > 0 ==> FileCount(fields) <= settings.maxAttachments)
  }

  lemma StepOk(f: Form, fields: seq<Field>, settings: Settings)
    requires fields != [] && HoldsFiles(f, Front(fields))
    ensures var last := Last(fields);
      StepField(f, last, settings).Ok? <==>
        && IsGood(last, settings)
        && (IsCounted(last.kind) ==> TotalWeight(fields) <= settings.maxBodyBytes)
        && (IsFile(last.kind) ==> FileCount(fields) <= settings.maxAttachments)
  {
  }

  lemma LimitsStep(fields: seq<Field>, settings: Settings)
    requires fields != [] && IsGood(Last(fields), settings)
    ensures IsWithinLimits(fields, settings) <==>
      && IsWithinLimits(Front(fields), settings)
      && (IsCounted(Last(fields).kind) ==> TotalWeight(fields) <= settings.maxBodyBytes)
      && (IsFile(Last(fields).kind) ==> FileCount(fields) <= settings.maxAttachments)
  {
    assert AnyCounted(fields) <==> AnyCounted(Front(fields)) || IsCounted(Last(fields).kind) by {
      if AnyCounted(Front(fields)) {
        var i :| 0 <= i < |Front(fields)| && IsCounted(Front(fields)[i].kind);
        assert IsCounted(fields[i].kind);
      }
      if AnyCounted(fields) {
        var i :| 0 <= i < |fields| && IsCounted(fields[i].kind);
        assert i < |fields| - 1 ==> Front(fields)[i] == fields[i];
      }
      assert fields[|fields| - 1] == Last(fields);
    }
  }

  lemma AllGoodStep(fields: seq<Field>, settings: Settings)
    requires fields != []
    ensures AllGood(fields, settings) <==> AllGood(Front(fields), settings) && IsGood(Last(fields), settings)
  {
    if AllGood(Front(fields), settings) && IsGood(Last(fields), settings) {
      forall i | 0 <= i < |fields|
        ensures IsGood(fields[i], settings)
      {
        assert i < |fields| - 1 ==> IsGood(Front(fields)[i], settings);
      }
    }
  }

  /** The items are taken exactly if each is good and all together are within the limits. */
  lemma {:induction false} FoldOk(fields: seq<Field>, settings: Settings)
    ensures FoldFields(fields, settings).Ok? <==> AllGood(fields, settings) && IsWithinLimits(fields, settings)
    decreases |fields|
  {
    if fields != [] {
      FoldOk(Front(fields), settings);
      AllGoodStep(fields, settings);
      if FoldFields(Front(fields), settings).Ok? {
        FoldHolds(Front(fields), settings);
        StepOk(FoldFields(Front(fields), settings).value, fields, settings);
      }
      if IsGood(Last(fields), settings) {
        LimitsStep(fields, settings);
      }
    }
  }

  /* ---- Header fields ---- */

  predicate IsHeaderOf(field: Field, name: string) {
    field.kind == Header && field.name == name && field.value.Text?
  }

  /** The index of the first header of this name, or the number of items. */
  function FirstHeader(fields: seq<Field>, name: string): (r: nat)
    ensures r <= |fields|
    decreases |fields|
  {
    if fields == [] then 0
    else
      var first := FirstHeader(Front(fields), name);
      if first < |fields| - 1 || IsHeaderOf(Last(fields), name) then first else |fields|
  }

  /** The text of the last header of this name. */
  function LastHeader(fields: seq<Field>, name: string): Option<string>
    decreases |fields|
  {
    if fields == [] then None
    else if IsHeaderOf(Last(fields), name) then Some(Last(fields).value.text)
    else LastHeader(Front(fields), name)
  }

  /** One entry for each header name, in the order of first occurrence, with its last text. */
  ghost predicate AreHeaders(headers: seq<(string, string)>, fields: seq<Field>) {
    && (forall i :: 0 <= i < |headers| ==> LastHeader(fields, headers[i].0) == Some(headers[i].1))
    && (forall i, j :: 0 <= i < j < |headers| ==> FirstHeader(fields, headers[i].0) < FirstHeader(fields, headers[j].0))
    && (forall name :: LastHeader(fields, name).Some? ==> exists i :: 0 <= i < |headers| && headers[i].0 == name)
  }

  lemma {:induction false} HeaderFound(fields: seq<Field>, name: string)
    ensures LastHeader(fields, name).Some? <==> FirstHeader(fields, name) < |fields|
    decreases |fields|
  {
    if fields != [] {
      HeaderFound(Front(fields), name);
    }
  }

  lemma NotAHeader(headers: seq<(string, string)>, fields: seq<Field>)
    requires fields != [] && Last(fields).kind != Header && AreHeaders(headers, Front(fields))
    ensures AreHeaders(headers, fields)
  {
    forall i | 0 <= i < |headers|
      ensures LastHeader(fields, headers[i].0) == Some(headers[i].1)
      ensures FirstHeader(fields, headers[i].0) == FirstHeader(Front(fields), headers[i].0)
    {
      HeaderFound(Front(fields), headers[i].0);
    }
    forall name | LastHeader(fields, name).Some?
      ensures exists i :: 0 <= i < |headers| && headers[i].0 == name
    {
      assert LastHeader(Front(fields), name).Some?;
    }
  }

  lemma OldHeader(headers: seq<(string, string)>, fields: seq<Field>, i: nat)
    requires fields != [] && i < |headers| && IsHeaderOf(Last(fields), headers[i].0)
      && AreHeaders(headers, Front(fields))
    ensures AreHeaders(headers[i := (headers[i].0, Last(fields).value.text)], fields)
  {
    var updated := headers[i := (headers[i].0, Last(fields).value.text)];
    forall j | 0 <= j < |headers|
      ensures j != i ==> headers[j].0 != headers[i].0
      ensures FirstHeader(fields, headers[j].0) == FirstHeader(Front(fields), headers[j].0)
      ensures updated[j].0 == headers[j].0
    {
      HeaderFound(Front(fields), headers[j].0);
    }
    forall name | LastHeader(fields, name).Some?
      ensures exists k :: 0 <= k < |updated| && updated[k].0 == name
    {
      if name == headers[i].0 {
        assert updated[i].0 == name;
      } else {
        assert LastHeader(Front(fields), name).Some?;
        var k :| 0 <= k < |headers| && headers[k].0 == name;
        assert updated[k].0 == name;
      }
    }
  }

  lemma NewHeader(headers: seq<(string, string)>, fields: seq<Field>, name: string)
    requires fields != [] && IsHeaderOf(Last(fields), name) && AreHeaders(headers, Front(fields))
    requires LastHeader(Front(fields), name).None?
    ensures AreHeaders(headers + [(name, Last(fields).value.text)], fields)
    ensures forall j :: 0 <= j < |headers| ==> headers[j].0 != name
  {
    var updated := headers + [(name, Last(fields).value.text)];
    HeaderFound(Front(fields), name);
    forall j | 0 <= j < |headers|
      ensures headers[j].0 != name && updated[j] == headers[j]
      ensures FirstHeader(fields, headers[j].0) == FirstHeader(Front(fields), headers[j].0) < |fields| - 1
    {
      HeaderFound(Front(fields), headers[j].0);
    }
    forall other | LastHeader(fields, other).Some?
      ensures exists k :: 0 <= k < |updated| && updated[k].0 == other
    {
      if other == name {
        assert updated[|headers|].0 == name;
      } else {
        assert LastHeader(Front(fields), other).Some?;
        var k :| 0 <= k < |headers| && headers[k].0 == other;
        assert updated[k].0 == other;
      }
    }
  }

  lemma HeaderStep(headers: seq<(string, string)>, fields: seq<Field>, name: string)
    requires fields != [] && IsHeaderOf(Last(fields), name) && AreHeaders(headers, Front(fields))
    ensures AreHeaders(Put(headers, name, Last(fields).value.text), fields)
  {
    var text := Last(fields).value.text;
    if LastHeader(Front(fields), name).Some? {
      var i :| 0 <= i < |headers| && headers[i].0 == name;
      forall j | 0 <= j < i
        ensures headers[j].0 != name
      {
        assert FirstHeader(Front(fields), headers[j].0) < FirstHeader(Front(fields), headers[i].0);
      }
      PutAt(headers, i, name, text);
      OldHeader(headers, fields, i);
    } else {
      NewHeader(headers, fields, name);
      PutAt(headers, |headers|, name, text);
    }
  }

  lemma StepHeaders(f: Form, fields: seq<Field>, settings: Settings)
    requires fields != [] && StepField(f, Last(fields), settings).Ok?
    ensures StepField(f, Last(fields), settings).value.headers ==
      if Last(fields).kind == Header then Put(f.headers, Last(fields).name, Last(fields).value.text) else f.headers
    ensures Last(fields).kind == Header ==> IsHeaderOf(Last(fields), Last(fields).name)
  {
  }

  lemma {:induction false} FoldHeaders(fields: seq<Field>, settings: Settings)
    requires FoldFields(fields, settings).Ok?
    ensures AreHeaders(FoldFields(fields, settings).value.headers, fields)
    decreases |fields|
  {
    if fields != [] {
      var f := FoldFields(Front(fields), settings).value;
      FoldHeaders(Front(fields), settings);
      StepHeaders(f, fields, settings);
      if Last(fields).kind == Header {
        HeaderStep(f.headers, fields, Last(fields).name);
      } else {
        NotAHeader(f.headers, fields);
      }
    }
  }

  lemma {:induction false} BodyIsCounted(fields: seq<Field>, kind: Kind)
    requires IsBody(kind)
    ensures LastText(fields, kind).Some? ==> AnyCounted(fields)
    decreases |fields|
  {
    if fields != [] {
      BodyIsCounted(Front(fields), kind);
      assert IsCounted(Last(fields).kind) ==> AnyCounted(fields);
      if i :| 0 <= i < |Front(fields)| && IsCounted(Front(fields)[i].kind) {
        assert IsCounted(fields[i].kind);
      }
    }
  }

  /* ---- The main results ---- */

  /** What every accepted form has, and the limits it keeps. */
  ghost predicate IsComplete(f: Form, fields: seq<Field>, settings: Settings) {
    && |f.from| == 1 && f.subject.Some? && (f.text.Some? || f.html.Some?)
    && f.total <= settings.maxBodyBytes
    && (FileCount(fields) > 0 ==> |f.attachments| + |f.inlines| <= settings.maxAttachments)
  }

  ghost predicate IsParsed(f: Form, fields: seq<Field>, settings: Settings) {
    && HoldsLists(f, fields) && HoldsTexts(f, fields) && HoldsFiles(f, fields) && AreHeaders(f.headers, fields)
    && IsComplete(f, fields, settings)
  }

  lemma FoldedForm(fields: seq<Field>, settings: Settings, f: Form)
    requires FoldFields(fields, settings) == Ok(f) && Complete(f) == Ok(f)
    ensures IsParsed(f, fields, settings)
  {
    FoldHolds(fields, settings);
    FoldHeaders(fields, settings);
    FoldOk(fields, settings);
    BodyIsCounted(fields, TextBody);
    BodyIsCounted(fields, HtmlBody);
  }

  /**
   An accepted form: lists in form order, scalars with their last text, one header for each name in
   the order of first occurrence with its last text, and the total of everything counted in the limit.
   */
  lemma ParsedForm(items: seq<Item>, settings: Settings)
    requires Parse(items, settings).Ok?
    ensures IsParsed(Parse(items, settings).value, FieldsOf(items), settings)
  {
    FoldIsOfFields(items, settings);
    FoldedForm(FieldsOf(items), settings, Parse(items, settings).value);
  }

  lemma FoldedForms(fields: seq<Field>, settings: Settings)
    ensures (FoldFields(fields, settings).Ok? && Complete(FoldFields(fields, settings).value).Ok?) <==>
      && AllGood(fields, settings) && IsWithinLimits(fields, settings)
      && |TextsOf(fields, From)| == 1 && LastText(fields, Subject).Some?
      && (LastText(fields, TextBody).Some? || LastText(fields, HtmlBody).Some?)
  {
    FoldOk(fields, settings);
    if FoldFields(fields, settings).Ok? {
      FoldHolds(fields, settings);
    }
  }

  /** Exactly these forms are accepted. */
  lemma AcceptedForms(items: seq<Item>, settings: Settings)
    ensures var fields := FieldsOf(items);
      Parse(items, settings).Ok? <==>
        && AllGood(fields, settings) && IsWithinLimits(fields, settings)
        && |TextsOf(fields, From)| == 1 && LastText(fields, Subject).Some?
        && (LastText(fields, TextBody).Some? || LastText(fields, HtmlBody).Some?)
  {
    FoldIsOfFields(items, settings);
    FoldedForms(FieldsOf(items), settings);
  }
}
