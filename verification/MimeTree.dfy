/** The MIME tree of a message body: the tree of the message as it should be, and the one pass that builds it. */
module MimeTree {
  import opened Wrappers

  datatype Upload = Upload(filename: string, contentType: string, data: seq<int>)

  datatype Leaf =
    | PlainText(text: string)
    | Html(text: string)
    | AmpHtml(text: string)
    | File(upload: Upload, isInline: bool)

  datatype Subtype = Alternative | Related | Mixed

  datatype Tree = Part(leaf: Leaf) | Multi(subtype: Subtype, children: seq<Tree>)

  /** Whether an upload's filename may be written, as an inline part or as an attachment. */
  type UploadRule = (Upload, bool) -> bool

  datatype Body = Body(text: Option<string>, html: Option<string>, amp: Option<string>, inlines: seq<Upload>,
      attachments: seq<Upload>)

  function NonEmpty(text: Option<string>): Option<string> {
    if text == Some("") then None else text
  }

  /** The body as the builder sees it: an empty text is no text. */
  function Filtered(b: Body): Body {
    b.(text := NonEmpty(b.text), html := NonEmpty(b.html), amp := NonEmpty(b.amp))
  }

  /* ---- The tree as it should be ---- */

  function Files(uploads: seq<Upload>, isInline: bool): (r: seq<Tree>)
    ensures |r| == |uploads|
    ensures forall i :: 0 <= i < |r| ==> r[i] == Part(File(uploads[i], isInline))
  {
    seq(|uploads|, i requires 0 <= i < |uploads| => Part(File(uploads[i], isInline)))
  }

  function Optional(text: Option<string>, leaf: string -> Leaf): seq<Tree> {
    match text case None => [] case Some(s) => [Part(leaf(s))]
  }

  /** The html part, together with the inline files it refers to. */
  function HtmlPart(html: string, inlines: seq<Upload>): Tree {
    if inlines == [] then Part(Html(html)) else Multi(Related, [Part(Html(html))] + Files(inlines, true))
  }

  function Alternatives(b: Body): seq<Tree> {
    Optional(b.text, s => PlainText(s))
    + (match b.html case None => [] case Some(html) => [HtmlPart(html, b.inlines)])
    + Optional(b.amp, s => AmpHtml(s))
  }

  /** What is not part of the text: the files no html part takes, then the attachments. */
  function Enclosed(b: Body): seq<Tree> {
    (if b.html.None? then Files(b.inlines, true) else []) + Files(b.attachments, false)
  }

  /** Several alternatives are one part; enclosures go into a mixed part around everything. */
  function Group(subtype: Subtype, parts: seq<Tree>): Tree
    requires parts != []
  {
    if |parts| == 1 then parts[0] else Multi(subtype, parts)
  }

  predicate HasText(b: Body) {
    b.text.Some? || b.html.Some?
  }

  function TreeOf(b: Body): Tree
    requires HasText(b)
  {
    Group(Mixed, [Group(Alternative, Alternatives(b))] + Enclosed(b))
  }

  predicate Accepted(b: Body, rule: UploadRule) {
    && (forall i :: 0 <= i < |b.inlines| ==> rule(b.inlines[i], true))
    && (forall i :: 0 <= i < |b.attachments| ==> rule(b.attachments[i], false))
  }

  /** The tree of a message, or nothing if it has no text or an upload is refused. */
  function Message(body: Body, rule: UploadRule): Option<Tree> {
    var b := Filtered(body);
    if HasText(b) && Accepted(b, rule) then Some(TreeOf(b)) else None
  }

  /* ---- The one pass ---- */

  method UploadParts(uploads: seq<Upload>, isInline: bool, rule: UploadRule) returns (r: Option<seq<Tree>>)
    ensures r == if forall i :: 0 <= i < |uploads| ==> rule(uploads[i], isInline)
      then Some(Files(uploads, isInline)) else None
  {
    var parts: seq<Tree> := [];
    for i := 0 to |uploads|
      invariant forall k :: 0 <= k < i ==> rule(uploads[k], isInline)
      invariant parts == Files(uploads[..i], isInline)
    {
      if !rule(uploads[i], isInline) {
        return None;
      }
      parts := parts + [Part(File(uploads[i], isInline))];
    }
    assert uploads[..|uploads|] == uploads;
    return Some(parts);
  }

  /** `alternatives`, with the inline parts taken along by the html part. */
  method TextParts(b: Body, files: seq<Tree>) returns (alternatives: seq<Tree>, left: seq<Tree>)
    requires files == Files(b.inlines, true)
    ensures alternatives == Alternatives(b) && left == if b.html.None? then files else []
  {
    alternatives, left := [], files;
    match b.text {
      case None =>
      case Some(text) => alternatives := alternatives + [Part(PlainText(text))];
    }
    match b.html {
      case None =>
      case Some(html) =>
        var part := Part(Html(html));
        if left != [] {
          part := Multi(Related, [part] + left);
          left := [];
        }
        alternatives := alternatives + [part];
    }
    match b.amp {
      case None =>
      case Some(amp) => alternatives := alternatives + [Part(AmpHtml(amp))];
    }
  }

  lemma TextThenOthers(text: Tree, left: seq<Tree>, attached: seq<Tree>)
    ensures [text] + left + attached == [text] + (left + attached)
    ensures left == [] ==> [text] + attached == [text] + (left + attached)
  {
    if left == [] {
      assert left + attached == attached;
    }
  }

  /** Without attachments the enclosed parts are those no html part takes. */
  lemma NothingAround(text: Tree, left: seq<Tree>, b: Body)
    requires left == if b.html.None? then Files(b.inlines, true) else []
    ensures b.attachments == [] ==> Enclosed(b) == left
    ensures [text] + [] == [text]
  {
    assert b.attachments == [] ==> Files(b.attachments, false) == [];
    assert left + [] == left;
  }

  method BodyTree(b: Body, rule: UploadRule) returns (r: Option<Tree>)
    requires HasText(b)
    ensures r == if Accepted(b, rule) then Some(TreeOf(b)) else None
  {
    var files := UploadParts(b.inlines, true, rule);
    if files.None? {
      return None;
    }
    var alternatives, left := TextParts(b, files.value);
    var tree := if |alternatives| == 1 then alternatives[0] else Multi(Alternative, alternatives);
    ghost var text := tree;
    NothingAround(text, left, b);
    if b.html.None? && left != [] {
      tree := Multi(Mixed, [tree] + left);
    }
    if b.attachments != [] {
      var mixed := if tree.Multi? && tree.subtype == Mixed then tree.children else [tree];
      var attached := UploadParts(b.attachments, false, rule);
      if attached.None? {
        return None;
      }
      TextThenOthers(text, left, attached.value);
      tree := Multi(Mixed, mixed + attached.value);
    }
    return Some(tree);
  }
}
