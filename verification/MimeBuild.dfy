/**
 The message built step by step: one object whose parts are objects too, wrapped or appended to in
 place, while a reference to the html part is kept. It becomes the tree of module MimeTree.
 */
module MimeBuild {
  import opened Wrappers
  import opened MimeTree

  /** Multipart types that cannot be turned into this one. */
  function Disallowed(subtype: Subtype): set<Subtype> {
    match subtype
    case Related => {Alternative, Mixed}
    case Alternative => {Mixed}
    case Mixed => {}
  }

  /** A part with one more leaf: appended to a multipart of this type, else wrapped together. */
  function AddTo(t: Tree, subtype: Subtype, leaf: Leaf): Option<Tree> {
    if t.Multi? && t.subtype == subtype then Some(Multi(subtype, t.children + [Part(leaf)]))
    else if t.Multi? && t.subtype in Disallowed(subtype) then None
    else Some(Multi(subtype, [t, Part(leaf)]))
  }

  class EmailPart {
    var leaf: Option<Leaf>
    var subtype: Subtype
    var children: seq<EmailPart>
    ghost var Repr: set<object>
    ghost var Value: Tree

    ghost predicate Valid()
      reads this, Repr
      decreases Repr
    {
      && this in Repr
      && (forall i :: 0 <= i < |children| ==>
            children[i] in Repr && children[i].Repr <= Repr && this !in children[i].Repr && children[i].Valid())
      && (forall i, j :: 0 <= i < j < |children| ==> children[i].Repr !! children[j].Repr)
      && match leaf
        case Some(l) => children == [] && Value == Part(l)
        case None =>
          && Value.Multi? && Value.subtype == subtype && |Value.children| == |children|
          && forall i :: 0 <= i < |children| ==> Value.children[i] == children[i].Value
    }

    /** A part with content. */
    constructor (leaf: Leaf)
      ensures Valid() && fresh(Repr) && Value == Part(leaf)
    {
      this.leaf, subtype, children := Some(leaf), Mixed, [];
      Repr, Value := {this}, Part(leaf);
    }

    /** A new part that takes over what another one holds. */
    constructor Taking(other: EmailPart)
      requires other.Valid()
      ensures Valid() && Value == other.Value && Repr == {this} + (other.Repr - {other})
    {
      leaf, subtype, children := other.leaf, other.subtype, other.children;
      Repr, Value := {this} + (other.Repr - {other}), other.Value;
    }

    /** What is there becomes the first part of a new multipart. */
    method Make(kind: Subtype)
      requires Valid()
      modifies this
      ensures Valid() && fresh(Repr - old(Repr)) && leaf.None? && subtype == kind
      ensures Value == Multi(kind, [old(Value)])
    {
      var inner := new EmailPart.Taking(this);
      assert this !in inner.Repr;
      leaf, subtype, children := None, kind, [inner];
      Repr, Value := {this} + inner.Repr, Multi(kind, [inner.Value]);
    }

    method Attach(part: EmailPart)
      requires Valid() && leaf.None? && part.Valid() && part.Repr !! Repr
      modifies this`children, this`Repr, this`Value
      ensures Valid() && Repr == old(Repr) + part.Repr
      ensures Value == Multi(subtype, old(Value.children) + [part.Value])
    {
      children := children + [part];
      Repr := Repr + part.Repr;
      Value := Multi(subtype, Value.children + [part.Value]);
    }

    method Add(kind: Subtype, content: Leaf) returns (ok: bool)
      requires Valid()
      modifies this
      ensures Valid() && fresh(Repr - old(Repr))
      ensures match AddTo(old(Value), kind, content)
        case None => !ok && Value == old(Value)
        case Some(t) => ok && Value == t
    {
      if leaf.Some? || subtype != kind {
        if leaf.None? && subtype in Disallowed(kind) {
          return false;
        }
        Make(kind);
      }
      var part := new EmailPart(content);
      Attach(part);
      return true;
    }
  }

  /* ---- The html part ---- */

  predicate IsHtml(t: Tree) {
    t.Part? && t.leaf.Html?
  }

  /** Where the html part is: in front of every part (-1) if it is the message itself. */
  ghost predicate IsAt(msg: EmailPart, part: EmailPart, k: int)
    reads msg, msg.Repr, part
  {
    && msg.Valid() && part in msg.Repr
    && if k == -1 then part == msg else msg.leaf.None? && 0 <= k < |msg.children| && msg.children[k] == part
  }

  /** The message with the html part replaced. */
  function Placed(t: Tree, k: int, part: Tree): Tree
    requires k == -1 || (t.Multi? && 0 <= k < |t.children|)
  {
    if k == -1 then part else Multi(t.subtype, t.children[k := part])
  }

  /** The part that `Placed` replaces. */
  function SubtreeAt(t: Tree, k: int): Tree {
    if t.Multi? && 0 <= k < |t.children| then t.children[k] else t
  }

  /** The message is its html part, or this alternative is the first one. */
  predicate HtmlAt(t: Tree, k: int) {
    if k == -1 then IsHtml(t)
    else
      && t.Multi? && t.subtype == Alternative && 0 <= k < |t.children| && IsHtml(t.children[k])
      && forall i :: 0 <= i < k ==> !IsHtml(t.children[i])
  }

  predicate HasNoHtml(t: Tree) {
    && !IsHtml(t)
    && (t.Multi? && t.subtype == Alternative ==> forall i :: 0 <= i < |t.children| ==> !IsHtml(t.children[i]))
  }

  /** The first html leaf among the alternatives, or the message if it is one. */
  method FindHtmlPart(msg: EmailPart) returns (part: EmailPart?, ghost k: int)
    requires msg.Valid()
    ensures part != null ==> IsAt(msg, part, k) && part.Value == SubtreeAt(msg.Value, k) && HtmlAt(msg.Value, k)
    ensures part == null ==> HasNoHtml(msg.Value)
  {
    if msg.leaf.Some? && msg.leaf.value.Html? {
      return msg, -1;
    }
    if msg.leaf.None? && msg.subtype == Alternative {
      for i := 0 to |msg.children|
        invariant forall j :: 0 <= j < i ==> !IsHtml(msg.Value.children[j])
      {
        var child := msg.children[i];
        if child.leaf.Some? && child.leaf.value.Html? {
          return child, i;
        }
      }
    }
    return null, 0;
  }

  /** `part.add_related`, where the part may be the message or one of its parts. */
  method AddRelated(msg: EmailPart, part: EmailPart, ghost k: int, content: Leaf) returns (ok: bool)
    requires IsAt(msg, part, k)
    modifies msg, part
    ensures IsAt(msg, part, k) && fresh(msg.Repr - old(msg.Repr))
    ensures match AddTo(old(part.Value), Related, content)
      case None => !ok
      case Some(t) => ok && part.Value == t && msg.Value == Placed(old(msg.Value), k, t)
  {
    ok := part.Add(Related, content);
    if k >= 0 {
      msg.Repr := msg.Repr + part.Repr;
      msg.Value := Multi(msg.subtype, msg.Value.children[k := part.Value]);
    }
  }

  /* ---- The steps ---- */

  lemma FilesNext(uploads: seq<Upload>, i: nat, isInline: bool)
    requires i < |uploads|
    ensures Files(uploads[..i + 1], isInline) == Files(uploads[..i], isInline) + [Part(File(uploads[i], isInline))]
  {
  }

  /** One more inline file beside the html part. */
  lemma RelatedNext(html: string, uploads: seq<Upload>, i: nat)
    requires i < |uploads|
    ensures AddTo(HtmlPart(html, uploads[..i]), Related, File(uploads[i], true)) ==
      Some(HtmlPart(html, uploads[..i + 1]))
  {
    FilesNext(uploads, i, true);
    assert [Part(Html(html))] + (Files(uploads[..i], true) + [Part(File(uploads[i], true))]) ==
      [Part(Html(html))] + Files(uploads[..i], true) + [Part(File(uploads[i], true))];
    if i == 0 {
      assert Files(uploads[..0], true) == [] && [] + [Part(File(uploads[0], true))] == [Part(File(uploads[0], true))];
      assert [Part(Html(html)), Part(File(uploads[0], true))] == [Part(Html(html))] + [Part(File(uploads[0], true))];
    }
  }

  /** One more enclosure around a text that is no mixed part. */
  lemma EnclosedNext(text: Tree, parts: seq<Tree>, leaf: Leaf)
    requires text.Multi? ==> text.subtype != Mixed
    ensures AddTo(Group(Mixed, [text] + parts), Mixed, leaf) == Some(Group(Mixed, [text] + (parts + [Part(leaf)])))
  {
    assert [text] + parts + [Part(leaf)] == [text] + (parts + [Part(leaf)]);
    if parts == [] {
      assert [text] + ([] + [Part(leaf)]) == [text, Part(leaf)];
    }
  }

  function TextOf(b: Body): Tree
    requires HasText(b)
  {
    Group(Alternative, Alternatives(b))
  }

  /** Where the html part is among the texts. */
  function HtmlIndex(b: Body): int {
    if b.text.Some? then 1 else if b.amp.Some? then 0 else -1
  }

  /** The texts with the inline files, beside the html part or, without one, as enclosures. */
  function InlinedText(b: Body): Tree
    requires HasText(b)
  {
    Group(Mixed, [TextOf(b)] + (if b.html.None? then Files(b.inlines, true) else []))
  }

  lemma TextIsNotMixed(b: Body)
    requires HasText(b)
    ensures TextOf(b).Multi? ==> TextOf(b).subtype != Mixed
  {
  }

  /** What was found is the html text, and the inline files go there. */
  lemma HtmlFound(b: Body, bare: Tree, k: int)
    requires HasText(b) && bare == TextOf(b.(inlines := [])) && HtmlAt(bare, k)
    ensures b.html.Some? && k == HtmlIndex(b) && SubtreeAt(bare, k) == HtmlPart(b.html.value, [])
    ensures InlinedText(b) == Placed(bare, k, HtmlPart(b.html.value, b.inlines))
  {
    GroupOfOne(TextOf(b));
  }

  lemma HtmlIsThere(b: Body)
    requires HasText(b) && b.html.Some?
    ensures !HasNoHtml(TextOf(b.(inlines := [])))
  {
    var bare, k := TextOf(b.(inlines := [])), HtmlIndex(b);
    if k >= 0 {
      assert IsHtml(bare.children[k]);
    }
  }

  lemma NoHtmlFound(b: Body, bare: Tree)
    requires HasText(b) && bare == TextOf(b.(inlines := [])) && HasNoHtml(bare)
    ensures b.html.None? && (bare.Multi? ==> bare.subtype != Mixed) && Group(Mixed, [bare] + []) == bare
    ensures InlinedText(b) == Group(Mixed, [bare] + ([] + Files(b.inlines, true)))
  {
    if b.html.Some? {
      HtmlIsThere(b);
    }
    TextIsNotMixed(b);
    GroupOfOne(bare);
    assert [] + Files(b.inlines, true) == Files(b.inlines, true);
  }

  lemma GroupOfOne(t: Tree)
    ensures Group(Mixed, [t] + []) == t
  {
    assert [t] + [] == [t];
  }

  method BuildTexts(b: Body) returns (msg: EmailPart)
    requires HasText(b)
    ensures msg.Valid() && fresh(msg.Repr) && msg.Value == TextOf(b.(inlines := []))
  {
    var ok := true;
    if b.text.Some? && b.html.Some? {
      msg := new EmailPart(PlainText(b.text.value));
      ok := msg.Add(Alternative, Html(b.html.value));
    } else if b.html.Some? {
      msg := new EmailPart(Html(b.html.value));
    } else {
      msg := new EmailPart(PlainText(b.text.value));
    }
    if b.amp.Some? {
      ok := msg.Add(Alternative, AmpHtml(b.amp.value));
    }
  }

  /** The files beside the html part, one after another. */
  method RelateFiles(msg: EmailPart, part: EmailPart, ghost k: int, html: string, uploads: seq<Upload>,
      rule: UploadRule)
    returns (ok: bool)
    requires IsAt(msg, part, k) && part.Value == SubtreeAt(msg.Value, k) == HtmlPart(html, [])
    modifies msg, part
    ensures msg.Valid() && fresh(msg.Repr - old(msg.Repr))
    ensures ok == forall i :: 0 <= i < |uploads| ==> rule(uploads[i], true)
    ensures ok ==> msg.Value == Placed(old(msg.Value), k, HtmlPart(html, uploads))
  {
    assert uploads[..0] == [];
    for i := 0 to |uploads|
      invariant IsAt(msg, part, k) && fresh(msg.Repr - old(msg.Repr))
      invariant part.Value == HtmlPart(html, uploads[..i])
      invariant msg.Value == Placed(old(msg.Value), k, part.Value)
      invariant forall j :: 0 <= j < i ==> rule(uploads[j], true)
    {
      if !rule(uploads[i], true) {
        return false;
      }
      RelatedNext(html, uploads, i);
      ok := AddRelated(msg, part, k, File(uploads[i], true));
    }
    assert uploads[..|uploads|] == uploads;
    return true;
  }

  /** `add_attachment` for every upload, around a text that is no mixed part. */
  method AttachFiles(msg: EmailPart, ghost text: Tree, ghost before: seq<Tree>, uploads: seq<Upload>, isInline: bool,
      rule: UploadRule)
    returns (ok: bool)
    requires msg.Valid() && (text.Multi? ==> text.subtype != Mixed) && msg.Value == Group(Mixed, [text] + before)
    modifies msg
    ensures msg.Valid() && fresh(msg.Repr - old(msg.Repr))
    ensures ok == forall i :: 0 <= i < |uploads| ==> rule(uploads[i], isInline)
    ensures ok ==> msg.Value == Group(Mixed, [text] + (before + Files(uploads, isInline)))
  {
    assert before + [] == before;
    for i := 0 to |uploads|
      invariant msg.Valid() && fresh(msg.Repr - old(msg.Repr))
      invariant msg.Value == Group(Mixed, [text] + (before + Files(uploads[..i], isInline)))
      invariant forall j :: 0 <= j < i ==> rule(uploads[j], isInline)
    {
      if !rule(uploads[i], isInline) {
        return false;
      }
      FilesNext(uploads, i, isInline);
      EnclosedNext(text, before + Files(uploads[..i], isInline), File(uploads[i], isInline));
      assert before + Files(uploads[..i], isInline) + [Part(File(uploads[i], isInline))] ==
        before + Files(uploads[..i + 1], isInline);
      ok := msg.Add(Mixed, File(uploads[i], isInline));
    }
    assert uploads[..|uploads|] == uploads;
    return true;
  }

  /** The inline files, beside the html part or, without one, as enclosures. */
  method AddInlines(msg: EmailPart, b: Body, rule: UploadRule) returns (ok: bool)
    requires HasText(b) && msg.Valid() && msg.Value == TextOf(b.(inlines := []))
    modifies msg, msg.Repr
    ensures msg.Valid() && fresh(msg.Repr - old(msg.Repr))
    ensures ok == forall i :: 0 <= i < |b.inlines| ==> rule(b.inlines[i], true)
    ensures ok ==> msg.Value == InlinedText(b)
  {
    ghost var bare := msg.Value;
    var part, k := FindHtmlPart(msg);
    if part != null {
      HtmlFound(b, bare, k);
      ok := RelateFiles(msg, part, k, b.html.value, b.inlines, rule);
    } else {
      NoHtmlFound(b, bare);
      ok := AttachFiles(msg, bare, [], b.inlines, true, rule);
    }
  }

  /** The whole construction: the tree of the message, or nothing where that has none. */
  method BuildMessage(body: Body, rule: UploadRule) returns (msg: EmailPart?)
    ensures match Message(body, rule)
      case None => msg == null
      case Some(t) => msg != null && msg.Valid() && fresh(msg.Repr) && msg.Value == t
  {
    var b := Filtered(body);
    if b.text.None? && b.html.None? {
      return null;
    }
    msg := BuildTexts(b);
    var ok := AddInlines(msg, b, rule);
    if !ok {
      return null;
    }
    TextIsNotMixed(b);
    ok := AttachFiles(msg, TextOf(b), if b.html.None? then Files(b.inlines, true) else [], b.attachments, false, rule);
    if !ok {
      return null;
    }
  }
}
