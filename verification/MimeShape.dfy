/**
 The tree of a message: its leaves in order are exactly the inputs, once each, and its inner nodes
 are what a mail reader expects.
 */
module MimeShape {
  import opened Wrappers
  import opened MimeTree

  function Leaves(t: Tree): seq<Leaf>
    decreases t
  {
    match t
    case Part(leaf) => [leaf]
    case Multi(_, children) => LeavesOf(children)
  }

  function LeavesOf(ts: seq<Tree>): seq<Leaf>
    decreases ts
  {
    if ts == [] then [] else Leaves(ts[0]) + LeavesOf(ts[1..])
  }

  /** The parts a text field gives. */
  function Texts(text: Option<string>, leaf: string -> Leaf): seq<Leaf> {
    match text case None => [] case Some(s) => [leaf(s)]
  }

  function FileLeaves(uploads: seq<Upload>, isInline: bool): seq<Leaf> {
    seq(|uploads|, i requires 0 <= i < |uploads| => File(uploads[i], isInline))
  }

  /** The inputs in reading order: inline files follow the html text if there is one. */
  function Inputs(b: Body): seq<Leaf> {
    Texts(b.text, s => PlainText(s))
    + (match b.html case None => [] case Some(html) => [Html(html)] + FileLeaves(b.inlines, true))
    + Texts(b.amp, s => AmpHtml(s))
    + (if b.html.None? then FileLeaves(b.inlines, true) else [])
    + FileLeaves(b.attachments, false)
  }

  lemma {:induction false} LeavesAppend(a: seq<Tree>, b: seq<Tree>)
    ensures LeavesOf(a + b) == LeavesOf(a) + LeavesOf(b)
    decreases |a|
  {
    if a == [] {
      assert a + b == b;
    } else {
      assert (a + b)[1..] == a[1..] + b;
      LeavesAppend(a[1..], b);
    }
  }

  lemma LeavesOfOne(t: Tree)
    ensures LeavesOf([t]) == Leaves(t)
  {
    assert [t][1..] == [];
    assert Leaves(t) + [] == Leaves(t);
  }

  lemma {:induction false} LeavesOfFiles(uploads: seq<Upload>, isInline: bool)
    ensures LeavesOf(Files(uploads, isInline)) == FileLeaves(uploads, isInline)
    decreases |uploads|
  {
    if uploads != [] {
      LeavesOfFiles(uploads[1..], isInline);
      assert Files(uploads, isInline)[1..] == Files(uploads[1..], isInline);
      assert FileLeaves(uploads, isInline) == [File(uploads[0], isInline)] + FileLeaves(uploads[1..], isInline);
    }
  }

  lemma LeavesOfGroup(subtype: Subtype, parts: seq<Tree>)
    requires parts != []
    ensures Leaves(Group(subtype, parts)) == LeavesOf(parts)
  {
    if |parts| == 1 {
      assert parts == [parts[0]];
      LeavesOfOne(parts[0]);
    }
  }

  lemma LeavesOfHtml(html: string, inlines: seq<Upload>)
    ensures LeavesOf([HtmlPart(html, inlines)]) == [Html(html)] + FileLeaves(inlines, true)
  {
    LeavesOfOne(HtmlPart(html, inlines));
    if inlines != [] {
      LeavesAppend([Part(Html(html))], Files(inlines, true));
      LeavesOfOne(Part(Html(html)));
      LeavesOfFiles(inlines, true);
    }
  }

  lemma LeavesOfText(text: Option<string>, leaf: string -> Leaf)
    ensures LeavesOf(Optional(text, leaf)) == Texts(text, leaf)
  {
    match text
    case None =>
    case Some(s) => LeavesOfOne(Part(leaf(s)));
  }

  lemma LeavesOfAlternatives(b: Body)
    ensures LeavesOf(Alternatives(b)) ==
      Texts(b.text, s => PlainText(s))
      + (match b.html case None => [] case Some(html) => [Html(html)] + FileLeaves(b.inlines, true))
      + Texts(b.amp, s => AmpHtml(s))
  {
    var first := Optional(b.text, s => PlainText(s));
    var second := match b.html case None => [] case Some(html) => [HtmlPart(html, b.inlines)];
    var third := Optional(b.amp, s => AmpHtml(s));
    LeavesOfText(b.text, s => PlainText(s));
    LeavesOfText(b.amp, s => AmpHtml(s));
    if b.html.Some? {
      LeavesOfHtml(b.html.value, b.inlines);
    }
    LeavesAppend(first + second, third);
    LeavesAppend(first, second);
  }

  /** Every input is a leaf, once and in order. */
  lemma LeavesAreInputs(b: Body)
    requires HasText(b)
    ensures Leaves(TreeOf(b)) == Inputs(b)
  {
    var text := Group(Alternative, Alternatives(b));
    var enclosed := if b.html.None? then Files(b.inlines, true) else [];
    LeavesOfGroup(Mixed, [text] + Enclosed(b));
    LeavesAppend([text], Enclosed(b));
    LeavesOfOne(text);
    LeavesOfGroup(Alternative, Alternatives(b));
    LeavesOfAlternatives(b);
    LeavesAppend(enclosed, Files(b.attachments, false));
    LeavesOfFiles(b.inlines, true);
    LeavesOfFiles(b.attachments, false);
  }

  /**
   Inner nodes have at least two children; mixed appears at the root only; a related part is an html
   text with inline files.
   */
  predicate WellShaped(t: Tree, isRoot: bool)
    decreases t
  {
    match t
    case Part(_) => true
    case Multi(subtype, children) =>
      && |children| >= 2
      && (subtype == Mixed ==> isRoot)
      && (subtype == Related ==>
            && children[0].Part? && children[0].leaf.Html?
            && forall i :: 0 < i < |children| ==>
              children[i].Part? && children[i].leaf.File? && children[i].leaf.isInline)
      && forall i :: 0 <= i < |children| ==> WellShaped(children[i], false)
  }

  lemma GroupShape(subtype: Subtype, parts: seq<Tree>, isRoot: bool)
    requires parts != [] && subtype != Related && (subtype == Mixed ==> isRoot)
    requires forall i :: 0 <= i < |parts| ==> WellShaped(parts[i], false)
    ensures WellShaped(Group(subtype, parts), isRoot)
  {
    assert WellShaped(parts[0], false);
  }

  lemma TreeIsWellShaped(b: Body)
    requires HasText(b)
    ensures WellShaped(TreeOf(b), true)
  {
    var alternatives := Alternatives(b);
    forall i | 0 <= i < |alternatives|
      ensures WellShaped(alternatives[i], false)
    {
      if b.html.Some? && b.inlines != [] {
        var html := HtmlPart(b.html.value, b.inlines);
        forall k | 0 <= k < |html.children|
          ensures WellShaped(html.children[k], false)
        {
        }
      }
    }
    GroupShape(Alternative, alternatives, false);
    GroupShape(Mixed, [Group(Alternative, alternatives)] + Enclosed(b), true);
  }
}
