/**
 The comma splitter and the mailbox grammar agree on quoting: what the grammar reads as one
 mailbox the splitter never cuts, and it leaves the splitter outside quotes.
 */
module AddressLists {
  import opened Wrappers
  import opened Address
  import Sequences

  /** The splitter over `[i, end)`: its quote state at the end, or nothing if it would cut. */
  function Walk(cs: string, i: nat, end: nat, q: Quote): Option<Quote>
    requires i <= end <= |cs|
    decreases end - i
  {
    if i == end then Some(q)
    else if cs[i] == ',' && q == Outside then None
    else Walk(cs, i + 1, end, Next(q, cs[i]))
  }

  /** The splitter passes `[i, end)` without a cut and is outside quotes again. */
  ghost predicate Closed(cs: string, i: nat, end: nat)
    requires i <= end <= |cs|
  {
    Walk(cs, i, end, Outside) == Some(Outside)
  }

  lemma {:induction false} WalkOn(cs: string, i: nat, mid: nat, end: nat, q: Quote)
    requires i <= mid <= end <= |cs| && Walk(cs, i, mid, q).Some?
    ensures Walk(cs, i, end, q) == Walk(cs, mid, end, Walk(cs, i, mid, q).value)
    decreases mid - i
  {
    if i < mid {
      WalkOn(cs, i + 1, mid, end, Next(q, cs[i]));
    }
  }

  lemma {:induction false} SkipClosed(cs: string, pos: nat, kind: Class)
    requires pos <= |cs|
    ensures Closed(cs, pos, SkipWhile(cs, pos, kind))
    decreases |cs| - pos
  {
    if pos < |cs| && Takes(kind, cs[pos]) {
      SkipClosed(cs, pos + 1, kind);
    }
  }

  lemma {:induction false} CfwsClosed(cs: string, pos: nat, comments: seq<string>)
    requires pos <= |cs| && SkipCfws(cs, pos, comments).Some?
    ensures Closed(cs, pos, SkipCfws(cs, pos, comments).value.pos)
    decreases |cs| - pos
  {
    if pos < |cs| && IsWsp(cs[pos]) {
      CfwsClosed(cs, pos + 1, comments);
    } else if pos < |cs| && cs[pos] == '(' {
      var close := SkipWhile(cs, pos + 1, CommentChar);
      var end := SkipCfws(cs, pos, comments).value.pos;
      SkipClosed(cs, pos + 1, CommentChar);
      CfwsClosed(cs, close + 1, comments + [cs[pos + 1..close]]);
      WalkOn(cs, pos + 1, close, end, Outside);
    }
  }

  /** Inside a quoted string the splitter is inside quotes until the closing one. */
  lemma {:induction false} QuotedClosed(cs: string, pos: nat, text: string)
    requires pos <= |cs| && Quoted(cs, pos, text).Some?
    ensures Walk(cs, pos, Quoted(cs, pos, text).value.pos, Inside) == Some(Outside)
    decreases |cs| - pos
  {
    if cs[pos] == '"' {
    } else if cs[pos] == '\\' {
      QuotedClosed(cs, pos + 2, text + [cs[pos + 1]]);
      assert Walk(cs, pos, Quoted(cs, pos, text).value.pos, Inside) ==
        Walk(cs, pos + 1, Quoted(cs, pos, text).value.pos, Escaped);
    } else {
      QuotedClosed(cs, pos + 1, text + [cs[pos]]);
    }
  }

  lemma {:induction false} PhraseClosed(cs: string, pos: nat, words: seq<string>, comments: seq<string>)
    requires pos <= |cs| && Phrase(cs, pos, words, comments).Some?
    ensures Closed(cs, pos, Phrase(cs, pos, words, comments).value.pos)
    decreases |cs| - pos
  {
    var cfws := SkipCfws(cs, pos, comments).value;
    var at := cfws.pos;
    var end := Phrase(cs, pos, words, comments).value.pos;
    CfwsClosed(cs, pos, comments);
    if cs[at] == '"' {
      var q := Quoted(cs, at + 1, "").value;
      QuotedClosed(cs, at + 1, "");
      PhraseClosed(cs, q.pos, words + [q.text], cfws.comments);
      WalkOn(cs, at + 1, q.pos, end, Inside);
    } else if Takes(WordChar, cs[at]) {
      var next := SkipWhile(cs, at + 1, WordChar);
      SkipClosed(cs, at + 1, WordChar);
      PhraseClosed(cs, next, words + [cs[at..next]], cfws.comments);
      WalkOn(cs, at + 1, next, end, Outside);
    }
    WalkOn(cs, pos, at, end, Outside);
  }

  lemma AngleClosed(cs: string, pos: nat)
    requires pos < |cs| && cs[pos] == '<' && Angle(cs, pos).Some?
    ensures Closed(cs, pos, |cs|)
  {
    var start := SkipWhile(cs, pos + 1, WspChar);
    var end := SkipWhile(cs, start, AddrChar);
    var close := SkipWhile(cs, end, WspChar);
    SkipClosed(cs, pos + 1, WspChar);
    SkipClosed(cs, start, AddrChar);
    SkipClosed(cs, end, WspChar);
    CfwsClosed(cs, close + 1, []);
    WalkOn(cs, end, close, |cs|, Outside);
    WalkOn(cs, start, end, |cs|, Outside);
    WalkOn(cs, pos + 1, start, |cs|, Outside);
  }

  /** A text that the grammar accepts as one mailbox is closed for the splitter. */
  lemma ShapeClosed(cs: string)
    requires ShapeOf(cs).Some?
    ensures Closed(cs, 0, |cs|)
  {
    var cfws := SkipCfws(cs, 0, []).value;
    var end := SkipWhile(cs, cfws.pos, AddrChar);
    CfwsClosed(cs, 0, []);
    if '@' in cs[cfws.pos..end] {
      SkipClosed(cs, cfws.pos, AddrChar);
      CfwsClosed(cs, end, cfws.comments);
      WalkOn(cs, cfws.pos, end, |cs|, Outside);
    } else {
      var phrase := Phrase(cs, cfws.pos, [], cfws.comments).value;
      PhraseClosed(cs, cfws.pos, [], cfws.comments);
      AngleClosed(cs, phrase.pos);
      WalkOn(cs, cfws.pos, phrase.pos, |cs|, Outside);
    }
    WalkOn(cs, 0, cfws.pos, |cs|, Outside);
  }

  /* ---- A list as the mailboxes of its pieces ---- */

  /** The pieces between the cuts, from `start` on. */
  function Pieces(cs: string, start: nat): (r: seq<string>)
    requires start <= |cs|
    ensures r != []
    decreases |cs| - start
  {
    match NextCut(cs, start, Outside)
    case None => [cs[start..]]
    case Some(cut) => [cs[start..cut]] + Pieces(cs, cut + 1)
  }

  /** The mailboxes of all pieces, if every piece is one. */
  function ReadAll(pieces: seq<string>, read: Reader): (r: Option<seq<Mailbox>>)
    ensures r.Some? ==> |r.value| == |pieces|
  {
    if pieces == [] then Some([])
    else
      var m :- read(pieces[0]);
      var rest :- ReadAll(pieces[1..], read);
      Some([m] + rest)
  }

  function Append(before: seq<Mailbox>, rest: Option<seq<Mailbox>>): Option<seq<Mailbox>> {
    match rest case None => None case Some(ms) => Some(before + ms)
  }

  lemma ReadAllStep(piece: string, rest: seq<string>, before: seq<Mailbox>, read: Reader)
    ensures Append(before, ReadAll([piece] + rest, read)) ==
      match read(piece)
      case None => None
      case Some(m) => Append(before + [m], ReadAll(rest, read))
  {
    assert ([piece] + rest)[1..] == rest;
    match read(piece)
    case None =>
    case Some(m) =>
      match ReadAll(rest, read)
      case None =>
      case Some(ms) => assert before + ([m] + ms) == before + [m] + ms;
  }

  lemma OneElement(piece: string, read: Reader)
    ensures ReadAll([piece], read) ==
      match read(piece) case None => None case Some(m) => Some([m])
  {
    assert [piece][1..] == [];
    match read(piece)
    case None =>
    case Some(m) => assert [m] + [] == [m];
  }

  lemma LastElement(cs: string, start: nat, before: seq<Mailbox>, read: Reader)
    requires start <= |cs| && NextCut(cs, start, Outside) == None
    ensures ListFrom(cs, start, before, read) == Append(before, ReadAll(Pieces(cs, start), read))
  {
    OneElement(cs[start..], read);
  }

  lemma {:induction false} ListIsPieces(cs: string, start: nat, before: seq<Mailbox>, read: Reader)
    requires start <= |cs|
    ensures ListFrom(cs, start, before, read) == Append(before, ReadAll(Pieces(cs, start), read))
    decreases |cs| - start
  {
    match NextCut(cs, start, Outside)
    case None =>
      LastElement(cs, start, before, read);
    case Some(cut) =>
      ReadAllStep(cs[start..cut], Pieces(cs, cut + 1), before, read);
      match read(cs[start..cut])
      case None =>
      case Some(m) => ListIsPieces(cs, cut + 1, before + [m], read);
  }

  lemma ListOfPieces(value: string, domains: Domains)
    requires !HasForbidden(value)
    ensures ParseList(value, domains) == ReadAll(Pieces(value, 0), MailboxReader(domains))
  {
    var rest := ReadAll(Pieces(value, 0), MailboxReader(domains));
    ListIsPieces(value, 0, [], MailboxReader(domains));
    assert rest.Some? ==> [] + rest.value == rest.value;
  }

  /* ---- The splitter on pieces of a text ---- */

  lemma {:induction false} WalkShift(cs: string, sub: string, start: nat, end: nat, i: nat, q: Quote)
    requires start <= end <= |cs| && sub == cs[start..end] && i <= |sub|
    ensures Walk(cs, start + i, end, q) == Walk(sub, i, |sub|, q)
    decreases |sub| - i
  {
    if i < |sub| {
      assert sub[i] == cs[start + i];
      WalkShift(cs, sub, start, end, i + 1, Next(q, cs[start + i]));
    }
  }

  /** The next cut is behind everything the splitter walks through. */
  lemma {:induction false} CutAfterWalk(cs: string, i: nat, end: nat, q: Quote)
    requires i <= end <= |cs| && Walk(cs, i, end, q).Some?
    ensures NextCut(cs, i, q) == NextCut(cs, end, Walk(cs, i, end, q).value)
    decreases end - i
  {
    if i < end {
      CutAfterWalk(cs, i + 1, end, Next(q, cs[i]));
    }
  }

  lemma {:induction false} CutWithin(a: string, cs: string, i: nat, q: Quote)
    requires a <= cs && i <= |a| && NextCut(a, i, q).Some?
    ensures NextCut(cs, i, q) == NextCut(a, i, q)
    decreases |a| - i
  {
    if !(a[i] == ',' && q == Outside) {
      CutWithin(a, cs, i + 1, Next(q, a[i]));
    }
  }

  lemma {:induction false} CutShift(cs: string, b: string, n: nat, i: nat, q: Quote)
    requires n <= |cs| && b == cs[n..] && i <= |b|
    ensures NextCut(cs, n + i, q) == match NextCut(b, i, q) case None => None case Some(k) => Some(n + k)
    decreases |b| - i
  {
    if i < |b| {
      assert b[i] == cs[n + i];
      CutShift(cs, b, n, i + 1, Next(q, b[i]));
    }
  }

  /** The pieces from behind the `n` first chars on are those of the rest. */
  lemma {:induction false} PiecesShift(cs: string, b: string, n: nat, start: nat)
    requires n <= |cs| && b == cs[n..] && start <= |b|
    ensures Pieces(cs, n + start) == Pieces(b, start)
    decreases |b| - start
  {
    CutShift(cs, b, n, start, Outside);
    match NextCut(b, start, Outside)
    case None =>
      assert cs[n + start..] == b[start..];
    case Some(cut) =>
      assert cs[n + start..n + cut] == b[start..cut];
      PiecesShift(cs, b, n, cut + 1);
  }

  function Last(pieces: seq<string>): string
    requires pieces != []
  {
    pieces[|pieces| - 1]
  }

  lemma LastCut(a: string, cs: string, start: nat)
    requires a + "," <= cs && start <= |a|
    requires NextCut(a, start, Outside) == None && Closed(a[start..], 0, |a| - start)
    ensures NextCut(cs, start, Outside) == Some(|a|) && cs[start..|a|] == a[start..]
  {
    assert cs[start..|a|] == a[start..];
    WalkShift(cs, a[start..], start, |a|, 0, Outside);
    CutAfterWalk(cs, start, |a|, Outside);
    assert cs[|a|] == (a + ",")[|a|];
  }

  lemma InnerCut(a: string, cs: string, start: nat, cut: nat)
    requires a + "," <= cs && start <= cut < |a| && NextCut(a, start, Outside) == Some(cut)
    ensures NextCut(cs, start, Outside) == Some(cut) && cs[start..cut] == a[start..cut]
  {
    assert a <= a + ",";
    CutWithin(a, cs, start, Outside);
  }

  /** A comma behind a closed last piece cuts, and nothing else changes. */
  lemma {:induction false} PiecesThenComma(a: string, cs: string, start: nat)
    requires a + "," <= cs && start <= |a|
    requires Closed(Last(Pieces(a, start)), 0, |Last(Pieces(a, start))|)
    ensures Pieces(cs, start) == Pieces(a, start) + Pieces(cs, |a| + 1)
    decreases |a| - start
  {
    match NextCut(a, start, Outside)
    case None =>
      LastCut(a, cs, start);
    case Some(cut) =>
      InnerCut(a, cs, start, cut);
      PiecesThenComma(a, cs, cut + 1);
      Sequences.Regroup([a[start..cut]], Pieces(a, cut + 1), Pieces(cs, |a| + 1));
  }

  /** Two texts with a comma between them, cut into pieces. */
  lemma PiecesJoin(a: string, b: string)
    requires Closed(Last(Pieces(a, 0)), 0, |Last(Pieces(a, 0))|)
    ensures Pieces(a + "," + b, 0) == Pieces(a, 0) + Pieces(b, 0)
  {
    var cs := a + "," + b;
    PiecesThenComma(a, cs, 0);
    assert cs[|a| + 1..] == b;
    PiecesShift(cs, b, |a| + 1, 0);
  }

  lemma {:induction false} LastClosed(pieces: seq<string>, domains: Domains)
    requires pieces != [] && ReadAll(pieces, MailboxReader(domains)).Some?
    ensures Closed(Last(pieces), 0, |Last(pieces)|)
  {
    if |pieces| == 1 {
      assert ParseMailboxChars(pieces[0], domains).Some?;
      ShapeClosed(pieces[0]);
    } else {
      LastClosed(pieces[1..], domains);
    }
  }

  lemma {:induction false} ReadAllJoin(p: seq<string>, q: seq<string>, before: seq<Mailbox>, read: Reader)
    ensures Append(before, ReadAll(p + q, read)) ==
      match ReadAll(p, read) case None => None case Some(ms) => Append(before + ms, ReadAll(q, read))
    decreases |p|, 1
  {
    if p == [] {
      assert p + q == q && before + [] == before;
    } else {
      assert p + q == [p[0]] + (p[1..] + q);
      ReadAllStep(p[0], p[1..] + q, before, read);
      match read(p[0])
      case None =>
      case Some(m) => JoinStep(p, m, q, before, read);
    }
  }

  lemma {:induction false} JoinStep(p: seq<string>, m: Mailbox, q: seq<string>, before: seq<Mailbox>, read: Reader)
    requires p != [] && read(p[0]) == Some(m)
    ensures Append(before + [m], ReadAll(p[1..] + q, read)) ==
      match ReadAll(p, read) case None => None case Some(ms) => Append(before + ms, ReadAll(q, read))
    decreases |p|, 0
  {
    ReadAllJoin(p[1..], q, before + [m], read);
    match ReadAll(p[1..], read)
    case None =>
    case Some(ms) => assert before + ([m] + ms) == before + [m] + ms;
  }

  /* ---- The main results ---- */

  /** A text the grammar accepts is one piece. */
  lemma OnePiece(value: string)
    requires ShapeOf(value).Some?
    ensures Pieces(value, 0) == [value]
  {
    ShapeClosed(value);
    CutAfterWalk(value, 0, |value|, Outside);
    assert value[0..] == value;
  }

  /** Every value `ParseMailbox` accepts is a one-element list with the same mailbox. */
  lemma MailboxIsList(value: string, domains: Domains)
    requires ParseMailbox(value, domains).Some?
    ensures ParseList(value, domains) == Some([ParseMailbox(value, domains).value])
  {
    OnePiece(value);
    ListOfPieces(value, domains);
    OneElement(value, MailboxReader(domains));
  }

  lemma ForbiddenJoin(a: string, b: string)
    requires !HasForbidden(a) && !HasForbidden(b)
    ensures !HasForbidden(a + "," + b)
  {
    var cs := a + "," + b;
    forall i | 0 <= i < |cs|
      ensures !IsForbidden(cs[i])
    {
      assert cs[i] == if i < |a| then a[i] else if i == |a| then ',' else b[i - |a| - 1];
    }
  }

  /** For accepted lists `a` and `b`, the list of `a,b` is the concatenation of their lists. */
  lemma ListsConcatenate(a: string, b: string, domains: Domains)
    requires ParseList(a, domains).Some? && ParseList(b, domains).Some?
    ensures ParseList(a + "," + b, domains) ==
      Some(ParseList(a, domains).value + ParseList(b, domains).value)
  {
    var p, q, read := Pieces(a, 0), Pieces(b, 0), MailboxReader(domains);
    ForbiddenJoin(a, b);
    ListOfPieces(a, domains);
    ListOfPieces(b, domains);
    ListOfPieces(a + "," + b, domains);
    LastClosed(p, domains);
    PiecesJoin(a, b);
    ReadAllJoin(p, q, [], read);
    assert [] + ReadAll(p, read).value == ReadAll(p, read).value;
    assert ReadAll(p + q, read).Some? ==> [] + ReadAll(p + q, read).value == ReadAll(p + q, read).value;
  }
}
