/**
 Written mailboxes, read again: the addresses come back exactly, a quoted display name comes back
 exactly, an unquoted one with its whitespace collapsed and its ends stripped.
 */
module AddressRoundTrip {
  import opened Wrappers
  import opened Address
  import opened AddressLists
  import opened AddressPrinter
  import opened AddressReadBack

  /* ---- The domain rules ---- */

  predicate IsHostChar(c: char) {
    'a' <= c <= 'z' || '0' <= c <= '9' || c == '-' || c == '.'
  }

  /** A name the domain rules give back: lowercase ASCII, and its own A-label. */
  ghost predicate Settled(domains: Domains, d: string) {
    domains.lookup(d) == Some(d) && d != "" && forall i :: 0 <= i < |d| ==> IsHostChar(d[i])
  }

  /** Every A-label is settled. */
  ghost predicate Sound(domains: Domains) {
    forall raw :: domains.lookup(raw).Some? ==> Settled(domains, domains.lookup(raw).value)
  }

  /** The mailbox is one the grammar gave back, whatever its display name. */
  ghost predicate Accepted(m: Mailbox, domains: Domains) {
    exists token :: Validate(token, m.displayName, domains) == Some(m)
  }

  /** What `Validate` makes of the address as printed. */
  ghost predicate Stable(m: Mailbox, domains: Domains) {
    && (forall display :: Validate(m.AddrSpec(), display, domains) == Some(m.(displayName := display)))
    && IsAddress(m.AddrSpec())
  }

  lemma {:induction false} AtOfDotAtom(local: string, rest: string, i: nat, empty: bool)
    requires i <= |local| && IsDotAtom(local, i, empty)
    ensures FirstAt(local + "@" + rest, i) == Some(|local|)
    ensures forall k :: i <= k < |local| ==> Takes(AddrChar, local[k]) && IsPlainChar(local[k])
    decreases |local| - i
  {
    if i < |local| {
      assert (local + "@" + rest)[i] == local[i];
      AtOfDotAtom(local, rest, i + 1, local[i] == '.');
    } else {
      assert (local + "@" + rest)[i] == '@';
    }
  }

  lemma {:induction false} DotAtomOfNormal(local: string, i: nat, empty: bool)
    requires i <= |local| && IsDotAtom(local, i, empty)
    ensures IsDotAtom(AsciiLower(local), i, empty)
    decreases |local| - i
  {
    if i < |local| {
      DotAtomOfNormal(local, i + 1, local[i] == '.');
    }
  }

  lemma LowerTwice(text: string)
    ensures AsciiLower(AsciiLower(text)) == AsciiLower(text)
  {
  }

  /** The local part and the domain are as validation leaves them, and short enough. */
  ghost predicate Normal(m: Mailbox, domains: Domains) {
    && IsDotAtom(m.local, 0, true) && NormalLocal(m.local) == m.local && Settled(domains, m.domain)
    && |m.local| + 1 + Max(domains.unicodeBytes(m.domain), Utf8Bytes(m.domain)) <= 254
  }

  lemma AcceptedNormal(m: Mailbox, domains: Domains)
    requires Sound(domains) && Accepted(m, domains)
    ensures Normal(m, domains)
  {
    var token :| Validate(token, m.displayName, domains) == Some(m);
    var at := FirstAt(token, 0).value;
    var local, raw := token[..at], token[at + 1..];
    assert domains.lookup(raw) == Some(m.domain);
    DotAtomOfNormal(local, 0, true);
    LowerTwice(local);
  }

  /** Where the parts of a printed address are. */
  lemma PrintedAddress(m: Mailbox, domains: Domains)
    requires Normal(m, domains)
    ensures var addr := m.AddrSpec();
      && IsAddress(addr) && FirstAt(addr, 0) == Some(|m.local|)
      && addr[..|m.local|] == m.local && addr[|m.local| + 1..] == m.domain
  {
    var addr := m.AddrSpec();
    AtOfDotAtom(m.local, m.domain, 0, true);
    assert addr[|m.local|] == '@';
    forall i | 0 <= i < |addr|
      ensures Takes(AddrChar, addr[i]) && IsPlainChar(addr[i])
    {
      assert addr[i] ==
        if i < |m.local| then m.local[i] else if i == |m.local| then '@' else m.domain[i - |m.local| - 1];
    }
  }

  /** An accepted address, printed and validated again, is the same. */
  lemma AcceptedStable(m: Mailbox, domains: Domains)
    requires Sound(domains) && Accepted(m, domains)
    ensures Stable(m, domains)
  {
    AcceptedNormal(m, domains);
    PrintedAddress(m, domains);
  }

  /* ---- One mailbox ---- */

  /** The text is read as this mailbox, also behind a space. */
  ghost predicate ReadsAs(text: string, m: Mailbox, domains: Domains) {
    ParseMailboxChars(text, domains) == Some(m) && ParseMailboxChars(" " + text, domains) == Some(m)
  }

  /** A written mailbox is read as the mailbox with its written name as shown. */
  lemma MailboxReadsBack(m: Mailbox, name: string, domains: Domains)
    requires Stable(m, domains) && Fits(m, name)
    ensures ReadsAs(Written(m, name), m.(displayName := Shown(name)), domains)
  {
    ReadsBack("", m, name);
    ReadsBack(" ", m, name);
    assert "" + Written(m, name) == Written(m, name);
  }

  /* ---- Lists ---- */

  /** The element `i` of a list, up to the next comma. */
  function Element(texts: seq<string>, i: nat): string
    requires i < |texts|
  {
    (if i > 0 then " " else "") + texts[i]
  }

  function Elements(texts: seq<string>): (r: seq<string>)
    ensures |r| == |texts| && forall i :: 0 <= i < |texts| ==> r[i] == Element(texts, i)
  {
    seq(|texts|, i requires 0 <= i < |texts| => Element(texts, i))
  }

  /** The pieces from `i` on with commas between them. */
  function CommaJoin(pieces: seq<string>, i: nat): string
    requires i < |pieces|
    decreases |pieces| - i
  {
    if i + 1 == |pieces| then pieces[i] else pieces[i] + "," + CommaJoin(pieces, i + 1)
  }

  lemma {:induction false} WrittenIsJoined(texts: seq<string>, i: nat)
    requires i < |texts|
    ensures JoinFrom(texts, i) == (if i > 0 then "," else "") + CommaJoin(Elements(texts), i)
    decreases |texts| - i
  {
    var rest := if i + 1 == |texts| then "" else CommaJoin(Elements(texts), i + 1);
    if i + 1 < |texts| {
      WrittenIsJoined(texts, i + 1);
    }
    CommaAndSpace(i > 0, texts[i], rest);
  }

  lemma CommaAndSpace(inner: bool, one: string, rest: string)
    ensures (if inner then ", " else "") + one + ("," + rest) ==
      (if inner then "," else "") + ((if inner then " " else "") + one + "," + rest)
    ensures (if inner then ", " else "") + one + "" ==
      (if inner then "," else "") + ((if inner then " " else "") + one)
  {
    if inner {
      assert ", " == "," + " ";
    }
  }

  /** A text the splitter never cuts, which is one mailbox. */
  ghost predicate IsElement(piece: string, m: Mailbox, read: Reader) {
    Pieces(piece, 0) == [piece] && Closed(piece, 0, |piece|) && read(piece) == Some(m)
  }

  lemma ElementReadsBack(texts: seq<string>, i: nat, m: Mailbox, domains: Domains)
    requires i < |texts| && ReadsAs(texts[i], m, domains)
    ensures IsElement(Element(texts, i), m, MailboxReader(domains))
  {
    assert "" + texts[i] == texts[i];
    OnePiece(Element(texts, i));
    ShapeClosed(Element(texts, i));
  }

  lemma ElementThenRest(piece: string, m: Mailbox, rest: string, ms: seq<Mailbox>, read: Reader)
    requires IsElement(piece, m, read) && ReadAll(Pieces(rest, 0), read) == Some(ms)
    ensures ReadAll(Pieces(piece + "," + rest, 0), read) == Some([m] + ms)
  {
    PiecesJoin(piece, rest);
    assert ([piece] + Pieces(rest, 0))[1..] == Pieces(rest, 0);
  }

  lemma {:induction false} JoinedReadsBack(pieces: seq<string>, i: nat, ms: seq<Mailbox>, read: Reader)
    requires i < |pieces| == |ms|
    requires forall k :: 0 <= k < |ms| ==> IsElement(pieces[k], ms[k], read)
    ensures ReadAll(Pieces(CommaJoin(pieces, i), 0), read) == Some(ms[i..])
    decreases |ms| - i
  {
    if i + 1 == |ms| {
      OneElement(pieces[i], read);
      assert ms[i..] == [ms[i]];
    } else {
      JoinedReadsBack(pieces, i + 1, ms, read);
      ElementThenRest(pieces[i], ms[i], CommaJoin(pieces, i + 1), ms[i + 1..], read);
      assert ms[i..] == [ms[i]] + ms[i + 1..];
    }
  }

  /* ---- The characters of a written list ---- */

  lemma {:induction false} ReplacePlain(text: string, i: nat, c: char, with: string)
    requires i <= |text| && IsPlain(text) && IsPlain(with)
    ensures IsPlain(Replace(text, i, c, with))
    decreases |text| - i
  {
    if i < |text| {
      ReplacePlain(text, i + 1, c, with);
    }
  }

  lemma WrittenPlain(m: Mailbox, name: string)
    requires IsPlain(name) && IsAddress(m.AddrSpec())
    ensures IsPlain(Written(m, name))
  {
    ReplacePlain(name, 0, '\\', "\\\\");
    ReplacePlain(Replace(name, 0, '\\', "\\\\"), 0, '"', "\\\"");
  }

  lemma {:induction false} JoinedPlain(texts: seq<string>, i: nat)
    requires i <= |texts| && forall k :: 0 <= k < |texts| ==> IsPlain(texts[k])
    ensures IsPlain(JoinFrom(texts, i))
    decreases |texts| - i
  {
    if i < |texts| {
      JoinedPlain(texts, i + 1);
    }
  }

  lemma PlainNotForbidden(text: string)
    requires IsPlain(text)
    ensures !HasForbidden(text)
  {
    forall i | 0 <= i < |text|
      ensures !IsForbidden(text[i])
    {
      assert IsPlainChar(text[i]);
    }
  }

  /* ---- The main result ---- */

  /** A list of texts that are read as mailboxes is read as the list of these mailboxes. */
  lemma ListReadsBack(texts: seq<string>, ms: seq<Mailbox>, domains: Domains)
    requires |texts| == |ms| > 0
    requires forall i :: 0 <= i < |ms| ==> ReadsAs(texts[i], ms[i], domains) && IsPlain(texts[i])
    ensures ParseList(JoinFrom(texts, 0), domains) == Some(ms)
  {
    var read := MailboxReader(domains);
    forall i | 0 <= i < |ms|
      ensures IsElement(Elements(texts)[i], ms[i], read)
    {
      ElementReadsBack(texts, i, ms[i], domains);
    }
    JoinedPlain(texts, 0);
    PlainNotForbidden(JoinFrom(texts, 0));
    WrittenIsJoined(texts, 0);
    JoinedReadsBack(Elements(texts), 0, ms, read);
    ListOfPieces(JoinFrom(texts, 0), domains);
  }
}
