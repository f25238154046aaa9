/**
 What parsing a written address header gives back: the same addresses, with each display name as it
 was forwarded and shown.
 */
module AddressWritten {
  import opened Wrappers
  import opened Text
  import opened Address
  import opened AddressPrinter
  import opened AddressReadBack
  import opened AddressRoundTrip
  import opened AddressFixpoint
  import opened AddressHeader
  import opened CollapsedWords
  import Base64
  import EncodedWords
  import WordForwarding
  import WordPieces
  import WordSplitting

  /* ---- The chars of a forwarded name ---- */

  /** A char of a base64 word. */
  predicate IsWordPart(c: char) {
    Base64.SymbolValue(c).Some? || c == '=' || c == '?' || c == ' '
  }

  /** Every char of the text is one of `from`, or of a base64 word. */
  ghost predicate IsMadeOf(text: string, from: string) {
    forall i :: 0 <= i < |text| ==> text[i] in from || IsWordPart(text[i])
  }

  lemma {:induction false} SymbolsAreParts(bytes: seq<byte>, from: string)
    ensures IsMadeOf(Base64.Symbols(bytes), from)
  {
    if |bytes| > 2 {
      SymbolsAreParts(bytes[3..], from);
    }
  }

  lemma EncodedIsMadeOf(bytes: seq<byte>, from: string)
    ensures IsMadeOf(Base64.Encode(bytes), from)
  {
    SymbolsAreParts(bytes, from);
  }

  lemma OneWordIsMadeOf(charset: string, text: string, from: string)
    requires IsMadeOf(charset, from) && IsMadeOf(text, from)
    ensures IsMadeOf(WordPieces.WriteWord(charset, text), from)
  {
    assert IsMadeOf("=?", from) && IsMadeOf("?b?", from) && IsMadeOf("?=", from);
  }

  lemma {:induction false} WordsAreMadeOf(charset: string, texts: seq<string>, from: string)
    requires IsMadeOf(charset, from) && forall i :: 0 <= i < |texts| ==> IsMadeOf(texts[i], from)
    ensures IsMadeOf(WordPieces.WriteWords(charset, texts), from)
    decreases |texts|
  {
    if texts != [] {
      OneWordIsMadeOf(charset, texts[0], from);
      WordsAreMadeOf(charset, texts[1..], from);
    }
  }

  lemma SplitIsMadeOf(charset: string, bytes: seq<byte>, valid: WordPieces.Utf8Check, from: string)
    requires IsMadeOf(charset, from) && WordPieces.SplitWord(charset, bytes, valid).Some?
    ensures IsMadeOf(WordPieces.SplitWord(charset, bytes, valid).value, from)
  {
    var room := WordPieces.Room(charset).value;
    var pieces := WordPieces.Pieces(bytes, 0, room, WordSplitting.IsUtf8(charset)).value;
    forall i | 0 <= i < |pieces| ensures IsMadeOf(WordPieces.Encodings(pieces)[i], from) {
      EncodedIsMadeOf(pieces[i], from);
    }
    WordsAreMadeOf(charset, WordPieces.Encodings(pieces), from);
  }

  lemma CharsetIsMadeOf(v: string, w: EncodedWords.Word)
    requires EncodedWords.IsWord(v, w)
    ensures IsMadeOf(w.charset, v)
  {
    var c :| EncodedWords.IsCte(c, w.base64) && v[w.start..w.end] == "=?" + w.charset + "?" + [c] + "?" + w.text + "?=";
    EncodedWords.Layout(v, w.start, w.charset, c, w.text);
    forall i | 0 <= i < |w.charset| ensures w.charset[i] in v {
      assert v[w.start + 2..w.start + 2 + |w.charset|][i] == v[w.start + 2 + i];
    }
  }

  lemma PieceIsMadeOf(v: string, w: EncodedWords.Word, valid: WordPieces.Utf8Check)
    requires EncodedWords.IsWord(v, w) && WordForwarding.Replacing(true, valid)(w).Some?
    ensures IsMadeOf(WordForwarding.Replacing(true, valid)(w).value, v)
  {
    CharsetIsMadeOf(v, w);
    SplitIsMadeOf(w.charset, WordForwarding.SafeBytes(w, true).value, valid, v);
  }

  lemma {:induction false} ReplacedIsMadeOf(
    v: string, longs: seq<EncodedWords.Word>, at: nat, valid: WordPieces.Utf8Check)
    requires WordForwarding.InRange(v, longs) && at <= |v| && WordForwarding.Apart(v, longs, at)
    requires WordForwarding.AllSplit(longs, WordForwarding.Replacing(true, valid))
    requires forall i :: 0 <= i < |longs| ==> EncodedWords.IsWord(v, longs[i])
    ensures IsMadeOf(WordForwarding.Replaced(v, longs, at, WordForwarding.Replacing(true, valid)), v)
    decreases |longs|
  {
    if longs != [] {
      PieceIsMadeOf(v, longs[0], valid);
      ReplacedIsMadeOf(v, longs[1..], longs[0].end, valid);
    }
  }

  lemma {:induction false} LongWordsAreWords(v: string, words: seq<EncodedWords.Word>)
    requires WordForwarding.InRange(v, words)
    ensures forall i :: 0 <= i < |WordForwarding.LongWords(v, words)| ==>
      WordForwarding.LongWords(v, words)[i] in words
  {
    if words != [] {
      LongWordsAreWords(v, words[1..]);
    }
  }

  /** A forwarded name is made of the chars of the name and of base64 words; a quoted one is the name. */
  lemma ForwardedChars(display: string, valid: WordPieces.Utf8Check)
    requires Forwarded(display, valid).Some?
    ensures IsMadeOf(Forwarded(display, valid).value, display)
    ensures HasSpecial(display) || display == "" ==> Forwarded(display, valid).value == display
  {
    WordForwarding.ForwardableIs(display, true, HasSpecial(display), valid);
    EncodedWords.WordsExact(display);
    var words := EncodedWords.Words(display);
    LongWordsAreWords(display, words);
    ReplacedIsMadeOf(display, WordForwarding.LongWords(display, words), 0, valid);
    assert display[0..] == display;
  }

  lemma NoSpecialParts(text: string, from: string)
    requires IsMadeOf(text, from)
    ensures !HasSpecial(from) ==> !HasSpecial(text)
    ensures IsPlain(from) ==> IsPlain(text)
  {
    forall i | 0 <= i < |text|
      ensures !HasSpecial(from) ==> text[i] !in SPECIALS
      ensures IsPlain(from) ==> IsPlainChar(text[i])
    {
      if text[i] in from {
        var k :| 0 <= k < |from| && from[k] == text[i];
      }
    }
  }

  /* ---- The text of a header ---- */

  /** The header as a text, if nothing in it is written as encoded words. */
  function RawText(chunks: seq<Chunk>): Option<string> {
    if chunks == [] then Some("")
    else if chunks[0].Encoded? then None
    else
      var rest :- RawText(chunks[1..]);
      Some(chunks[0].text + rest)
  }

  function Joined(a: Option<string>, b: Option<string>): Option<string> {
    match (a, b) case (Some(x), Some(y)) => Some(x + y) case _ => None
  }

  lemma FirstText(c: Chunk, rest: seq<Chunk>)
    ensures RawText([c] + rest) == if c.Encoded? then None else Joined(Some(c.text), RawText(rest))
  {
    assert ([c] + rest)[1..] == rest;
  }

  lemma JoinedGroups(a: string, b: Option<string>, c: Option<string>)
    ensures Joined(Some(a), Joined(b, c)) == Joined(Joined(Some(a), b), c)
  {
    match (b, c)
    case (Some(x), Some(y)) => assert a + (x + y) == a + x + y;
    case _ =>
  }

  lemma {:induction false} RawTextJoins(a: seq<Chunk>, b: seq<Chunk>)
    ensures RawText(a + b) == Joined(RawText(a), RawText(b))
  {
    if a == [] {
      assert a + b == b;
      match RawText(b)
      case None =>
      case Some(y) => assert "" + y == y;
    } else {
      RawTextJoins(a[1..], b);
      FirstText(a[0], a[1..]);
      FirstText(a[0], a[1..] + b);
      JoinedGroups(a[0].text, RawText(a[1..]), RawText(b));
      assert a == [a[0]] + a[1..] && a + b == [a[0]] + (a[1..] + b);
    }
  }

  lemma RawOne(a: string)
    ensures RawText([Raw(a)]) == Some(a)
  {
    assert [Raw(a)][1..] == [] && a + "" == a;
  }

  lemma RawPair(a: Chunk, b: string)
    ensures RawText([a, Raw(b)]) == if a.Raw? then Some(a.text + b) else None
  {
    RawOne(b);
    assert [a, Raw(b)][1..] == [Raw(b)];
  }

  lemma {:induction false} ReplacedPlain(text: string, i: nat, c: char, with: string)
    requires i <= |text| && IsPlainChar(c) && IsPlain(Replace(text, i, c, with))
    ensures forall k :: i <= k < |text| ==> IsPlainChar(text[k])
    decreases |text| - i
  {
    if i < |text| {
      var head, rest := if text[i] == c then with else [text[i]], Replace(text, i + 1, c, with);
      assert Replace(text, i, c, with) == head + rest;
      assert forall k :: 0 <= k < |rest| ==> rest[k] == (head + rest)[|head| + k];
      assert text[i] != c ==> (head + rest)[0] == text[i];
      ReplacedPlain(text, i + 1, c, with);
    }
  }

  lemma QuotedPlain(display: string)
    requires IsPlain(QuoteName(display))
    ensures IsPlain(display)
  {
    if HasSpecial(display) {
      var once := Replace(display, 0, '\\', "\\\\");
      var all := "\"" + Escape(display) + "\"";
      assert forall k :: 0 <= k < |Escape(display)| ==> Escape(display)[k] == all[k + 1];
      ReplacedPlain(once, 0, '"', "\\\"");
      ReplacedPlain(display, 0, '\\', "\\\\");
    }
  }

  /** The display name as it is written. */
  function SentName(m: Mailbox, valid: WordPieces.Utf8Check): string {
    match Forwarded(m.displayName, valid) case None => m.displayName case Some(name) => name
  }

  lemma SentFits(m: Mailbox, valid: WordPieces.Utf8Check)
    requires m.displayName == "" || Forwarded(m.displayName, valid).Some?
    ensures Fits(m, SentName(m, valid))
    ensures IsPlain(m.displayName) ==> IsPlain(SentName(m, valid))
  {
    if Forwarded(m.displayName, valid).Some? {
      ForwardedChars(m.displayName, valid);
      NoSpecialParts(SentName(m, valid), m.displayName);
    }
  }

  /** A mailbox whose chunks are all text is written with its forwarded name. */
  lemma MailboxText(m: Mailbox, prefix: nat, valid: WordPieces.Utf8Check)
    requires MailboxChunks(m, prefix, valid).Some? && RawText(MailboxChunks(m, prefix, valid).value).Some?
    ensures RawText(MailboxChunks(m, prefix, valid).value).value == Written(m, SentName(m, valid))
    ensures Fits(m, SentName(m, valid)) && IsPlain(SentName(m, valid))
  {
    if m.displayName == "" {
      RawOne(m.AddrSpec());
    } else {
      var name := NameChunk(m.displayName, prefix, valid).value;
      RawPair(name, " <" + m.AddrSpec() + ">");
      QuotedPlain(m.displayName);
      assert name.text + (" <" + m.AddrSpec() + ">") == name.text + " <" + m.AddrSpec() + ">";
    }
    SentFits(m, valid);
  }

  function Texts(ms: seq<Mailbox>, valid: WordPieces.Utf8Check): (r: seq<string>)
    ensures |r| == |ms| && forall i :: 0 <= i < |ms| ==> r[i] == Written(ms[i], SentName(ms[i], valid))
  {
    seq(|ms|, i requires 0 <= i < |ms| => Written(ms[i], SentName(ms[i], valid)))
  }

  ghost predicate IsSendable(m: Mailbox, valid: WordPieces.Utf8Check) {
    Fits(m, SentName(m, valid)) && IsPlain(SentName(m, valid))
  }

  /** One mailbox in front of the rest of the header. */
  lemma OneText(inner: bool, one: seq<Chunk>, rest: seq<Chunk>)
    ensures RawText((if inner then [Raw(", ")] else []) + one + rest) ==
      match (RawText(one), RawText(rest))
      case (Some(x), Some(y)) => Some((if inner then ", " else "") + x + y)
      case _ => None
  {
    var separator := if inner then [Raw(", ")] else [];
    RawOne(", ");
    RawTextJoins(separator, one);
    RawTextJoins(separator + one, rest);
  }

  /** The header text of a list of mailboxes, if it is written and nothing in it is encoded. */
  function HeaderOf(ms: seq<Mailbox>, prefix: nat, valid: WordPieces.Utf8Check): Option<string> {
    var chunks :- HeaderChunks(ms, prefix, valid);
    RawText(chunks)
  }

  /** A header that is all text is the join of the texts of its parts. */
  lemma {:induction false} JoinedText(parts: seq<Option<seq<Chunk>>>, texts: seq<string>, i: nat)
    requires i <= |parts| == |texts| && JoinChunks(parts, i).Some? && RawText(JoinChunks(parts, i).value).Some?
    requires forall k :: 0 <= k < |parts| && parts[k].Some? && RawText(parts[k].value).Some? ==>
      RawText(parts[k].value).value == texts[k]
    ensures RawText(JoinChunks(parts, i).value).value == JoinFrom(texts, i)
    ensures forall k :: i <= k < |parts| ==> parts[k].Some? && RawText(parts[k].value).Some?
    decreases |parts| - i
  {
    if i < |parts| {
      OneText(i > 0, parts[i].value, JoinChunks(parts, i + 1).value);
      JoinedText(parts, texts, i + 1);
    }
  }

  lemma HeaderText(ms: seq<Mailbox>, prefix: nat, valid: WordPieces.Utf8Check)
    requires HeaderOf(ms, prefix, valid).Some?
    ensures HeaderOf(ms, prefix, valid).value == JoinFrom(Texts(ms, valid), 0)
    ensures forall k :: 0 <= k < |ms| ==> IsSendable(ms[k], valid)
  {
    var parts := AllChunks(ms, prefix, valid);
    forall k | 0 <= k < |ms| && parts[k].Some? && RawText(parts[k].value).Some?
      ensures RawText(parts[k].value).value == Texts(ms, valid)[k] && IsSendable(ms[k], valid)
    {
      MailboxText(ms[k], prefix, valid);
    }
    JoinedText(parts, Texts(ms, valid), 0);
  }

  /* ---- What is refused ---- */

  /** The address holds an encoded word, or the display name one that is not forwarded. */
  predicate IsRefused(m: Mailbox, prefix: nat, valid: WordPieces.Utf8Check) {
    || HoldsWord(m.local)
    || (HoldsWord(m.displayName)
        && (IsWritable(QuoteName(m.displayName), prefix + ADDRESS_ROOM) ==> Forwarded(m.displayName, valid).None?))
  }

  lemma RefusedMailbox(m: Mailbox, prefix: nat, valid: WordPieces.Utf8Check)
    ensures MailboxChunks(m, prefix, valid).None? <==> IsRefused(m, prefix, valid)
  {
    if !HoldsWord(m.displayName) {
      WordForwarding.ShortWordsUnchanged(m.displayName, true, HasSpecial(m.displayName), valid);
    }
  }

  lemma {:induction false} RefusedParts(parts: seq<Option<seq<Chunk>>>, i: nat)
    requires i <= |parts|
    ensures JoinChunks(parts, i).None? <==> exists k :: i <= k < |parts| && parts[k].None?
    decreases |parts| - i
  {
    if i < |parts| {
      RefusedParts(parts, i + 1);
    }
  }

  /** A header is refused exactly if one of its mailboxes is; without encoded words none is. */
  lemma RefusedExactly(ms: seq<Mailbox>, prefix: nat, valid: WordPieces.Utf8Check)
    ensures HeaderChunks(ms, prefix, valid).None? <==> exists i :: 0 <= i < |ms| && IsRefused(ms[i], prefix, valid)
  {
    var parts := AllChunks(ms, prefix, valid);
    RefusedParts(parts, 0);
    forall i | 0 <= i < |ms| ensures parts[i].None? <==> IsRefused(ms[i], prefix, valid) {
      RefusedMailbox(ms[i], prefix, valid);
    }
  }

  /* ---- What is written as text ---- */

  /** The display name, quoted if it must be, needs no encoding. */
  predicate NameIsText(m: Mailbox, prefix: nat) {
    m.displayName != "" ==> IsWritable(QuoteName(m.displayName), prefix + ADDRESS_ROOM)
  }

  /** No mailbox is refused, and every display name can be written as received. */
  ghost predicate IsWrittenAsText(ms: seq<Mailbox>, prefix: nat, valid: WordPieces.Utf8Check) {
    forall i :: 0 <= i < |ms| ==> !IsRefused(ms[i], prefix, valid) && NameIsText(ms[i], prefix)
  }

  lemma TextMailbox(m: Mailbox, prefix: nat, valid: WordPieces.Utf8Check)
    ensures var chunks := MailboxChunks(m, prefix, valid);
      chunks.Some? && RawText(chunks.value).Some? <==> !IsRefused(m, prefix, valid) && NameIsText(m, prefix)
  {
    RefusedMailbox(m, prefix, valid);
    if MailboxChunks(m, prefix, valid).Some? {
      if m.displayName == "" {
        RawOne(m.AddrSpec());
      } else {
        RawPair(NameChunk(m.displayName, prefix, valid).value, " <" + m.AddrSpec() + ">");
      }
    }
  }

  lemma {:induction false} AllText(parts: seq<Option<seq<Chunk>>>, i: nat)
    requires i <= |parts| && forall k :: 0 <= k < |parts| ==> parts[k].Some? && RawText(parts[k].value).Some?
    ensures JoinChunks(parts, i).Some? && RawText(JoinChunks(parts, i).value).Some?
    decreases |parts| - i
  {
    if i < |parts| {
      AllText(parts, i + 1);
      OneText(i > 0, parts[i].value, JoinChunks(parts, i + 1).value);
    }
  }

  lemma EachIsText(ms: seq<Mailbox>, prefix: nat, valid: WordPieces.Utf8Check, i: nat)
    requires HeaderOf(ms, prefix, valid).Some? && i < |ms|
    ensures MailboxChunks(ms[i], prefix, valid).Some? && RawText(MailboxChunks(ms[i], prefix, valid).value).Some?
  {
    var parts := AllChunks(ms, prefix, valid);
    forall k | 0 <= k < |ms| && parts[k].Some? && RawText(parts[k].value).Some?
      ensures RawText(parts[k].value).value == Texts(ms, valid)[k]
    {
      MailboxText(ms[k], prefix, valid);
    }
    JoinedText(parts, Texts(ms, valid), 0);
    assert parts[i] == MailboxChunks(ms[i], prefix, valid);
  }

  /** The header is written, and nothing in it is encoded, exactly if each mailbox can be written as text. */
  lemma TextExactly(ms: seq<Mailbox>, prefix: nat, valid: WordPieces.Utf8Check)
    ensures HeaderOf(ms, prefix, valid).Some? <==> IsWrittenAsText(ms, prefix, valid)
  {
    var parts := AllChunks(ms, prefix, valid);
    forall i | 0 <= i < |ms|
      ensures parts[i].Some? && RawText(parts[i].value).Some? <==>
        !IsRefused(ms[i], prefix, valid) && NameIsText(ms[i], prefix)
    {
      TextMailbox(ms[i], prefix, valid);
    }
    if HeaderOf(ms, prefix, valid).Some? {
      forall i | 0 <= i < |ms| ensures parts[i].Some? && RawText(parts[i].value).Some? {
        EachIsText(ms, prefix, valid, i);
      }
    }
    if IsWrittenAsText(ms, prefix, valid) {
      AllText(parts, 0);
    }
  }

  /* ---- What comes back ---- */

  /** The mailbox as a receiver reads it: the display name as forwarded, and shown. */
  function Back(m: Mailbox, valid: WordPieces.Utf8Check): Mailbox {
    m.(displayName := Shown(SentName(m, valid)))
  }

  function BackAll(ms: seq<Mailbox>, valid: WordPieces.Utf8Check): (r: seq<Mailbox>)
    ensures |r| == |ms| && forall i :: 0 <= i < |ms| ==> r[i] == Back(ms[i], valid)
  {
    seq(|ms|, i requires 0 <= i < |ms| => Back(ms[i], valid))
  }

  ghost predicate AllAccepted(ms: seq<Mailbox>, domains: Domains) {
    forall i :: 0 <= i < |ms| ==> Accepted(ms[i], domains)
  }

  /** The header is there, and parses to the list. */
  predicate ParsesTo(header: Option<string>, ms: seq<Mailbox>, domains: Domains) {
    header.Some? && ParseList(header.value, domains) == Some(ms)
  }

  /**
   Re-parsing the written header of accepted mailboxes gives back every mailbox: its address exactly,
   a quoted name exactly, an unquoted one with its long words split and its whitespace collapsed.
   */
  lemma WriteThenParse(ms: seq<Mailbox>, prefix: nat, domains: Domains, valid: WordPieces.Utf8Check)
    requires Sound(domains) && ms != [] && AllAccepted(ms, domains)
    requires IsWrittenAsText(ms, prefix, valid)
    ensures ParsesTo(HeaderOf(ms, prefix, valid), BackAll(ms, valid), domains)
  {
    TextExactly(ms, prefix, valid);
    HeaderText(ms, prefix, valid);
    forall i | 0 <= i < |ms|
      ensures ReadsAs(Texts(ms, valid)[i], BackAll(ms, valid)[i], domains) && IsPlain(Texts(ms, valid)[i])
    {
      assert IsSendable(ms[i], valid);
      AcceptedStable(ms[i], domains);
      MailboxReadsBack(ms[i], SentName(ms[i], valid), domains);
      WrittenPlain(ms[i], SentName(ms[i], valid));
    }
    ListReadsBack(Texts(ms, valid), BackAll(ms, valid), domains);
  }

  /* ---- When the list comes back exactly ---- */

  /** The name has no word that is too long. */
  predicate HasNoLongWord(display: string) {
    WordForwarding.FoundInRange(display, 0);
    WordForwarding.LongWords(display, EncodedWords.Words(display)) == []
  }

  ghost predicate NoLongWords(ms: seq<Mailbox>) {
    forall i :: 0 <= i < |ms| ==> HasNoLongWord(ms[i].displayName)
  }

  lemma ShortIsSent(m: Mailbox, valid: WordPieces.Utf8Check)
    requires HasNoLongWord(m.displayName)
    ensures SentName(m, valid) == m.displayName
  {
    WordForwarding.ForwardableIs(m.displayName, true, HasSpecial(m.displayName), valid);
    assert m.displayName[0..] == m.displayName;
  }

  lemma BackExactly(ms: seq<Mailbox>, valid: WordPieces.Utf8Check)
    requires NoLongWords(ms)
    ensures BackAll(ms, valid) == ms <==>
      forall i :: 0 <= i < |ms| ==> HasSpecial(ms[i].displayName) || IsTidy(ms[i].displayName)
  {
    forall i | 0 <= i < |ms|
      ensures BackAll(ms, valid)[i] == ms[i] <==> HasSpecial(ms[i].displayName) || IsTidy(ms[i].displayName)
    {
      ShortIsSent(ms[i], valid);
      ShownExact(ms[i].displayName);
    }
  }

  /** Without long words the list comes back exactly if and only if every display name is quoted or tidy. */
  lemma WrittenExactly(ms: seq<Mailbox>, prefix: nat, domains: Domains, valid: WordPieces.Utf8Check)
    requires Sound(domains) && ms != [] && AllAccepted(ms, domains) && NoLongWords(ms)
    requires IsWrittenAsText(ms, prefix, valid)
    ensures ParsesTo(HeaderOf(ms, prefix, valid), ms, domains) <==>
      forall i :: 0 <= i < |ms| ==> HasSpecial(ms[i].displayName) || IsTidy(ms[i].displayName)
  {
    WriteThenParse(ms, prefix, domains, valid);
    BackExactly(ms, valid);
  }

  lemma BackAccepted(ms: seq<Mailbox>, domains: Domains, valid: WordPieces.Utf8Check)
    requires AllAccepted(ms, domains)
    ensures AllAccepted(BackAll(ms, valid), domains)
  {
    forall i | 0 <= i < |ms| ensures Accepted(BackAll(ms, valid)[i], domains) {
      var token :| Validate(token, ms[i].displayName, domains) == Some(ms[i]);
      assert Validate(token, Back(ms[i], valid).displayName, domains) == Some(Back(ms[i], valid));
    }
  }

  /** What was read back is quoted or tidy. */
  lemma BackIsShown(m: Mailbox, valid: WordPieces.Utf8Check)
    ensures var display := Back(m, valid).displayName; HasSpecial(display) || IsTidy(display)
  {
    ShownTwice(SentName(m, valid));
    ShownExact(Shown(SentName(m, valid)));
  }

  /**
   Writing what was read back, and parsing that: the second header is written as text exactly if its
   list can be, and gives back that list as forwarded and shown, unchanged if it has no long word.
   */
  lemma SecondRound(ms: seq<Mailbox>, prefix: nat, domains: Domains, valid: WordPieces.Utf8Check)
    requires Sound(domains) && ms != [] && AllAccepted(ms, domains) && IsWrittenAsText(ms, prefix, valid)
    ensures var back := BackAll(ms, valid);
      var second := HeaderOf(back, prefix, valid);
      && ParsesTo(HeaderOf(ms, prefix, valid), back, domains)
      && (second.Some? <==> IsWrittenAsText(back, prefix, valid))
      && (second.Some? ==> ParsesTo(second, BackAll(back, valid), domains))
      && (NoLongWords(back) ==> BackAll(back, valid) == back)
  {
    var back := BackAll(ms, valid);
    WriteThenParse(ms, prefix, domains, valid);
    BackAccepted(ms, domains, valid);
    TextExactly(back, prefix, valid);
    if IsWrittenAsText(back, prefix, valid) {
      WriteThenParse(back, prefix, domains, valid);
    }
    if NoLongWords(back) {
      forall i | 0 <= i < |back| ensures HasSpecial(back[i].displayName) || IsTidy(back[i].displayName) {
        BackIsShown(ms[i], valid);
      }
      BackExactly(back, valid);
    }
  }

  /* ---- Without encoded words ---- */

  ghost predicate NoWords(ms: seq<Mailbox>) {
    forall i :: 0 <= i < |ms| ==> !HoldsWord(ms[i].displayName)
  }

  lemma WordlessIsSent(m: Mailbox, valid: WordPieces.Utf8Check)
    requires !HoldsWord(m.displayName)
    ensures SentName(m, valid) == m.displayName && Forwarded(m.displayName, valid) == Some(m.displayName)
    ensures HasNoLongWord(m.displayName)
  {
    WordForwarding.ShortWordsUnchanged(m.displayName, true, HasSpecial(m.displayName), valid);
  }

  lemma ShownIsWordless(display: string)
    requires !HoldsWord(display)
    ensures !HoldsWord(Shown(display))
  {
    CollapseKeepsWords(display);
  }

  /** A shown name can be written where the name can. */
  lemma ShownIsWritable(display: string, reserve: nat)
    requires IsWritable(QuoteName(display), reserve)
    ensures IsWritable(QuoteName(Shown(display)), reserve)
  {
    if !HasSpecial(display) {
      ShownTwice(display);
      JoinedHasNoSpecial(display);
      CollapseFits(display, reserve);
    }
  }

  lemma JoinedHasNoSpecial(display: string)
    requires !HasSpecial(display)
    ensures !HasSpecial(Shown(display))
  {
    JoinChars(display, 0);
    var shown := Shown(display);
    forall i | 0 <= i < |shown| ensures shown[i] !in SPECIALS {
      if shown[i] != ' ' {
        var k :| 0 <= k < |display| && display[k] == shown[i];
      }
    }
  }

  /** A mailbox that was written as text is written as text again. */
  lemma WrittenAgain(m: Mailbox, prefix: nat, valid: WordPieces.Utf8Check)
    requires !IsRefused(m, prefix, valid) && NameIsText(m, prefix) && !HoldsWord(m.displayName)
    ensures var back := Back(m, valid);
      && !HoldsWord(back.displayName) && Back(back, valid) == back
      && !IsRefused(back, prefix, valid) && NameIsText(back, prefix)
  {
    var back := Back(m, valid);
    WordlessIsSent(m, valid);
    ShownIsWordless(m.displayName);
    WordlessIsSent(back, valid);
    ShownTwice(m.displayName);
    if m.displayName != "" {
      ShownIsWritable(m.displayName, prefix + ADDRESS_ROOM);
    }
  }

  /** Without encoded words, what was written and read back is written and read back again, unchanged. */
  lemma Fixpoint(ms: seq<Mailbox>, prefix: nat, domains: Domains, valid: WordPieces.Utf8Check)
    requires Sound(domains) && ms != [] && AllAccepted(ms, domains) && NoWords(ms)
    requires IsWrittenAsText(ms, prefix, valid)
    ensures var back := BackAll(ms, valid);
      && ParsesTo(HeaderOf(ms, prefix, valid), back, domains)
      && ParsesTo(HeaderOf(back, prefix, valid), back, domains)
  {
    var back := BackAll(ms, valid);
    forall i | 0 <= i < |ms|
      ensures !IsRefused(back[i], prefix, valid) && NameIsText(back[i], prefix)
      ensures BackAll(back, valid)[i] == back[i]
    {
      WrittenAgain(ms[i], prefix, valid);
    }
    WriteThenParse(ms, prefix, domains, valid);
    BackAccepted(ms, domains, valid);
    WriteThenParse(back, prefix, domains, valid);
    assert BackAll(back, valid) == back;
  }

  /* ---- From a header value on ---- */

  lemma ReaderAccepts(piece: string, domains: Domains)
    ensures var m := MailboxReader(domains)(piece); m.Some? ==> Accepted(m.value, domains)
  {
    var m := ParseMailboxChars(piece, domains);
    if m.Some? {
      var shape := ShapeOf(piece).value;
      assert Validate(shape.token, m.value.displayName, domains) == m;
    }
  }

  /** Everything a list parses to was accepted. */
  lemma {:induction false} ListAccepted(cs: string, start: nat, before: seq<Mailbox>, read: Reader, domains: Domains)
    requires start <= |cs| && forall i :: 0 <= i < |before| ==> Accepted(before[i], domains)
    requires forall piece :: read(piece).Some? ==> Accepted(read(piece).value, domains)
    ensures var r := ListFrom(cs, start, before, read);
      r.Some? ==> r.value != [] && forall i :: 0 <= i < |r.value| ==> Accepted(r.value[i], domains)
    decreases |cs| - start
  {
    match NextCut(cs, start, Outside)
    case None =>
    case Some(cut) =>
      var m := read(cs[start..cut]);
      if m.Some? {
        ListAccepted(cs, cut + 1, before + [m.value], read, domains);
      }
  }

  lemma ParsedAccepted(value: string, domains: Domains)
    requires ParseList(value, domains).Some?
    ensures ParseList(value, domains).value != []
    ensures forall i :: 0 <= i < |ParseList(value, domains).value| ==>
      Accepted(ParseList(value, domains).value[i], domains)
  {
    forall piece | MailboxReader(domains)(piece).Some?
      ensures Accepted(MailboxReader(domains)(piece).value, domains)
    {
      ReaderAccepts(piece, domains);
    }
    ListAccepted(value, 0, [], MailboxReader(domains), domains);
  }

  /**
   From any accepted header value on: its list, written as text and parsed, comes back as forwarded and
   shown; without encoded words, writing and parsing is a fixpoint from then on.
   */
  lemma ParseWriteParse(value: string, prefix: nat, domains: Domains, valid: WordPieces.Utf8Check)
    requires Sound(domains) && ParseList(value, domains).Some?
    requires IsWrittenAsText(ParseList(value, domains).value, prefix, valid)
    ensures var ms := ParseList(value, domains).value;
      var back := BackAll(ms, valid);
      && ParsesTo(HeaderOf(ms, prefix, valid), back, domains)
      && (NoWords(ms) ==> ParsesTo(HeaderOf(back, prefix, valid), back, domains))
  {
    var ms := ParseList(value, domains).value;
    ParsedAccepted(value, domains);
    WriteThenParse(ms, prefix, domains, valid);
    if NoWords(ms) {
      Fixpoint(ms, prefix, domains, valid);
    }
  }
}
