/**
 An address header as it is written, before folding: which mailboxes it refuses, which display names
 are written as they are, and what parsing the header gives back.
 */
module AddressHeader {
  import opened Wrappers
  import opened Address
  import opened AddressPrinter
  import opened AddressReadBack
  import EncodedWords
  import WordForwarding
  import WordPieces

  /* ---- Texts that fit their lines ---- */

  const MAX_LINE: nat := 998
  const ADDRESS_ROOM: nat := 260

  /** Every run of spaces with the word behind it fits a line; `run` chars of the current one are read. */
  predicate RunsFit(text: string, i: nat, run: nat, inWord: bool, reserve: nat)
    requires i <= |text|
    decreases |text| - i
  {
    i == |text| ||
    var next := if text[i] == ' ' && inWord then 1 else run + 1;
    reserve + next <= MAX_LINE && RunsFit(text, i + 1, next, text[i] != ' ', reserve)
  }

  /** The text can be written as received. */
  predicate IsWritable(text: string, reserve: nat) {
    IsPlain(text) && RunsFit(text, 0, 0, false, reserve)
  }

  /** A text that fits a line as a whole fits in its runs. */
  lemma {:induction false} ShortFits(text: string, i: nat, run: nat, inWord: bool, reserve: nat)
    requires run <= i <= |text| && reserve + |text| <= MAX_LINE
    ensures RunsFit(text, i, run, inWord, reserve)
    decreases |text| - i
  {
    if i < |text| {
      ShortFits(text, i + 1, if text[i] == ' ' && inWord then 1 else run + 1, text[i] != ' ', reserve);
    }
  }

  method FitsAsReceived(text: string, reserve: nat) returns (r: bool)
    ensures r == IsWritable(text, reserve)
    ensures reserve + |text| <= MAX_LINE ==> r == IsPlain(text)
  {
    if reserve + |text| <= MAX_LINE {
      ShortFits(text, 0, 0, false, reserve);
    }
    for i := 0 to |text|
      invariant forall k :: 0 <= k < i ==> IsPlainChar(text[k])
    {
      if !IsPlainChar(text[i]) {
        return false;
      }
    }
    var run, inWord := 0, false;
    for i := 0 to |text|
      invariant RunsFit(text, 0, 0, false, reserve) == RunsFit(text, i, run, inWord, reserve)
    {
      if text[i] == ' ' && inWord {
        run := 0;
        inWord := false;
      }
      inWord := inWord || text[i] != ' ';
      run := run + 1;
      if reserve + run > MAX_LINE {
        return false;
      }
    }
    return true;
  }

  /* ---- What is written ---- */

  /** A piece of a header: a text as it is, or a text that is written as encoded words. */
  datatype Chunk = Raw(text: string) | Encoded(text: string)

  /** The display name with its long words split, if it may be forwarded. */
  function Forwarded(display: string, valid: WordPieces.Utf8Check): Option<string> {
    WordForwarding.Forwardable(display, true, HasSpecial(display), valid)
  }

  predicate HoldsWord(text: string) {
    EncodedWords.Words(text) != []
  }

  function QuotedIf(quoted: bool, text: string): string {
    if quoted then "\"" + Escape(text) + "\"" else text
  }

  function NameChunk(display: string, prefix: nat, valid: WordPieces.Utf8Check): Option<Chunk> {
    if IsWritable(QuoteName(display), prefix + ADDRESS_ROOM) then
      var name :- Forwarded(display, valid);
      Some(Raw(QuotedIf(HasSpecial(display), name)))
    else if HoldsWord(display) then None
    else Some(Encoded(if HasSpecial(display) then display else Collapse(display)))
  }

  /** A mailbox of a header; nothing if it is refused. */
  function MailboxChunks(m: Mailbox, prefix: nat, valid: WordPieces.Utf8Check): Option<seq<Chunk>> {
    if HoldsWord(m.local) then None
    else if m.displayName == "" then Some([Raw(m.AddrSpec())])
    else
      var name :- NameChunk(m.displayName, prefix, valid);
      Some([name, Raw(" <" + m.AddrSpec() + ">")])
  }

  function AllChunks(ms: seq<Mailbox>, prefix: nat, valid: WordPieces.Utf8Check): (r: seq<Option<seq<Chunk>>>)
    ensures |r| == |ms| && forall i :: 0 <= i < |ms| ==> r[i] == MailboxChunks(ms[i], prefix, valid)
  {
    seq(|ms|, i requires 0 <= i < |ms| => MailboxChunks(ms[i], prefix, valid))
  }

  /** The parts from `i` on, each but the very first behind a comma and a space; nothing if one is refused. */
  function JoinChunks(parts: seq<Option<seq<Chunk>>>, i: nat): Option<seq<Chunk>>
    requires i <= |parts|
    decreases |parts| - i
  {
    if i == |parts| then Some([])
    else
      var one :- parts[i];
      var rest :- JoinChunks(parts, i + 1);
      Some((if i > 0 then [Raw(", ")] else []) + one + rest)
  }

  /** The header; nothing if a mailbox is refused. */
  function HeaderChunks(ms: seq<Mailbox>, prefix: nat, valid: WordPieces.Utf8Check): Option<seq<Chunk>> {
    JoinChunks(AllChunks(ms, prefix, valid), 0)
  }

  function Behind(w: seq<Chunk>, chunks: Option<seq<Chunk>>): Option<seq<Chunk>> {
    match chunks case None => None case Some(more) => Some(w + more)
  }

  method WriteName(display: string, prefix: nat, valid: WordPieces.Utf8Check) returns (r: Option<Chunk>)
    ensures r == NameChunk(display, prefix, valid)
  {
    var quoted := HasSpecial(display);
    var plain := FitsAsReceived(QuotedIf(quoted, display), prefix + ADDRESS_ROOM);
    if plain {
      var name := WordForwarding.Forward(display, true, quoted, valid);
      return match name case None => None case Some(text) => Some(Raw(QuotedIf(quoted, text)));
    }
    var words := EncodedWords.FindWords(display);
    if words != [] {
      return None;
    }
    return Some(Encoded(if quoted then display else Collapse(display)));
  }

  method WriteMailbox(w: seq<Chunk>, m: Mailbox, prefix: nat, valid: WordPieces.Utf8Check)
    returns (r: Option<seq<Chunk>>)
    ensures r == Behind(w, MailboxChunks(m, prefix, valid))
  {
    var words := EncodedWords.FindWords(m.local);
    if words != [] {
      return None;
    }
    if m.displayName == "" {
      return Some(w + [Raw(m.AddrSpec())]);
    }
    var name := WriteName(m.displayName, prefix, valid);
    return match name case None => None case Some(chunk) => Some(w + [chunk, Raw(" <" + m.AddrSpec() + ">")]);
  }

  lemma BehindNothing(chunks: Option<seq<Chunk>>)
    ensures Behind([], chunks) == chunks
  {
    match chunks
    case None =>
    case Some(more) => assert [] + more == more;
  }

  lemma BehindOne(w: seq<Chunk>, separator: seq<Chunk>, one: seq<Chunk>, rest: Option<seq<Chunk>>)
    ensures Behind(w, match rest case None => None case Some(more) => Some(separator + one + more)) ==
      Behind(w + separator + one, rest)
  {
    match rest
    case None =>
    case Some(more) => assert w + (separator + one + more) == w + separator + one + more;
  }

  method WriteHeader(ms: seq<Mailbox>, prefix: nat, valid: WordPieces.Utf8Check) returns (r: Option<seq<Chunk>>)
    ensures r == HeaderChunks(ms, prefix, valid)
  {
    var w: seq<Chunk> := [];
    ghost var parts := AllChunks(ms, prefix, valid);
    BehindNothing(JoinChunks(parts, 0));
    for i := 0 to |ms|
      invariant JoinChunks(parts, 0) == Behind(w, JoinChunks(parts, i))
    {
      var separator := if i > 0 then [Raw(", ")] else [];
      var next := WriteMailbox(w + separator, ms[i], prefix, valid);
      if next.None? {
        return None;
      }
      BehindOne(w, separator, parts[i].value, JoinChunks(parts, i + 1));
      w := next.value;
    }
    assert w + [] == w;
    return Some(w);
  }
}
