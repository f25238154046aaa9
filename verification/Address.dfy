/**
 The mailbox grammar and the comma splitter, as functions of the text and an index, and the parser
 object whose methods move its position. `None` is the invalid address, which carries nothing.
 */
module Address {
  import opened Wrappers

  datatype Mailbox = Mailbox(displayName: string, local: string, domain: string) {
    function AddrSpec(): string {
      local + "@" + domain
    }
  }

  /**
   The domain rules, which are not part of this model: the A-label of a domain, and the number of
   bytes of its Unicode form.
   */
  datatype Domains = Domains(lookup: string -> Option<string>, unicodeBytes: string -> nat)

  /* ---- Characters ---- */

  predicate IsForbidden(c: char) {
    var n := c as int;
    n <= 8 || 10 <= n <= 0x1f || 0x7f <= n <= 0x9f || n == 0x2028 || n == 0x2029
  }

  predicate HasForbidden(value: string) {
    exists i :: 0 <= i < |value| && IsForbidden(value[i])
  }

  predicate IsWsp(c: char) {
    c == ' ' || c == '\t'
  }

  /** What `take_while` is asked to take. */
  datatype Class = WspChar | WordChar | AddrChar | CommentChar

  predicate Takes(kind: Class, c: char) {
    match kind
    case WspChar => IsWsp(c)
    case WordChar => !IsWsp(c) && c !in {'(', ')', '<', '>', '@', ',', ':', ';', '"', '[', ']', '\\'}
    case AddrChar => !IsWsp(c) && c !in {'(', ')', '<', '>', ',', ':', ';', '"', '[', ']', '\\'}
    case CommentChar => c !in {'(', ')', '\\', '"', ','}
  }

  predicate IsAtext(c: char) {
    || '0' <= c <= '9' || 'A' <= c <= 'Z' || 'a' <= c <= 'z'
    || c in {'!', '#', '$', '%', '&', '\'', '*', '+', '-', '/', '=', '?', '^', '_', '`', '{', '|', '}', '~'}
  }

  /* ---- Scanning ---- */

  function SkipWhile(cs: string, pos: nat, kind: Class): (r: nat)
    requires pos <= |cs|
    ensures pos <= r <= |cs|
    decreases |cs| - pos
  {
    if pos < |cs| && Takes(kind, cs[pos]) then SkipWhile(cs, pos + 1, kind) else pos
  }

  datatype Cfws = Cfws(pos: nat, comments: seq<string>)

  /** Skips blanks and comments, collecting what the comments say. */
  function SkipCfws(cs: string, pos: nat, comments: seq<string>): (r: Option<Cfws>)
    requires pos <= |cs|
    ensures r.Some? ==> pos <= r.value.pos <= |cs|
    decreases |cs| - pos
  {
    if pos < |cs| && IsWsp(cs[pos]) then SkipCfws(cs, pos + 1, comments)
    else if pos < |cs| && cs[pos] == '(' then
      var end := SkipWhile(cs, pos + 1, CommentChar);
      if end < |cs| && cs[end] == ')' then SkipCfws(cs, end + 1, comments + [cs[pos + 1..end]])
      else None
    else Some(Cfws(pos, comments))
  }

  datatype QuotedText = QuotedText(pos: nat, text: string)

  /** The rest of a quoted string after `text`, unescaped. */
  function Quoted(cs: string, pos: nat, text: string): (r: Option<QuotedText>)
    requires pos <= |cs|
    ensures r.Some? ==> pos < r.value.pos <= |cs|
    decreases |cs| - pos
  {
    if pos == |cs| then None
    else if cs[pos] == '"' then Some(QuotedText(pos + 1, text))
    else if cs[pos] == '\\' then
      if pos + 1 < |cs| then Quoted(cs, pos + 2, text + [cs[pos + 1]]) else None
    else Quoted(cs, pos + 1, text + [cs[pos]])
  }

  datatype Words = Words(pos: nat, words: seq<string>, comments: seq<string>)

  /** The words before `<`, at which it stops. */
  function Phrase(cs: string, pos: nat, words: seq<string>, comments: seq<string>): (r: Option<Words>)
    requires pos <= |cs|
    ensures r.Some? ==> pos <= r.value.pos < |cs| && cs[r.value.pos] == '<'
    decreases |cs| - pos
  {
    var cfws :- SkipCfws(cs, pos, comments);
    var at := cfws.pos;
    if at == |cs| then None
    else if cs[at] == '"' then
      var q :- Quoted(cs, at + 1, "");
      Phrase(cs, q.pos, words + [q.text], cfws.comments)
    else if Takes(WordChar, cs[at]) then
      var end := SkipWhile(cs, at + 1, WordChar);
      Phrase(cs, end, words + [cs[at..end]], cfws.comments)
    else if cs[at] == '<' then Some(Words(at, words, cfws.comments))
    else None
  }

  function Join(words: seq<string>): string {
    if words == [] then "" else if |words| == 1 then words[0] else words[0] + " " + Join(words[1..])
  }

  function DisplayName(words: seq<string>, comments: seq<string>): string {
    if comments == [] then Join(words) else Join(words) + " (" + Join(comments) + ")"
  }

  /** `< addr > [CFWS]` from the `<` on: where the token is. */
  function Angle(cs: string, pos: nat): (r: Option<(nat, nat)>)
    requires pos < |cs|
    ensures r.Some? ==> pos < r.value.0 <= r.value.1 <= |cs|
  {
    var start := SkipWhile(cs, pos + 1, WspChar);
    var end := SkipWhile(cs, start, AddrChar);
    var close := SkipWhile(cs, end, WspChar);
    if close == |cs| || cs[close] != '>' then None
    else
      var cfws :- SkipCfws(cs, close + 1, []);
      if cfws.pos < |cs| then None else Some((start, end))
  }

  /** A mailbox before its addr-spec is validated. */
  datatype Shape = Shape(token: string, displayName: string)

  /** An address without brackets, which its comments name. */
  function BareShape(cs: string, start: nat, end: nat, comments: seq<string>): Option<Shape>
    requires start <= end <= |cs|
  {
    var after :- SkipCfws(cs, end, comments);
    if after.pos < |cs| then None else Some(Shape(cs[start..end], Join(after.comments)))
  }

  /** An address in brackets, behind an optional phrase. */
  function NamedShape(cs: string, start: nat, comments: seq<string>): Option<Shape>
    requires start <= |cs|
  {
    var phrase :- Phrase(cs, start, [], comments);
    var token :- Angle(cs, phrase.pos);
    Some(Shape(cs[token.0..token.1], DisplayName(phrase.words, phrase.comments)))
  }

  function ShapeOf(cs: string): Option<Shape> {
    var cfws :- SkipCfws(cs, 0, []);
    var end := SkipWhile(cs, cfws.pos, AddrChar);
    if '@' in cs[cfws.pos..end] then BareShape(cs, cfws.pos, end, cfws.comments)
    else NamedShape(cs, cfws.pos, cfws.comments)
  }

  function ParseMailboxChars(cs: string, domains: Domains): Option<Mailbox> {
    var shape :- ShapeOf(cs);
    Validate(shape.token, shape.displayName, domains)
  }

  /* ---- The addr-spec ---- */

  function FirstAt(text: string, from: nat): (r: Option<nat>)
    requires from <= |text|
    ensures r.Some? ==> from <= r.value < |text| && text[r.value] == '@'
    decreases |text| - from
  {
    if from == |text| then None else if text[from] == '@' then Some(from) else FirstAt(text, from + 1)
  }

  /** A dot-atom from `from` on; `empty` says that no char of the current atom was read yet. */
  predicate IsDotAtom(text: string, from: nat, empty: bool)
    requires from <= |text|
    decreases |text| - from
  {
    if from == |text| then !empty
    else if text[from] == '.' then !empty && IsDotAtom(text, from + 1, true)
    else IsAtext(text[from]) && IsDotAtom(text, from + 1, false)
  }

  function AsciiLower(text: string): (r: string)
    ensures |r| == |text|
  {
    seq(|text|, i requires 0 <= i < |text| => if 'A' <= text[i] <= 'Z' then (text[i] as int + 32) as char else text[i])
  }

  predicate IsRoleName(text: string) {
    text in {
      "info", "marketing", "sales", "support", "abuse", "noc", "security", "postmaster", "hostmaster",
      "usenet", "news", "webmaster", "www", "uucp", "ftp"}
  }

  /** The length in UTF-8. */
  function Utf8Bytes(text: string): nat {
    if text == "" then 0
    else
      var n := text[0] as int;
      (if n < 0x80 then 1 else if n < 0x800 then 2 else if n < 0x10000 then 3 else 4) + Utf8Bytes(text[1..])
  }

  function Max(a: nat, b: nat): nat {
    if a < b then b else a
  }

  function NormalLocal(local: string): (r: string)
    ensures |r| == |local|
  {
    if IsRoleName(AsciiLower(local)) then AsciiLower(local) else local
  }

  function Validate(token: string, displayName: string, domains: Domains): Option<Mailbox> {
    match FirstAt(token, 0)
    case None => None
    case Some(at) =>
      var local, raw := token[..at], token[at + 1..];
      if !IsDotAtom(local, 0, true) then None
      else match domains.lookup(raw)
        case None => None
        case Some(domain) =>
          var longest := Max(Max(Utf8Bytes(raw), domains.unicodeBytes(domain)), Utf8Bytes(domain));
          if |local| + 1 + longest > 254 then None
          else Some(Mailbox(displayName, NormalLocal(local), domain))
  }

  /* ---- Lists ---- */

  /** The splitter's own quote state. */
  datatype Quote = Outside | Inside | Escaped

  function Next(q: Quote, c: char): Quote {
    match q
    case Escaped => Inside
    case Inside => if c == '\\' then Escaped else if c == '"' then Outside else Inside
    case Outside => if c == '"' then Inside else Outside
  }

  /** The first comma outside quotes. */
  function NextCut(cs: string, i: nat, q: Quote): (r: Option<nat>)
    requires i <= |cs|
    ensures r.Some? ==> i <= r.value < |cs| && cs[r.value] == ','
    decreases |cs| - i
  {
    if i == |cs| then None
    else if cs[i] == ',' && q == Outside then Some(i)
    else NextCut(cs, i + 1, Next(q, cs[i]))
  }

  /** What a list makes of each of its elements. */
  type Reader = string -> Option<Mailbox>

  function MailboxReader(domains: Domains): Reader {
    piece => ParseMailboxChars(piece, domains)
  }

  /** The mailboxes from `start` on, after those in `mailboxes`. */
  function ListFrom(cs: string, start: nat, mailboxes: seq<Mailbox>, read: Reader): Option<seq<Mailbox>>
    requires start <= |cs|
    decreases |cs| - start
  {
    match NextCut(cs, start, Outside)
    case None =>
      var m :- read(cs[start..]);
      Some(mailboxes + [m])
    case Some(cut) =>
      var m :- read(cs[start..cut]);
      ListFrom(cs, cut + 1, mailboxes + [m], read)
  }

  function ParseMailbox(value: string, domains: Domains): Option<Mailbox> {
    if HasForbidden(value) then None else ParseMailboxChars(value, domains)
  }

  function ParseList(value: string, domains: Domains): Option<seq<Mailbox>> {
    if HasForbidden(value) then None else ListFrom(value, 0, [], MailboxReader(domains))
  }

  /* ---- The parser as it runs ---- */

  class Parser {
    const chars: string
    var pos: nat

    constructor (chars: string)
      ensures this.chars == chars && pos == 0
    {
      this.chars := chars;
      pos := 0;
    }

    predicate Valid()
      reads this
    {
      pos <= |chars|
    }

    function Peek(): Option<char>
      reads this
    {
      if pos < |chars| then Some(chars[pos]) else None
    }

    method TakeWhile(kind: Class) returns (text: string)
      requires Valid()
      modifies this
      ensures Valid() && pos == SkipWhile(chars, old(pos), kind) && text == chars[old(pos)..pos]
    {
      var start := pos;
      while Peek().Some? && Takes(kind, chars[pos])
        invariant start <= pos <= |chars| && SkipWhile(chars, start, kind) == SkipWhile(chars, pos, kind)
        decreases |chars| - pos
      {
        pos := pos + 1;
      }
      return chars[start..pos];
    }

    method ReadCfws(before: seq<string>) returns (ok: bool, comments: seq<string>)
      requires Valid()
      modifies this
      ensures Valid()
      ensures match SkipCfws(chars, old(pos), before)
        case None => !ok
        case Some(cfws) => ok && pos == cfws.pos && comments == cfws.comments
    {
      comments := before;
      while true
        invariant Valid() && SkipCfws(chars, old(pos), before) == SkipCfws(chars, pos, comments)
        decreases |chars| - pos
      {
        match Peek()
        case None => return true, comments;
        case Some(c) =>
          if IsWsp(c) {
            pos := pos + 1;
          } else if c == '(' {
            pos := pos + 1;
            var text := TakeWhile(CommentChar);
            if Peek() != Some(')') {
              return false, comments;
            }
            pos := pos + 1;
            comments := comments + [text];
          } else {
            return true, comments;
          }
      }
    }

    method ReadQuoted() returns (r: Option<string>)
      requires Valid() && Peek() == Some('"')
      modifies this
      ensures Valid()
      ensures match Quoted(chars, old(pos) + 1, "")
        case None => r.None?
        case Some(q) => r == Some(q.text) && pos == q.pos
    {
      pos := pos + 1;
      var text := "";
      while true
        invariant old(pos) < pos <= |chars| && Quoted(chars, old(pos) + 1, "") == Quoted(chars, pos, text)
        decreases |chars| - pos
      {
        match Peek()
        case None => return None;
        case Some(c) =>
          if c == '"' {
            pos := pos + 1;
            return Some(text);
          } else if c == '\\' {
            if pos + 1 == |chars| {
              return None;
            }
            text := text + [chars[pos + 1]];
            pos := pos + 2;
          } else {
            text := text + [c];
            pos := pos + 1;
          }
      }
    }

    method ReadPhrase(before: seq<string>) returns (ok: bool, words: seq<string>, comments: seq<string>)
      requires Valid()
      modifies this
      ensures Valid()
      ensures match Phrase(chars, old(pos), [], before)
        case None => !ok
        case Some(w) => ok && pos == w.pos && words == w.words && comments == w.comments
    {
      words, comments := [], before;
      while true
        invariant Valid() && Phrase(chars, old(pos), [], before) == Phrase(chars, pos, words, comments)
        decreases |chars| - pos
      {
        ok, comments := ReadCfws(comments);
        if !ok {
          return false, words, comments;
        }
        match Peek()
        case None => return false, words, comments;
        case Some(c) =>
          if c == '"' {
            var text := ReadQuoted();
            if text.None? {
              return false, words, comments;
            }
            words := words + [text.value];
          } else if Takes(WordChar, c) {
            var text := TakeWhile(WordChar);
            words := words + [text];
          } else {
            return c == '<', words, comments;
          }
      }
    }
  }

  method ReadAngle(p: Parser) returns (token: Option<string>)
    requires p.Valid() && p.Peek().Some?
    modifies p
    ensures token == match Angle(p.chars, old(p.pos)) case None => None case Some(t) => Some(p.chars[t.0..t.1])
  {
    p.pos := p.pos + 1;
    var _ := p.TakeWhile(WspChar);
    var text := p.TakeWhile(AddrChar);
    var _ := p.TakeWhile(WspChar);
    if p.Peek() != Some('>') {
      return None;
    }
    p.pos := p.pos + 1;
    var ok, _ := p.ReadCfws([]);
    return if !ok || p.Peek().Some? then None else Some(text);
  }

  method ReadNamed(p: Parser, before: seq<string>) returns (r: Option<Shape>)
    requires p.Valid()
    modifies p
    ensures r == NamedShape(p.chars, old(p.pos), before)
  {
    var ok, words, comments := p.ReadPhrase(before);
    if !ok {
      return None;
    }
    var displayName := DisplayName(words, comments);
    var token := ReadAngle(p);
    return match token case None => None case Some(t) => Some(Shape(t, displayName));
  }

  method ReadShape(chars: string) returns (r: Option<Shape>)
    ensures r == ShapeOf(chars)
  {
    var p := new Parser(chars);
    var ok, comments := p.ReadCfws([]);
    if !ok {
      return None;
    }
    var start := p.pos;
    var token := p.TakeWhile(AddrChar);
    if '@' in token {
      ok, comments := p.ReadCfws(comments);
      return if !ok || p.Peek().Some? then None else Some(Shape(token, Join(comments)));
    }
    p.pos := start;
    r := ReadNamed(p, comments);
  }

  method ReadMailbox(chars: string, domains: Domains) returns (r: Option<Mailbox>)
    ensures r == ParseMailboxChars(chars, domains)
  {
    var shape := ReadShape(chars);
    return match shape case None => None case Some(s) => Validate(s.token, s.displayName, domains);
  }

  function QuoteOf(quoted: bool, escaped: bool): Quote {
    if escaped then Escaped else if quoted then Inside else Outside
  }

  /** The two flags of the loop after a char that is no cut. */
  function NextQuoted(quoted: bool, escaped: bool, c: char): bool {
    if c == '"' && !escaped then !quoted else quoted
  }

  lemma ScanStep(cs: string, i: nat, quoted: bool, escaped: bool)
    requires i < |cs| && (escaped ==> quoted) && (cs[i] == ',' ==> quoted)
    ensures NextCut(cs, i, QuoteOf(quoted, escaped)) ==
      NextCut(cs, i + 1, QuoteOf(NextQuoted(quoted, escaped, cs[i]), !escaped && cs[i] == '\\' && quoted))
  {
  }

  /** The list at a comma outside quotes. */
  lemma ListStep(cs: string, start: nat, i: nat, mailboxes: seq<Mailbox>, read: Reader)
    requires start <= i < |cs| && NextCut(cs, start, Outside) == NextCut(cs, i, Outside) && cs[i] == ','
    ensures ListFrom(cs, start, mailboxes, read) ==
      match read(cs[start..i]) case None => None case Some(m) => ListFrom(cs, i + 1, mailboxes + [m], read)
  {
  }

  lemma ListEnd(cs: string, start: nat, mailboxes: seq<Mailbox>, read: Reader)
    requires start <= |cs| && NextCut(cs, start, Outside) == None
    ensures ListFrom(cs, start, mailboxes, read) ==
      match read(cs[start..]) case None => None case Some(m) => Some(mailboxes + [m])
  {
  }

  method ReadMailboxList(value: string, domains: Domains) returns (r: Option<seq<Mailbox>>)
    ensures r == ParseList(value, domains)
  {
    if HasForbidden(value) {
      return None;
    }
    ghost var read := MailboxReader(domains);
    ghost var goal := ListFrom(value, 0, [], read);
    var mailboxes: seq<Mailbox> := [];
    var start, quoted, escaped := 0, false, false;
    for i := 0 to |value|
      invariant start <= i && (escaped ==> quoted)
      invariant NextCut(value, start, Outside) == NextCut(value, i, QuoteOf(quoted, escaped))
      invariant ListFrom(value, start, mailboxes, read) == goal
    {
      var c := value[i];
      if c != ',' || quoted {
        ScanStep(value, i, quoted, escaped);
      }
      if escaped {
        escaped := false;
      } else if c == '\\' && quoted {
        escaped := true;
      } else if c == '"' {
        quoted := !quoted;
      } else if c == ',' && !quoted {
        ListStep(value, start, i, mailboxes, read);
        var m := ReadMailbox(value[start..i], domains);
        if m.None? {
          return None;
        }
        mailboxes := mailboxes + [m.value];
        start := i + 1;
      }
    }
    ListEnd(value, start, mailboxes, read);
    var last := ReadMailbox(value[start..], domains);
    return match last case None => None case Some(m) => Some(mailboxes + [m]);
  }
}
