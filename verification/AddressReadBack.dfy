/** One printed mailbox, read again by the grammar, behind any leading whitespace. */
module AddressReadBack {
  import opened Wrappers
  import opened Address
  import opened AddressPrinter
  import opened Text
  import Sequences

  /* ---- What comes back ---- */

  function WordEnd(text: string, i: nat): (r: nat)
    requires i <= |text|
    ensures i <= r <= |text|
    decreases |text| - i
  {
    if i == |text| || IsWsp(text[i]) then i else WordEnd(text, i + 1)
  }

  /** The non-empty pieces between spaces and TABs. */
  function WordsOf(text: string, i: nat): seq<string>
    requires i <= |text|
    decreases |text| - i
  {
    if i == |text| then []
    else if IsWsp(text[i]) then WordsOf(text, i + 1)
    else
      var end := WordEnd(text, i + 1);
      [text[i..end]] + WordsOf(text, end)
  }

  function Collapse(text: string): string {
    Join(WordsOf(text, 0))
  }

  /** The display name after one round. */
  function Shown(display: string): string {
    if HasSpecial(display) then display else Collapse(display)
  }

  /** A token: address chars with an `@` among them. */
  predicate IsAddress(addr: string) {
    && '@' in addr
    && forall i :: 0 <= i < |addr| ==> Takes(AddrChar, addr[i]) && IsPlainChar(addr[i])
  }

  /* ---- Scanning a printed text ---- */

  lemma AtParts(cs: string, p: nat, a: string, b: string)
    requires HoldsAt(cs, p, a + b)
    ensures HoldsAt(cs, p, a) && HoldsAt(cs, p + |a|, b)
  {
    var whole := cs[p..p + |a + b|];
    assert whole[..|a|] == a && whole[|a|..] == b;
  }

  lemma AtIndex(cs: string, p: nat, piece: string, i: nat)
    requires HoldsAt(cs, p, piece) && i < |piece|
    ensures cs[p + i] == piece[i]
  {
    assert cs[p..p + |piece|][i] == piece[i];
  }

  lemma {:induction false} RunTaken(cs: string, a: nat, b: nat, kind: Class)
    requires a <= b <= |cs| && (b == |cs| || !Takes(kind, cs[b]))
    requires forall k :: a <= k < b ==> Takes(kind, cs[k])
    ensures SkipWhile(cs, a, kind) == b
    decreases b - a
  {
    if a < b {
      RunTaken(cs, a + 1, b, kind);
    }
  }

  lemma {:induction false} RunStops(cs: string, a: nat, b: nat, kind: Class)
    requires a <= b < |cs| && !Takes(kind, cs[b])
    ensures SkipWhile(cs, a, kind) <= b
    decreases b - a
  {
    if a < b {
      RunStops(cs, a + 1, b, kind);
    }
  }

  lemma {:induction false} BlankRun(cs: string, a: nat, b: nat)
    requires a <= b <= |cs| && forall k :: a <= k < b ==> IsWsp(cs[k])
    ensures SkipCfws(cs, a, []) == SkipCfws(cs, b, [])
    decreases b - a
  {
    if a < b {
      BlankRun(cs, a + 1, b);
    }
  }

  /** Chars that neither whitespace nor a comment starts with. */
  lemma NoCfws(cs: string, p: nat)
    requires p < |cs| && !IsWsp(cs[p]) && cs[p] != '('
    ensures SkipCfws(cs, p, []) == Some(Cfws(p, []))
  {
  }

  lemma AngleReads(cs: string, p: nat, addr: string)
    requires IsAddress(addr) && p + |addr| + 2 == |cs| && HoldsAt(cs, p, "<" + addr + ">")
    ensures p < |cs| && Angle(cs, p) == Some((p + 1, p + 1 + |addr|))
    ensures cs[p] == '<' && cs[p + 1..p + 1 + |addr|] == addr
  {
    AtParts(cs, p, "<" + addr, ">");
    AtParts(cs, p, "<", addr);
    AtIndex(cs, p, "<", 0);
    AtIndex(cs, p + 1 + |addr|, ">", 0);
    forall k | p + 1 <= k < p + 1 + |addr|
      ensures Takes(AddrChar, cs[k])
    {
      AtIndex(cs, p + 1, addr, k - p - 1);
    }
    RunTaken(cs, p + 1, p + 1 + |addr|, AddrChar);
  }

  /* ---- The three printed forms ---- */

  /** `addr` on its own. */
  lemma BareReads(cs: string, lead: nat, addr: string)
    requires lead + |addr| == |cs| && (forall k :: 0 <= k < lead ==> IsWsp(cs[k]))
    requires IsAddress(addr) && HoldsAt(cs, lead, addr)
    ensures ShapeOf(cs) == Some(Shape(addr, ""))
  {
    forall k | lead <= k < |cs|
      ensures Takes(AddrChar, cs[k])
    {
      AtIndex(cs, lead, addr, k - lead);
    }
    BlankRun(cs, 0, lead);
    NoCfws(cs, lead);
    RunTaken(cs, lead, |cs|, AddrChar);
  }

  /** A named mailbox whose first char that is no whitespace stops the address token before an `@`. */
  lemma NamedReads(cs: string, start: nat, words: seq<string>, p: nat, addr: string)
    requires SkipCfws(cs, 0, []) == Some(Cfws(start, []))
    requires start <= p < |cs| && '@' !in cs[start..SkipWhile(cs, start, AddrChar)]
    requires Phrase(cs, start, [], []) == Some(Words(p, words, []))
    requires IsAddress(addr) && p + |addr| + 2 == |cs| && HoldsAt(cs, p, "<" + addr + ">")
    ensures ShapeOf(cs) == Some(Shape(addr, Join(words)))
  {
    AngleReads(cs, p, addr);
  }

  /** Behind the words of a phrase: a space and the `<`. */
  lemma PhraseEnds(cs: string, p: nat, words: seq<string>)
    requires p + 1 < |cs| && cs[p] == ' ' && cs[p + 1] == '<'
    ensures Phrase(cs, p, words, []) == Some(Words(p + 1, words, []))
  {
    NoCfws(cs, p + 1);
    BlankRun(cs, p, p + 1);
  }

  /* ---- Quoted display names ---- */

  function EscapeChar(c: char): string {
    if c == '\\' || c == '"' then ['\\', c] else [c]
  }

  /** Escaping in one pass. */
  function OnePass(text: string, i: nat): string
    requires i <= |text|
    decreases |text| - i
  {
    if i == |text| then "" else EscapeChar(text[i]) + OnePass(text, i + 1)
  }

  lemma {:induction false} ReplaceShift(a: string, b: string, i: nat, c: char, with: string)
    requires i <= |b|
    ensures Replace(a + b, |a| + i, c, with) == Replace(b, i, c, with)
    decreases |b| - i
  {
    if i < |b| {
      ReplaceShift(a, b, i + 1, c, with);
    }
  }

  lemma {:induction false} ReplaceAppend(a: string, b: string, i: nat, c: char, with: string)
    requires i <= |a|
    ensures Replace(a + b, i, c, with) == Replace(a, i, c, with) + Replace(b, 0, c, with)
    decreases |a| - i
  {
    if i < |a| {
      ReplaceAppend(a, b, i + 1, c, with);
      var head := if a[i] == c then with else [a[i]];
      assert head + (Replace(a, i + 1, c, with) + Replace(b, 0, c, with)) ==
        head + Replace(a, i + 1, c, with) + Replace(b, 0, c, with);
    } else {
      ReplaceShift(a, b, 0, c, with);
    }
  }

  lemma ReplaceInChar(c: char)
    ensures c == '\\' ==> Replace("\\\\", 0, '"', "\\\"") == "\\\\"
    ensures c == '"' ==> Replace([c], 0, '"', "\\\"") == "\\\""
    ensures c != '"' ==> Replace([c], 0, '"', "\\\"") == [c]
  {
    if c == '\\' {
      assert Replace("\\\\", 1, '"', "\\\"") == "\\";
    }
  }

  lemma {:induction false} EscapedInOnePass(text: string, i: nat)
    requires i <= |text|
    ensures Replace(Replace(text, i, '\\', "\\\\"), 0, '"', "\\\"") == OnePass(text, i)
    decreases |text| - i
  {
    if i < |text| {
      var head := if text[i] == '\\' then "\\\\" else [text[i]];
      EscapedInOnePass(text, i + 1);
      ReplaceAppend(head, Replace(text, i + 1, '\\', "\\\\"), 0, '"', "\\\"");
      ReplaceInChar(text[i]);
    }
  }

  lemma QuotedChar(cs: string, p: nat, c: char, before: string)
    requires HoldsAt(cs, p, EscapeChar(c))
    ensures Quoted(cs, p, before) == Quoted(cs, p + |EscapeChar(c)|, before + [c])
  {
    AtIndex(cs, p, EscapeChar(c), 0);
    AtIndex(cs, p, EscapeChar(c), |EscapeChar(c)| - 1);
  }

  lemma HeadOfRest(before: string, text: string, i: nat)
    requires i < |text|
    ensures before + [text[i]] + text[i + 1..] == before + text[i..]
  {
  }

  lemma QuotedEnd(cs: string, p: nat, text: string, before: string)
    requires HoldsAt(cs, p, "\"")
    ensures Quoted(cs, p, before) == Some(QuotedText(p + 1, before + text[|text|..]))
  {
    AtIndex(cs, p, "\"", 0);
    assert before + text[|text|..] == before;
  }

  /** One char of a quoted text, and the rest of it. */
  lemma QuotedNext(cs: string, p: nat, text: string, i: nat, before: string)
    requires i < |text| && HoldsAt(cs, p, OnePass(text, i))
    ensures var next := p + |EscapeChar(text[i])|;
      && HoldsAt(cs, next, OnePass(text, i + 1)) && next + |OnePass(text, i + 1)| == p + |OnePass(text, i)|
      && Quoted(cs, p, before) == Quoted(cs, next, before + [text[i]])
  {
    AtParts(cs, p, EscapeChar(text[i]), OnePass(text, i + 1));
    QuotedChar(cs, p, text[i], before);
  }

  lemma {:induction false} QuotedReads(cs: string, p: nat, text: string, i: nat, before: string)
    requires i <= |text| && HoldsAt(cs, p, OnePass(text, i)) && HoldsAt(cs, p + |OnePass(text, i)|, "\"")
    ensures Quoted(cs, p, before) == Some(QuotedText(p + |OnePass(text, i)| + 1, before + text[i..]))
    decreases |text| - i
  {
    if i == |text| {
      QuotedEnd(cs, p, text, before);
    } else {
      QuotedNext(cs, p, text, i, before);
      QuotedReads(cs, p + |EscapeChar(text[i])|, text, i + 1, before + [text[i]]);
      HeadOfRest(before, text, i);
    }
  }

  /** A quoted display name, read as the text it was written for. */
  lemma QuotedName(cs: string, p: nat, display: string)
    requires HoldsAt(cs, p, "\"" + Escape(display) + "\"")
    ensures cs[p] == '"' && Quoted(cs, p + 1, "") == Some(QuotedText(p + |Escape(display)| + 2, display))
  {
    EscapedInOnePass(display, 0);
    EscapedReads(cs, p, Escape(display), display);
  }

  lemma EscapedReads(cs: string, p: nat, text: string, display: string)
    requires HoldsAt(cs, p, "\"" + text + "\"") && text == OnePass(display, 0)
    ensures cs[p] == '"' && Quoted(cs, p + 1, "") == Some(QuotedText(p + |text| + 2, display))
  {
    QuoteMarks(cs, p, text);
    QuotedReads(cs, p + 1, display, 0, "");
    assert "" + display[0..] == display;
  }

  lemma QuoteMarks(cs: string, p: nat, text: string)
    requires HoldsAt(cs, p, "\"" + text + "\"")
    ensures cs[p] == '"' && HoldsAt(cs, p + 1, text) && HoldsAt(cs, p + 1 + |text|, "\"")
  {
    AtParts(cs, p, "\"" + text, "\"");
    AtParts(cs, p, "\"", text);
    AtIndex(cs, p, "\"", 0);
  }

  lemma PhraseQuotes(cs: string, p: nat, q: QuotedText, words: seq<string>)
    requires p < |cs| && cs[p] == '"' && Quoted(cs, p + 1, "") == Some(q)
    ensures Phrase(cs, p, words, []) == Phrase(cs, q.pos, words + [q.text], [])
  {
    NoCfws(cs, p);
  }

  lemma QuotedPhrase(cs: string, p: nat, display: string)
    requires HoldsAt(cs, p, "\"" + Escape(display) + "\"" + " <")
    ensures var end := p + |Escape(display)| + 2;
      Phrase(cs, p, [], []) == Some(Words(end + 1, [display], []))
  {
    var end := p + |Escape(display)| + 2;
    AtParts(cs, p, "\"" + Escape(display) + "\"", " <");
    AtIndex(cs, end, " <", 0);
    AtIndex(cs, end, " <", 1);
    QuotedName(cs, p, display);
    PhraseEnds(cs, end, [display]);
    PhraseQuotes(cs, p, QuotedText(end, display), []);
    assert [] + [display] == [display];
  }

  /* ---- Unquoted display names ---- */

  predicate IsWordy(display: string) {
    forall i :: 0 <= i < |display| ==> IsWsp(display[i]) || Takes(WordChar, display[i])
  }

  lemma WordyOrSpecial(display: string)
    requires !HasSpecial(display)
    ensures IsWordy(display)
  {
    forall i | 0 <= i < |display|
      ensures IsWsp(display[i]) || Takes(WordChar, display[i])
    {
      assert display[i] !in SPECIALS;
    }
  }

  /** Where the whitespace of a display name ends. */
  function InkAt(display: string, i: nat): (r: nat)
    requires i <= |display|
    ensures i <= r <= |display| && (r < |display| ==> !IsWsp(display[r]))
    decreases |display| - i
  {
    if i == |display| || !IsWsp(display[i]) then i else InkAt(display, i + 1)
  }

  /** The words from there on are the words. */
  lemma {:induction false} WordsFromInk(display: string, i: nat)
    requires i <= |display|
    ensures WordsOf(display, i) == WordsOf(display, InkAt(display, i))
    decreases |display| - i
  {
    if i < |display| && IsWsp(display[i]) {
      WordsFromInk(display, i + 1);
    }
  }

  /** Where the grammar's whitespace ends: at the display name's ink, or at the `<` behind it. */
  function InkIn(p: nat, display: string, i: nat): nat
    requires i <= |display|
  {
    if InkAt(display, i) < |display| then p + InkAt(display, i) else p + |display| + 1
  }

  lemma {:induction false} SkipsToInk(cs: string, p: nat, display: string, i: nat)
    requires i <= |display| && HoldsAt(cs, p, display) && HoldsAt(cs, p + |display|, " <") && IsWordy(display)
    ensures SkipCfws(cs, p + i, []) == Some(Cfws(InkIn(p, display, i), []))
    decreases |display| - i
  {
    if i == |display| {
      InkBehind(cs, p + i);
    } else {
      AtIndex(cs, p, display, i);
      if IsWsp(display[i]) {
        SkipsToInk(cs, p, display, i + 1);
      }
    }
  }

  /** The first char that is no whitespace: of the display name, or the `<` behind it. */
  lemma FirstInk(cs: string, p: nat, display: string, i: nat) returns (start: nat)
    requires i <= |display| && HoldsAt(cs, p, display) && HoldsAt(cs, p + |display|, " <") && IsWordy(display)
    ensures start == InkIn(p, display, i) && SkipCfws(cs, p + i, []) == Some(Cfws(start, []))
    ensures start < |cs| && !IsWsp(cs[start]) && cs[start] != '('
    ensures InkAt(display, i) == |display| ==> cs[start] == '<'
  {
    start := InkIn(p, display, i);
    SkipsToInk(cs, p, display, i);
    if InkAt(display, i) < |display| {
      AtIndex(cs, p, display, InkAt(display, i));
    } else {
      AtIndex(cs, p + |display|, " <", 1);
    }
  }

  lemma InkBehind(cs: string, p: nat)
    requires HoldsAt(cs, p, " <")
    ensures p + 1 < |cs| && cs[p + 1] == '<' && SkipCfws(cs, p, []) == Some(Cfws(p + 1, []))
  {
    AtIndex(cs, p, " <", 0);
    AtIndex(cs, p, " <", 1);
  }

  lemma {:induction false} WordEndsThere(cs: string, p: nat, display: string, i: nat)
    requires i <= |display| && HoldsAt(cs, p, display) && HoldsAt(cs, p + |display|, " <") && IsWordy(display)
    ensures SkipWhile(cs, p + i, WordChar) == p + WordEnd(display, i)
    decreases |display| - i
  {
    if i == |display| {
      AtIndex(cs, p + i, " <", 0);
    } else {
      AtIndex(cs, p, display, i);
      if !IsWsp(display[i]) {
        WordEndsThere(cs, p, display, i + 1);
      }
    }
  }

  lemma Slices(cs: string, p: nat, display: string, i: nat, j: nat)
    requires HoldsAt(cs, p, display) && i <= j <= |display|
    ensures cs[p + i..p + j] == display[i..j]
  {
    forall k | i <= k < j
      ensures cs[p + k] == display[k]
    {
      AtIndex(cs, p, display, k);
    }
    var slice := cs[p + i..p + j];
    assert forall k :: 0 <= k < j - i ==> slice[k] == cs[p + (i + k)];
  }

  /** The phrase skips whitespace, takes a word and goes on behind it. */
  lemma PhraseTakes(cs: string, at: nat, start: nat, end: nat, words: seq<string>)
    requires at <= |cs| && SkipCfws(cs, at, []) == Some(Cfws(start, [])) && start < |cs|
    requires Takes(WordChar, cs[start]) && SkipWhile(cs, start + 1, WordChar) == end
    ensures Phrase(cs, at, words, []) == Phrase(cs, end, words + [cs[start..end]], [])
  {
  }

  /** Only where the whitespace ends matters to the phrase. */
  lemma PhraseFrom(cs: string, p: nat, start: nat, words: seq<string>)
    requires p <= |cs| && SkipCfws(cs, p, []) == Some(Cfws(start, [])) && start < |cs| && !IsWsp(cs[start])
    requires cs[start] != '('
    ensures Phrase(cs, p, words, []) == Phrase(cs, start, words, [])
  {
    NoCfws(cs, start);
  }

  lemma PhraseStops(cs: string, at: nat, start: nat, words: seq<string>)
    requires at <= |cs| && SkipCfws(cs, at, []) == Some(Cfws(start, [])) && start < |cs| && cs[start] == '<'
    ensures Phrase(cs, at, words, []) == Some(Words(start, words, []))
  {
  }

  lemma Ends(words: seq<string>)
    ensures words + [] == words
  {
  }

  /** Behind the last word the phrase ends. */
  lemma PhraseLast(cs: string, p: nat, display: string, i: nat, words: seq<string>)
    requires i <= |display| && HoldsAt(cs, p, display) && HoldsAt(cs, p + |display|, " <") && IsWordy(display)
    requires InkAt(display, i) == |display|
    ensures WordsOf(display, i) == []
    ensures Phrase(cs, p + i, words, []) == Some(Words(p + |display| + 1, words, []))
  {
    var start := FirstInk(cs, p, display, i);
    WordsFromInk(display, i);
    PhraseStops(cs, p + i, start, words);
  }

  /** The next word of a display name. */
  lemma NextWordOf(display: string, i: nat) returns (start: nat, word: string, end: nat)
    requires i <= |display| && InkAt(display, i) < |display|
    ensures i <= start == InkAt(display, i) < end <= |display| && !IsWsp(display[start])
    ensures end == WordEnd(display, start + 1) && word == display[start..end]
    ensures WordsOf(display, i) == [word] + WordsOf(display, end)
  {
    WordsFromInk(display, i);
    start := InkAt(display, i);
    end := WordEnd(display, start + 1);
    word := display[start..end];
  }

  /** The word as the grammar sees it. */
  lemma WordIn(cs: string, p: nat, display: string, start: nat, end: nat)
    requires start < |display| && HoldsAt(cs, p, display) && HoldsAt(cs, p + |display|, " <") && IsWordy(display)
    requires !IsWsp(display[start]) && end == WordEnd(display, start + 1)
    ensures Takes(WordChar, cs[p + start]) && SkipWhile(cs, p + start + 1, WordChar) == p + end
    ensures cs[p + start..p + end] == display[start..end]
  {
    AtIndex(cs, p, display, start);
    WordEndsThere(cs, p, display, start + 1);
    Slices(cs, p, display, start, end);
  }

  /** The phrase takes the next word, and goes on behind it. */
  lemma PhraseNext(cs: string, p: nat, display: string, i: nat, words: seq<string>) returns (word: string, end: nat)
    requires i <= |display| && HoldsAt(cs, p, display) && HoldsAt(cs, p + |display|, " <") && IsWordy(display)
    requires InkAt(display, i) < |display|
    ensures i < end <= |display| && WordsOf(display, i) == [word] + WordsOf(display, end)
    ensures Phrase(cs, p + i, words, []) == Phrase(cs, p + end, words + [word], [])
  {
    var start: nat;
    start, word, end := NextWordOf(display, i);
    WordIn(cs, p, display, start, end);
    var ink := FirstInk(cs, p, display, i);
    PhraseTakes(cs, p + i, ink, p + end, words);
  }

  lemma {:induction false} PhraseWords(cs: string, p: nat, display: string, i: nat, words: seq<string>)
    requires i <= |display| && HoldsAt(cs, p, display) && HoldsAt(cs, p + |display|, " <") && IsWordy(display)
    ensures Phrase(cs, p + i, words, []) == Some(Words(p + |display| + 1, words + WordsOf(display, i), []))
    decreases |display| - i
  {
    if InkAt(display, i) == |display| {
      PhraseLast(cs, p, display, i, words);
      Ends(words);
    } else {
      var word, end := PhraseNext(cs, p, display, i, words);
      PhraseWords(cs, p, display, end, words + [word]);
      Sequences.Regroup(words, [word], WordsOf(display, end));
    }
  }

  /** No `@` comes before the `<`. */
  lemma NoAtBefore(cs: string, p: nat, display: string, start: nat)
    requires HoldsAt(cs, p, display) && HoldsAt(cs, p + |display|, " <") && IsWordy(display)
    requires p <= start < p + |display| || (start == p + |display| + 1 && cs[start] == '<')
    ensures '@' !in cs[start..SkipWhile(cs, start, AddrChar)]
  {
    if start < p + |display| {
      AtIndex(cs, p + |display|, " <", 0);
      RunStops(cs, start, p + |display|, AddrChar);
      forall k | start <= k < p + |display|
        ensures cs[k] != '@'
      {
        AtIndex(cs, p, display, k - p);
      }
    }
  }

  /** The grammar takes an unquoted display name as a phrase, from its first word or the `<` on. */
  lemma UnquotedPhrase(cs: string, lead: nat, display: string) returns (start: nat)
    requires HoldsAt(cs, lead, display) && HoldsAt(cs, lead + |display|, " <") && IsWordy(display)
    requires forall k :: 0 <= k < lead ==> IsWsp(cs[k])
    ensures SkipCfws(cs, 0, []) == Some(Cfws(start, []))
    ensures start <= lead + |display| + 1 < |cs| && '@' !in cs[start..SkipWhile(cs, start, AddrChar)]
    ensures Phrase(cs, start, [], []) == Some(Words(lead + |display| + 1, WordsOf(display, 0), []))
  {
    start := FirstInk(cs, lead, display, 0);
    BlankRun(cs, 0, lead);
    NoAtBefore(cs, lead, display, start);
    PhraseFrom(cs, lead, start, []);
    PhraseWords(cs, lead, display, 0, []);
    assert [] + WordsOf(display, 0) == WordsOf(display, 0);
  }

  lemma UnquotedReads(cs: string, lead: nat, display: string, addr: string)
    requires HoldsAt(cs, lead, display) && HoldsAt(cs, lead + |display|, " <") && IsWordy(display)
    requires HoldsAt(cs, lead + |display| + 1, "<" + addr + ">") && lead + |display| + |addr| + 3 == |cs|
    requires IsAddress(addr) && forall k :: 0 <= k < lead ==> IsWsp(cs[k])
    ensures ShapeOf(cs) == Some(Shape(addr, Collapse(display)))
  {
    var start := UnquotedPhrase(cs, lead, display);
    NamedReads(cs, start, WordsOf(display, 0), lead + |display| + 1, addr);
  }

  lemma QuotedNameReads(cs: string, lead: nat, display: string, addr: string)
    requires HoldsAt(cs, lead, "\"" + Escape(display) + "\"" + " <")
    requires HoldsAt(cs, lead + |Escape(display)| + 3, "<" + addr + ">")
    requires lead + |Escape(display)| + |addr| + 5 == |cs|
    requires IsAddress(addr) && forall k :: 0 <= k < lead ==> IsWsp(cs[k])
    ensures ShapeOf(cs) == Some(Shape(addr, display))
  {
    AtIndex(cs, lead, "\"" + Escape(display) + "\"" + " <", 0);
    BlankRun(cs, 0, lead);
    NoCfws(cs, lead);
    QuotedPhrase(cs, lead, display);
    NamedReads(cs, lead, [display], lead + |Escape(display)| + 3, addr);
  }

  lemma NamedParts(lead: string, shown: string, addr: string)
    ensures var cs := lead + (shown + " <" + addr + ">");
      HoldsAt(cs, |lead|, shown + " <") && HoldsAt(cs, |lead| + |shown| + 1, "<" + addr + ">")
  {
    assert lead + (shown + " <" + addr + ">") == lead + shown + " " + ("<" + addr + ">");
  }

  lemma BareBack(lead: string, addr: string)
    requires IsAddress(addr) && forall k :: 0 <= k < |lead| ==> IsWsp(lead[k])
    ensures ShapeOf(lead + addr) == Some(Shape(addr, ""))
  {
    BareReads(lead + addr, |lead|, addr);
  }

  lemma QuotedBack(lead: string, display: string, addr: string)
    requires IsAddress(addr) && forall k :: 0 <= k < |lead| ==> IsWsp(lead[k])
    ensures ShapeOf(lead + ("\"" + Escape(display) + "\"" + " <" + addr + ">")) == Some(Shape(addr, display))
  {
    var shown := "\"" + Escape(display) + "\"";
    NamedParts(lead, shown, addr);
    QuotedNameReads(lead + (shown + " <" + addr + ">"), |lead|, display, addr);
  }

  lemma UnquotedBack(lead: string, display: string, addr: string)
    requires IsAddress(addr) && IsWordy(display) && forall k :: 0 <= k < |lead| ==> IsWsp(lead[k])
    ensures ShapeOf(lead + (display + " <" + addr + ">")) == Some(Shape(addr, Collapse(display)))
  {
    var cs := lead + (display + " <" + addr + ">");
    NamedParts(lead, display, addr);
    AtParts(cs, |lead|, display, " <");
    UnquotedReads(cs, |lead|, display, addr);
  }

  /** The grammar reads a written mailbox as its address and the written name as shown. */
  lemma ReadsBack(lead: string, m: Mailbox, name: string)
    requires IsAddress(m.AddrSpec()) && Fits(m, name) && forall k :: 0 <= k < |lead| ==> IsWsp(lead[k])
    ensures ShapeOf(lead + Written(m, name)) == Some(Shape(m.AddrSpec(), Shown(name)))
  {
    if m.displayName == "" {
      BareBack(lead, m.AddrSpec());
    } else if HasSpecial(m.displayName) {
      QuotedBack(lead, name, m.AddrSpec());
    } else {
      WordyOrSpecial(name);
      UnquotedBack(lead, name, m.AddrSpec());
    }
  }
}
