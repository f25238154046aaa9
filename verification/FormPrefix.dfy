/**
 Prefix monotonicity: what the parser has decided on a truncated body it decides the same way
 on the whole body, so truncation only loses unfinished parts.
 */
module FormPrefix {
  import opened Wrappers
  import opened Text
  import opened FormSpec

  /** A scan of a prefix that did not run out of bytes is final. */
  ghost predicate Final<T(!new)>(short: Scan<T>, long: Scan<T>) {
    short != More ==> long == short
  }

  lemma {:induction false} FindByteFinal(p: seq<byte>, b: seq<byte>, x: byte, from: nat)
    requires p <= b && from <= |p|
    ensures FindByte(p, x, from).Some? ==> FindByte(b, x, from) == FindByte(p, x, from)
    ensures FindByte(p, x, from).None? && FindByte(b, x, from).Some? ==> |p| <= FindByte(b, x, from).value
    decreases |p| - from
  {
    if from < |p| && p[from] != x {
      FindByteFinal(p, b, x, from + 1);
    }
  }

  lemma {:induction false} OccursFinal(p: seq<byte>, b: seq<byte>, needle: seq<byte>, at: nat, k: nat)
    requires p <= b && at + |needle| <= |p| && k <= |needle|
    ensures MatchesFrom(p, needle, at, k) <==> MatchesFrom(b, needle, at, k)
    decreases |needle| - k
  {
    if k < |needle| {
      OccursFinal(p, b, needle, at, k + 1);
    }
  }

  lemma {:induction false} FindSeqFinal(p: seq<byte>, b: seq<byte>, needle: seq<byte>, from: nat)
    requires p <= b && from <= |p| && FindSeq(p, needle, from).Some?
    ensures FindSeq(b, needle, from) == FindSeq(p, needle, from)
    decreases |p| - from
  {
    OccursFinal(p, b, needle, from, 0);
    if !OccursAt(p, needle, from) {
      FindSeqFinal(p, b, needle, from + 1);
    }
  }

  lemma FollowingFinal(p: seq<byte>, b: seq<byte>, i: nat)
    requires p <= b
    ensures Following(p, i) != Short ==> Following(b, i) == Following(p, i)
  {
  }

  lemma {:induction false} LeadingBreaksFinal(p: seq<byte>, b: seq<byte>, from: nat)
    requires p <= b && from <= |p|
    ensures LeadingBreaks(p, from) < |p| ==> LeadingBreaks(b, from) == LeadingBreaks(p, from)
    decreases |p| - from
  {
    if from < |p| && (p[from] == CR || p[from] == LF) {
      LeadingBreaksFinal(p, b, from + 1);
    }
  }

  lemma {:induction false} ExpectFinal(p: seq<byte>, b: seq<byte>, from: nat, wanted: seq<byte>, k: nat)
    requires p <= b && from <= |p| && k <= |wanted|
    ensures Final(Expect(p, from, wanted, k), Expect(b, from, wanted, k))
    decreases |wanted| - k
  {
    if k < |wanted| && from < |p| && p[from] == wanted[k] {
      ExpectFinal(p, b, from + 1, wanted, k + 1);
    }
  }

  lemma OpeningFinal(p: seq<byte>, b: seq<byte>, setup: Setup)
    requires p <= b
    ensures Final(Opening(p, setup), Opening(b, setup))
  {
    var i := LeadingBreaks(p, 0);
    LeadingBreaksFinal(p, b, 0);
    if i < |p| {
      ExpectFinal(p, b, i, setup.Dashes(), 0);
      FollowingFinal(p, b, i + |setup.Dashes()|);
    }
  }

  lemma {:induction false} SkipSpacesFinal(p: seq<byte>, b: seq<byte>, from: nat)
    requires p <= b && from <= |p|
    ensures SkipSpaces(p, from) < |p| ==> SkipSpaces(b, from) == SkipSpaces(p, from)
    ensures SkipSpaces(p, from) <= SkipSpaces(b, from)
    decreases |p| - from
  {
    if from < |p| && p[from] == SPACE {
      SkipSpacesFinal(p, b, from + 1);
    }
  }

  lemma NamedFieldFinal(p: seq<byte>, b: seq<byte>, start: nat, colon: nat)
    requires p <= b && start <= colon < |p|
    ensures Final(NamedField(p, start, colon), NamedField(b, start, colon))
  {
    SkipSpacesFinal(p, b, colon + 1);
    var i := SkipSpaces(p, colon + 1);
    FindByteFinal(p, b, CR, i);
    var cr := FindByte(p, CR, i);
    assert p[start..colon] == b[start..colon];
    assert cr.Some? ==> p[i..cr.value] == b[i..cr.value];
  }

  lemma AllTokenFinal(p: seq<byte>, b: seq<byte>)
    requires p <= b && AllToken(b)
    ensures AllToken(p)
  {
  }

  lemma FieldFinal(p: seq<byte>, b: seq<byte>, i: nat)
    requires p <= b && i <= |p|
    ensures Final(Field(p, i), Field(b, i))
  {
    FindByteFinal(p, b, COLON, i);
    if FindByte(p, COLON, i).Some? {
      var colon := FindByte(p, COLON, i).value;
      assert p[i..colon] == b[i..colon];
      NamedFieldFinal(p, b, i, colon);
    } else {
      var name := match FindByte(b, COLON, i) case Some(colon) => b[i..colon] case None => b[i..];
      assert p[i..] <= name;
      if AllToken(name) {
        AllTokenFinal(p[i..], name);
      }
    }
  }

  lemma HeaderLineFinal(p: seq<byte>, b: seq<byte>, i: nat, count: nat)
    requires p <= b && i <= |p|
    ensures Final(HeaderLine(p, i, count), HeaderLine(b, i, count))
  {
    FieldFinal(p, b, i);
  }

  lemma {:induction false} HeadersFinal(p: seq<byte>, b: seq<byte>, i: nat, read: seq<Header>)
    requires p <= b && i <= |p|
    ensures Final(Headers(p, i, read), Headers(b, i, read))
    decreases |p| - i
  {
    HeaderLineFinal(p, b, i, |read|);
    match HeaderLine(p, i, |read|)
    case More =>
    case Bad(_) =>
    case Done(None, _) =>
    case Done(Some(h), next) =>
      HeadersFinal(p, b, next, read + [h]);
  }

  lemma {:induction false} PartEndFinal(p: seq<byte>, b: seq<byte>, delimiter: seq<byte>, search: nat)
    requires p <= b && delimiter != [] && search <= |p|
    ensures Final(PartEnd(p, delimiter, search), PartEnd(b, delimiter, search))
    decreases |p| - search
  {
    if FindSeq(p, delimiter, search).Some? {
      FindSeqFinal(p, b, delimiter, search);
      var after := FindSeq(p, delimiter, search).value + |delimiter|;
      FollowingFinal(p, b, after);
      if Following(p, after) == Other {
        PartEndFinal(p, b, delimiter, ResumeAt(p, after));
      }
    }
  }

  lemma PartBodyFinal(p: seq<byte>, b: seq<byte>, start: nat, started: Started, headers: seq<Header>, setup: Setup)
    requires p <= b && start <= |p|
    ensures Final(PartBody(p, start, started, headers, setup), PartBody(b, start, started, headers, setup))
  {
    PartEndFinal(p, b, setup.Delimiter(), start);
    var end := PartEnd(p, setup.Delimiter(), start);
    assert end.Done? ==> p[start..end.next] == b[start..end.next];
  }

  lemma OnePartFinal(p: seq<byte>, b: seq<byte>, i: nat, files: nat, fields: nat, setup: Setup)
    requires p <= b && i <= |p|
    ensures Final(OnePart(p, i, files, fields, setup), OnePart(b, i, files, fields, setup))
  {
    HeadersFinal(p, b, i, []);
    match Headers(p, i, [])
    case More =>
    case Bad(_) =>
    case Done(headers, start) =>
      match Begin(headers, files, fields, setup)
      case Err(_) =>
      case Ok(started) =>
        PartBodyFinal(p, b, start, started, headers, setup);
  }

  /** The items read so far stay at the front of the form. */
  lemma {:induction false} ItemsFirst(
    body: seq<byte>, i: nat, files: nat, fields: nat, items: seq<Item>, setup: Setup)
    requires i <= |body|
    ensures match Parts(body, i, files, fields, items, setup) case Ok(all) => items <= all case Err(_) => true
    decreases |body| - i
  {
    match OnePart(body, i, files, fields, setup)
    case More =>
    case Bad(_) =>
    case Done(part, next) =>
      if !part.last {
        ItemsFirst(body, next, part.files, part.fields, items + [part.item], setup);
      }
  }

  /** A truncated result against the whole one. */
  ghost predicate Extends(short: Result<seq<Item>, FormError>, long: Result<seq<Item>, FormError>) {
    && (short.Err? ==> long == short)
    && (short.Ok? && long.Ok? ==> short.value <= long.value)
  }

  lemma {:induction false} PartsFinal(
    p: seq<byte>, b: seq<byte>, i: nat, files: nat, fields: nat, items: seq<Item>, setup: Setup)
    requires p <= b && i <= |p|
    ensures Extends(Parts(p, i, files, fields, items, setup), Parts(b, i, files, fields, items, setup))
    decreases |p| - i
  {
    OnePartFinal(p, b, i, files, fields, setup);
    match OnePart(p, i, files, fields, setup)
    case More =>
      ItemsFirst(b, i, files, fields, items, setup);
    case Bad(_) =>
    case Done(part, next) =>
      if !part.last {
        PartsFinal(p, b, next, part.files, part.fields, items + [part.item], setup);
      }
  }

  /**
   For every body and every cut: an error on the prefix is the same error on the whole body, and
   when both are accepted the items of the prefix are a prefix of the items of the body.
   */
  lemma PrefixMonotone(body: seq<byte>, cut: nat, setup: Setup)
    requires cut <= |body|
    ensures Form(body[..cut], setup).Err? ==> Form(body, setup) == Form(body[..cut], setup)
    ensures Form(body[..cut], setup).Ok? && Form(body, setup).Ok? ==>
      Form(body[..cut], setup).value <= Form(body, setup).value
  {
    OpeningFinal(body[..cut], body, setup);
    var opening := Opening(body[..cut], setup);
    if opening.Done? && opening.value {
      PartsFinal(body[..cut], body, opening.next, 0, 0, [], setup);
    }
  }

  /** An accepted body stays accepted at every cut. */
  lemma TruncationAccepted(body: seq<byte>, cut: nat, setup: Setup)
    requires cut <= |body| && Form(body, setup).Ok?
    ensures Form(body[..cut], setup).Ok?
    ensures Form(body[..cut], setup).value <= Form(body, setup).value
  {
    PrefixMonotone(body, cut, setup);
  }
}
