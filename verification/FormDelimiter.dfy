/**
 Where the data of a part ends: at the first delimiter that is followed by CRLF or "--".
 */
module FormDelimiter {
  import opened Wrappers
  import opened Text
  import opened FormSpec

  /* ---- The delimiter search ---- */

  /** An occurrence of the delimiter that ends a part: CRLF or "--" follows. */
  ghost predicate TrueDelimiter(body: seq<byte>, delimiter: seq<byte>, at: nat) {
    && OccursAt(body, delimiter, at)
    && Following(body, at + |delimiter|) in {Follow.Break, Follow.Dashes}
  }

  lemma {:induction false} FindSeqIsFirst(body: seq<byte>, needle: seq<byte>, from: nat)
    requires from <= |body|
    ensures FindSeq(body, needle, from).None? ==> forall k: nat :: from <= k ==> !OccursAt(body, needle, k)
    ensures FindSeq(body, needle, from).Some? ==>
      && OccursAt(body, needle, FindSeq(body, needle, from).value)
      && forall k: nat :: from <= k < FindSeq(body, needle, from).value ==> !OccursAt(body, needle, k)
    decreases |body| - from
  {
    if from + |needle| <= |body| && !OccursAt(body, needle, from) {
      FindSeqIsFirst(body, needle, from + 1);
    }
  }

  /** A delimiter as it is built from a boundary without CR: it cannot overlap itself. */
  ghost predicate PlainDelimiter(delimiter: seq<byte>) {
    |delimiter| >= 2 && delimiter[0] == CR && delimiter[1] == LF && CR !in delimiter[1..]
  }

  lemma BoundaryWithoutCr(setup: Setup)
    requires CR !in setup.boundary
    ensures PlainDelimiter(setup.Delimiter())
  {
    assert setup.Delimiter()[1..] == [LF, DASH, DASH] + setup.boundary;
  }

  lemma DelimiterBytes(body: seq<byte>, delimiter: seq<byte>, at: nat, i: nat)
    requires PlainDelimiter(delimiter) && OccursAt(body, delimiter, at) && at <= i < at + |delimiter|
    ensures i == at <==> body[i] == CR
    ensures body[at + 1] == LF
  {
    OccursMeaning(body, delimiter, at);
    assert body[at + (i - at)] == delimiter[i - at];
    assert i > at ==> delimiter[1..][i - at - 1] == body[i];
  }

  /* ---- Delimiters that overlap themselves ---- */

  /** Every delimiter starts with a line break. */
  predicate StartsWithBreak(delimiter: seq<byte>) {
    |delimiter| >= 2 && delimiter[0] == CR && delimiter[1] == LF
  }

  /** Two occurrences can stand `shift` bytes apart. */
  ghost predicate Overlaps(delimiter: seq<byte>, shift: nat)
    requires shift <= |delimiter|
  {
    forall i :: shift <= i < |delimiter| ==> delimiter[i] == delimiter[i - shift]
  }

  /** Wherever two occurrences overlap, the first one is itself followed by CRLF or "--". */
  ghost predicate OverlapsHarmlessly(delimiter: seq<byte>) {
    forall shift {:trigger Overlaps(delimiter, shift)} :: 0 < shift < |delimiter| && Overlaps(delimiter, shift) ==>
      Following(delimiter, |delimiter| - shift) in {Follow.Break, Follow.Dashes}
  }

  lemma PlainIsHarmless(delimiter: seq<byte>)
    requires PlainDelimiter(delimiter)
    ensures StartsWithBreak(delimiter) && OverlapsHarmlessly(delimiter)
  {
    forall shift | 0 < shift < |delimiter| ensures !Overlaps(delimiter, shift) {
      assert delimiter[1..][shift - 1] == delimiter[shift] != delimiter[0];
    }
  }

  lemma OccurrencesOverlap(body: seq<byte>, delimiter: seq<byte>, at: nat, k: nat)
    requires OccursAt(body, delimiter, at) && OccursAt(body, delimiter, k) && at < k < at + |delimiter|
    ensures Overlaps(delimiter, k - at)
    ensures forall i :: at + |delimiter| <= i < k + |delimiter| ==> body[i] == delimiter[i - k]
  {
    OccursMeaning(body, delimiter, at);
    OccursMeaning(body, delimiter, k);
    forall i | k - at <= i < |delimiter| ensures delimiter[i] == delimiter[i - (k - at)] {
      assert body[at + i] == delimiter[i] && body[k + (i - (k - at))] == delimiter[i - (k - at)];
    }
    forall i | at + |delimiter| <= i < k + |delimiter| ensures body[i] == delimiter[i - k] {
      assert body[k + (i - k)] == delimiter[i - k];
    }
  }

  lemma OverlapShift(delimiter: seq<byte>, shift: nat)
    requires StartsWithBreak(delimiter) && 0 < shift < |delimiter| && Overlaps(delimiter, shift)
    ensures shift > 1
  {
    assert delimiter[1] != delimiter[0];
  }

  /** What follows the first of two overlapping occurrences is part of the second one. */
  lemma OverlapFollows(body: seq<byte>, delimiter: seq<byte>, at: nat, k: nat)
    requires StartsWithBreak(delimiter)
    requires OccursAt(body, delimiter, at) && OccursAt(body, delimiter, k) && at < k < at + |delimiter|
    ensures Overlaps(delimiter, k - at)
    ensures Following(body, at + |delimiter|) == Following(delimiter, |delimiter| - (k - at))
  {
    OccurrencesOverlap(body, delimiter, at, k);
    OverlapShift(delimiter, k - at);
    var after := at + |delimiter|;
    assert body[after] == delimiter[after - k] && body[after + 1] == delimiter[after + 1 - k];
  }

  /** Behind an occurrence that is data, no other one starts before `ResumeAt`. */
  lemma NoneSkipped(body: seq<byte>, delimiter: seq<byte>, at: nat, k: nat)
    requires StartsWithBreak(delimiter) && OverlapsHarmlessly(delimiter) && OccursAt(body, delimiter, at)
    requires Following(body, at + |delimiter|) == Other && at < k < ResumeAt(body, at + |delimiter|)
    ensures !OccursAt(body, delimiter, k)
  {
    if OccursAt(body, delimiter, k) {
      if k < at + |delimiter| {
        OverlapFollows(body, delimiter, at, k);
      } else {
        OccursMeaning(body, delimiter, k);
      }
    }
  }

  lemma {:induction false} PartEndIsTrue(body: seq<byte>, delimiter: seq<byte>, search: nat)
    requires delimiter != [] && search <= |body|
    ensures match PartEnd(body, delimiter, search)
      case More => true
      case Bad(_) => false
      case Done(last, end) =>
        && TrueDelimiter(body, delimiter, end)
        && (last <==> Following(body, end + |delimiter|) == Follow.Dashes)
    decreases |body| - search
  {
    FindSeqIsFirst(body, delimiter, search);
    if FindSeq(body, delimiter, search).Some? {
      var after := FindSeq(body, delimiter, search).value + |delimiter|;
      if Following(body, after) == Other {
        PartEndIsTrue(body, delimiter, ResumeAt(body, after));
      }
    }
  }

  /** The end of the part data, or the end of the body when the data is unfinished. */
  function Reached(body: seq<byte>, scan: Scan<bool>): nat {
    if scan.Done? then scan.next else |body|
  }

  lemma {:induction false} NoneBeforePartEnd(body: seq<byte>, delimiter: seq<byte>, search: nat, k: nat)
    requires StartsWithBreak(delimiter) && OverlapsHarmlessly(delimiter) && search <= |body|
    requires search <= k < Reached(body, PartEnd(body, delimiter, search))
    ensures !TrueDelimiter(body, delimiter, k)
    decreases |body| - search
  {
    FindSeqIsFirst(body, delimiter, search);
    if FindSeq(body, delimiter, search).Some? {
      var at := FindSeq(body, delimiter, search).value;
      var after := at + |delimiter|;
      if Following(body, after) == Other && at < k {
        if k < ResumeAt(body, after) {
          NoneSkipped(body, delimiter, at, k);
        } else {
          NoneBeforePartEnd(body, delimiter, ResumeAt(body, after), k);
        }
      }
    }
  }

  /** The part ends at the first true delimiter, or there is none. */
  ghost predicate EndsAtFirst(body: seq<byte>, delimiter: seq<byte>, search: nat)
    requires delimiter != [] && search <= |body|
  {
    match PartEnd(body, delimiter, search)
    case Bad(_) => false
    case More => forall k: nat :: search <= k ==> !TrueDelimiter(body, delimiter, k)
    case Done(last, end) =>
      && TrueDelimiter(body, delimiter, end)
      && (last <==> Following(body, end + |delimiter|) == Follow.Dashes)
      && forall k: nat :: search <= k < end ==> !TrueDelimiter(body, delimiter, k)
  }

  lemma HarmlessNeverSkips(body: seq<byte>, delimiter: seq<byte>, search: nat)
    requires StartsWithBreak(delimiter) && OverlapsHarmlessly(delimiter) && search <= |body|
    ensures EndsAtFirst(body, delimiter, search)
  {
    PartEndIsTrue(body, delimiter, search);
    forall k: nat | search <= k < Reached(body, PartEnd(body, delimiter, search))
      ensures !TrueDelimiter(body, delimiter, k)
    {
      NoneBeforePartEnd(body, delimiter, search, k);
    }
  }

  /** The search never skips a true delimiter of a boundary without CR: a part ends at the first one. */
  lemma PartEndsAtFirstTrueDelimiter(body: seq<byte>, delimiter: seq<byte>, search: nat)
    requires PlainDelimiter(delimiter) && search <= |body|
    ensures EndsAtFirst(body, delimiter, search)
  {
    PlainIsHarmless(delimiter);
    HarmlessNeverSkips(body, delimiter, search);
  }

  /** Two overlapping occurrences of a delimiter. */
  function Overlapping(delimiter: seq<byte>, shift: nat): seq<byte>
    requires shift <= |delimiter|
  {
    delimiter[..shift] + delimiter + [DASH, DASH]
  }

  lemma OverlappingOccurs(delimiter: seq<byte>, shift: nat)
    requires 0 < shift < |delimiter| && Overlaps(delimiter, shift)
    ensures var body := Overlapping(delimiter, shift);
      && OccursAt(body, delimiter, 0) && OccursAt(body, delimiter, shift)
      && Following(body, shift + |delimiter|) == Follow.Dashes
  {
    var body, n := Overlapping(delimiter, shift), |delimiter|;
    assert body[shift..shift + n] == delimiter;
    forall i | 0 <= i < n ensures body[0..n][i] == delimiter[i] {
      assert i >= shift ==> delimiter[i] == delimiter[i - shift];
    }
    assert body[0..n] == delimiter;
    OccursMeaning(body, delimiter, 0);
    OccursMeaning(body, delimiter, shift);
  }

  /** The other delimiters: of two overlapping occurrences the second one is true, and skipped. */
  lemma HarmfulSkips(delimiter: seq<byte>, shift: nat)
    requires StartsWithBreak(delimiter) && 0 < shift < |delimiter| && Overlaps(delimiter, shift)
    requires Following(delimiter, |delimiter| - shift) !in {Follow.Break, Follow.Dashes}
    ensures TrueDelimiter(Overlapping(delimiter, shift), delimiter, shift)
    ensures !EndsAtFirst(Overlapping(delimiter, shift), delimiter, 0)
  {
    var body := Overlapping(delimiter, shift);
    OverlappingOccurs(delimiter, shift);
    OverlapFollows(body, delimiter, 0, shift);
    assert FindSeq(body, delimiter, 0) == Some(0);
    var next := ResumeAt(body, |delimiter|);
    assert PartEnd(body, delimiter, 0) == PartEnd(body, delimiter, next);
    assert next > shift && TrueDelimiter(body, delimiter, shift);
  }

  ghost predicate NeverSkips(delimiter: seq<byte>)
    requires delimiter != []
  {
    forall body, search: nat :: search <= |body| ==> EndsAtFirst(body, delimiter, search)
  }

  /** Which delimiters are never skipped: those without a harmful overlap. */
  lemma NeverSkipsExactly(delimiter: seq<byte>)
    requires StartsWithBreak(delimiter)
    ensures NeverSkips(delimiter) <==> OverlapsHarmlessly(delimiter)
  {
    if OverlapsHarmlessly(delimiter) {
      forall body, search: nat | search <= |body| ensures EndsAtFirst(body, delimiter, search) {
        HarmlessNeverSkips(body, delimiter, search);
      }
    } else {
      var shift :| 0 < shift < |delimiter| && Overlaps(delimiter, shift)
        && Following(delimiter, |delimiter| - shift) !in {Follow.Break, Follow.Dashes};
      HarmfulSkips(delimiter, shift);
      assert 0 <= |Overlapping(delimiter, shift)| && !EndsAtFirst(Overlapping(delimiter, shift), delimiter, 0);
    }
  }
}
