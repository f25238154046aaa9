/**
 Percent decoding, twice: the form parser cuts the text at every `%`, the path decoder scans it char
 by char. Both compute the same bytes.
 */
module Percent {
  import opened Wrappers
  import opened Text
  import Sequences

  const PERCENT: byte := 37

  /** The byte two hex digits at `i` stand for. */
  function HexByte(bytes: seq<byte>, i: nat): Option<byte> {
    if i + 1 >= |bytes| then None
    else
      var high :- HexDigit(bytes[i]);
      var low :- HexDigit(bytes[i + 1]);
      Some((high * 16 + low) as byte)
  }

  /** A valid `%XX` is a byte, anything else stays. */
  function Decoded(bytes: seq<byte>, i: nat): seq<byte>
    requires i <= |bytes|
    decreases |bytes| - i
  {
    if i == |bytes| then []
    else if bytes[i] == PERCENT && HexByte(bytes, i + 1).Some? then
      [HexByte(bytes, i + 1).value] + Decoded(bytes, i + 3)
    else [bytes[i]] + Decoded(bytes, i + 1)
  }

  /* ---- Char by char ---- */

  method PercentDecode(bytes: seq<byte>) returns (out: seq<byte>)
    ensures out == Decoded(bytes, 0)
  {
    out := [];
    var i := 0;
    while i < |bytes|
      invariant i <= |bytes| && out + Decoded(bytes, i) == Decoded(bytes, 0)
    {
      var hex := HexByte(bytes, i + 1);
      if bytes[i] == PERCENT && hex.Some? {
        Sequences.Regroup(out, [hex.value], Decoded(bytes, i + 3));
        out := out + [hex.value];
        i := i + 3;
      } else {
        Sequences.Regroup(out, [bytes[i]], Decoded(bytes, i + 1));
        out := out + [bytes[i]];
        i := i + 1;
      }
    }
  }

  /* ---- Cut at every mark ---- */

  function FirstOf(bytes: seq<byte>, mark: byte, from: nat): (r: nat)
    requires from <= |bytes|
    ensures from <= r <= |bytes| && (r < |bytes| ==> bytes[r] == mark)
    decreases |bytes| - from
  {
    if from == |bytes| || bytes[from] == mark then from else FirstOf(bytes, mark, from + 1)
  }

  /** The pieces between the marks, from `i` on. */
  function Split(bytes: seq<byte>, mark: byte, i: nat): (r: seq<seq<byte>>)
    requires i <= |bytes|
    ensures r != []
    decreases |bytes| - i
  {
    var end := FirstOf(bytes, mark, i);
    if end == |bytes| then [bytes[i..]] else [bytes[i..end]] + Split(bytes, mark, end + 1)
  }

  lemma {:induction false} NoneBefore(bytes: seq<byte>, mark: byte, from: nat)
    requires from <= |bytes|
    ensures forall k :: from <= k < FirstOf(bytes, mark, from) ==> bytes[k] != mark
    decreases |bytes| - from
  {
    if from < |bytes| && bytes[from] != mark {
      NoneBefore(bytes, mark, from + 1);
    }
  }

  /** What has no `%` stays. */
  lemma {:induction false} PlainRun(bytes: seq<byte>, i: nat, end: nat)
    requires i <= end <= |bytes| && forall k :: i <= k < end ==> bytes[k] != PERCENT
    ensures Decoded(bytes, i) == bytes[i..end] + Decoded(bytes, end)
    decreases end - i
  {
    if i < end {
      PlainRun(bytes, i + 1, end);
      assert bytes[i..end] == [bytes[i]] + bytes[i + 1..end];
      Sequences.Regroup([bytes[i]], bytes[i + 1..end], Decoded(bytes, end));
    } else {
      assert bytes[i..end] + Decoded(bytes, end) == Decoded(bytes, end);
    }
  }

  /** What a piece behind a `%` decodes to. */
  function Bit(bit: seq<byte>): seq<byte> {
    match HexByte(bit, 0)
    case Some(b) => [b] + bit[2..]
    case None => [PERCENT] + bit
  }

  lemma BitDecodes(bytes: seq<byte>, p: nat, end: nat)
    requires p < end <= |bytes| && bytes[p] == PERCENT && (end < |bytes| ==> bytes[end] == PERCENT)
    requires forall k :: p < k < end ==> bytes[k] != PERCENT
    ensures Decoded(bytes, p) == Bit(bytes[p + 1..end]) + Decoded(bytes, end)
  {
    var bit := bytes[p + 1..end];
    assert HexByte(bit, 0) == HexByte(bytes, p + 1);
    match HexByte(bit, 0)
    case Some(b) =>
      PlainRun(bytes, p + 3, end);
      assert bytes[p + 3..end] == bit[2..];
      Sequences.Regroup([b], bit[2..], Decoded(bytes, end));
    case None =>
      PlainRun(bytes, p + 1, end);
      Sequences.Regroup([PERCENT], bit, Decoded(bytes, end));
  }

  method AddBit(before: seq<byte>, bit: seq<byte>) returns (out: seq<byte>)
    ensures out == before + Bit(bit)
  {
    var hex := HexByte(bit, 0);
    if hex.Some? {
      Sequences.Regroup(before, [hex.value], bit[2..]);
      out := before + [hex.value];
      out := out + bit[2..];
    } else {
      Sequences.Regroup(before, [PERCENT], bit);
      out := before + [PERCENT];
      out := out + bit;
    }
  }

  /** The bits from `k` on are what follows the `%` at `p`, if there is one. */
  ghost predicate IsAtMark(ascii: seq<byte>, p: nat, bits: seq<seq<byte>>, k: nat) {
    && p <= |ascii| && k <= |bits|
    && if p == |ascii| then k == |bits| else ascii[p] == PERCENT && bits[k..] == Split(ascii, PERCENT, p + 1)
  }

  lemma FirstMark(ascii: seq<byte>, bits: seq<seq<byte>>) returns (p: nat)
    requires bits == Split(ascii, PERCENT, 0)
    ensures IsAtMark(ascii, p, bits, 1) && Decoded(ascii, 0) == bits[0] + Decoded(ascii, p)
  {
    p := FirstOf(ascii, PERCENT, 0);
    NoneBefore(ascii, PERCENT, 0);
    PlainRun(ascii, 0, p);
    assert ascii[0..] == ascii[0..|ascii|];
  }

  lemma NextMark(ascii: seq<byte>, p: nat, bits: seq<seq<byte>>, k: nat) returns (end: nat)
    requires IsAtMark(ascii, p, bits, k) && k < |bits|
    ensures IsAtMark(ascii, end, bits, k + 1) && Decoded(ascii, p) == Bit(bits[k]) + Decoded(ascii, end)
  {
    end := FirstOf(ascii, PERCENT, p + 1);
    NoneBefore(ascii, PERCENT, p + 1);
    BitDecodes(ascii, p, end);
    assert bits[k..][0] == bits[k] && bits[k..][1..] == bits[k + 1..];
    assert ascii[p + 1..] == ascii[p + 1..|ascii|];
  }

  method UnquoteToBytes(ascii: seq<byte>) returns (out: seq<byte>)
    ensures out == Decoded(ascii, 0)
  {
    var bits := Split(ascii, PERCENT, 0);
    out := bits[0];
    ghost var p: nat := FirstMark(ascii, bits);
    for k := 1 to |bits|
      invariant IsAtMark(ascii, p, bits, k)
      invariant out + Decoded(ascii, p) == Decoded(ascii, 0)
    {
      ghost var end: nat := NextMark(ascii, p, bits, k);
      Sequences.Regroup(out, Bit(bits[k]), Decoded(ascii, end));
      out := AddBit(out, bits[k]);
      p := end;
    }
  }
}
