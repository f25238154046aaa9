/**
 Integers from configuration strings: the parser with its 19-digit cut-off and its 128-bit
 intermediate accepts exactly the decimal integers in the 64-bit range and returns their value.
 */
module IntParse {
  import opened Wrappers

  datatype IntError = NotAnInteger | OutOfRange

  newtype i128 = x: int | -0x8000_0000_0000_0000_0000_0000_0000_0000 <= x < 0x8000_0000_0000_0000_0000_0000_0000_0000

  const I64_MIN: int := -0x8000_0000_0000_0000
  const I64_MAX: int := 0x7fff_ffff_ffff_ffff

  predicate InRange(v: int) {
    I64_MIN <= v <= I64_MAX
  }

  /* ---- Strings ---- */

  /** Unicode `White_Space`. */
  predicate IsSpace(c: char) {
    var n := c as int;
    || 9 <= n <= 13 || n == 32 || n == 0x85 || n == 0xa0 || n == 0x1680
    || 0x2000 <= n <= 0x200a || n == 0x2028 || n == 0x2029 || n == 0x202f || n == 0x205f || n == 0x3000
  }

  function TrimStart(s: string): string {
    if s != "" && IsSpace(s[0]) then TrimStart(s[1..]) else s
  }

  function TrimEnd(s: string): string {
    if s != "" && IsSpace(s[|s| - 1]) then TrimEnd(s[..|s| - 1]) else s
  }

  function Trim(s: string): string {
    TrimEnd(TrimStart(s))
  }

  predicate IsDigit(c: char) {
    '0' <= c <= '9'
  }

  predicate AllDigits(s: string) {
    forall i :: 0 <= i < |s| ==> IsDigit(s[i])
  }

  /** `split('_')`, the group read so far in front. */
  function Groups(s: string, i: nat, group: string): seq<string>
    requires i <= |s|
    decreases |s| - i
  {
    if i == |s| then [group]
    else if s[i] == '_' then [group] + Groups(s, i + 1, "")
    else Groups(s, i + 1, group + [s[i]])
  }

  predicate AreDigitGroups(groups: seq<string>) {
    forall i :: 0 <= i < |groups| ==> groups[i] != "" && AllDigits(groups[i])
  }

  /** `replace('_', "")`. */
  function WithoutUnderscores(s: string): string {
    if s == "" then ""
    else WithoutUnderscores(s[..|s| - 1]) + (if s[|s| - 1] == '_' then "" else [s[|s| - 1]])
  }

  function TrimZeros(s: string): string {
    if s != "" && s[0] == '0' then TrimZeros(s[1..]) else s
  }

  /* ---- The parser ---- */

  function Pow10(n: nat): nat {
    if n == 0 then 1 else 10 * Pow10(n - 1)
  }

  /** `str::parse::<i128>` of up to 19 digits; the empty text is 0. */
  function Magnitude(s: string): (r: i128)
    requires AllDigits(s) && |s| <= 19
    ensures 0 <= r as int < Pow10(|s|)
  {
    if s == "" then 0
    else
      var high := Magnitude(s[..|s| - 1]);
      var digit := (s[|s| - 1] as int - '0' as int) as i128;
      Pow10Bound(|s| - 1);
      high * 10 + digit
  }

  lemma {:induction false} Pow10Bound(n: nat)
    requires n <= 19
    ensures Pow10(n) <= 10_000_000_000_000_000_000
    ensures n == 19 ==> Pow10(n) == 10_000_000_000_000_000_000
    decreases 19 - n
  {
    if n < 19 {
      Pow10Bound(n + 1);
    } else {
      assert Pow10(19) == 100000 * Pow10(14);
      assert Pow10(14) == 100000 * Pow10(9);
      assert Pow10(9) == 100000 * Pow10(4);
    }
  }

  predicate IsNegative(trimmed: string) {
    trimmed != "" && trimmed[0] == '-'
  }

  /** The text behind an optional sign. */
  function Unsigned(trimmed: string): string {
    if trimmed != "" && (trimmed[0] == '-' || trimmed[0] == '+') then trimmed[1..] else trimmed
  }

  function Signed(negative: bool, magnitude: int): int {
    if negative then -magnitude else magnitude
  }

  function ParseDigits(digits: string, negative: bool): Result<int, IntError>
    requires AllDigits(digits)
  {
    var significant := TrimZeros(digits);
    TrimZerosDigits(digits);
    if |significant| > 19 then Err(OutOfRange)
    else
      var signed := Signed(negative, Magnitude(significant) as nat);
      if InRange(signed) then Ok(signed) else Err(OutOfRange)
  }

  function ParseStrict(value: string): Result<int, IntError> {
    var trimmed := Trim(value);
    var digits := Unsigned(trimmed);
    if digits == "" || !AreDigitGroups(Groups(digits, 0, "")) then Err(NotAnInteger)
    else
      GroupsAreDecimal(digits);
      RemovalDigits(digits);
      ParseDigits(WithoutUnderscores(digits), IsNegative(trimmed))
  }

  /* ---- What it should accept and return ---- */

  /** Digits, with single underscores between two of them. */
  predicate IsDecimal(s: string) {
    && s != ""
    && forall i :: 0 <= i < |s| ==> IsDigit(s[i]) || IsInner(s, i)
  }

  predicate IsInner(s: string, i: nat) {
    0 < i < |s| - 1 && s[i] == '_' && IsDigit(s[i - 1]) && IsDigit(s[i + 1])
  }

  /** The value of a decimal, underscores passed over. */
  function DecimalValue(s: string): nat {
    if s == "" then 0
    else
      var c := s[|s| - 1];
      if IsDigit(c) then 10 * DecimalValue(s[..|s| - 1]) + (c as int - '0' as int) else DecimalValue(s[..|s| - 1])
  }

  lemma {:induction false} TrimZerosDigits(s: string)
    requires AllDigits(s)
    ensures AllDigits(TrimZeros(s)) && |TrimZeros(s)| <= |s|
    ensures TrimZeros(s) != "" ==> TrimZeros(s)[0] != '0'
  {
    if s != "" && s[0] == '0' {
      TrimZerosDigits(s[1..]);
    }
  }

  /* ---- Groups ---- */

  /** The groups from `i` on are digits; `empty` says that the current one has none yet. */
  predicate TailIsGrouped(s: string, i: nat, empty: bool)
    requires i <= |s|
    decreases |s| - i
  {
    if i == |s| then !empty
    else if s[i] == '_' then !empty && TailIsGrouped(s, i + 1, true)
    else IsDigit(s[i]) && TailIsGrouped(s, i + 1, false)
  }

  lemma DigitGroupsStep(group: string, rest: seq<string>)
    ensures AreDigitGroups([group] + rest) <==> group != "" && AllDigits(group) && AreDigitGroups(rest)
  {
    var all := [group] + rest;
    assert all[0] == group;
    assert forall i :: 0 <= i < |rest| ==> all[i + 1] == rest[i];
  }

  lemma {:induction false} GroupsAreGrouped(s: string, i: nat, group: string)
    requires i <= |s|
    ensures AreDigitGroups(Groups(s, i, group)) <==> AllDigits(group) && TailIsGrouped(s, i, group == "")
    decreases |s| - i
  {
    if i == |s| {
      DigitGroupsStep(group, []);
      assert [group] + [] == [group];
    } else if s[i] == '_' {
      GroupsAreGrouped(s, i + 1, "");
      DigitGroupsStep(group, Groups(s, i + 1, ""));
    } else {
      GroupsAreGrouped(s, i + 1, group + [s[i]]);
      assert AllDigits(group + [s[i]]) <==> AllDigits(group) && IsDigit(s[i]) by {
        var longer := group + [s[i]];
        assert longer[|group|] == s[i];
        assert forall k :: 0 <= k < |group| ==> longer[k] == group[k];
      }
    }
  }

  /** A digit, or an underscore with a digit behind it and, after `i`, in front of it. */
  predicate SpacedAt(s: string, i: nat, k: nat)
    requires k < |s|
  {
    IsDigit(s[k]) || (s[k] == '_' && k < |s| - 1 && IsDigit(s[k + 1]) && (k > i ==> IsDigit(s[k - 1])))
  }

  /** What `TailIsGrouped` says, char by char. */
  predicate IsSpaced(s: string, i: nat, empty: bool)
    requires i <= |s|
  {
    && (empty ==> i < |s| && IsDigit(s[i]))
    && forall k :: i <= k < |s| ==> SpacedAt(s, i, k)
  }

  lemma {:induction false} GroupedIsSpaced(s: string, i: nat, empty: bool)
    requires i <= |s|
    ensures TailIsGrouped(s, i, empty) <==> IsSpaced(s, i, empty)
    decreases |s| - i
  {
    if i < |s| {
      var next := i + 1;
      GroupedIsSpaced(s, next, s[i] == '_');
      if IsSpaced(s, i, empty) {
        assert SpacedAt(s, i, i);
        forall k | next <= k < |s|
          ensures SpacedAt(s, next, k)
        {
          assert SpacedAt(s, i, k);
        }
      }
      if TailIsGrouped(s, i, empty) {
        forall k | i <= k < |s|
          ensures SpacedAt(s, i, k)
        {
          assert k > i ==> SpacedAt(s, next, k);
        }
      }
    }
  }

  lemma GroupsAreDecimal(s: string)
    requires s != ""
    ensures AreDigitGroups(Groups(s, 0, "")) <==> IsDecimal(s)
  {
    GroupsAreGrouped(s, 0, "");
    GroupedIsSpaced(s, 0, true);
    forall k | 0 <= k < |s|
      ensures (IsDigit(s[k]) || IsInner(s, k)) <==> SpacedAt(s, 0, k) && (k == 0 ==> IsDigit(s[0]))
    {
    }
  }

  /* ---- Values ---- */

  predicate DigitsAndUnderscores(s: string) {
    forall i :: 0 <= i < |s| ==> IsDigit(s[i]) || s[i] == '_'
  }

  lemma {:induction false} RemovalKeepsValue(s: string)
    requires DigitsAndUnderscores(s)
    ensures AllDigits(WithoutUnderscores(s)) && DecimalValue(WithoutUnderscores(s)) == DecimalValue(s)
  {
    if s != "" {
      var shorter := WithoutUnderscores(s[..|s| - 1]);
      RemovalKeepsValue(s[..|s| - 1]);
      assert (shorter + [s[|s| - 1]])[..|shorter|] == shorter;
      assert shorter + "" == shorter;
    }
  }

  lemma RemovalDigits(s: string)
    requires IsDecimal(s)
    ensures AllDigits(WithoutUnderscores(s)) && DecimalValue(WithoutUnderscores(s)) == DecimalValue(s)
  {
    forall i | 0 <= i < |s|
      ensures IsDigit(s[i]) || s[i] == '_'
    {
      assert IsDigit(s[i]) || IsInner(s, i);
    }
    RemovalKeepsValue(s);
  }

  lemma {:induction false} LeadingZero(s: string)
    requires s != "" && s[0] == '0'
    ensures DecimalValue(s[1..]) == DecimalValue(s)
  {
    if |s| > 1 {
      LeadingZero(s[..|s| - 1]);
      assert s[1..][..|s| - 2] == s[..|s| - 1][1..];
    }
  }

  lemma {:induction false} LeadingZeros(s: string)
    ensures DecimalValue(TrimZeros(s)) == DecimalValue(s)
  {
    if s != "" && s[0] == '0' {
      LeadingZero(s);
      LeadingZeros(s[1..]);
    }
  }

  lemma {:induction false} MagnitudeIsValue(s: string)
    requires AllDigits(s) && |s| <= 19
    ensures Magnitude(s) as nat == DecimalValue(s)
  {
    if s != "" {
      MagnitudeIsValue(s[..|s| - 1]);
    }
  }

  /** A text of `n` digits that does not start with 0 is at least 10 to the n - 1. */
  lemma {:induction false} AtLeast(s: string)
    requires AllDigits(s) && s != "" && s[0] != '0'
    ensures DecimalValue(s) >= Pow10(|s| - 1)
  {
    if |s| > 1 {
      AtLeast(s[..|s| - 1]);
    }
  }

  lemma {:induction false} Pow10Grows(n: nat)
    requires n >= 19
    ensures Pow10(n) >= 10_000_000_000_000_000_000
  {
    if n == 19 {
      Pow10Bound(19);
    } else {
      Pow10Grows(n - 1);
    }
  }

  /** The cut-off at 19 significant digits refuses nothing that is in range. */
  lemma DigitsAreExact(digits: string, negative: bool)
    requires AllDigits(digits)
    ensures ParseDigits(digits, negative) ==
      if InRange(Signed(negative, DecimalValue(digits))) then Ok(Signed(negative, DecimalValue(digits)))
      else Err(OutOfRange)
  {
    var significant := TrimZeros(digits);
    TrimZerosDigits(digits);
    LeadingZeros(digits);
    if |significant| > 19 {
      AtLeast(significant);
      Pow10Grows(|significant| - 1);
    } else {
      MagnitudeIsValue(significant);
    }
  }

  /* ---- The main results ---- */

  /** The integer a string denotes, if it is a decimal with an optional sign between whitespace. */
  function Denoted(value: string): Option<int> {
    var trimmed := Trim(value);
    if IsDecimal(Unsigned(trimmed)) then Some(Signed(IsNegative(trimmed), DecimalValue(Unsigned(trimmed)))) else None
  }

  /** Parsing succeeds exactly on the decimals in the 64-bit range and returns their value. */
  lemma StrictIsExact(value: string)
    ensures ParseStrict(value) ==
      match Denoted(value)
      case None => Err(NotAnInteger)
      case Some(v) => if InRange(v) then Ok(v) else Err(OutOfRange)
  {
    var trimmed := Trim(value);
    var digits := Unsigned(trimmed);
    if digits != "" {
      GroupsAreDecimal(digits);
      if IsDecimal(digits) {
        RemovalDigits(digits);
        DigitsAreExact(WithoutUnderscores(digits), IsNegative(trimmed));
      }
    }
  }

  /* ---- Printing ---- */

  function Digit(d: nat): char
    requires d < 10
  {
    ('0' as int + d) as char
  }

  function Digits(n: nat): string {
    if n < 10 then [Digit(n)] else Digits(n / 10) + [Digit(n % 10)]
  }

  function Print(v: int): string {
    if v < 0 then "-" + Digits(-v) else Digits(v)
  }

  lemma {:induction false} DigitsDenote(n: nat)
    ensures Digits(n) != "" && AllDigits(Digits(n)) && DecimalValue(Digits(n)) == n
  {
    if n < 10 {
      assert Digits(n)[..0] == "";
    } else {
      DigitsDenote(n / 10);
      assert Digits(n)[..|Digits(n)| - 1] == Digits(n / 10);
    }
  }

  lemma NothingToTrim(s: string)
    requires s != "" && !IsSpace(s[0]) && !IsSpace(s[|s| - 1])
    ensures Trim(s) == s
  {
  }

  /** Every 64-bit integer is read back as printed. */
  lemma PrintThenParse(v: int)
    requires InRange(v)
    ensures ParseStrict(Print(v)) == Ok(v)
  {
    var n := if v < 0 then -v else v;
    var s := Print(v);
    DigitsDenote(n);
    assert s[|s| - 1] == Digits(n)[|Digits(n)| - 1];
    NothingToTrim(s);
    assert Unsigned(s) == Digits(n);
    StrictIsExact(s);
  }

  /* ---- Integers written with a zero fraction ---- */

  /** `rsplit_once('.')`: where the last dot is. */
  function LastDot(s: string, end: nat): (r: Option<nat>)
    requires end <= |s|
    ensures r.Some? ==> r.value < end && s[r.value] == '.'
  {
    if end == 0 then None else if s[end - 1] == '.' then Some(end - 1) else LastDot(s, end - 1)
  }

  predicate AllZeros(s: string) {
    forall i :: 0 <= i < |s| ==> s[i] == '0'
  }

  function ParseInt(value: string): Result<int, IntError> {
    var strict := ParseStrict(value);
    var trimmed := Trim(value);
    if strict.Ok? then strict
    else match LastDot(trimmed, |trimmed|)
      case None => strict
      case Some(dot) =>
        var body, zeros := trimmed[..dot], trimmed[dot + 1..];
        if zeros != "" && AllZeros(zeros) && Trim(body) == body then ParseStrict(body) else strict
  }

  lemma {:induction false} LastDotIs(s: string, end: nat, dot: nat)
    requires dot < end <= |s| && s[dot] == '.' && forall i :: dot < i < end ==> s[i] != '.'
    ensures LastDot(s, end) == Some(dot)
  {
    if dot < end - 1 {
      LastDotIs(s, end - 1, dot);
    }
  }

  /** The trimmed value is this body, a dot and zeros. */
  ghost predicate HasZeroFraction(value: string, body: string) {
    exists zeros :: zeros != "" && AllZeros(zeros) && Trim(value) == body + "." + zeros && Trim(body) == body
  }

  lemma WithFraction(value: string, body: string, zeros: string)
    requires zeros != "" && AllZeros(zeros) && Trim(value) == body + "." + zeros && Trim(body) == body
    ensures ParseInt(value) == ParseStrict(body) || ParseStrict(body).Err?
    ensures !ParseStrict(value).Ok?
  {
    var trimmed, dot := Trim(value), |body|;
    assert trimmed[dot] == '.';
    assert forall i :: dot < i < |trimmed| ==> trimmed[i] == zeros[i - dot - 1];
    LastDotIs(trimmed, |trimmed|, dot);
    assert trimmed[..dot] == body && trimmed[dot + 1..] == zeros;
    StrictIsExact(value);
    var digits := Unsigned(trimmed);
    assert digits[|digits| - |zeros| - 1] == '.';
  }

  lemma FractionFound(value: string, v: int) returns (body: string)
    requires ParseInt(value) == Ok(v) && ParseStrict(value) != Ok(v)
    ensures HasZeroFraction(value, body) && ParseStrict(body) == Ok(v)
  {
    var trimmed := Trim(value);
    var dot := LastDot(trimmed, |trimmed|).value;
    body := trimmed[..dot];
    assert trimmed == body + "." + trimmed[dot + 1..];
  }

  lemma FractionParsed(value: string, body: string)
    requires HasZeroFraction(value, body) && ParseStrict(body).Ok?
    ensures ParseInt(value) == ParseStrict(body)
  {
    var zeros :| zeros != "" && AllZeros(zeros) && Trim(value) == body + "." + zeros && Trim(body) == body;
    WithFraction(value, body, zeros);
  }

  /** An integer, or an integer with a fraction of zeros. */
  lemma IntIsExact(value: string, v: int)
    ensures ParseInt(value) == Ok(v) <==>
      ParseStrict(value) == Ok(v) || exists body :: HasZeroFraction(value, body) && ParseStrict(body) == Ok(v)
  {
    if ParseInt(value) == Ok(v) && ParseStrict(value) != Ok(v) {
      var body := FractionFound(value, v);
    }
    forall body | HasZeroFraction(value, body) && ParseStrict(body) == Ok(v)
      ensures ParseInt(value) == Ok(v)
    {
      FractionParsed(value, body);
    }
  }
}
