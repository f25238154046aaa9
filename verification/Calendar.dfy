/**
 The log's timestamp, computed by a chain of divisions in 64-bit unsigned arithmetic, and the
 calendar it stands for: one that starts at 1970-01-01 and goes on day by day.
 */
module Calendar {

  newtype u64 = x: int | 0 <= x < 0x1_0000_0000_0000_0000

  datatype Date = Date(year: nat, month: nat, day: nat)

  datatype Stamp = Stamp(date: Date, hour: nat, minute: nat, second: nat)

  /* ---- The simple calendar ---- */

  predicate IsLeap(year: nat) {
    year % 4 == 0 && (year % 100 != 0 || year % 400 == 0)
  }

  function DaysIn(year: nat, month: nat): nat {
    if month == 2 then if IsLeap(year) then 29 else 28
    else if month == 4 || month == 6 || month == 9 || month == 11 then 30
    else 31
  }

  predicate IsDate(d: Date) {
    1 <= d.month <= 12 && 1 <= d.day <= DaysIn(d.year, d.month)
  }

  function NextDay(d: Date): Date {
    if d.day < DaysIn(d.year, d.month) then d.(day := d.day + 1)
    else if d.month < 12 then Date(d.year, d.month + 1, 1)
    else Date(d.year + 1, 1, 1)
  }

  /** The date `n` days after 1970-01-01. */
  function DateOf(n: nat): Date {
    if n == 0 then Date(1970, 1, 1) else NextDay(DateOf(n - 1))
  }

  /* ---- The division chain ---- */

  /** The year of the 400-year era and the day of that year, counted from 1 March. */
  function YearOfEra(doe: u64): u64
    requires doe < 146097
  {
    (doe - doe / 1460 + doe / 36524 - doe / 146096) / 365
  }

  /** The days before a year of the era. */
  function DaysBefore(yoe: nat): nat {
    365 * yoe + yoe / 4 - yoe / 100
  }

  function YearLength(yoe: nat): nat {
    if (yoe + 1) % 4 == 0 && ((yoe + 1) % 100 != 0 || yoe + 1 == 400) then 366 else 365
  }

  lemma YearStart(c: nat, q: nat, y: nat)
    requires c <= 3 && q <= 24 && y <= 3
    ensures DaysBefore(100 * c + 4 * q + y) == 36524 * c + 1461 * q + 365 * y
  {
  }

  /** The last year of a 4-year cycle has a leap day, unless it ends a century that is no fourth one. */
  lemma LeapYear(c: nat, q: nat)
    requires c <= 3 && q <= 24 && (q < 24 || c == 3)
    ensures YearLength(100 * c + 4 * q + 3) == 366
  {
  }

  /** The day as century, 4-year cycle, year and day, all within the era. */
  lemma Mixed(doe: nat) returns (c: nat, q: nat, y: nat, d: nat)
    requires doe < 146097
    ensures c <= 3 && q <= 24 && y <= 3 && d < YearLength(100 * c + 4 * q + y)
    ensures doe == 36524 * c + 1461 * q + 365 * y + d
  {
    c := if doe == 146096 then 3 else doe / 36524;
    var r := doe - 36524 * c;
    q := r / 1461;
    var s := r - 1461 * q;
    y := if s / 365 > 3 then 3 else s / 365;
    d := s - 365 * y;
    if d == 365 {
      LeapYear(c, q);
    }
  }

  /** The three corrections cancel all but the whole years and a part of one. */
  lemma Corrected(c: nat, q: nat, y: nat, d: nat, doe: nat)
    requires c <= 3 && q <= 24 && y <= 3 && d < YearLength(100 * c + 4 * q + y)
    requires doe == 36524 * c + 1461 * q + 365 * y + d
    ensures 0 <= doe - doe / 1460 + doe / 36524 - doe / 146096 - 365 * (100 * c + 4 * q + y) < 365
  {
    var over := if 24 * c + q + 365 * y + d >= 1460 then 1 else 0;
    assert doe / 1460 == 25 * c + q + over;
    assert doe < 146096 ==> doe / 36524 == c && doe / 146096 == 0;
  }

  lemma WholeYears(n: nat, k: nat)
    requires 0 <= n - 365 * k < 365
    ensures n / 365 == k
  {
  }

  lemma YearOfEraIs(doe: u64)
    requires doe < 146097
    ensures var yoe := YearOfEra(doe) as nat;
      yoe < 400 && DaysBefore(yoe) <= doe as nat < DaysBefore(yoe) + YearLength(yoe)
  {
    var c, q, y, d := Mixed(doe as nat);
    YearStart(c, q, y);
    Corrected(c, q, y, d, doe as nat);
    WholeYears((doe - doe / 1460 + doe / 36524 - doe / 146096) as nat, 100 * c + 4 * q + y);
  }

  /* ---- Months, counted from March ---- */

  function MonthOfYear(doy: u64): u64
    requires doy < 366
  {
    (5 * doy + 2) / 153
  }

  function DaysBeforeMonth(mp: nat): nat {
    (153 * mp + 2) / 5
  }

  lemma MonthOfYearIs(doy: u64)
    requires doy < 366
    ensures var mp := MonthOfYear(doy) as nat;
      mp < 12 && DaysBeforeMonth(mp) <= doy as nat < DaysBeforeMonth(mp + 1)
  {
  }

  /** The date of a day of the year that starts on 1 March. */
  function DateInYear(era: nat, yoe: nat, doy: u64): Date
    requires doy < 366
  {
    var mp := MonthOfYear(doy);
    MonthOfYearIs(doy);
    var day := doy - (153 * mp + 2) / 5 + 1;
    var month := if mp < 10 then mp + 3 else mp - 9;
    Date(yoe + era * 400 + (if month <= 2 then 1 else 0), month as nat, day as nat)
  }

  /** The date of a day of an era. */
  function DateInEra(era: nat, doe: u64): Date
    requires doe < 146097
  {
    var yoe := YearOfEra(doe);
    YearOfEraIs(doe);
    var doy := doe - (365 * yoe + yoe / 4 - yoe / 100);
    DateInYear(era, yoe as nat, doy)
  }

  /** The date `days` days after 1970-01-01, as the program computes it. */
  function Civil(days: u64): Date
    requires days < 0x1_0000_0000_0000
  {
    var z := days + 719468;
    DateInEra((z / 146097) as nat, z % 146097)
  }

  function UtcTimestamp(secs: u64): Stamp {
    var days := secs / 86400;
    var rem := secs % 86400;
    Stamp(Civil(days), rem as nat / 3600, rem as nat % 3600 / 60, rem as nat % 60)
  }

  /* ---- One day more ---- */

  lemma Multiples4(a: nat, k: nat)
    ensures (a + 4 * k) % 4 == a % 4
  {
  }

  lemma Multiples100(a: nat, k: nat)
    ensures (a + 100 * k) % 100 == a % 100
  {
  }

  lemma Multiples400(a: nat, k: nat)
    ensures (a + 400 * k) % 400 == a % 400
  {
  }

  lemma LeapOfEra(era: nat, yoe: nat)
    requires yoe < 400
    ensures IsLeap(yoe + era * 400 + 1) <==> YearLength(yoe) == 366
  {
    Multiples400(yoe + 1, era);
    Multiples100(yoe + 1, 4 * era);
    Multiples4(yoe + 1, 100 * era);
  }

  /** The next day is in the same month, or it is the first day of the next one. */
  lemma NextMonth(doy: u64)
    requires doy < 365
    ensures var mp, next := MonthOfYear(doy) as nat, MonthOfYear(doy + 1) as nat;
      if doy as nat + 1 < DaysBeforeMonth(mp + 1) then next == mp
      else next == mp + 1 && doy as nat + 1 == DaysBeforeMonth(mp + 1)
  {
    MonthOfYearIs(doy);
    MonthOfYearIs(doy + 1);
  }

  function CivilMonth(mp: nat): nat
    requires mp < 12
  {
    if mp < 10 then mp + 3 else mp - 9
  }

  /** The months from March to January are as long as the table of days before them says. */
  lemma MonthLengths(mp: nat, year: nat)
    requires mp < 11
    ensures DaysIn(year, CivilMonth(mp)) == DaysBeforeMonth(mp + 1) - DaysBeforeMonth(mp)
  {
  }

  lemma NextInYear(era: nat, yoe: nat, doy: u64)
    requires yoe < 400 && doy as nat + 1 < YearLength(yoe)
    ensures DateInYear(era, yoe, doy + 1) == NextDay(DateInYear(era, yoe, doy))
  {
    LeapOfEra(era, yoe);
    MonthOfYearIs(doy);
    NextMonth(doy);
    var mp := MonthOfYear(doy) as nat;
    if mp < 11 {
      MonthLengths(mp, DateInYear(era, yoe, doy).year);
    }
  }

  lemma NextYear(era: nat, yoe: nat, doy: u64, nextEra: nat, nextYoe: nat)
    requires yoe < 400 && doy as nat + 1 == YearLength(yoe)
    requires nextYoe + nextEra * 400 == yoe + era * 400 + 1
    ensures DateInYear(nextEra, nextYoe, 0) == NextDay(DateInYear(era, yoe, doy))
  {
    LeapOfEra(era, yoe);
    MonthOfYearIs(doy);
  }

  lemma {:induction false} YearsInOrder(a: nat, b: nat)
    requires a < b < 400
    ensures DaysBefore(a) + YearLength(a) <= DaysBefore(b)
  {
    if a + 1 < b {
      YearsInOrder(a, b - 1);
    }
  }

  /** Only one year of the era holds a day. */
  lemma OneYear(a: nat, b: nat, doe: nat)
    requires a < 400 && DaysBefore(a) <= doe < DaysBefore(a) + YearLength(a)
    requires b < 400 && DaysBefore(b) <= doe < DaysBefore(b) + YearLength(b)
    ensures a == b
  {
    if a < b {
      YearsInOrder(a, b);
    } else if b < a {
      YearsInOrder(b, a);
    }
  }

  lemma DateInEraIs(era: nat, doe: u64, yoe: nat, doy: u64)
    requires doe < 146097 && yoe < 400 && doy as nat < YearLength(yoe)
    requires doe as nat == DaysBefore(yoe) + doy as nat
    ensures DateInEra(era, doe) == DateInYear(era, yoe, doy)
  {
    YearOfEraIs(doe);
    OneYear(yoe, YearOfEra(doe) as nat, doe as nat);
  }

  lemma DayOfEra(doe: u64) returns (yoe: nat, doy: u64)
    requires doe < 146097
    ensures yoe < 400 && doy as nat < YearLength(yoe) && doe as nat == DaysBefore(yoe) + doy as nat
  {
    YearOfEraIs(doe);
    yoe := YearOfEra(doe) as nat;
    doy := doe - DaysBefore(yoe) as u64;
  }

  lemma DayLater(era: nat, doe: u64, yoe: nat, doy: u64)
    requires doe < 146096 && yoe < 400 && doy as nat + 1 < YearLength(yoe)
    requires doe as nat == DaysBefore(yoe) + doy as nat
    ensures DateInEra(era, doe + 1) == NextDay(DateInEra(era, doe))
  {
    DateInEraIs(era, doe, yoe, doy);
    DateInEraIs(era, doe + 1, yoe, doy + 1);
    NextInYear(era, yoe, doy);
  }

  lemma NextYearStarts(yoe: nat)
    requires yoe < 399
    ensures DaysBefore(yoe + 1) == DaysBefore(yoe) + YearLength(yoe)
  {
  }

  lemma YearLater(era: nat, doe: u64, yoe: nat, doy: u64)
    requires doe < 146096 && yoe < 399 && doy as nat + 1 == YearLength(yoe)
    requires doe as nat == DaysBefore(yoe) + doy as nat
    ensures DateInEra(era, doe + 1) == NextDay(DateInEra(era, doe))
  {
    NextYearStarts(yoe);
    DateInEraIs(era, doe, yoe, doy);
    DateInEraIs(era, doe + 1, yoe + 1, 0);
    NextYear(era, yoe, doy, era, yoe + 1);
  }

  lemma NextInEra(era: nat, doe: u64)
    requires doe < 146096
    ensures DateInEra(era, doe + 1) == NextDay(DateInEra(era, doe))
  {
    var yoe, doy := DayOfEra(doe);
    if doy as nat + 1 < YearLength(yoe) {
      DayLater(era, doe, yoe, doy);
    } else {
      YearLater(era, doe, yoe, doy);
    }
  }

  lemma NextEra(era: nat)
    ensures DateInEra(era + 1, 0) == NextDay(DateInEra(era, 146096))
  {
    assert YearOfEra(146096) == 399 && YearOfEra(0) == 0;
    NextYear(era, 399, 365, era + 1, 0);
  }

  lemma Quotient(z: u64, era: nat, doe: u64)
    requires doe < 146097 && z as nat == era * 146097 + doe as nat
    ensures (z / 146097) as nat == era && z % 146097 == doe
  {
  }

  lemma CivilIs(days: u64, era: nat, doe: u64)
    requires days < 0x1_0000_0000_0000 && doe < 146097 && days as nat + 719468 == era * 146097 + doe as nat
    ensures Civil(days) == DateInEra(era, doe)
  {
    Quotient(days + 719468, era, doe);
  }

  lemma CivilNext(days: u64)
    requires days < 0xffff_ffff_ffff
    ensures Civil(days + 1) == NextDay(Civil(days))
  {
    var era, doe := ((days + 719468) / 146097) as nat, (days + 719468) % 146097;
    CivilIs(days, era, doe);
    if doe < 146096 {
      CivilIs(days + 1, era, doe + 1);
      NextInEra(era, doe);
    } else {
      CivilIs(days + 1, era + 1, 0);
      NextEra(era);
    }
  }

  lemma Epoch()
    ensures Civil(0) == Date(1970, 1, 1)
  {
    assert YearOfEra(135080) == 369;
    assert MonthOfYear(306) == 10;
  }

  /* ---- The main results ---- */

  /** The division chain is the calendar that goes on day by day. */
  lemma {:induction false} CivilIsCalendar(days: u64)
    requires days < 0x1_0000_0000_0000
    ensures Civil(days) == DateOf(days as nat)
    decreases days
  {
    if days == 0 {
      Epoch();
    } else {
      CivilIsCalendar(days - 1);
      CivilNext(days - 1);
    }
  }

  /* ---- Order ---- */

  predicate Earlier(a: Date, b: Date) {
    || a.year < b.year
    || (a.year == b.year && a.month < b.month)
    || (a.year == b.year && a.month == b.month && a.day < b.day)
  }

  predicate StampEarlier(a: Stamp, b: Stamp) {
    || Earlier(a.date, b.date)
    || (a.date == b.date && a.hour < b.hour)
    || (a.date == b.date && a.hour == b.hour && a.minute < b.minute)
    || (a.date == b.date && a.hour == b.hour && a.minute == b.minute && a.second < b.second)
  }

  lemma {:induction false} DatesAreDates(n: nat)
    ensures IsDate(DateOf(n)) && DateOf(n).year >= 1970
  {
    if n > 0 {
      DatesAreDates(n - 1);
    }
  }

  lemma {:induction false} DatesInOrder(a: nat, b: nat)
    requires a < b
    ensures Earlier(DateOf(a), DateOf(b))
    decreases b
  {
    DatesAreDates(b - 1);
    if a < b - 1 {
      DatesInOrder(a, b - 1);
    }
  }

  function StampOf(days: nat, rem: nat): Stamp {
    Stamp(DateOf(days), rem / 3600, rem % 3600 / 60, rem % 60)
  }

  lemma StampIs(secs: u64) returns (days: nat, rem: nat)
    ensures rem < 86400 && secs as nat == 86400 * days + rem
    ensures UtcTimestamp(secs) == StampOf(days, rem)
  {
    CivilIsCalendar(secs / 86400);
    days, rem := (secs / 86400) as nat, (secs % 86400) as nat;
  }

  lemma TimesInOrder(days: nat, a: nat, b: nat)
    requires a < b < 86400
    ensures StampEarlier(StampOf(days, a), StampOf(days, b))
  {
  }

  lemma StampsOfInOrder(x: nat, r: nat, y: nat, q: nat)
    requires r < 86400 && q < 86400 && 86400 * x + r < 86400 * y + q
    ensures StampEarlier(StampOf(x, r), StampOf(y, q)) && StampOf(x, r) != StampOf(y, q)
  {
    if x < y {
      DatesInOrder(x, y);
    } else {
      TimesInOrder(x, r, q);
    }
  }

  /** Later instants have later stamps, so no two instants share one. */
  lemma StampsInOrder(a: u64, b: u64)
    requires a < b
    ensures StampEarlier(UtcTimestamp(a), UtcTimestamp(b)) && UtcTimestamp(a) != UtcTimestamp(b)
  {
    var x, r := StampIs(a);
    var y, q := StampIs(b);
    StampsOfInOrder(x, r, y, q);
  }

  /* ---- The secrets parser's timestamp check ---- */

  /** Whether the fields of a timestamp scalar make a date, a time and an offset. */
  predicate TimestampIsValid(
    year: nat, month: nat, day: nat, hour: nat, minute: nat, second: nat, offsetHours: nat, offsetMinutes: nat)
  {
    var leap := year % 4 == 0 && (year % 100 != 0 || year % 400 == 0);
    var days :=
      if month in {1, 3, 5, 7, 8, 10, 12} then 31
      else if month in {4, 6, 9, 11} then 30
      else if month == 2 && leap then 29
      else if month == 2 then 28
      else 0;
    && days > 0
    && 1 <= year <= 9999 && 1 <= day <= days
    && hour <= 23 && minute <= 59 && second <= 59
    && offsetHours * 60 + offsetMinutes < 24 * 60
  }

  /** The last second of the year 9999. */
  const LAST_SECOND: nat := 253402300799

  lemma LastDay()
    ensures Civil(2932896) == Date(9999, 12, 31)
  {
    Quotient(2932896 + 719468, 24, 146036);
    assert YearOfEra(146036) == 399;
    assert MonthOfYear(305) == 9;
  }

  lemma UpToLastDay(days: nat)
    ensures DateOf(days).year <= 9999 <==> days <= 2932896
  {
    LastDay();
    CivilIsCalendar(2932896);
    DatesAreDates(days);
    if days < 2932896 {
      DatesInOrder(days, 2932896);
    } else if days > 2932896 {
      DatesInOrder(2932896, days);
    }
  }

  lemma FieldsAreValid(days: nat, rem: nat)
    requires rem < 86400
    ensures var s := StampOf(days, rem);
      TimestampIsValid(s.date.year, s.date.month, s.date.day, s.hour, s.minute, s.second, 0, 0) <==>
      s.date.year <= 9999
  {
    DatesAreDates(days);
  }

  /** A stamp passes the check if and only if its instant is not behind the year 9999. */
  lemma StampIsValid(secs: u64)
    ensures var s := UtcTimestamp(secs);
      TimestampIsValid(s.date.year, s.date.month, s.date.day, s.hour, s.minute, s.second, 0, 0) <==>
      secs as nat <= LAST_SECOND
  {
    var days, rem := StampIs(secs);
    FieldsAreValid(days, rem);
    UpToLastDay(days);
  }
}
