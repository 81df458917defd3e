// The export times of relay-contract/src/archive.js: normalizeExportedAt accepts the texts that
// `new Date(text).toISOString()` prints unchanged. The test on the fields of a text is compared with
// the day arithmetic of section 21.4.1 of ECMA-262, by which a time value is printed.
module ExportTime {
  import opened Text
  import opened Numeral

  // ----- The test on the fields -----

  function Number(t: Text, i: nat, n: nat): int
    requires i + n <= |t|
  {
    DecimalValue(t[i..i + n])
  }

  predicate AllDigits(t: Text, i: nat, n: nat)
    requires i + n <= |t|
  {
    forall k | i <= k < i + n :: IsDigit(t[k])
  }

  // \d{4}-\d{2}-\d{2}T\d{2}:\d{2}:\d{2}\.\d{3}Z
  predicate IsIsoPattern(t: Text) {
    && |t| == 24
    && AllDigits(t, 0, 4) && t[4] == 0x2D && AllDigits(t, 5, 2) && t[7] == 0x2D && AllDigits(t, 8, 2) && t[10] == 0x54
    && AllDigits(t, 11, 2) && t[13] == 0x3A && AllDigits(t, 14, 2) && t[16] == 0x3A && AllDigits(t, 17, 2)
    && t[19] == 0x2E && AllDigits(t, 20, 3) && t[23] == 0x5A
  }

  function DaysInMonth(year: int, month: int): int {
    if month == 2 then (if year % 4 == 0 && (year % 100 != 0 || year % 400 == 0) then 29 else 28)
    else if month == 4 || month == 6 || month == 9 || month == 11 then 30
    else 31
  }

  // A text that Date reads and toISOString prints unchanged: the pattern with fields that name an
  // existing instant.
  predicate IsExportTime(t: Text) {
    IsIsoPattern(t) &&
    var year, month, day := Number(t, 0, 4), Number(t, 5, 2), Number(t, 8, 2);
    1 <= month <= 12 && 1 <= day <= DaysInMonth(year, month) &&
    Number(t, 11, 2) < 24 && Number(t, 14, 2) < 60 && Number(t, 17, 2) < 60
  }

  // ----- Time values -----

  const MS_PER_DAY := 86_400_000

  // DayFromYear: the number of days from 1970-01-01 to the first day of a year.
  function DayFromYear(year: int): int {
    365 * (year - 1970) + (year - 1969) / 4 - (year - 1901) / 100 + (year - 1601) / 400
  }

  // InLeapYear, for a whole year.
  predicate IsLeap(year: int) {
    DayFromYear(year + 1) - DayFromYear(year) == 366
  }

  // A time value of the years 0 to 9999.
  type TimeValue = ms: int | DayFromYear(0) * MS_PER_DAY <= ms < DayFromYear(10_000) * MS_PER_DAY

  // YearFromTime: the largest year, up to this one, that has begun by a day.
  function YearFrom(day: int, year: nat): nat {
    if year == 0 || DayFromYear(year) <= day then year else YearFrom(day, year - 1)
  }

  // The days of a year before the first day of a month, or before the next year.
  function MonthStart(leap: bool, month: nat): int
    requires 1 <= month <= 13
  {
    [0, 31, 59, 90, 120, 151, 181, 212, 243, 273, 304, 334, 365][month - 1] + if leap && month > 2 then 1 else 0
  }

  // MonthFromTime, counted from 1: the largest month, up to this one, that has begun.
  function MonthFrom(leap: bool, dayOfYear: int, month: nat): (m: nat)
    requires 1 <= month <= 12
    ensures 1 <= m <= month
  {
    if month == 1 || MonthStart(leap, month) <= dayOfYear then month else MonthFrom(leap, dayOfYear, month - 1)
  }

  // The last digits of n, with leading zeros.
  function Padded(n: nat, width: nat): (t: Text)
    ensures |t| == width
  {
    if width == 0 then [] else Padded(n / 10, width - 1) + [Digit(n % 10)]
  }

  function Joined(year: nat, month: nat, day: nat, hour: nat, minute: nat, second: nat, ms: nat): Text {
    Padded(year, 4) + [0x2D] + Padded(month, 2) + [0x2D] + Padded(day, 2) + [0x54] +
    Padded(hour, 2) + [0x3A] + Padded(minute, 2) + [0x3A] + Padded(second, 2) + [0x2E] + Padded(ms, 3) + [0x5A]
  }

  // toISOString
  function IsoText(ms: TimeValue): Text {
    var day, rest := ms / MS_PER_DAY, ms % MS_PER_DAY;
    YearFromExactly(day, 9999);
    var year := YearFrom(day, 9999);
    var leap, dayOfYear := IsLeap(year), day - DayFromYear(year);
    YearLength(year);
    MonthFromExactly(leap, dayOfYear, 12);
    var month := MonthFrom(leap, dayOfYear, 12);
    Joined(year, month, dayOfYear - MonthStart(leap, month) + 1,
           rest / 3_600_000, rest / 60_000 % 60, rest / 1000 % 60, rest % 1000)
  }

  // ----- Years and months -----

  // The rule for leap years, from the count of days.
  lemma YearLength(year: int)
    ensures DayFromYear(year + 1) - DayFromYear(year) == if IsLeap(year) then 366 else 365
    ensures IsLeap(year) <==> year % 4 == 0 && (year % 100 != 0 || year % 400 == 0)
  {
    Quotients(year);
    assert DayFromYear(year + 1) - DayFromYear(year) ==
           365 + (if year % 4 == 0 then 1 else 0) - (if year % 100 == 0 then 1 else 0) + (if year % 400 == 0 then 1 else 0);
    hide DayFromYear;
    Multiples(year);
  }

  // A quotient steps up at the multiples of its divisor.
  lemma Quotients(year: int)
    ensures (year - 1968) / 4 - (year - 1969) / 4 == if year % 4 == 0 then 1 else 0
    ensures (year - 1900) / 100 - (year - 1901) / 100 == if year % 100 == 0 then 1 else 0
    ensures (year - 1600) / 400 - (year - 1601) / 400 == if year % 400 == 0 then 1 else 0
  {
    QuotientSteps(year, 4, 492);
    QuotientSteps(year, 100, 19);
    QuotientSteps(year, 400, 4);
  }

  lemma QuotientSteps(year: int, n: int, k: int)
    requires n > 1
    ensures (year - n * k) / n - (year - n * k - 1) / n == if year % n == 0 then 1 else 0
  {
    var q, r := year / n, year % n;
    QuotientOf(year - n * k, n, q - k, r);
    if r == 0 {
      QuotientOf(year - n * k - 1, n, q - k - 1, n - 1);
    } else {
      QuotientOf(year - n * k - 1, n, q - k, r - 1);
    }
  }

  lemma QuotientOf(a: int, n: int, q: int, r: int)
    requires n > 0 && 0 <= r < n && a == n * q + r
    ensures a / n == q
  {
    var d := a / n - q;
    assert n * d == r - a % n;
    assert d > 0 ==> n * d >= n;
    assert d < 0 ==> n * d <= -n;
  }

  lemma Multiples(year: int)
    ensures year % 400 == 0 ==> year % 100 == 0
    ensures year % 100 == 0 ==> year % 4 == 0
  {
  }

  lemma {:induction false} YearsGrow(a: int, b: int)
    requires a <= b
    ensures DayFromYear(a) <= DayFromYear(b)
    decreases b - a
  {
    if a < b {
      YearLength(b - 1);
      YearsGrow(a, b - 1);
    }
  }

  predicate InYear(day: int, year: int) {
    DayFromYear(year) <= day < DayFromYear(year + 1)
  }

  lemma {:induction false} YearFromExactly(day: int, year: nat)
    requires DayFromYear(0) <= day < DayFromYear(year + 1)
    ensures InYear(day, YearFrom(day, year)) && YearFrom(day, year) <= year
  {
    if year > 0 && day < DayFromYear(year) {
      YearFromExactly(day, year - 1);
    }
  }

  lemma YearUnique(day: int, a: int, b: int)
    requires InYear(day, a) && InYear(day, b)
    ensures a == b
  {
    hide DayFromYear;
    if a < b {
      YearsGrow(a + 1, b);
    } else if b < a {
      YearsGrow(b + 1, a);
    }
  }

  predicate InMonth(leap: bool, dayOfYear: int, month: nat)
    requires 1 <= month <= 12
  {
    MonthStart(leap, month) <= dayOfYear < MonthStart(leap, month + 1)
  }

  lemma {:induction false} MonthFromExactly(leap: bool, dayOfYear: int, month: nat)
    requires 1 <= month <= 12 && 0 <= dayOfYear < MonthStart(leap, month + 1)
    ensures InMonth(leap, dayOfYear, MonthFrom(leap, dayOfYear, month))
  {
    if month > 1 && dayOfYear < MonthStart(leap, month) {
      MonthFromExactly(leap, dayOfYear, month - 1);
    }
  }

  // The lengths of the months are the steps between their beginnings.
  lemma MonthLength(year: int, month: nat)
    requires 1 <= month <= 12
    ensures MonthStart(IsLeap(year), month + 1) - MonthStart(IsLeap(year), month) == DaysInMonth(year, month)
    ensures DaysInMonth(year, month) > 0
  {
    YearLength(year);
    hide IsLeap;
  }

  lemma {:induction false} MonthsGrow(leap: bool, a: nat, b: nat)
    requires 1 <= a <= b <= 13
    ensures MonthStart(leap, a) <= MonthStart(leap, b)
    decreases b - a
  {
    if a < b {
      MonthsGrow(leap, a, b - 1);
    }
  }

  lemma MonthUnique(leap: bool, dayOfYear: int, a: nat, b: nat)
    requires 1 <= a <= 12 && 1 <= b <= 12 && InMonth(leap, dayOfYear, a) && InMonth(leap, dayOfYear, b)
    ensures a == b
  {
    hide MonthStart;
    if a < b {
      MonthsGrow(leap, a + 1, b);
    } else if b < a {
      MonthsGrow(leap, b + 1, a);
    }
  }

  // ----- Digits -----

  function Power(width: nat): nat {
    if width == 0 then 1 else 10 * Power(width - 1)
  }

  lemma {:induction false} PaddedValue(n: nat, width: nat)
    requires n < Power(width)
    ensures DecimalValue(Padded(n, width)) == n
    ensures forall k | 0 <= k < width :: IsDigit(Padded(n, width)[k])
  {
    if width > 0 {
      PaddedValue(n / 10, width - 1);
      assert Padded(n, width)[..width - 1] == Padded(n / 10, width - 1);
    }
  }

  lemma {:induction false} PaddedDigits(t: Text)
    requires forall k | 0 <= k < |t| :: IsDigit(t[k])
    ensures 0 <= DecimalValue(t) < Power(|t|) && Padded(DecimalValue(t), |t|) == t
  {
    if t != [] {
      var init := t[..|t| - 1];
      PaddedDigits(init);
      assert t == init + [t[|t| - 1]];
    }
  }

  lemma Powers()
    ensures Power(2) == 100 && Power(3) == 1000 && Power(4) == 10_000
  {
    assert Power(1) == 10 && Power(0) == 1;
  }

  // ----- Texts and their fields -----

  // The fields of a text of the pattern.
  lemma FieldsJoined(t: Text)
    requires IsIsoPattern(t)
    ensures 0 <= Number(t, 0, 4) <= 9999 && 0 <= Number(t, 5, 2) <= 99 && 0 <= Number(t, 8, 2) <= 99
    ensures 0 <= Number(t, 11, 2) <= 99 && 0 <= Number(t, 14, 2) <= 99 && 0 <= Number(t, 17, 2) <= 99
    ensures 0 <= Number(t, 20, 3) <= 999
    ensures t == Joined(Number(t, 0, 4), Number(t, 5, 2), Number(t, 8, 2), Number(t, 11, 2), Number(t, 14, 2),
                        Number(t, 17, 2), Number(t, 20, 3))
  {
    hide DecimalValue, Padded, Power;
    Powers();
    PaddedDigits(t[0..4]);
    PaddedDigits(t[5..7]);
    PaddedDigits(t[8..10]);
    PaddedDigits(t[11..13]);
    PaddedDigits(t[14..16]);
    PaddedDigits(t[17..19]);
    PaddedDigits(t[20..23]);
    Partition(t);
  }

  lemma Partition(t: Text)
    requires |t| == 24
    ensures t == t[0..4] + [t[4]] + t[5..7] + [t[7]] + t[8..10] + [t[10]] + t[11..13] + [t[13]] + t[14..16] + [t[16]] +
                 t[17..19] + [t[19]] + t[20..23] + [t[23]]
  {
  }

  lemma JoinedParts(a: Text, b: Text, c: Text, d: Text, e: Text, f: Text, g: Text) returns (t: Text)
    requires |a| == 4 && |b| == 2 && |c| == 2 && |d| == 2 && |e| == 2 && |f| == 2 && |g| == 3
    ensures t == a + [0x2D] + b + [0x2D] + c + [0x54] + d + [0x3A] + e + [0x3A] + f + [0x2E] + g + [0x5A]
    ensures |t| == 24 && t[4] == 0x2D && t[7] == 0x2D && t[10] == 0x54 && t[13] == 0x3A && t[16] == 0x3A
    ensures t[19] == 0x2E && t[23] == 0x5A
    ensures t[0..4] == a && t[5..7] == b && t[8..10] == c && t[11..13] == d && t[14..16] == e && t[17..19] == f
    ensures t[20..23] == g
  {
    t := a + [0x2D] + b + [0x2D] + c + [0x54] + d + [0x3A] + e + [0x3A] + f + [0x2E] + g + [0x5A];
    assert t[5] == b[0] && t[6] == b[1] && t[8] == c[0] && t[9] == c[1] && t[11] == d[0] && t[12] == d[1];
    assert t[14] == e[0] && t[15] == e[1] && t[17] == f[0] && t[18] == f[1];
  }

  lemma DigitsWithin(t: Text, i: nat, part: Text)
    requires i + |part| <= |t| && t[i..i + |part|] == part && forall k | 0 <= k < |part| :: IsDigit(part[k])
    ensures AllDigits(t, i, |part|) && Number(t, i, |part|) == DecimalValue(part)
  {
    forall k | i <= k < i + |part| ensures IsDigit(t[k]) {
      assert t[k] == t[i..i + |part|][k - i];
    }
  }

  // Fields in range, joined: a text of the pattern with these fields.
  lemma JoinedFields(year: nat, month: nat, day: nat, hour: nat, minute: nat, second: nat, ms: nat)
    requires year < 10_000 && month < 100 && day < 100 && hour < 100 && minute < 100 && second < 100 && ms < 1000
    ensures var t := Joined(year, month, day, hour, minute, second, ms);
            && IsIsoPattern(t)
            && Number(t, 0, 4) == year && Number(t, 5, 2) == month && Number(t, 8, 2) == day && Number(t, 11, 2) == hour
            && Number(t, 14, 2) == minute && Number(t, 17, 2) == second && Number(t, 20, 3) == ms
  {
    hide DecimalValue, Padded, Power, Number, AllDigits;
    Powers();
    PaddedValue(year, 4);
    PaddedValue(month, 2);
    PaddedValue(day, 2);
    PaddedValue(hour, 2);
    PaddedValue(minute, 2);
    PaddedValue(second, 2);
    PaddedValue(ms, 3);
    var t := JoinedParts(Padded(year, 4), Padded(month, 2), Padded(day, 2), Padded(hour, 2), Padded(minute, 2),
                         Padded(second, 2), Padded(ms, 3));
    DigitsWithin(t, 0, Padded(year, 4));
    DigitsWithin(t, 5, Padded(month, 2));
    DigitsWithin(t, 8, Padded(day, 2));
    DigitsWithin(t, 11, Padded(hour, 2));
    DigitsWithin(t, 14, Padded(minute, 2));
    DigitsWithin(t, 17, Padded(second, 2));
    DigitsWithin(t, 20, Padded(ms, 3));
  }

  // ----- The instants of the texts -----

  function DayNumber(year: int, month: nat, day: int): int
    requires 1 <= month <= 12
  {
    DayFromYear(year) + MonthStart(IsLeap(year), month) + day - 1
  }

  // The day of a date is in its year and month.
  lemma DayOfDate(year: nat, month: nat, day: int)
    requires year <= 9999 && 1 <= month <= 12 && 1 <= day <= DaysInMonth(year, month)
    ensures var n := DayNumber(year, month, day);
            && DayFromYear(0) <= n < DayFromYear(10_000)
            && YearFrom(n, 9999) == year && MonthFrom(IsLeap(year), n - DayFromYear(year), 12) == month
  {
    hide DayFromYear, IsLeap;
    var n, leap := DayNumber(year, month, day), IsLeap(year);
    YearLength(year);
    MonthLength(year, month);
    MonthsGrow(leap, 1, month);
    MonthsGrow(leap, month + 1, 13);
    YearsGrow(0, year);
    YearsGrow(year + 1, 10_000);
    YearFromExactly(n, 9999);
    YearUnique(n, YearFrom(n, 9999), year);
    MonthFromExactly(leap, n - DayFromYear(year), 12);
    MonthUnique(leap, n - DayFromYear(year), MonthFrom(leap, n - DayFromYear(year), 12), month);
  }

  function Instant(day: int, hour: nat, minute: nat, second: nat, ms: nat): int {
    day * MS_PER_DAY + hour * 3_600_000 + minute * 60_000 + second * 1000 + ms
  }

  lemma InstantParts(day: int, hour: nat, minute: nat, second: nat, ms: nat)
    requires hour < 24 && minute < 60 && second < 60 && ms < 1000
    ensures var instant := Instant(day, hour, minute, second, ms);
            && instant / MS_PER_DAY == day
            && var rest := instant % MS_PER_DAY;
               rest / 3_600_000 == hour && rest / 60_000 % 60 == minute && rest / 1000 % 60 == second && rest % 1000 == ms
  {
    var rest := hour * 3_600_000 + minute * 60_000 + second * 1000 + ms;
    assert Instant(day, hour, minute, second, ms) == day * MS_PER_DAY + rest && 0 <= rest < MS_PER_DAY;
    assert rest / 60_000 == hour * 60 + minute;
    assert rest / 1000 == (hour * 60 + minute) * 60 + second;
  }

  // Exactly the texts that stand for an instant of the years 0 to 9999 are export times.
  lemma ExportTimeExactly(t: Text)
    ensures IsExportTime(t) <==> exists ms: TimeValue :: IsoText(ms) == t
  {
    if IsExportTime(t) {
      var ms := InstantOf(t);
      assert IsoText(ms) == t;
    }
    if ms: TimeValue :| IsoText(ms) == t {
      PrintedIsExportTime(ms);
    }
  }

  // The instant an export time stands for.
  lemma InstantOf(t: Text) returns (ms: TimeValue)
    requires IsExportTime(t)
    ensures IsoText(ms) == t
  {
    hide Number, DayFromYear, MonthStart, IsLeap, DaysInMonth, YearFrom, MonthFrom, Joined;
    FieldsJoined(t);
    var year, month, day := Number(t, 0, 4), Number(t, 5, 2), Number(t, 8, 2);
    var hour, minute, second, milli := Number(t, 11, 2), Number(t, 14, 2), Number(t, 17, 2), Number(t, 20, 3);
    DayOfDate(year, month, day);
    var n := DayNumber(year, month, day);
    InstantParts(n, hour, minute, second, milli);
    ms := Instant(n, hour, minute, second, milli);
  }

  lemma PrintedIsExportTime(ms: TimeValue)
    ensures IsExportTime(IsoText(ms))
  {
    hide Number, DayFromYear, MonthStart, IsLeap, DaysInMonth, YearFrom, MonthFrom, Joined, IsIsoPattern;
    var day, rest := ms / MS_PER_DAY, ms % MS_PER_DAY;
    YearFromExactly(day, 9999);
    var year := YearFrom(day, 9999);
    var leap, dayOfYear := IsLeap(year), day - DayFromYear(year);
    YearLength(year);
    MonthsEnd(leap);
    MonthFromExactly(leap, dayOfYear, 12);
    var month := MonthFrom(leap, dayOfYear, 12);
    MonthLength(year, month);
    MonthsShort(year, month);
    JoinedFields(year, month, dayOfYear - MonthStart(leap, month) + 1,
                 rest / 3_600_000, rest / 60_000 % 60, rest / 1000 % 60, rest % 1000);
  }

  lemma MonthsEnd(leap: bool)
    ensures MonthStart(leap, 13) == if leap then 366 else 365
  {
  }

  lemma MonthsShort(year: int, month: int)
    ensures DaysInMonth(year, month) <= 31
  {
  }
}
