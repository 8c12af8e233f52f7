/** Time values as ECMAScript's Date holds them (milliseconds since 1970-01-01T00:00:00Z, UTC),
    their proleptic Gregorian calendar date, `toISOString()`, and the parsing that `new Date(s)`
    applies to the date-only forms of the Date Time String Format (ECMA-262 section 21.4.1). */
module Calendar {
  import opened Wrappers
  import opened Decimal
  import Text

  const MsPerDay := 86400000
  /** Days from 0000-01-01 to 1970-01-01 in the proleptic Gregorian calendar. */
  const UnixEpochDays := 719528
  /** The largest year written with four digits; later years use the extended format. */
  const MaxYear := 9999

  datatype Date = Date(year: int, month: int, day: int)

  predicate IsLeapYear(y: int) {
    y % 4 == 0 && (y % 100 != 0 || y % 400 == 0)
  }

  function DaysInYear(y: int): int {
    if IsLeapYear(y) then 366 else 365
  }

  function DaysInMonth(y: int, m: int): int
    requires 1 <= m <= 12
  {
    if m == 2 then (if IsLeapYear(y) then 29 else 28)
    else if m == 4 || m == 6 || m == 9 || m == 11 then 30
    else 31
  }

  /** Days from 0000-01-01 to the first of January of year `y`: 365 per year plus one per leap
      year in [0, y). */
  function DaysBeforeYear(y: nat): nat {
    365 * y + (y + 3) / 4 - (y + 99) / 100 + (y + 399) / 400
  }

  /** Days from the first of January of year `y` to the first of month `m` (13 stands for the next
      first of January). */
  function DaysBeforeMonth(y: int, m: int): int
    requires 1 <= m <= 13
  {
    var common := [0, 31, 59, 90, 120, 151, 181, 212, 243, 273, 304, 334, 365][m - 1];
    common + if m > 2 && IsLeapYear(y) then 1 else 0
  }

  predicate Valid(d: Date) {
    0 <= d.year <= MaxYear && 1 <= d.month <= 12 && 1 <= d.day <= DaysInMonth(d.year, d.month)
  }

  /** `a` is an earlier calendar date than `b`. */
  predicate Before(a: Date, b: Date) {
    a.year < b.year || (a.year == b.year && (a.month < b.month || (a.month == b.month && a.day < b.day)))
  }

  /** Days from 1970-01-01 to `d` (negative before 1970). */
  function DayNumber(d: Date): int
    requires Valid(d)
  {
    DaysBeforeYear(d.year) + DaysBeforeMonth(d.year, d.month) + d.day - 1 - UnixEpochDays
  }

  /** Day numbers of the dates in years 0 to 9999. */
  predicate DayInRange(n: int) {
    -UnixEpochDays <= n < 2932897
  }

  /** Time values whose date lies in years 0 to 9999. */
  predicate InstantInRange(ms: int) {
    DayInRange(ms / MsPerDay)
  }

  lemma DivStep(y: nat)
    ensures (y + 4) / 4 == (y + 3) / 4 + (if y % 4 == 0 then 1 else 0)
    ensures (y + 100) / 100 == (y + 99) / 100 + (if y % 100 == 0 then 1 else 0)
    ensures (y + 400) / 400 == (y + 399) / 400 + (if y % 400 == 0 then 1 else 0)
  {
    DivStepBy4(y);
    DivStepBy100(y);
    DivStepBy400(y);
  }

  lemma DivStepBy4(y: nat)
    ensures (y + 4) / 4 == (y + 3) / 4 + (if y % 4 == 0 then 1 else 0)
  {
    var q, r := y / 4, y % 4;
    assert y + 4 == 4 * (q + 1) + r;
    assert y + 3 == if r == 0 then 4 * q + 3 else 4 * (q + 1) + (r - 1);
  }

  lemma DivStepBy100(y: nat)
    ensures (y + 100) / 100 == (y + 99) / 100 + (if y % 100 == 0 then 1 else 0)
  {
    var q, r := y / 100, y % 100;
    assert y + 100 == 100 * (q + 1) + r;
    assert y + 99 == if r == 0 then 100 * q + 99 else 100 * (q + 1) + (r - 1);
  }

  lemma DivStepBy400(y: nat)
    ensures (y + 400) / 400 == (y + 399) / 400 + (if y % 400 == 0 then 1 else 0)
  {
    var q, r := y / 400, y % 400;
    assert y + 400 == 400 * (q + 1) + r;
    assert y + 399 == if r == 0 then 400 * q + 399 else 400 * (q + 1) + (r - 1);
  }

  lemma LeapDivisors(y: nat)
    ensures y % 400 == 0 ==> y % 100 == 0
    ensures y % 100 == 0 ==> y % 4 == 0
  {
    if y % 400 == 0 {
      var q := y / 400;
      assert y == 100 * (4 * q);
    }
    if y % 100 == 0 {
      var q := y / 100;
      assert y == 4 * (25 * q);
    }
  }

  lemma YearStep(y: nat)
    ensures DaysBeforeYear(y + 1) == DaysBeforeYear(y) + DaysInYear(y)
  {
    DivStep(y);
    LeapDivisors(y);
    var a, b, c := (y + 3) / 4, (y + 99) / 100, (y + 399) / 400;
    assert DaysBeforeYear(y) == 365 * y + a - b + c;
    assert DaysBeforeYear(y + 1) == 365 * y + 365 + (y + 4) / 4 - (y + 100) / 100 + (y + 400) / 400;
  }

  lemma {:induction false} DaysBeforeYearMonotone(a: nat, b: nat)
    requires a <= b
    ensures DaysBeforeYear(a) <= DaysBeforeYear(b)
    decreases b - a
  {
    if a < b {
      YearStep(a);
      DaysBeforeYearMonotone(a + 1, b);
    }
  }

  lemma MonthStep(y: int, m: int)
    requires 1 <= m <= 12
    ensures DaysBeforeMonth(y, m + 1) == DaysBeforeMonth(y, m) + DaysInMonth(y, m)
  {
  }

  /** The year whose first of January is the last one at or before day `n` (days since 0000-01-01),
      searched upwards from `y`. */
  function FindYear(n: int, y: nat): (r: nat)
    requires DaysBeforeYear(y) <= n
    ensures y <= r && DaysBeforeYear(r) <= n < DaysBeforeYear(r + 1)
    decreases n - DaysBeforeYear(y)
  {
    YearStep(y);
    if n < DaysBeforeYear(y + 1) then y else FindYear(n, y + 1)
  }

  lemma YearBelowLimit(z: int, y: nat)
    requires DaysBeforeYear(y) <= z < DaysBeforeYear(MaxYear + 1)
    ensures y <= MaxYear
  {
    if y > MaxYear {
      DaysBeforeYearMonotone(MaxYear + 1, y);
    }
  }

  /** The month of year `y` holding day `doy` (0-based day of the year), searched upwards from `m`. */
  function FindMonth(y: int, doy: int, m: int): (r: int)
    requires 1 <= m <= 12 && DaysBeforeMonth(y, m) <= doy < DaysInYear(y)
    ensures m <= r <= 12 && DaysBeforeMonth(y, r) <= doy < DaysBeforeMonth(y, r + 1)
    decreases 12 - m
  {
    if doy < DaysBeforeMonth(y, m + 1) then m else FindMonth(y, doy, m + 1)
  }

  /** The calendar date of day number `n` (days since 1970-01-01). */
  function DateOfDay(n: int): (d: Date)
    requires DayInRange(n)
    ensures Valid(d) && DayNumber(d) == n
  {
    var z := n + UnixEpochDays;
    var y := FindYear(z, 0);
    YearStep(y);
    YearBelowLimit(z, y);
    var doy := z - DaysBeforeYear(y);
    var m := FindMonth(y, doy, 1);
    MonthStep(y, m);
    Date(y, m, doy - DaysBeforeMonth(y, m) + 1)
  }

  lemma DayNumberInRange(d: Date)
    requires Valid(d)
    ensures DayInRange(DayNumber(d))
  {
    MonthStep(d.year, d.month);
    if d.month < 12 { MonthStep(d.year, 12); }
    YearStep(d.year);
    DaysBeforeYearMonotone(d.year + 1, MaxYear + 1);
  }

  /** Earlier calendar dates have smaller day numbers. */
  lemma DayNumberOrder(a: Date, b: Date)
    requires Valid(a) && Valid(b)
    ensures Before(a, b) <==> DayNumber(a) < DayNumber(b)
  {
    if Before(a, b) {
      BeforeDayNumber(a, b);
    } else if a != b {
      BeforeDayNumber(b, a);
    }
  }

  lemma BeforeDayNumber(a: Date, b: Date)
    requires Valid(a) && Valid(b) && Before(a, b)
    ensures DayNumber(a) < DayNumber(b)
  {
    MonthStep(a.year, a.month);
    MonthsMonotone(a.year, a.month + 1, 13);
    if a.year < b.year {
      YearStep(a.year);
      DaysBeforeYearMonotone(a.year + 1, b.year);
    } else if a.month < b.month {
      MonthsMonotone(a.year, a.month + 1, b.month);
    }
  }

  lemma MonthsMonotone(y: int, m: int, k: int)
    requires 1 <= m <= k <= 13
    ensures DaysBeforeMonth(y, m) <= DaysBeforeMonth(y, k)
  {
  }

  /** Day numbers and valid calendar dates correspond one to one. */
  lemma DateOfDayNumber(d: Date)
    requires Valid(d)
    ensures DayInRange(DayNumber(d)) && DateOfDay(DayNumber(d)) == d
  {
    DayNumberInRange(d);
    var e := DateOfDay(DayNumber(d));
    DayNumberOrder(d, e);
    DayNumberOrder(e, d);
  }

  /** The date written `YYYY-MM-DD`. */
  function FormatDate(d: Date): (s: string)
    requires Valid(d)
    ensures |s| == 10 && s[4] == '-' && s[7] == '-'
    ensures 'T' !in s
  {
    assert Pow10(2) == 100 && Pow10(4) == 10000;
    var s := Pad(d.year, 4) + "-" + Pad(d.month, 2) + "-" + Pad(d.day, 2);
    assert forall i :: 0 <= i < |s| ==> IsDigit(s[i]) || s[i] == '-';
    s
  }

  /** The time value `new Date(s)` gives a date-only string, in days: the forms `YYYY`, `YYYY-MM`
      and `YYYY-MM-DD` stand for UTC midnight of the first day they name; any other string, or a
      month or day out of range, gives NaN (`None`). */
  function ParseDate(s: string): (r: Option<int>)
    ensures r.Some? ==> DayInRange(r.value) && |s| in {4, 7, 10}
    ensures r.Some? && |s| == 10 ==> s[4] == '-' && s[7] == '-'
  {
    if |s| == 4 && AllDigits(s) then
      DayOf(ParseNat(s), 1, 1)
    else if |s| == 7 && AllDigits(s[..4]) && s[4] == '-' && AllDigits(s[5..]) then
      DayOf(ParseNat(s[..4]), ParseNat(s[5..]), 1)
    else if |s| == 10 && AllDigits(s[..4]) && s[4] == '-' && AllDigits(s[5..7]) && s[7] == '-' && AllDigits(s[8..]) then
      DayOf(ParseNat(s[..4]), ParseNat(s[5..7]), ParseNat(s[8..]))
    else
      None
  }

  /** The day number of year `y`, month `m`, day `d`, when they name a date. */
  function DayOf(y: int, m: int, d: int): (r: Option<int>)
    ensures r.Some? <==> Valid(Date(y, m, d))
    ensures r.Some? ==> DayInRange(r.value)
  {
    if Valid(Date(y, m, d)) then
      DayNumberInRange(Date(y, m, d));
      Some(DayNumber(Date(y, m, d)))
    else None
  }

  /** The day `DayOf` finds is the day of the date it was given. */
  lemma DayOfDate(y: int, m: int, d: int)
    requires DayOf(y, m, d).Some?
    ensures DateOfDay(DayOf(y, m, d).value) == Date(y, m, d)
  {
    DateOfDayNumber(Date(y, m, d));
  }

  /** Parsing a formatted date gives back its day number. */
  lemma ParseFormat(d: Date)
    requires Valid(d)
    ensures ParseDate(FormatDate(d)) == Some(DayNumber(d))
  {
    assert Pow10(2) == 100 && Pow10(4) == 10000;
    var s := FormatDate(d);
    assert s[..4] == Pad(d.year, 4);
    assert s[5..7] == Pad(d.month, 2);
    assert s[8..] == Pad(d.day, 2);
    ParsePad(d.year, 4);
    ParsePad(d.month, 2);
    ParsePad(d.day, 2);
  }

  /** A ten-character date the parser accepts is the formatting of its own date. */
  lemma FormatParse(s: string)
    requires |s| == 10 && ParseDate(s).Some?
    ensures DayInRange(ParseDate(s).value) && FormatDate(DateOfDay(ParseDate(s).value)) == s
  {
    var d := Date(ParseNat(s[..4]), ParseNat(s[5..7]), ParseNat(s[8..]));
    assert Valid(d);
    DateOfDayNumber(d);
    PadParse(s[..4]);
    PadParse(s[5..7]);
    PadParse(s[8..]);
    assert s == s[..4] + "-" + s[5..7] + "-" + s[8..];
  }

  /** The time of day `t` (milliseconds after midnight) written `HH:mm:ss.sss`. */
  function ClockText(t: int): (s: string)
    requires 0 <= t < MsPerDay
    ensures |s| == 12 && s[2] == ':' && s[5] == ':' && s[8] == '.'
  {
    assert Pow10(2) == 100 && Pow10(3) == 1000;
    Pad(t / 3600000, 2) + ":" + Pad(t / 60000 % 60, 2) + ":" + Pad(t / 1000 % 60, 2) + "." + Pad(t % 1000, 3)
  }

  /** Milliseconds after midnight split into hours, minutes, seconds and milliseconds. */
  lemma ClockArithmetic(t: int)
    requires 0 <= t < MsPerDay
    ensures t / 3600000 < 24 && t / 60000 % 60 < 60 && t / 1000 % 60 < 60 && t % 1000 < 1000
    ensures t / 3600000 * 3600000 + t / 60000 % 60 * 60000 + t / 1000 % 60 * 1000 + t % 1000 == t
  {
    var q := t / 1000;
    assert t == q * 1000 + t % 1000;
    var m := q / 60;
    assert q == m * 60 + q % 60;
    assert m == t / 60000;
    var h := m / 60;
    assert m == h * 60 + m % 60;
    assert h == t / 3600000;
  }

  /** The fields of the clock text read back to the time of day. */
  lemma ClockTextFields(t: int)
    requires 0 <= t < MsPerDay
    ensures var s := ClockText(t);
      AllDigits(s[..2]) && AllDigits(s[3..5]) && AllDigits(s[6..8]) && AllDigits(s[9..])
      && ParseNat(s[..2]) < 24 && ParseNat(s[3..5]) < 60 && ParseNat(s[6..8]) < 60
      && ParseNat(s[..2]) * 3600000 + ParseNat(s[3..5]) * 60000 + ParseNat(s[6..8]) * 1000 + ParseNat(s[9..]) == t
  {
    assert Pow10(2) == 100 && Pow10(3) == 1000;
    ClockArithmetic(t);
    var s := ClockText(t);
    var hh, mm, ss, sss := Pad(t / 3600000, 2), Pad(t / 60000 % 60, 2), Pad(t / 1000 % 60, 2), Pad(t % 1000, 3);
    assert s == hh + ":" + mm + ":" + ss + "." + sss;
    assert s[..2] == hh && s[3..5] == mm && s[6..8] == ss && s[9..] == sss;
    ParsePad(t / 3600000, 2);
    ParsePad(t / 60000 % 60, 2);
    ParsePad(t / 1000 % 60, 2);
    ParsePad(t % 1000, 3);
  }

  /** `new Date(ms).toISOString()`: `YYYY-MM-DDTHH:mm:ss.sssZ` in UTC, the date of the day the
      instant falls in followed by its time of day. */
  function ToIsoString(ms: int): (s: string)
    requires InstantInRange(ms)
    ensures |s| == 24 && s[..10] == FormatDate(DateOfDay(ms / MsPerDay))
    ensures s[10] == 'T' && s[11..23] == ClockText(ms % MsPerDay) && s[23] == 'Z'
  {
    FormatDate(DateOfDay(ms / MsPerDay)) + "T" + ClockText(ms % MsPerDay) + "Z"
  }

  /** `new Date(ms).toISOString().split("T")[0]`: the UTC calendar date of the instant. */
  function IsoDateOf(ms: int): (s: string)
    requires InstantInRange(ms)
    ensures |s| == 10 && ParseDate(s) == Some(ms / MsPerDay)
    ensures s == FormatDate(DateOfDay(ms / MsPerDay))
  {
    var date := FormatDate(DateOfDay(ms / MsPerDay));
    var iso := ToIsoString(ms);
    assert iso == date + ['T'] + iso[11..];
    Text.SplitFirstPiece(date, 'T', iso[11..]);
    ParseFormat(DateOfDay(ms / MsPerDay));
    Text.Split(iso, 'T')[0]
  }

  /** `new Date(a) > new Date(b)` for date-only strings: false when either is NaN. */
  predicate Later(a: string, b: string) {
    match (ParseDate(a), ParseDate(b))
    case (Some(x), Some(y)) => x > y
    case _ => false
  }

  /** `>` on parsed dates is a strict order, and it holds only between strings that parse. */
  lemma LaterStrictOrder(a: string, b: string, c: string)
    ensures !Later(a, a)
    ensures Later(a, b) ==> !Later(b, a) && ParseDate(a).Some? && ParseDate(b).Some?
    ensures Later(a, b) && Later(b, c) ==> Later(a, c)
  {
  }

  /** Later instants never have an earlier UTC date. */
  lemma IsoDateMonotone(ms1: int, ms2: int)
    requires InstantInRange(ms1) && InstantInRange(ms2) && ms1 <= ms2
    ensures !Later(IsoDateOf(ms1), IsoDateOf(ms2))
  {
    assert ms1 / MsPerDay <= ms2 / MsPerDay;
  }
}
