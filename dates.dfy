/** Calendar dates as Python's `datetime.date` sees them: the proleptic
    Gregorian calendar over years 1 to 9999, day numbers as `toordinal`,
    weekdays as `weekday` (Monday is 0), and the `DD.MM.YYYY` text form the
    program reads with `strptime("%d.%m.%Y")` and writes with `strftime`. */
module Dates {
  import opened Common

  datatype Date = Date(year: int, month: int, day: int)

  const MinYear := 1
  const MaxYear := 9999

  /** `date.max`: the last representable day. */
  const Last := Date(9999, 12, 31)

  predicate IsLeap(y: int)
  {
    y % 4 == 0 && (y % 100 != 0 || y % 400 == 0)
  }

  function DaysInMonth(y: int, m: int): int
    requires 1 <= m <= 12
  {
    if m == 2 then (if IsLeap(y) then 29 else 28)
    else if m == 4 || m == 6 || m == 9 || m == 11 then 30
    else 31
  }

  function DaysInYear(y: int): int
  {
    if IsLeap(y) then 366 else 365
  }

  /** The dates `datetime.date` can represent. */
  predicate IsValid(d: Date)
  {
    MinYear <= d.year <= MaxYear && 1 <= d.month <= 12 && 1 <= d.day <= DaysInMonth(d.year, d.month)
  }

  /** Days in the years before `y`. */
  function DaysBeforeYear(y: int): int
    requires y >= 1
  {
    var p := y - 1;
    p * 365 + p / 4 - p / 100 + p / 400
  }

  /** Days in the months of year `y` before month `m`. */
  function DaysBeforeMonth(y: int, m: int): int
    requires 1 <= m <= 12
  {
    var common :=
      match m
      case 1 => 0 case 2 => 31 case 3 => 59 case 4 => 90 case 5 => 120 case 6 => 151
      case 7 => 181 case 8 => 212 case 9 => 243 case 10 => 273 case 11 => 304 case _ => 334;
    common + (if m > 2 && IsLeap(y) then 1 else 0)
  }

  /** Day number, 1 January of year 1 being day 1. */
  function Ordinal(d: Date): int
    requires IsValid(d)
  {
    DaysBeforeYear(d.year) + DaysBeforeMonth(d.year, d.month) + d.day
  }

  /** Day of the week, Monday 0 to Sunday 6 (1 January of year 1 was a Monday). */
  function Weekday(d: Date): int
    requires IsValid(d)
  {
    (Ordinal(d) + 6) % 7
  }

  /** Python's `<` on dates: by year, then month, then day. */
  predicate Before(a: Date, b: Date)
  {
    a.year < b.year || (a.year == b.year && (a.month < b.month || (a.month == b.month && a.day < b.day)))
  }

  lemma MonthStep(y: int, m: int)
    requires 1 <= m < 12
    ensures DaysBeforeMonth(y, m + 1) == DaysBeforeMonth(y, m) + DaysInMonth(y, m)
  {
  }

  lemma YearEnd(y: int)
    ensures DaysBeforeMonth(y, 12) + DaysInMonth(y, 12) == DaysInYear(y)
  {
  }

  /** How the quotients by 4, 100 and 400 grow from `p` to `p + 1`. */
  lemma QuotientSteps(p: int)
    requires p >= 0
    ensures (p + 1) / 4 == p / 4 + (if (p + 1) % 4 == 0 then 1 else 0)
    ensures (p + 1) / 100 == p / 100 + (if (p + 1) % 100 == 0 then 1 else 0)
    ensures (p + 1) / 400 == p / 400 + (if (p + 1) % 400 == 0 then 1 else 0)
  {
  }

  /** A year divisible by 100 is divisible by 4. */
  lemma CenturyIsLeapCandidate(y: int)
    requires y % 100 == 0
    ensures y % 4 == 0
  {
    assert y == 4 * (25 * (y / 100));
  }

  /** A year divisible by 400 is divisible by 100. */
  lemma QuadCenturyIsCentury(y: int)
    requires y % 400 == 0
    ensures y % 100 == 0
  {
    assert y == 100 * (4 * (y / 400));
  }

  /** The three corrections of the leap-day count add up to one leap day or none. */
  lemma LeapCount(y: int)
    ensures (if y % 4 == 0 then 1 else 0) - (if y % 100 == 0 then 1 else 0) + (if y % 400 == 0 then 1 else 0)
            == (if IsLeap(y) then 1 else 0)
  {
    if y % 100 == 0 {
      CenturyIsLeapCandidate(y);
    }
    if y % 400 == 0 {
      QuadCenturyIsCentury(y);
    }
  }

  lemma YearStep(y: int)
    requires y >= 1
    ensures DaysBeforeYear(y + 1) == DaysBeforeYear(y) + DaysInYear(y)
  {
    QuotientSteps(y - 1);
    LeapCount(y);
  }

  /** The day after `d`: the next day number. */
  function NextDay(d: Date): (r: Date)
    requires IsValid(d) && d != Last
    ensures IsValid(r) && Ordinal(r) == Ordinal(d) + 1
  {
    if d.day < DaysInMonth(d.year, d.month) then d.(day := d.day + 1)
    else if d.month < 12 then MonthStep(d.year, d.month); Date(d.year, d.month + 1, 1)
    else YearEnd(d.year); YearStep(d.year); Date(d.year + 1, 1, 1)
  }

  /** `d + timedelta(days=n)`, for a sum that stays within `date.max`. */
  function AddDays(d: Date, n: nat): (r: Date)
    requires IsValid(d) && Ordinal(d) + n <= Ordinal(Last)
    ensures IsValid(r) && Ordinal(r) == Ordinal(d) + n
    decreases n
  {
    if n == 0 then d else AddDays(NextDay(d), n - 1)
  }

  /** From day number `x`, moving `7 - weekday` days ahead reaches day `y`, a Monday. */
  lemma MondayStep(x: int, y: int)
    requires y == x + 7 - (x + 6) % 7
    ensures (y + 6) % 7 == 0
  {
  }

  /** `d + timedelta(days=7 - d.weekday())` is a Monday. */
  lemma MondayAfter(d: Date, r: Date)
    requires IsValid(d) && IsValid(r) && Ordinal(r) == Ordinal(d) + 7 - Weekday(d)
    ensures Weekday(r) == 0
  {
    var x, y := Ordinal(d), Ordinal(r);
    MondayStep(x, y);
    assert Weekday(r) == (y + 6) % 7;
  }

  lemma {:induction false} DaysBeforeYearGrows(y: int, z: int)
    requires 1 <= y <= z
    ensures DaysBeforeYear(y) + 365 * (z - y) <= DaysBeforeYear(z)
    decreases z - y
  {
    if y < z {
      YearStep(y);
      DaysBeforeYearGrows(y + 1, z);
    }
  }

  lemma {:induction false} DaysBeforeMonthGrows(y: int, m: int, n: int)
    requires 1 <= m < n <= 12
    ensures DaysBeforeMonth(y, m) + DaysInMonth(y, m) <= DaysBeforeMonth(y, n)
    decreases n - m
  {
    MonthStep(y, m);
    if m + 1 < n {
      DaysBeforeMonthGrows(y, m + 1, n);
    }
  }

  /** The position of a valid date within its year lies between 1 and the length of the year. */
  lemma DayOfYearRange(d: Date)
    requires IsValid(d)
    ensures 1 <= DaysBeforeMonth(d.year, d.month) + d.day <= DaysInYear(d.year)
  {
    if d.month < 12 {
      DaysBeforeMonthGrows(d.year, d.month, 12);
    }
    YearEnd(d.year);
  }

  /** Python's order on dates agrees with the order of their day numbers. */
  lemma {:induction false} OrdinalIncreasing(a: Date, b: Date)
    requires IsValid(a) && IsValid(b) && Before(a, b)
    ensures Ordinal(a) < Ordinal(b)
  {
    if a.year < b.year {
      DayOfYearRange(a);
      YearStep(a.year);
      DaysBeforeYearGrows(a.year + 1, b.year);
    } else if a.month < b.month {
      DaysBeforeMonthGrows(a.year, a.month, b.month);
    }
  }

  /** Every valid date lies between 1 January of year 1 and `date.max`. */
  lemma OrdinalRange(d: Date)
    requires IsValid(d)
    ensures 1 <= Ordinal(d) <= Ordinal(Last)
  {
    if d != Last {
      OrdinalIncreasing(d, Last);
    }
  }

  /** `date.max` is day 3652059, a Friday. */
  lemma LastIsFriday()
    ensures Ordinal(Last) == 3652059 && Weekday(Last) == 4
  {
  }

  /** A weekend day number up to 3652059, a Friday, has its next Monday within that bound. */
  lemma WeekendStep(x: int)
    requires 1 <= x <= 3652059 && (x + 6) % 7 >= 5
    ensures x + 7 - (x + 6) % 7 <= 3652059
  {
  }

  // ---------------------------------------------------------------------
  // The DD.MM.YYYY text form

  predicate IsDigit(c: char)
  {
    '0' <= c <= '9'
  }

  predicate AllDigits(s: string)
  {
    forall i :: 0 <= i < |s| ==> IsDigit(s[i])
  }

  function Pow10(n: nat): nat
  {
    if n == 0 then 1 else 10 * Pow10(n - 1)
  }

  /** The decimal value of a digit string. */
  function Number(s: string): nat
    requires AllDigits(s)
  {
    if s == [] then 0 else 10 * Number(s[..|s| - 1]) + (s[|s| - 1] as int - '0' as int)
  }

  /** The last `width` decimal digits of `n`, zero-padded. */
  function Padded(n: nat, width: nat): string
  {
    if width == 0 then [] else Padded(n / 10, width - 1) + [('0' as int + n % 10) as char]
  }

  /** Reading back a padded number gives the number, when it fits. */
  lemma {:induction false} NumberOfPadded(n: nat, width: nat)
    requires n < Pow10(width)
    ensures |Padded(n, width)| == width && AllDigits(Padded(n, width))
    ensures Number(Padded(n, width)) == n
  {
    if width > 0 {
      NumberOfPadded(n / 10, width - 1);
      var s := Padded(n, width);
      assert s[..|s| - 1] == Padded(n / 10, width - 1);
    }
  }

  /** Padding the value of a digit string to its own width gives the string back. */
  lemma {:induction false} PaddedOfNumber(s: string)
    requires AllDigits(s)
    ensures Padded(Number(s), |s|) == s
  {
    if s != [] {
      var init := s[..|s| - 1];
      PaddedOfNumber(init);
      var n := Number(s);
      assert n / 10 == Number(init) && n % 10 == s[|s| - 1] as int - '0' as int;
      assert s == init + [s[|s| - 1]];
    }
  }

  /** `strftime("%d.%m.%Y")`. */
  function Format(d: Date): string
    requires IsValid(d)
  {
    Padded(d.day, 2) + "." + Padded(d.month, 2) + "." + Padded(d.year, 4)
  }

  /** `datetime.strptime(s, "%d.%m.%Y").date()`, for the zero-padded form. */
  function Parse(s: string): Result<Date>
  {
    if |s| == 10 && s[2] == '.' && s[5] == '.'
       && AllDigits(s[..2]) && AllDigits(s[3..5]) && AllDigits(s[6..])
    then
      var d := Date(Number(s[6..]), Number(s[3..5]), Number(s[..2]));
      if IsValid(d) then Success(d) else Failure(ValueError)
    else
      Failure(ValueError)
  }

  /** A printed date reads back as the same date. */
  lemma ParseFormat(d: Date)
    requires IsValid(d)
    ensures |Format(d)| == 10
    ensures Parse(Format(d)) == Success(d)
  {
    NumberOfPadded(d.day, 2);
    NumberOfPadded(d.month, 2);
    NumberOfPadded(d.year, 4);
    var s := Format(d);
    assert s[..2] == Padded(d.day, 2);
    assert s[3..5] == Padded(d.month, 2);
    assert s[6..] == Padded(d.year, 4);
  }

  /** A string that parses is exactly the printed form of its date. */
  lemma FormatParse(s: string)
    requires Parse(s).Success?
    ensures Format(Parse(s).value) == s
  {
    PaddedOfNumber(s[..2]);
    PaddedOfNumber(s[3..5]);
    PaddedOfNumber(s[6..]);
    assert s == s[..2] + "." + s[3..5] + "." + s[6..];
  }

  /** Only strings of exactly ten characters parse. */
  lemma ParseLength(s: string)
    requires Parse(s).Success?
    ensures |s| == 10 && IsValid(Parse(s).value)
  {
  }
}
