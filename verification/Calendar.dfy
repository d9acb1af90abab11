/**
 Counting days: the closed form for leap years and the number of days since 1900, against a calendar that is
 walked day by day.
 */
module Calendar {
  import Bits

  /** Division as in C: towards zero. */
  function Div(a: int, b: int): int
    requires b > 0
  {
    if a >= 0 then a / b else -((-a) / b)
  }

  /** `nb_leap_years_since_1900` */
  function NbLeapYears(year: int): int {
    Div(year, 4) - Div(year, 100) + Div(year, 400) - 460
  }

  /** `year_is_leap_year` */
  predicate IsLeap(year: int) {
    (year % 4 == 0 && year % 100 != 0) || year % 400 == 0
  }

  function One(b: bool): int { if b then 1 else 0 }

  /** The number of leap years from 1901 to `year` */
  function CountLeap(year: int): int
    requires year >= 1900
    decreases year
  {
    if year == 1900 then 0 else CountLeap(year - 1) + One(IsLeap(year))
  }

  /** One more step of a quotient: it grows exactly at multiples, and one year late below zero. */
  lemma DivStep(y: int, b: int)
    requires b > 1
    ensures y >= 1 ==> Div(y, b) - Div(y - 1, b) == One(y % b == 0)
    ensures y <= 0 ==> Div(y, b) - Div(y - 1, b) == One((y - 1) % b == 0)
  {
    if y >= 1 {
      FloorStep(y, b);
    } else {
      FloorStep(1 - y, b);
      Opposite(1 - y, b);
    }
  }

  lemma FloorStep(y: int, b: int)
    requires b > 1 && y >= 1
    ensures y / b - (y - 1) / b == One(y % b == 0)
  {
    var q, r := y / b, y % b;
    assert y == q * b + r;
    if r == 0 {
      Quotient(y - 1, b, q - 1, b - 1);
    } else {
      Quotient(y - 1, b, q, r - 1);
    }
  }

  lemma Quotient(x: int, b: int, q: int, r: int)
    requires b > 0 && 0 <= r < b && x == q * b + r
    ensures x / b == q && x % b == r
  {
    var q', r' := x / b, x % b;
    assert (q - q') * b == r' - r;
    Bits.SmallMultiple(q - q', b);
  }

  lemma Opposite(x: int, b: int)
    requires b > 1
    ensures x % b == 0 <==> (-x) % b == 0
  {
    var q, r := x / b, x % b;
    assert x == q * b + r;
    if r == 0 {
      Quotient(-x, b, -q, 0);
    } else {
      Quotient(-x, b, -q - 1, b - r);
    }
  }

  /** How the closed form grows from one year to the next. */
  lemma LeapStep(y: int)
    ensures NbLeapYears(y) - NbLeapYears(y - 1) == One(IsLeap(if y >= 1 then y else y - 1))
  {
    DivStep(y, 4);
    DivStep(y, 100);
    DivStep(y, 400);
    LeapCases(if y >= 1 then y else y - 1);
  }

  lemma LeapCases(y: int)
    ensures One(IsLeap(y)) == One(y % 4 == 0) - One(y % 100 == 0) + One(y % 400 == 0)
  {
    if y % 400 == 0 {
      Quotient(y, 100, 4 * (y / 400), 0);
    }
    if y % 100 == 0 {
      Quotient(y, 4, 25 * (y / 100), 0);
    }
  }

  /** The closed form counts the leap years since 1900, the given year included. */
  lemma {:induction false} ClosedForm(year: int)
    requires year >= 1900
    ensures NbLeapYears(year) == CountLeap(year)
    decreases year
  {
    if year > 1900 {
      ClosedForm(year - 1);
      LeapStep(year);
    }
  }

  // ---------------------------------------------------------------- days

  /** A calendar day; months and days of the month count from 1. */
  datatype Date = Date(year: int, month: int, day: int)

  function MonthDays(year: int, month: int): int {
    if month == 2 then 28 + One(IsLeap(year))
    else if month == 4 || month == 6 || month == 9 || month == 11 then 30
    else 31
  }

  predicate IsDate(d: Date) { 1 <= d.month <= 12 && 1 <= d.day <= MonthDays(d.year, d.month) }

  function YearDays(year: int): int { 365 + One(IsLeap(year)) }

  /** The days of the year before a month */
  function BeforeMonth(year: int, month: int): int
    requires 1 <= month <= 13
  {
    if month == 1 then 0 else BeforeMonth(year, month - 1) + MonthDays(year, month - 1)
  }

  /** `tm_yday` */
  function YearDay(d: Date): int
    requires IsDate(d)
  {
    BeforeMonth(d.year, d.month) + d.day - 1
  }

  function NextDay(d: Date): (n: Date)
    requires IsDate(d)
    ensures IsDate(n)
  {
    if d.day < MonthDays(d.year, d.month) then d.(day := d.day + 1)
    else if d.month < 12 then Date(d.year, d.month + 1, 1)
    else Date(d.year + 1, 1, 1)
  }

  /** `tm_nb_days_since_1900`, where the year of a `struct tm` counts from 1900 */
  function NbDays(d: Date): int
    requires IsDate(d)
  {
    365 * (d.year - 1900) + YearDay(d) + NbLeapYears(d.year - 1)
  }

  /** `tm_diff_days` */
  function DiffDays(from: Date, to: Date): int
    requires IsDate(from) && IsDate(to)
  {
    NbDays(to) - NbDays(from)
  }

  lemma YearLength(year: int)
    ensures BeforeMonth(year, 13) == YearDays(year)
  {
    assert BeforeMonth(year, 2) == 31;
    assert BeforeMonth(year, 4) == 31 + 28 + One(IsLeap(year)) + 31;
    assert BeforeMonth(year, 6) == BeforeMonth(year, 4) + 30 + 31;
    assert BeforeMonth(year, 8) == BeforeMonth(year, 6) + 30 + 31;
    assert BeforeMonth(year, 10) == BeforeMonth(year, 8) + 31 + 30;
    assert BeforeMonth(year, 12) == BeforeMonth(year, 10) + 31 + 30;
  }

  /**
   From one day to the next the count grows by one, over the ends of months, years and centuries; exactly from the
   year 1 on, and before it but for the last days of the years next to a leap year.
   */
  lemma NextDayCounts(d: Date)
    requires IsDate(d)
    ensures NbDays(NextDay(d)) == NbDays(d) + 1 <==>
      d.year >= 1 || d.month != 12 || d.day != 31 || IsLeap(d.year) == IsLeap(d.year - 1)
  {
    if d.month == 12 && d.day == 31 {
      NewYear(d);
    } else {
      assert YearDay(NextDay(d)) == YearDay(d) + 1;
    }
  }

  lemma NewYear(d: Date)
    requires IsDate(d) && d.month == 12 && d.day == 31
    ensures NbDays(NextDay(d)) - NbDays(d) == 1 + NbLeapYears(d.year) - NbLeapYears(d.year - 1) - One(IsLeap(d.year))
    ensures NbLeapYears(d.year) - NbLeapYears(d.year - 1) == One(IsLeap(if d.year >= 1 then d.year else d.year - 1))
  {
    hide NbLeapYears, IsLeap;
    YearLength(d.year);
    assert YearDay(d) == YearDays(d.year) - 1;
    LeapStep(d.year);
  }

  /** The day before the year 1 is not followed by the next count: the year 0 is a leap year. */
  lemma YearZero()
    ensures DiffDays(Date(0, 12, 31), NextDay(Date(0, 12, 31))) == 0
  {
    NewYear(Date(0, 12, 31));
  }

  function AfterDays(d: Date, n: nat): (e: Date)
    requires IsDate(d)
    ensures IsDate(e)
    decreases n
  {
    if n == 0 then d else NextDay(AfterDays(d, n - 1))
  }

  lemma {:induction false} YearGoesOn(d: Date, n: nat)
    requires IsDate(d)
    ensures AfterDays(d, n).year >= d.year
    decreases n
  {
    if n > 0 { YearGoesOn(d, n - 1); }
  }

  /** `tm_diff_days` counts the days walked from one date to another. */
  lemma {:induction false} DiffIsWalk(d: Date, n: nat)
    requires IsDate(d) && d.year >= 1
    ensures DiffDays(d, AfterDays(d, n)) == n
    decreases n
  {
    if n > 0 {
      DiffIsWalk(d, n - 1);
      YearGoesOn(d, n - 1);
      NextDayCounts(AfterDays(d, n - 1));
    }
  }

  lemma {:induction false} MonthsInOrder(year: int, m: int, n: int)
    requires 1 <= m < n <= 13
    ensures BeforeMonth(year, m) + MonthDays(year, m) <= BeforeMonth(year, n)
    decreases n
  {
    if m < n - 1 { MonthsInOrder(year, m, n - 1); }
  }

  lemma {:induction false} YearsInOrder(y: int, z: int)
    requires 1 <= y < z
    ensures 365 * y + NbLeapYears(y - 1) + YearDays(y) <= 365 * z + NbLeapYears(z - 1)
    decreases z
  {
    LeapStep(z - 1);
    if y < z - 1 { YearsInOrder(y, z - 1); }
  }

  lemma InYear(d: Date)
    requires IsDate(d)
    ensures 0 <= YearDay(d) < YearDays(d.year)
  {
    YearLength(d.year);
    MonthsInOrder(d.year, d.month, 13);
    if d.month > 1 { MonthsInOrder(d.year, 1, d.month); }
  }

  predicate Earlier(a: Date, b: Date) {
    a.year < b.year || (a.year == b.year && (a.month < b.month || (a.month == b.month && a.day < b.day)))
  }

  /** Later dates have greater counts. */
  lemma CountsInOrder(a: Date, b: Date)
    requires IsDate(a) && IsDate(b) && a.year >= 1 && Earlier(a, b)
    ensures NbDays(a) < NbDays(b)
  {
    if a.year < b.year {
      YearsApart(a, b);
    } else if a.month < b.month {
      MonthsInOrder(a.year, a.month, b.month);
    }
  }

  lemma YearsApart(a: Date, b: Date)
    requires IsDate(a) && IsDate(b) && 1 <= a.year < b.year
    ensures NbDays(a) < NbDays(b)
  {
    InYear(a);
    InYear(b);
    YearsInOrder(a.year, b.year);
  }

  /** Walking as many days as `tm_diff_days` says leads from one date to the other. */
  lemma WalkReaches(a: Date, b: Date)
    requires IsDate(a) && IsDate(b) && a.year >= 1 && b.year >= 1 && DiffDays(a, b) >= 0
    ensures AfterDays(a, DiffDays(a, b)) == b
  {
    var n := DiffDays(a, b);
    var e := AfterDays(a, n);
    DiffIsWalk(a, n);
    YearGoesOn(a, n);
    if Earlier(e, b) {
      CountsInOrder(e, b);
    } else if Earlier(b, e) {
      CountsInOrder(b, e);
    }
  }
}
