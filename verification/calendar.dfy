/** Gregorian calendar arithmetic standing in for the host's `Date` object.
    A date is identified with the number of days since 1 January 1900;
    `DayNumber` plays the role of `new Date(year, month - 1, day)` (a day past
    the end of the month rolls over into the next month) and `DateOf` the role
    of reading back `getFullYear`, `getMonth() + 1` and `getDate`. */
module Calendar {

  /** A number field as `parseInt` leaves it: an integer, or NaN when the text is not a number. */
  datatype Field = NaN | Num(value: int)

  /** JavaScript truthiness of a parsed field: NaN and 0 are falsy. */
  predicate Truthy(f: Field) {
    f.Num? && f.value != 0
  }

  const EpochYear := 1900
  const MinYear := 1900
  const MaxYear := 2500

  /** Gregorian rule: every fourth year, except centuries not divisible by 400. */
  predicate IsLeapYear(y: int) {
    y % 4 == 0 && (y % 100 != 0 || y % 400 == 0)
  }

  function DaysInYear(y: int): (n: int)
    ensures n == DaysBeforeMonth(y, 12) + DaysInMonth(y, 12)
    ensures n == 366 <==> IsLeapYear(y)
  {
    if IsLeapYear(y) then 366 else 365
  }

  function DaysInMonth(y: int, m: int): (n: int)
    requires 1 <= m <= 12
    ensures 28 <= n <= 31
    ensures n == 29 <==> m == 2 && IsLeapYear(y)
  {
    if m == 2 then (if IsLeapYear(y) then 29 else 28)
    else if m == 4 || m == 6 || m == 9 || m == 11 then 30
    else 31
  }

  /** Days from 1 January 1900 to 1 January of year `y`. */
  function DaysBeforeYear(y: int): nat
    requires y >= EpochYear
    decreases y - EpochYear
  {
    if y == EpochYear then 0 else DaysBeforeYear(y - 1) + DaysInYear(y - 1)
  }

  /** Days from 1 January of year `y` to the first of month `m`, in a common year. */
  const CommonDaysBeforeMonth: seq<nat> := [0, 31, 59, 90, 120, 151, 181, 212, 243, 273, 304, 334]

  /** Days from 1 January of year `y` to the first of month `m`. */
  function DaysBeforeMonth(y: int, m: int): nat
    requires 1 <= m <= 12
  {
    CommonDaysBeforeMonth[m - 1] + (if m > 2 && IsLeapYear(y) then 1 else 0)
  }

  /** The months of a year follow each other without gap and fill the year. */
  lemma MonthsTileYear(y: int, m: int)
    requires 1 <= m <= 12
    ensures m < 12 ==> DaysBeforeMonth(y, m + 1) == DaysBeforeMonth(y, m) + DaysInMonth(y, m)
    ensures m == 12 ==> DaysBeforeMonth(y, m) + DaysInMonth(y, m) == DaysInYear(y)
    ensures DaysBeforeMonth(y, m) + DaysInMonth(y, m) <= DaysInYear(y)
  {
  }

  /** `new Date(y, m - 1, d)` as a day count; a `d` past the month's end is not
      rejected here, it counts on into the following month. */
  function DayNumber(y: int, m: int, d: int): (n: int)
    requires y >= EpochYear && 1 <= m <= 12 && d >= 1
    ensures n >= DaysBeforeYear(y)
  {
    DaysBeforeYear(y) + DaysBeforeMonth(y, m) + (d - 1)
  }

  /** Day numbers run on without gap: the first of a month follows the last
      day of the month before, and 1 January follows 31 December. */
  lemma ConsecutiveDays(y: int, m: int)
    requires y >= EpochYear && 1 <= m <= 12
    ensures m < 12 ==> DayNumber(y, m + 1, 1) == DayNumber(y, m, DaysInMonth(y, m)) + 1
    ensures DayNumber(y + 1, 1, 1) == DayNumber(y, 12, 31) + 1
  {
    MonthsTileYear(y, m);
    assert DaysBeforeYear(y + 1) == DaysBeforeYear(y) + DaysInYear(y);
  }

  datatype Date = Date(year: int, month: int, day: int)

  /** The year that day `n` (counted from 1 January of `y`) falls in, and its offset in that year. */
  function YearOf(n: nat, y: int): (r: (int, nat))
    requires y >= EpochYear
    ensures r.0 >= y && r.1 < DaysInYear(r.0)
    ensures DaysBeforeYear(r.0) - DaysBeforeYear(y) + r.1 == n
    decreases n
  {
    if n < DaysInYear(y) then (y, n) else YearOf(n - DaysInYear(y), y + 1)
  }

  /** The month and the day of the month that offset `r` (counted from the
      first of month `m` of year `y`) falls in. */
  function MonthOf(y: int, r: nat, m: int): (md: (int, int))
    requires 1 <= m <= 12
    ensures m <= md.0 <= 12 && md.1 >= 1
    ensures DaysBeforeMonth(y, md.0) - DaysBeforeMonth(y, m) + md.1 - 1 == r
    ensures DaysBeforeMonth(y, m) + r < DaysInYear(y) ==> md.1 <= DaysInMonth(y, md.0)
    decreases 12 - m
  {
    MonthsTileYear(y, m);
    if m == 12 || r < DaysInMonth(y, m) then (m, r + 1)
    else MonthOf(y, r - DaysInMonth(y, m), m + 1)
  }

  /** The calendar date of day `n`: what the getters of a `Date` read back. */
  function DateOf(n: nat): (dt: Date)
    ensures dt.year >= EpochYear && 1 <= dt.month <= 12
    ensures 1 <= dt.day <= DaysInMonth(dt.year, dt.month)
    ensures DayNumber(dt.year, dt.month, dt.day) == n
  {
    var yr := YearOf(n, EpochYear);
    var md := MonthOf(yr.0, yr.1, 1);
    Date(yr.0, md.0, md.1)
  }

  /** `isValidDate`: every part present and non-zero, each part in range, and
      the constructed date reads back as the same day, month and year. */
  predicate IsValidDate(day: Field, month: Field, year: Field) {
    if !Truthy(day) || !Truthy(month) || !Truthy(year) then false
    else if day.value < 1 || day.value > 31 then false
    else if month.value < 1 || month.value > 12 then false
    else if year.value < MinYear || year.value > MaxYear then false
    else DateOf(DayNumber(year.value, month.value, day.value)) == Date(year.value, month.value, day.value)
  }

  /** The dates the calculator accepts, said without the read-back: numbers
      for all three parts, a year in 1900..2500, a month in 1..12 and a day
      between 1 and the length of that month. */
  predicate IsRealDate(day: Field, month: Field, year: Field) {
    day.Num? && month.Num? && year.Num? &&
    MinYear <= year.value <= MaxYear && 1 <= month.value <= 12 &&
    1 <= day.value <= DaysInMonth(year.value, month.value)
  }

  lemma DaysBeforeYearMonotone(a: int, b: int)
    requires EpochYear <= a <= b
    ensures DaysBeforeYear(a) <= DaysBeforeYear(b)
    decreases b - a
  {
    if a < b {
      DaysBeforeYearMonotone(a, b - 1);
    }
  }

  /** Reading back an offset that lies inside year `y` finds year `y`. */
  lemma {:induction false} YearOfAt(y0: int, y: int, k: nat)
    requires EpochYear <= y0 <= y && k < DaysInYear(y)
    ensures DaysBeforeYear(y) - DaysBeforeYear(y0) + k >= 0
    ensures YearOf(DaysBeforeYear(y) - DaysBeforeYear(y0) + k, y0) == (y, k)
    decreases y - y0
  {
    DaysBeforeYearMonotone(y0, y);
    if y0 < y {
      DaysBeforeYearMonotone(y0 + 1, y);
      assert DaysBeforeYear(y0 + 1) == DaysBeforeYear(y0) + DaysInYear(y0);
      YearOfAt(y0 + 1, y, k);
    }
  }

  /** Reading back an offset that lies inside month `m` finds month `m` and the day. */
  lemma {:induction false} MonthOfAt(y: int, m0: int, m: int, d: int)
    requires 1 <= m0 <= m <= 12 && 1 <= d <= DaysInMonth(y, m)
    ensures DaysBeforeMonth(y, m) - DaysBeforeMonth(y, m0) + d - 1 >= 0
    ensures MonthOf(y, DaysBeforeMonth(y, m) - DaysBeforeMonth(y, m0) + d - 1, m0) == (m, d)
    decreases m - m0
  {
    MonthsTileYear(y, m0);
    if m0 < m {
      MonthOfAt(y, m0 + 1, m, d);
    }
  }

  /** Round trip: a real calendar date survives construction and read-back. */
  lemma DateOfDayNumber(y: int, m: int, d: int)
    requires y >= EpochYear && 1 <= m <= 12 && 1 <= d <= DaysInMonth(y, m)
    ensures DateOf(DayNumber(y, m, d)) == Date(y, m, d)
  {
    MonthsTileYear(y, m);
    var k := DaysBeforeMonth(y, m) + d - 1;
    YearOfAt(EpochYear, y, k);
    assert YearOf(DayNumber(y, m, d), EpochYear) == (y, k);
    MonthOfAt(y, 1, m, d);
    assert MonthOf(y, k, 1) == (m, d);
  }

  /** A day past the end of month `m` reads back in the following month. */
  lemma DayNumberOverflow(y: int, m: int, d: int)
    requires y >= EpochYear && 1 <= m <= 12 && DaysInMonth(y, m) < d <= 31
    ensures m < 12
    ensures DateOf(DayNumber(y, m, d)) == Date(y, m + 1, d - DaysInMonth(y, m))
  {
    MonthsTileYear(y, m);
    assert DayNumber(y, m, d) == DayNumber(y, m + 1, d - DaysInMonth(y, m));
    DateOfDayNumber(y, m + 1, d - DaysInMonth(y, m));
  }

  /** The same day and month one year later is 365 or 366 days on. */
  lemma SameDayNextYear(y: int, m: int, d: int)
    requires y >= EpochYear && 1 <= m <= 12 && d >= 1
    ensures 365 <= DayNumber(y + 1, m, d) - DayNumber(y, m, d) <= 366
  {
    assert DaysBeforeYear(y + 1) == DaysBeforeYear(y) + DaysInYear(y);
  }

  /** `isValidDate` accepts exactly the present, in-range triples naming a real
      Gregorian date: the day may not exceed the length of its month. */
  lemma IsValidDateIff(day: Field, month: Field, year: Field)
    ensures IsValidDate(day, month, year) <==> IsRealDate(day, month, year)
  {
    if day.Num? && month.Num? && year.Num? &&
       MinYear <= year.value <= MaxYear && 1 <= month.value <= 12 && 1 <= day.value <= 31
    {
      var y, m, d := year.value, month.value, day.value;
      if d <= DaysInMonth(y, m) {
        DateOfDayNumber(y, m, d);
      } else {
        DayNumberOverflow(y, m, d);
      }
    }
  }

  /** A missing or zero part, or any part out of its range, is rejected. */
  lemma RejectsMissingOrOutOfRange(day: Field, month: Field, year: Field)
    requires !Truthy(day) || !Truthy(month) || !Truthy(year) ||
             day.value < 1 || day.value > 31 ||
             month.value < 1 || month.value > 12 ||
             year.value < MinYear || year.value > MaxYear
    ensures !IsValidDate(day, month, year)
  {
  }

  /** 29 February is accepted exactly in leap years, 30 February never. */
  lemma FebruaryEnd(y: int)
    requires MinYear <= y <= MaxYear
    ensures IsValidDate(Num(29), Num(2), Num(y)) <==> IsLeapYear(y)
    ensures !IsValidDate(Num(30), Num(2), Num(y))
  {
    IsValidDateIff(Num(29), Num(2), Num(y));
    IsValidDateIff(Num(30), Num(2), Num(y));
  }

  /** The years that, through `FebruaryEnd`, make 29/2/2024 and 29/2/2000
      valid and 29/2/2023 and 29/2/1900 invalid. */
  lemma LeapYearExamples()
    ensures IsLeapYear(2024) && IsLeapYear(2000)
    ensures !IsLeapYear(2023) && !IsLeapYear(1900) && !IsLeapYear(2100)
  {
  }
}
