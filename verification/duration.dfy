/** `formatDuration`: a millisecond count broken into years, months, days,
    hours, minutes and seconds with fixed 365-day years and 30-day months.
    The breakdown is an approximation, not calendar arithmetic. */
module Duration {

  const MsPerSecond := 1000
  const MsPerDay := 86_400_000
  const DaysPerYear := 365
  const DaysPerMonth := 30

  datatype Breakdown = Breakdown(years: nat, months: nat, days: nat, hr: nat, min: nat, sec: nat)

  const Zero := Breakdown(0, 0, 0, 0, 0, 0)

  /** `Math.max(0, ms)`: negative counts are treated as zero. */
  function Clamp(ms: int): nat {
    if ms < 0 then 0 else ms
  }

  /** Whole days in the clamped count, before any years or months are taken out. */
  function TotalDays(ms: int): nat {
    Clamp(ms) / MsPerDay
  }

  /** `formatDuration`. Note the `days` field: it is the unreduced day count
      modulo 30, not what is left after whole years and months are removed. */
  function FormatDuration(ms: int): (b: Breakdown)
    ensures b.sec < 60 && b.min < 60 && b.hr < 24
    ensures b.days < DaysPerMonth && b.months <= 12
    ensures ms <= 0 ==> b == Zero
  {
    var t := Clamp(ms);
    var seconds := t / 1000;
    var minutes := seconds / 60;
    var hours := minutes / 60;
    var days := hours / 24;
    var years := days / 365;
    var months := (days % 365) / 30;
    Breakdown(years, months, days % 30, hours % 24, minutes % 60, seconds % 60)
  }

  /** A negative count formats exactly as zero does. */
  lemma NegativeIsZero(ms: int)
    requires ms < 0
    ensures FormatDuration(ms) == FormatDuration(0) == Zero
  {
  }

  /** The time-of-day fields together with the whole days give back the whole seconds. */
  lemma {:induction false} SecondsRecombine(ms: int)
    ensures var b := FormatDuration(ms);
      b.sec + 60 * b.min + 3600 * b.hr + 86400 * TotalDays(ms) == Clamp(ms) / MsPerSecond
  {
    var t := Clamp(ms);
    var s := t / 1000;
    var m := s / 60;
    var h := m / 60;
    var d := h / 24;
    assert s == 60 * m + s % 60;
    assert m == 60 * h + m % 60;
    assert h == 24 * d + h % 24;
    assert d == t / MsPerDay by {
      DivDiv(t, 1000, 60);
      DivDiv(t, 60000, 60);
      DivDiv(t, 3600000, 24);
    }
  }

  lemma DivDiv(x: nat, a: nat, b: nat)
    requires a > 0 && b > 0
    ensures x / a / b == x / (a * b)
  {
    var q := x / a / b;
    var r1 := x % a;
    var r2 := (x / a) % b;
    assert x == a * (x / a) + r1;
    assert x / a == b * q + r2;
    assert x == (a * b) * q + (a * r2 + r1) by {
      assert a * (b * q + r2) == (a * b) * q + a * r2;
    }
    assert a * r2 + r1 < a * b by {
      assert r2 <= b - 1;
      assert a * r2 <= a * (b - 1);
    }
    DivUnique(x, a * b, q, a * r2 + r1);
  }

  lemma DivUnique(x: int, n: int, q: int, r: int)
    requires n > 0 && 0 <= r < n && x == n * q + r
    ensures x / n == q
  {
    var q', r' := x / n, x % n;
    assert n * q' + r' == n * q + r;
    assert n * (q' - q) == r - r' by {
      assert n * (q' - q) == n * q' - n * q;
    }
    if q' > q {
      MulAtLeast(n, q' - q);
    } else if q' < q {
      MulAtLeast(n, q - q');
    }
  }

  lemma MulAtLeast(n: int, k: int)
    requires n > 0 && k >= 1
    ensures n * k >= n
  {
    assert n * k == n + n * (k - 1);
  }

  /** Years and months account for the whole days up to a remainder below 30. */
  lemma YearsMonthsRecombine(ms: int)
    ensures var b := FormatDuration(ms); var d := TotalDays(ms);
      DaysPerYear * b.years + DaysPerMonth * b.months + (d % DaysPerYear) % DaysPerMonth == d
  {
  }

  /** The `days` field against the calendar-accurate remainder (what is left
      after whole years and months): it is off by five days for every whole
      year, modulo 30, and so agrees with it only when the year count is a
      multiple of six. */
  lemma {:induction false} DaysQuirk(ms: int)
    ensures var b := FormatDuration(ms); var rest := (TotalDays(ms) % DaysPerYear) % DaysPerMonth;
      b.days == (rest + 5 * b.years) % DaysPerMonth &&
      (b.days == rest <==> b.years % 6 == 0)
  {
    var b := FormatDuration(ms);
    var d := TotalDays(ms);
    var rest := (d % 365) % 30;
    var y := b.years;
    YearsMonthsRecombine(ms);
    assert d == 30 * (12 * y + b.months) + (rest + 5 * y);
    ModShift(d, 12 * y + b.months, rest + 5 * y);
    FiveDaysPerYear(rest, y);
  }

  /** Shifting a remainder below 30 by five days per year, modulo 30, leaves
      it in place exactly when the number of years is a multiple of six. */
  lemma FiveDaysPerYear(rest: int, y: nat)
    requires 0 <= rest < 30
    ensures (rest + 5 * y) % 30 == rest <==> y % 6 == 0
  {
    var k := y % 6;
    assert rest + 5 * y == 30 * (y / 6) + (rest + 5 * k);
    ModShift(rest + 5 * y, y / 6, rest + 5 * k);
    if rest + 5 * k >= 30 {
      ModShift(rest + 5 * k, 1, rest + 5 * k - 30);
    }
  }

  lemma ModShift(x: int, q: int, r: int)
    requires x == 30 * q + r
    ensures x % 30 == r % 30
  {
    DivUnique(r, 30, r / 30, r % 30);
    DivUnique(x, 30, q + r / 30, r % 30);
  }

  /** Every field of the breakdown in terms of the whole days and the
      clamped count: years and months come from the day count, `days` is the
      unreduced day count modulo 30, and the time of day from the remainder. */
  lemma BreakdownFields(ms: int)
    ensures var b := FormatDuration(ms); var d := TotalDays(ms);
      b.years == d / DaysPerYear && b.months == (d % DaysPerYear) / DaysPerMonth &&
      b.days == d % DaysPerMonth &&
      3600 * b.hr + 60 * b.min + b.sec == Clamp(ms) / MsPerSecond - 86400 * d
  {
    SecondsRecombine(ms);
    DaysQuirk(ms);
    YearsMonthsRecombine(ms);
  }

  /** 1 day, 1 hour, 1 minute and 1 second. */
  lemma OneOfEach()
    ensures FormatDuration(90_061_000) == Breakdown(0, 0, 1, 1, 1, 1)
  {
  }

  /** Exactly one 365-day year shows as 1 year, 0 months and 5 days: the quirk at work. */
  lemma OneYearShowsFiveDays()
    ensures FormatDuration(365 * MsPerDay) == Breakdown(1, 0, 5, 0, 0, 0)
  {
  }
}
