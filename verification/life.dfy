/** What `validateInputs` and `calcLife` compute, as functions of the six
    parsed fields and the current instant `now` (milliseconds since 1 January
    1900, the epoch of `Calendar.DayNumber`). */
module Life {
  import opened Wrappers
  import opened Calendar
  import opened Duration

  /** One date as entered: the day, month and year fields. */
  datatype DateFields = DateFields(day: Field, month: Field, year: Field)

  /** The dates `isValidDate` accepts, read off a date's three fields: an
      alias of `Calendar.IsRealDate` (equivalent to `Calendar.IsValidDate`
      by `Calendar.IsValidDateIff`). */
  predicate ValidFields(f: DateFields) {
    IsRealDate(f.day, f.month, f.year)
  }

  /** The instant `new Date(year, month - 1, day)` denotes: local midnight of that day. */
  function InstantOf(f: DateFields): (t: int)
    requires ValidFields(f)
    ensures t >= 0
  {
    DayNumber(f.year.value, f.month.value, f.day.value) * MsPerDay
  }

  /** `365 * 24 * 60 * 60 * 1000`. */
  const OneYearMs := 365 * 24 * 60 * 60 * 1000

  /** The ids of the six input fields. */
  datatype FieldId = BDay | BMonth | BYear | DDay | DMonth | DYear

  /** A field-scoped error message as `showError` displays it. */
  datatype Annotation = Annotation(field: FieldId, message: string)

  const InvalidBirth := Annotation(BDay, "Invalid birth date")
  const InvalidDeath := Annotation(DDay, "Invalid death date")
  const BirthInFuture := Annotation(BYear, "Birth date cannot be in the future")
  const DeathNotAfterBirth := Annotation(DYear, "Death date must be after birth date")
  const SpanTooShort := Annotation(DYear, "Life span must be at least 1 year")

  /** The position of each of the five messages in the order `validateInputs` can raise them. */
  function Rank(a: Annotation): nat {
    if a == InvalidBirth then 0
    else if a == InvalidDeath then 1
    else if a == BirthInFuture then 2
    else if a == DeathNotAfterBirth then 3
    else 4
  }

  /** Each message appears at most once, and in the order the checks run. */
  predicate InRaisingOrder(errs: seq<Annotation>) {
    forall i, j :: 0 <= i < j < |errs| ==> Rank(errs[i]) < Rank(errs[j])
  }

  /** The three independent cross-field checks on two instants, in the order they run. */
  function CrossFieldErrors(birth: int, death: int, now: int): (errs: seq<Annotation>)
    ensures errs == [] <==> birth <= now && death - birth >= OneYearMs
    ensures BirthInFuture in errs <==> birth > now
    ensures DeathNotAfterBirth in errs <==> death <= birth
    ensures SpanTooShort in errs <==> death - birth < OneYearMs
    ensures forall a :: a in errs ==> a == BirthInFuture || a == DeathNotAfterBirth || a == SpanTooShort
    ensures InRaisingOrder(errs)
  {
    (if birth > now then [BirthInFuture] else []) +
    (if death <= birth then [DeathNotAfterBirth] else []) +
    (if death - birth < OneYearMs then [SpanTooShort] else [])
  }

  /** The date-level checks: one message per invalid date, birth first. */
  function DateErrors(birth: DateFields, death: DateFields): (errs: seq<Annotation>)
    ensures errs == [] <==> ValidFields(birth) && ValidFields(death)
    ensures InvalidBirth in errs <==> !ValidFields(birth)
    ensures InvalidDeath in errs <==> !ValidFields(death)
    ensures forall a :: a in errs ==> a == InvalidBirth || a == InvalidDeath
    ensures InRaisingOrder(errs)
  {
    (if !ValidFields(birth) then [InvalidBirth] else []) +
    (if !ValidFields(death) then [InvalidDeath] else [])
  }

  /** Every annotation `validateInputs` leaves on the page, in the order it
      raises them; the cross-field checks run only when both dates are valid. */
  function ValidationErrors(birth: DateFields, death: DateFields, now: int): (errs: seq<Annotation>)
    ensures InRaisingOrder(errs)
  {
    if ValidFields(birth) && ValidFields(death)
    then CrossFieldErrors(InstantOf(birth), InstantOf(death), now)
    else DateErrors(birth, death)
  }

  /** What `validateInputs` returns. */
  predicate InputsValid(birth: DateFields, death: DateFields, now: int) {
    ValidationErrors(birth, death, now) == []
  }

  /** The inputs are valid exactly when both dates are real, birth is not
      after `now`, and the span is at least 365 days. */
  lemma InputsValidIff(birth: DateFields, death: DateFields, now: int)
    ensures InputsValid(birth, death, now) <==>
      ValidFields(birth) && ValidFields(death) &&
      InstantOf(birth) <= now && InstantOf(death) - InstantOf(birth) >= OneYearMs
  {
  }

  /** An invalid date raises its own message, and the cross-field checks are
      then skipped: only the two date-level messages can appear. */
  lemma InvalidDateSkipsCrossChecks(birth: DateFields, death: DateFields, now: int)
    requires !ValidFields(birth) || !ValidFields(death)
    ensures var errs := ValidationErrors(birth, death, now);
      (InvalidBirth in errs <==> !ValidFields(birth)) &&
      (InvalidDeath in errs <==> !ValidFields(death)) &&
      forall a :: a in errs ==> a == InvalidBirth || a == InvalidDeath
  {
  }

  /** The text a field's error element ends up holding: each `showError` on
      the same field overwrites the previous message. */
  function MessageShown(errs: seq<Annotation>, f: FieldId): Option<string> {
    if errs == [] then None
    else if errs[|errs| - 1].field == f then Some(errs[|errs| - 1].message)
    else MessageShown(errs[..|errs| - 1], f)
  }

  /** A field shows a message exactly when some annotation targets it, and
      the message shown is that of the last annotation targeting it. */
  lemma {:induction false} MessageShownIsLast(errs: seq<Annotation>, f: FieldId)
    ensures MessageShown(errs, f).Some? <==> exists i :: 0 <= i < |errs| && errs[i].field == f
    ensures MessageShown(errs, f).Some? ==>
      exists i :: 0 <= i < |errs| && errs[i] == Annotation(f, MessageShown(errs, f).value) &&
        forall j :: i < j < |errs| ==> errs[j].field != f
  {
    if errs != [] {
      var last := |errs| - 1;
      if errs[last].field == f {
        assert errs[last] == Annotation(f, MessageShown(errs, f).value);
      } else {
        var init := errs[..last];
        MessageShownIsLast(init, f);
        assert forall i :: 0 <= i < last ==> init[i] == errs[i];
        if MessageShown(errs, f).Some? {
          var i :| 0 <= i < |init| && init[i] == Annotation(f, MessageShown(init, f).value) &&
            forall j :: i < j < |init| ==> init[j].field != f;
          assert errs[i] == Annotation(f, MessageShown(errs, f).value);
        }
      }
    }
  }

  /** The cross-field checks do not stop at the first failure: a death date
      not after the birth date is reported twice on the death-year field,
      and the second message is the one left showing. */
  lemma DeathNotAfterBirthReportsTwice(birth: DateFields, death: DateFields, now: int)
    requires ValidFields(birth) && ValidFields(death)
    requires InstantOf(death) <= InstantOf(birth)
    ensures var errs := ValidationErrors(birth, death, now);
      |errs| >= 2 && errs[|errs| - 2] == DeathNotAfterBirth && errs[|errs| - 1] == SpanTooShort &&
      MessageShown(errs, DYear) == Some(SpanTooShort.message)
  {
  }

  /** Two real dates exactly one calendar year apart pass, even across a leap year. */
  lemma OneCalendarYearPasses(birth: DateFields, death: DateFields, now: int)
    requires ValidFields(birth) && ValidFields(death)
    requires death.day == birth.day && death.month == birth.month && death.year.value == birth.year.value + 1
    requires InstantOf(birth) <= now
    ensures InputsValid(birth, death, now)
  {
    var y, m, d := birth.year.value, birth.month.value, birth.day.value;
    SameDayNextYear(y, m, d);
    var span := DayNumber(y + 1, m, d) - DayNumber(y, m, d);
    assert InstantOf(death) - InstantOf(birth) == span * MsPerDay;
    assert CrossFieldErrors(InstantOf(birth), InstantOf(death), now) == [];
  }

  /** A birth date after `now` is rejected with its own message. */
  lemma FutureBirthRejected(birth: DateFields, death: DateFields, now: int)
    requires ValidFields(birth) && ValidFields(death)
    requires InstantOf(birth) > now
    ensures BirthInFuture in ValidationErrors(birth, death, now)
    ensures !InputsValid(birth, death, now)
  {
  }

  /** `calcLife`'s result object. */
  datatype LifeStats = LifeStats(lived: int, remaining: int, percentageLived: real, totalLife: int)

  /** `Math.min(100, Math.max(0, lived / total * 100))`, on exact reals. */
  function ClampedPercent(lived: int, total: int): (p: real)
    requires total > 0
    ensures 0.0 <= p <= 100.0
    ensures lived >= total ==> p == 100.0
    ensures lived <= 0 ==> p == 0.0
    ensures 0 <= lived <= total ==> p * total as real == lived as real * 100.0
  {
    var q := lived as real / total as real;
    var raw := q * 100.0;
    assert lived >= total ==> raw >= 100.0 by {
      if lived >= total {
        assert q * total as real == lived as real;
        if q < 1.0 {
          assert q * total as real < 1.0 * total as real;
        }
      }
    }
    if raw > 100.0 then 100.0 else if raw < 0.0 then 0.0 else raw
  }

  /** `Math.round(x * 100) / 100`: round half up to two decimals. */
  function RoundHundredths(x: real): (r: real)
    ensures x - 0.005 < r <= x + 0.005
    ensures (r * 100.0).Floor as real == r * 100.0
  {
    (x * 100.0 + 0.5).Floor as real / 100.0
  }

  /** `percentageLived`: the clamped percentage rounded to hundredths. */
  function PercentageLived(lived: int, total: int): (p: real)
    requires total > 0
    ensures 0.0 <= p <= 100.0
    ensures lived >= total ==> p == 100.0
    ensures lived <= 0 ==> p == 0.0
    ensures ClampedPercent(lived, total) - 0.005 < p <= ClampedPercent(lived, total) + 0.005
    ensures (p * 100.0).Floor as real == p * 100.0
  {
    var c := ClampedPercent(lived, total);
    var p := RoundHundredths(c);
    assert (c * 100.0 + 0.5).Floor <= 10000;
    p
  }

  function Max(a: int, b: int): int {
    if a < b then b else a
  }

  /** The arithmetic of `calcLife`: the statistics of a life from `birth`
      to `death`, seen at `now`. */
  function Stats(birth: int, death: int, now: int): LifeStats
    requires death > birth
  {
    var lived := Max(0, now - birth);
    LifeStats(lived, Max(0, death - now), PercentageLived(lived, death - birth), death - birth)
  }

  /** What `calcLife` returns: `null` for rejected inputs, else the statistics. */
  function LifeStatsOf(birth: DateFields, death: DateFields, now: int): (r: Option<LifeStats>)
    ensures r.Some? <==> InputsValid(birth, death, now)
  {
    if !InputsValid(birth, death, now) then None
    else
      InputsValidIff(birth, death, now);
      Some(Stats(InstantOf(birth), InstantOf(death), now))
  }

  /** The statistics of accepted inputs: lived time is the whole time since
      birth and is not capped at the total, the remaining time stops at zero,
      the two add up to the total until death, and the percentage stays in
      [0, 100] and reaches 100 once death has passed. */
  lemma LifeStatsProperties(birth: DateFields, death: DateFields, now: int)
    requires InputsValid(birth, death, now)
    ensures ValidFields(birth) && ValidFields(death)
    ensures var s := LifeStatsOf(birth, death, now).value;
      var b := InstantOf(birth); var d := InstantOf(death);
      s.totalLife == d - b && s.totalLife >= OneYearMs &&
      s.lived == now - b && s.lived >= 0 &&
      s.remaining >= 0 && (s.remaining == 0 <==> now >= d) &&
      (now <= d ==> s.lived + s.remaining == s.totalLife) &&
      (now >= d ==> s.lived == s.totalLife + (now - d)) &&
      s.percentageLived == PercentageLived(s.lived, s.totalLife) &&
      0.0 <= s.percentageLived <= 100.0 &&
      (now >= d ==> s.percentageLived == 100.0)
  {
    InputsValidIff(birth, death, now);
  }

  /** What a render writes: both breakdowns and the percentage. */
  datatype Display = Display(lived: Breakdown, remaining: Breakdown, percentage: real)

  function DisplayOf(s: LifeStats): Display {
    Display(FormatDuration(s.lived), FormatDuration(s.remaining), s.percentageLived)
  }

  /** At or after the death date the remaining breakdown is all zeros and the
      progress reads 100. */
  lemma DisplayAfterDeath(birth: DateFields, death: DateFields, now: int)
    requires InputsValid(birth, death, now)
    requires ValidFields(death) && now >= InstantOf(death)
    ensures var v := DisplayOf(LifeStatsOf(birth, death, now).value);
      v.remaining == Zero && v.percentage == 100.0
  {
    LifeStatsProperties(birth, death, now);
  }
}
