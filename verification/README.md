# Life & Death Calculator — a Dafny model of its date and duration engine

The calculator takes a birth date and a (projected) death date, each entered
as day, month and year fields, checks them, and shows how much of the life
has been lived and how much remains, as a years/months/days/hours/minutes/
seconds breakdown and a percentage, refreshed every second by a live-update
loop. This project models the computational core of `script.js`:

- `calendar.dfy` (module `Calendar`): `isValidDate`. The host's `Date` object
  is replaced by a day count since 1 January 1900 (`DayNumber`, which, like
  `new Date(y, m - 1, d)`, lets a day past the month's end run on into the
  next month) and its read-back (`DateOf`, the getters). Gregorian leap years.
- `duration.dfy` (module `Duration`): `formatDuration`, with its fixed
  365-day years, 30-day months, and its `days` field taken from the
  unreduced day count modulo 30.
- `life.dfy` (module `Life`): what `validateInputs` and `calcLife` compute,
  as functions of the six parsed fields and the current instant `now`:
  the error annotations in the order they are raised, the accept/reject
  verdict, and the statistics (`lived`, `remaining`, `totalLife`,
  `percentageLived`) and what a render writes from them.
- `script.dfy` (module `Script`): the page state as a class `Page`: the
  error annotations (`clearErrors` empties them, `showError` appends one),
  the `updateInterval` handle with the set of intervals the host has
  registered, and the results-view flag; `validateInputs`, `calcLife`,
  `showResult`, `startLiveUpdate`, `hideResults`, the calculate button, the
  tick and the `beforeunload`/`visibilitychange` listeners as methods. The
  class invariant `Valid()` says that at most one live loop is registered
  and that it is the one `updateInterval` names.
- `wrappers.dfy` (module `Wrappers`): `Option`, for `null`/`undefined`.

Instants are milliseconds since 1 January 1900 local midnight; a date's
instant is its day count times 86,400,000. `now` is a parameter. A field as
`parseInt` leaves it is `Calendar.Field`: an integer or NaN.

`lived` is `Math.max(0, now - birth)` and is not capped at `totalLife`; only
`percentageLived` is clamped (`Life.LifeStatsProperties`: after the death
date, lived = total + time since death).

## Model

| member | source | states |
|---|---|---|
| `Calendar.IsValidDateIff` | script.js:38-55 | a triple is accepted exactly when all three parts are numbers, the year is in 1900–2500, the month in 1–12 and the day between 1 and the Gregorian length of that month |
| `Calendar.IsValidDate` | script.js:38-55 | defined as the source's guard chain: every part truthy, day 1–31, month 1–12, year 1900–2500, then the constructed date reads back as the same triple (its meaning is stated by `Calendar.IsValidDateIff`) |
| `Calendar.RejectsMissingOrOutOfRange` | script.js:40-45 | a NaN or zero part, or a day outside 1–31, month outside 1–12 or year outside 1900–2500, is rejected |
| `Calendar.FebruaryEnd` | script.js:48-52 | 29 February is accepted exactly in leap years (so 29/2/2024 and 29/2/2000 pass, 29/2/2023 and 29/2/1900 fail, with `LeapYearExamples`); 30 February never |
| `Calendar.LeapYearExamples` | script.js:48-52 | 2024 and 2000 are leap years; 2023, 1900 and 2100 are not (the century rule) |
| `Calendar.DaysInMonth` | script.js:48-52 | a month has 28 to 31 days, and 29 exactly for February of a leap year |
| `Calendar.DaysInYear` | script.js:48-52 | a year's length is its twelve month lengths laid end to end; 366 exactly in leap years |
| `Calendar.MonthsTileYear` | script.js:48-52 | each month starts where the previous one ends, and December ends where the year does |
| `Calendar.DayNumber` | script.js:48 | `new Date(year, month - 1, day)` as a day count from 1 January 1900; never before 1 January of its year (consecutiveness and overflow are stated by `Calendar.ConsecutiveDays` and `Calendar.DayNumberOverflow`) |
| `Calendar.ConsecutiveDays` | script.js:48 | day numbers run on without gap: the first of a month is one day after the last day of the previous month, and 1 January one day after 31 December |
| `Calendar.DateOf` | script.js:49-52 | reading a day count back gives a real date (day within its month's length) whose construction is that same day count |
| `Calendar.DateOfDayNumber` | script.js:48-52 | a real date reads back unchanged after construction |
| `Calendar.DayNumberOverflow` | script.js:48-52 | a day past the month's end reads back as the matching day of the following month, so the read-back differs from the input |
| `Duration.FormatDuration` | script.js:184-209 | seconds and minutes below 60, hours below 24, days below 30, months at most 12; all zero for a count of zero or less |
| `Duration.NegativeIsZero` | script.js:186 | a negative count gives exactly the result of 0 |
| `Duration.SecondsRecombine` | script.js:188-199 | sec + 60·min + 3600·hr + 86400·(whole days) equals the whole seconds of the clamped count |
| `Duration.BreakdownFields` | script.js:186-199 | years = whole days ÷ 365, months = (whole days mod 365) ÷ 30, days = whole days mod 30 (not the remainder after years and months), and the hours, minutes and seconds make up the whole seconds beyond the whole days |
| `Duration.YearsMonthsRecombine` | script.js:191-193 | 365·years + 30·months + the remainder after them equals the whole days |
| `Duration.DaysQuirk` | script.js:191-196 | the `days` field equals the true remainder after years and months plus 5 per year, modulo 30, and equals the true remainder only when years is a multiple of 6 |
| `Duration.OneOfEach` | script.js:184-209 | 90,061,000 ms gives 0 years, 0 months, 1 day, 1 hour, 1 minute, 1 second |
| `Duration.OneYearShowsFiveDays` | script.js:192-196 | exactly 365 days gives 1 year, 0 months and 5 days |
| `Life.CrossFieldErrors` | script.js:124-141 | the three checks are independent: future birth, death not after birth and span under 365 days each raise their own message, and none is raised exactly when birth ≤ now and the span is at least a year; no other message appears, each at most once and in the order the checks run |
| `Life.DateErrors` | script.js:107-117 | 'Invalid birth date' appears exactly when the birth date is invalid and 'Invalid death date' exactly when the death date is; nothing else appears, birth first, and the list is empty exactly when both dates are valid |
| `Life.InstantOf` | script.js:120-121 | defined as the date's day count times 86,400,000 ms (`new Date(y, m - 1, d)` as milliseconds, compared and subtracted by the checks); never negative |
| `Life.ValidationErrors` | script.js:103-145 | every annotation `validateInputs` raises, in raising order and each at most once: the cross-field checks when both dates are valid, else the date-level ones |
| `Life.InputsValid` | script.js:103-145 | defined as "no annotation raised", `validateInputs`' result (characterised by `Life.InputsValidIff`) |
| `Life.InputsValidIff` | script.js:103-145 | validation passes exactly when both dates are real, birth is not after now and death − birth ≥ 365·24·60·60·1000 ms |
| `Life.InvalidDateSkipsCrossChecks` | script.js:107-119 | an invalid birth date raises 'Invalid birth date' on `bday`, an invalid death date 'Invalid death date' on `dday`, and then no cross-field message appears |
| `Life.DeathNotAfterBirthReportsTwice` | script.js:130-141 | death ≤ birth raises both 'must be after' and 'at least 1 year' on `dyear`, in that order, and the second is the text left showing |
| `Life.MessageShown` | script.js:62-69 | defined as the message of the last annotation on the field, each `showError` overwriting the element's text (stated by `Life.MessageShownIsLast`) |
| `Life.MessageShownIsLast` | script.js:62-69 | a field shows a message exactly when some annotation targets it, and it shows the last one raised for it |
| `Life.OneCalendarYearPasses` | script.js:136-141 | two real dates with the same day and month one year apart pass when birth is not in the future, across leap years included |
| `Life.FutureBirthRejected` | script.js:124-128 | a birth after now raises 'Birth date cannot be in the future' on `byear` and fails validation |
| `Life.ClampedPercent` | script.js:172-173 | the ratio percentage clamped to [0, 100]: 100 once lived ≥ total, 0 for no time lived, and exactly lived·100/total in between |
| `Life.RoundHundredths` | script.js:174 | rounding half up to hundredths moves a value by at most 0.005 and lands on a whole number of hundredths |
| `Life.PercentageLived` | script.js:172-174 | the reported percentage lies in [0, 100], is 100 once lived ≥ total and 0 with nothing lived, is within 0.005 of the clamped ratio and is a whole number of hundredths |
| `Life.Stats` | script.js:166-174 | defined as `calcLife`'s arithmetic: lived = max(0, now − birth), remaining = max(0, death − now), total = death − birth and the rounded clamped percentage (stated by `Life.LifeStatsProperties`) |
| `Life.LifeStatsOf` | script.js:157-160 | the result is `null` exactly when validation fails |
| `Life.LifeStatsProperties` | script.js:162-176 | for accepted inputs: total = death − birth ≥ one year, lived = now − birth ≥ 0 and not capped at the total, percentage = the rounded clamped ratio of lived to total, remaining ≥ 0 and zero exactly from death on, lived + remaining = total up to death, percentage in [0, 100] and 100 from death on |
| `Life.DisplayAfterDeath` | script.js:284-303 | at or after the death date the remaining breakdown written is all zeros and the percentage is 100 |
| `Life.DisplayOf` | script.js:221-260 | defined as what a render writes: both breakdowns through `formatDuration` and the percentage (stated by `Life.DisplayAfterDeath`) |
| `Script.AllPresent` | script.js:283 | defined as the tick's guard: all six parsed fields truthy |
| `Script.Page.ClearInterval` | script.js:27 | the host's `clearInterval`: the named handle is no longer registered, `undefined` changes nothing |
| `Script.Page.SetInterval` | script.js:273 | the host's `setInterval`: one interval is registered under a handle not in use |
| `Script.Page.constructor` | script.js:6 | a fresh page has no annotations, no handle, no registered loop and the results hidden |
| `Script.Page.ClearErrors` | script.js:82-91 | no annotation remains |
| `Script.Page.ShowError` | script.js:62-77 | the annotation is added after the existing ones |
| `Script.Page.ValidateInputs` | script.js:103-145 | the annotations afterwards are exactly those the checks raise, in order, and the result is true exactly when there are none |
| `Script.Page.CalcLife` | script.js:157-177 | leaves validation's annotations and returns `null` for rejected inputs, else the statistics |
| `Script.Page.StartLiveUpdate` | script.js:270-273 | the previous loop is cancelled and exactly one loop, under a fresh handle, is registered |
| `Script.Page.HideResults` | script.js:23-29 | with both containers present the results are hidden and no loop is left registered; otherwise nothing changes |
| `Script.Page.OnBeforeUnload` | script.js:419-421 | no loop is left registered |
| `Script.Page.OnVisibilityChange` | script.js:426-432 | hiding the page leaves no loop; showing it again restarts exactly one loop, under a fresh handle, if the results are displayed and changes nothing otherwise |
| `Script.Page.ShowResult` | script.js:215-265 | for `null` nothing changes; otherwise both breakdowns and the percentage are shown, the results view is displayed when both containers exist, and exactly one fresh loop runs |
| `Script.Page.OnCalculate` | script.js:340-365 | rejected inputs leave the loop and the results view as they were; accepted ones show their statistics, display the results view when the containers exist and leave exactly one fresh loop, never a second concurrent one |
| `Script.Page.Tick` | script.js:273-332 | a throwing tick leaves no loop registered; otherwise, when all six fields are non-zero numbers, it re-validates and shows the recomputed statistics, and with a field missing it changes nothing |
| `Script.AtMostOneLoop` | script.js:271-273 | a page in its invariant has at most one registered loop |

## Left out

- The DOM: element lookups, CSS classes and styles, the text written into the
  twelve duration elements and the progress bar, the "only write when the text
  differs" comparison, the seconds highlight colour, and the zero-padding of
  inputs on blur. A render is reduced to the values it writes (`Life.Display`).
- Timers as time: the 4-second auto-clear of each error message, the
  `input` listener that hides a field's error, the 500 ms calculation delay,
  the 2-second auto-calculate debounce and the 1000 ms period. Only whether an
  interval is registered is modelled; `Page.errors` is the list of
  annotations raised since the last `clearErrors`, not what is still visible.
- The button's loading state, `alert` and `console.error`/`console.log`. The
  button handler's catch block (an alert) is not modelled; no step of the
  modelled calculation throws.
- `parseInt` of the field text: a field is given as a number or NaN.
- The `if (input && errorDiv)` guard of `showError` and `clearErrors`: the six
  input fields and their error elements are taken to exist, so every
  `showError` records its annotation.
- The host `Date`: time zones, daylight-saving shifts in date differences and
  the 1970 epoch. Dates are local midnights on a uniform 86,400,000 ms day
  counted from 1900; `new Date()` is the parameter `now`.
- `validateInputs` and `calcLife` each sample `new Date()`; the model uses one
  `now` for both, the few milliseconds between the two samples are not modelled.
- `Life.PercentageLived`: binary floating point is not modelled; the ratio and
  `Math.round` are taken on exact reals, so the result is the exact rounding
  of the exact ratio.
- `Script.Page.Tick`: the only exception modelled is one raised while the
  fields are read (before any validation), given as the `fault` parameter.
