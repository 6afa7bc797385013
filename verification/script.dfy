/** The page-level state of the calculator: the error annotations on the
    input fields and the single `updateInterval` handle of the live update.
    Presentation (element styles, texts) is reduced to the values a render
    writes; the host timer is reduced to the set of registered handles. */
module Script {
  import opened Wrappers
  import opened Calendar
  import opened Duration
  import opened Life

  /** `bday && bmonth && byear && dday && dmonth && dyear`: the tick's guard. */
  predicate AllPresent(birth: DateFields, death: DateFields) {
    Truthy(birth.day) && Truthy(birth.month) && Truthy(birth.year) &&
    Truthy(death.day) && Truthy(death.month) && Truthy(death.year)
  }

  class Page {
    /** The annotations raised since the last `clearErrors`, in order. */
    var errors: seq<Annotation>
    /** The module-level `updateInterval`: the last handle `setInterval`
        returned, still held after that interval is cleared. */
    var updateInterval: Option<nat>
    /** The handles of the intervals the host has registered. */
    var live: set<nat>
    /** The handle the host gives out next. */
    var nextHandle: nat
    /** Whether the results container carries the `show` class. */
    var resultsShown: bool
    /** Whether the page has both the image and the results containers. */
    const hasContainers: bool

    /** At most one live loop, and it is the one `updateInterval` names. */
    ghost predicate Valid()
      reads this
    {
      (forall h :: h in live ==> h < nextHandle) &&
      (live == {} || (updateInterval.Some? && live == {updateInterval.value})) &&
      (resultsShown ==> hasContainers)
    }

    constructor (hasContainers: bool)
      ensures Valid() && this.hasContainers == hasContainers
      ensures errors == [] && updateInterval == None && live == {} && !resultsShown
    {
      this.hasContainers := hasContainers;
      errors := [];
      updateInterval := None;
      live := {};
      nextHandle := 1;
      resultsShown := false;
    }

    /** The host's `clearInterval`: clearing `undefined` or a handle already
        cleared does nothing. */
    method ClearInterval(handle: Option<nat>)
      modifies this`live
      ensures live == if handle.Some? then old(live) - {handle.value} else old(live)
    {
      if handle.Some? {
        live := live - {handle.value};
      }
    }

    /** The host's `setInterval`: registers a new interval under a fresh handle. */
    method SetInterval() returns (handle: nat)
      requires forall h :: h in live ==> h < nextHandle
      modifies this`live, this`nextHandle
      ensures handle == old(nextHandle) && nextHandle == old(nextHandle) + 1
      ensures handle !in old(live) && live == old(live) + {handle}
    {
      handle := nextHandle;
      live := live + {handle};
      nextHandle := nextHandle + 1;
    }

    /** `startLiveUpdate`: cancel the previous loop, then register a new one. */
    method StartLiveUpdate()
      requires Valid()
      modifies this`live, this`nextHandle, this`updateInterval
      ensures Valid()
      ensures updateInterval.Some? && live == {updateInterval.value}
      ensures updateInterval.value !in old(live)
    {
      ClearInterval(updateInterval);
      var handle := SetInterval();
      updateInterval := Some(handle);
    }

    /** `hideResults`: when both containers exist, hide the results and stop the loop. */
    method HideResults()
      requires Valid()
      modifies this`live, this`resultsShown
      ensures Valid()
      ensures hasContainers ==> !resultsShown && live == {}
      ensures !hasContainers ==> resultsShown == old(resultsShown) && live == old(live)
    {
      if hasContainers {
        resultsShown := false;
        ClearInterval(updateInterval);
      }
    }

    /** The `beforeunload` listener. */
    method OnBeforeUnload()
      requires Valid()
      modifies this`live
      ensures Valid() && live == {}
    {
      ClearInterval(updateInterval);
    }

    /** The `visibilitychange` listener: stop when hidden, restart when shown
        again while the results are on display. */
    method OnVisibilityChange(hidden: bool)
      requires Valid()
      modifies this`live, this`nextHandle, this`updateInterval
      ensures Valid()
      ensures hidden ==> live == {} && updateInterval == old(updateInterval)
      ensures !hidden && resultsShown ==> (updateInterval.Some? && live == {updateInterval.value} &&
        updateInterval.value !in old(live))
      ensures !hidden && !resultsShown ==> live == old(live) && updateInterval == old(updateInterval)
    {
      if hidden {
        ClearInterval(updateInterval);
      } else if resultsShown {
        StartLiveUpdate();
      }
    }

    /** `clearErrors`. */
    method ClearErrors()
      modifies this`errors
      ensures errors == []
    {
      errors := [];
    }

    /** `showError`: annotate a field with a message. */
    method ShowError(a: Annotation)
      modifies this`errors
      ensures errors == old(errors) + [a]
    {
      errors := errors + [a];
    }

    /** `validateInputs`. */
    method ValidateInputs(birth: DateFields, death: DateFields, now: int) returns (isValid: bool)
      modifies this`errors
      ensures errors == ValidationErrors(birth, death, now)
      ensures isValid == InputsValid(birth, death, now)
    {
      ClearErrors();
      isValid := true;
      IsValidDateIff(birth.day, birth.month, birth.year);
      IsValidDateIff(death.day, death.month, death.year);
      if !IsValidDate(birth.day, birth.month, birth.year) {
        ShowError(InvalidBirth);
        isValid := false;
      }
      if !IsValidDate(death.day, death.month, death.year) {
        ShowError(InvalidDeath);
        isValid := false;
      }
      assert errors == DateErrors(birth, death);
      if isValid {
        var birthDate := InstantOf(birth);
        var deathDate := InstantOf(death);
        if birthDate > now {
          ShowError(BirthInFuture);
          isValid := false;
        }
        if deathDate <= birthDate {
          ShowError(DeathNotAfterBirth);
          isValid := false;
        }
        if deathDate - birthDate < OneYearMs {
          ShowError(SpanTooShort);
          isValid := false;
        }
        assert errors == CrossFieldErrors(birthDate, deathDate, now);
      }
    }

    /** `calcLife`: validate, then compute the statistics against `now`. */
    method CalcLife(birth: DateFields, death: DateFields, now: int) returns (life: Option<LifeStats>)
      modifies this`errors
      ensures errors == ValidationErrors(birth, death, now)
      ensures life == LifeStatsOf(birth, death, now)
    {
      var ok := ValidateInputs(birth, death, now);
      if !ok {
        return None;
      }
      InputsValidIff(birth, death, now);
      life := Some(Stats(InstantOf(birth), InstantOf(death), now));
    }

    /** `showResult`: nothing to show for rejected inputs; otherwise show
        the results and (re)start the live update. */
    method ShowResult(life: Option<LifeStats>) returns (shown: Option<Display>)
      requires Valid()
      modifies this`live, this`nextHandle, this`updateInterval, this`resultsShown
      ensures Valid()
      ensures life.None? ==> (shown.None? && live == old(live) && updateInterval == old(updateInterval) &&
        resultsShown == old(resultsShown))
      ensures life.Some? ==> (shown == Some(DisplayOf(life.value)) && resultsShown == hasContainers &&
        updateInterval.Some? && live == {updateInterval.value} && updateInterval.value !in old(live))
    {
      if life.None? {
        return None;
      }
      shown := Some(DisplayOf(life.value));
      if hasContainers {
        resultsShown := true;
      }
      StartLiveUpdate();
    }

    /** The calculate button: `calcLife` on the fields, then `showResult`. */
    method OnCalculate(birth: DateFields, death: DateFields, now: int) returns (shown: Option<Display>)
      requires Valid()
      modifies this`errors, this`live, this`nextHandle, this`updateInterval, this`resultsShown
      ensures Valid()
      ensures errors == ValidationErrors(birth, death, now)
      ensures !InputsValid(birth, death, now) ==> (shown.None? && live == old(live) &&
        updateInterval == old(updateInterval) && resultsShown == old(resultsShown))
      ensures InputsValid(birth, death, now) ==> (
        shown == Some(DisplayOf(LifeStatsOf(birth, death, now).value)) &&
        resultsShown == hasContainers &&
        updateInterval.Some? && live == {updateInterval.value} && updateInterval.value !in old(live))
    {
      var life := CalcLife(birth, death, now);
      shown := ShowResult(life);
    }

    /** One tick of the live update. `fault` stands for the host throwing
        while the fields are read; the catch block then stops the loop. */
    method Tick(birth: DateFields, death: DateFields, now: int, fault: bool) returns (shown: Option<Display>)
      requires Valid() && updateInterval.Some? && updateInterval.value in live
      modifies this`errors, this`live
      ensures Valid()
      ensures fault ==> shown.None? && live == {} && errors == old(errors)
      ensures !fault ==> live == old(live)
      ensures !fault && AllPresent(birth, death) ==>
        errors == ValidationErrors(birth, death, now) &&
        shown == (if InputsValid(birth, death, now) then Some(DisplayOf(LifeStatsOf(birth, death, now).value)) else None)
      ensures !fault && !AllPresent(birth, death) ==> shown.None? && errors == old(errors)
    {
      if fault {
        ClearInterval(updateInterval);
        return None;
      }
      shown := None;
      if AllPresent(birth, death) {
        var life := CalcLife(birth, death, now);
        if life.Some? {
          shown := Some(DisplayOf(life.value));
        }
      }
    }
  }

  /** A valid page never has more than one live loop. */
  lemma AtMostOneLoop(p: Page)
    requires p.Valid()
    ensures |p.live| <= 1
  {
  }
}
