/**
 * The form's mutable state and its event handlers: the dependent selects
 * rebuilt by `updateStates`/`updateCities`, the submit button kept in step
 * with the aggregate by `updateSubmitButton`, and the submit handler with
 * its delayed completion.
 */
module Gate {
  import opened Wrappers
  import opened Text
  import opened Validators
  import opened Strength
  import opened Cascade
  import opened Aggregate
  import opened Tables

  /** Which alert box is visible. */
  datatype Alert = NoAlert | ErrorAlert(message: string) | SuccessAlert

  // ---------------------------------------------------------------------------
  // The submit button as written: its disabled flag is the only guard.
  // ---------------------------------------------------------------------------

  /** The part of the page the re-entrancy question needs: the button flag and the completions queued. */
  datatype ButtonGate = ButtonGate(disabled: bool, scheduled: nat)

  /** `updateSubmitButton` as written: the flag follows the aggregate alone. */
  function RefreshAsWritten(g: ButtonGate, s: Snapshot): (g': ButtonGate)
    ensures g'.disabled <==> !AllValid(s)
    ensures g'.scheduled == g.scheduled
  {
    g.(disabled := !ValidateAllFields(s))
  }

  /** A click on the button as written: ignored while disabled; a valid form disables it and queues a completion. */
  function ClickAsWritten(g: ButtonGate, s: Snapshot): (g': ButtonGate)
    ensures g.disabled ==> g' == g
    ensures !g.disabled ==> g'.disabled && g'.scheduled == g.scheduled + (if AllValid(s) then 1 else 0)
  {
    if g.disabled then g
    else if ValidateAllFields(s) then ButtonGate(true, g.scheduled + 1)
    else ButtonGate(true, g.scheduled)
  }

  /**
   * The discrepancy: submit a valid form; during the delay make an edit
   * that keeps the form valid, in a field whose input or change handler
   * calls `updateSubmitButton` (e.g. one more letter in the first name),
   * which re-enables the button; click again: two completions are queued
   * for one registration.
   */
  lemma DoubleSubmitAsWritten(s: Snapshot)
    requires AllValid(s)
    ensures var idle := RefreshAsWritten(ButtonGate(true, 0), s);
      && !idle.disabled
      && ClickAsWritten(RefreshAsWritten(ClickAsWritten(idle, s), s), s).scheduled == 2
  {
    var idle := RefreshAsWritten(ButtonGate(true, 0), s);
    var first := ClickAsWritten(idle, s);
    assert first.scheduled == 1;
    var during := RefreshAsWritten(first, s);
    assert !during.disabled;
  }

  // ---------------------------------------------------------------------------
  // The form, with the guard corrected: while a submission is pending the
  // button stays disabled and further submits are ignored.
  // ---------------------------------------------------------------------------

  /** What the two dependent selects show: each one's options and whether it is disabled. */
  datatype Selects = Selects(
    stateOptions: seq<SelectOption>, cityOptions: seq<SelectOption>, stateDisabled: bool, cityDisabled: bool)

  /** Both selects back at their placeholders and disabled. */
  const ClearedSelects := Selects([StatePlaceholder], [CityPlaceholder], true, true)

  class RegistrationForm {
    /** `LOCATION_DATA`, the hierarchy the dependent selects are built from. */
    const hierarchy: seq<Country>
    /** The values of the form's controls. */
    var snap: Snapshot
    var selects: Selects
    var submitDisabled: bool
    /** A valid submit is waiting for its delayed completion. */
    var submitting: bool
    var alert: Alert
    /** The tier the strength indicator shows; `None` is its neutral state. */
    var strength: Option<Tier>

    /**
     * The selects agree with the cascade for the current country, state and
     * city, and the button is disabled while submitting or invalid.
     */
    ghost predicate Valid()
      reads this
    {
      SelectsShown() && ButtonShown()
    }

    /** The dependent selects show what the cascade derives for the current country, state and city. */
    ghost predicate SelectsShown()
      reads this`snap, this`selects
    {
      SelectsAgree(hierarchy, snap.country, snap.state, snap.city, selects)
    }

    /** The button is disabled exactly while submitting or while some field fails. */
    ghost predicate ButtonShown()
      reads this`snap, this`submitDisabled, this`submitting
    {
      submitDisabled == (submitting || !AllValid(snap))
    }

    /** The page as loaded: every control empty, both dependent selects disabled, the button disabled. */
    constructor (data: seq<Country>)
      requires HierarchyWellFormed(data)
      ensures Valid() && hierarchy == data
      ensures snap == EmptySnapshot && selects == ClearedSelects
      ensures !submitting && submitDisabled && alert == NoAlert && strength == None
    {
      hierarchy := data;
      snap := EmptySnapshot;
      selects := ClearedSelects;
      submitting := false;
      submitDisabled := true;
      alert := NoAlert;
      strength := None;
      new;
      ResetSelects(hierarchy);
      ResetFormIsInvalid(snap);
    }

    /** `validateAllFields` on the form's current values. */
    method RunValidators() returns (ok: bool)
      ensures ok <==> AllValid(snap)
    {
      ok := ValidateAllFields(snap);
    }

    /**
     * `updateSubmitButton`, with the pending submission taken into account;
     * running the validators also refreshes the strength tier whenever the
     * password passes its own check.
     */
    method UpdateSubmitButton()
      modifies this
      ensures submitDisabled == (submitting || !AllValid(snap))
      ensures strength == ShownAfterCheck(snap.password, old(strength))
      ensures snap == old(snap) && selects == old(selects) && submitting == old(submitting) && alert == old(alert)
    {
      if ValidatePassword(snap.password).Valid? {
        var tier := CalculatePasswordStrength(snap.password);
        strength := Some(tier);
      }
      var ok := RunValidators();
      submitDisabled := submitting || !ok;
    }

    /**
     * An input, radio or checkbox event other than the three selects:
     * the new values are taken over and the button recomputed.
     */
    method FieldChanged(s': Snapshot)
      requires Valid()
      requires s'.country == snap.country && s'.state == snap.state && s'.city == snap.city
      modifies this
      ensures Valid()
      ensures snap == s' && selects == old(selects) && submitting == old(submitting) && alert == old(alert)
      ensures submitDisabled == (submitting || !AllValid(s'))
      ensures old(submitting) ==> submitDisabled
      ensures strength == ShownAfterCheck(s'.password, old(strength))
    {
      snap := s';
      UpdateSubmitButton();
    }

    /**
     * `updateStates` after a country change: both dependent selects are
     * rebuilt from their placeholders, so state and city are cleared; the
     * state select lists the country's states in order and is enabled
     * exactly when there are some, the city select is left disabled.
     */
    method ChangeCountry(country: string)
      requires Valid()
      modifies this
      ensures Valid()
      ensures snap == old(snap).(country := country, state := "", city := "")
      ensures selects == Selects([StatePlaceholder] + StatesFor(hierarchy, country), [CityPlaceholder], StatesFor(hierarchy, country) == [], true)
      ensures submitting == old(submitting) && alert == old(alert)
      ensures submitDisabled == (submitting || !AllValid(snap))
      ensures strength == ShownAfterCheck(snap.password, old(strength))
    {
      var stateOptions := [StatePlaceholder];
      var stateDisabled := true;
      if country != "" && FindCountryIn(hierarchy, country).Some? {
        var c := FindCountryIn(hierarchy, country).value;
        assert CountryWellFormed(c);
        stateOptions := BuildStateOptions(c.states);
        stateDisabled := false;
      }
      CountrySelects(hierarchy, country);
      selects := Selects(stateOptions, [CityPlaceholder], stateDisabled, true);
      snap := snap.(country := country, state := "", city := "");
      UpdateSubmitButton();
    }

    /**
     * `updateCities` after a state change: the city select is rebuilt from
     * its placeholder, so the city is cleared, and lists the state's cities
     * in order; it is enabled exactly when there is one.
     */
    method ChangeState(state: string)
      requires Valid() && Offers(selects.stateOptions, state)
      modifies this
      ensures Valid()
      ensures snap == old(snap).(state := state, city := "")
      ensures selects == old(selects).(cityOptions := [CityPlaceholder] + CitiesFor(hierarchy, snap.country, state),
                                       cityDisabled := CitiesFor(hierarchy, snap.country, state) == [])
      ensures submitting == old(submitting) && alert == old(alert)
      ensures submitDisabled == (submitting || !AllValid(snap))
      ensures strength == ShownAfterCheck(snap.password, old(strength))
    {
      var cityOptions := [CityPlaceholder];
      var cityDisabled := true;
      if snap.country != "" && state != "" && FindCountryIn(hierarchy, snap.country).Some?
         && FindRegion(FindCountryIn(hierarchy, snap.country).value.states, state).Some?
      {
        var c := FindCountryIn(hierarchy, snap.country).value;
        cityOptions := BuildCityOptions(FindRegion(c.states, state).value.cities);
        cityDisabled := false;
      }
      StateSelects(hierarchy, snap.country, state, selects);
      selects := selects.(cityOptions := cityOptions, cityDisabled := cityDisabled);
      snap := snap.(state := state, city := "");
      UpdateSubmitButton();
    }

    /** A city change only recomputes the button. */
    method ChangeCity(city: string)
      requires Valid() && Offers(selects.cityOptions, city)
      modifies this
      ensures Valid()
      ensures snap == old(snap).(city := city) && selects == old(selects)
      ensures submitting == old(submitting) && alert == old(alert)
      ensures submitDisabled == (submitting || !AllValid(snap))
      ensures strength == ShownAfterCheck(snap.password, old(strength))
    {
      CitySelects(hierarchy, snap.country, snap.state, snap.city, city, selects);
      snap := snap.(city := city);
      UpdateSubmitButton();
    }

    /**
     * The submit handler. While a submission is pending it does nothing.
     * Otherwise the alerts are hidden and the validators re-run; a valid
     * form starts submitting, an invalid one shows the summary of its
     * failing fields. Either way the button ends up disabled.
     */
    method Submit()
      requires Valid()
      modifies this
      ensures Valid()
      ensures snap == old(snap) && selects == old(selects)
      ensures old(submitting) ==> submitting && alert == old(alert) && strength == old(strength)
      ensures !old(submitting) ==> submitting == AllValid(snap)
      ensures !old(submitting) ==> alert == if AllValid(snap) then NoAlert else ErrorAlert(SummaryMessage(SummaryFields(snap)))
      ensures !old(submitting) ==> strength == ShownAfterCheck(snap.password, old(strength))
      ensures submitDisabled
    {
      if submitting {
        return;
      }
      alert := NoAlert;
      UpdateSubmitButton();
      var ok := RunValidators();
      if ok {
        StartSubmitting();
      } else {
        ReportFailures();
      }
    }

    /**
     * The valid branch of the submit handler: the button is disabled and
     * the form waits for the delayed completion.
     */
    method StartSubmitting()
      requires SelectsShown()
      modifies this
      ensures SelectsShown()
      ensures snap == old(snap) && selects == old(selects) && alert == old(alert) && strength == old(strength)
      ensures submitting && submitDisabled
    {
      submitDisabled := true;
      submitting := true;
    }

    /** The invalid branch of the submit handler: the error alert names the failing fields, in validation order. */
    method ReportFailures()
      requires Valid() && !AllValid(snap)
      modifies this
      ensures Valid()
      ensures snap == old(snap) && selects == old(selects) && strength == old(strength)
      ensures submitting == old(submitting) && submitDisabled
      ensures alert == ErrorAlert(SummaryMessage(SummaryFields(snap)))
    {
      alert := ErrorAlert(SummaryMessage(SummaryFields(snap)));
    }

    /**
     * The delayed completion of a valid submit: the success alert shows,
     * every control is reset, the dependent selects go back to their
     * placeholders and are disabled, the strength indicator is cleared,
     * and the button stays disabled.
     */
    method CompleteSubmit()
      requires HierarchyWellFormed(hierarchy) && submitting
      modifies this
      ensures Valid()
      ensures snap == EmptySnapshot && selects == ClearedSelects
      ensures !submitting && submitDisabled && alert == SuccessAlert && strength == None
    {
      alert := SuccessAlert;
      snap := EmptySnapshot;
      selects := ClearedSelects;
      strength := None;
      submitting := false;
      submitDisabled := true;
      ResetSelects(hierarchy);
      ResetFormIsInvalid(snap);
    }
  }

  /** The reset form has no first name, so the disabled button it is left with agrees with the aggregate. */
  lemma ResetFormIsInvalid(s: Snapshot)
    requires s.firstName == []
    ensures Check(FirstName, s).Invalid?
  {
  }

  /** A select rebuilt from its placeholder can hold the empty selection. */
  lemma PlaceholderOffersEmpty(placeholder: SelectOption, rest: seq<SelectOption>)
    requires placeholder.value == ""
    ensures Offers([placeholder] + rest, "")
  {
    assert ([placeholder] + rest)[0].value == "";
  }

  /**
   * What the dependent selects show for a country, state and city: the
   * options the cascade derives from `data`, each select disabled exactly
   * when it has nothing but its placeholder, and each holding one of its
   * options' values.
   */
  ghost predicate SelectsAgree(data: seq<Country>, country: string, state: string, city: string, sel: Selects) {
    && HierarchyWellFormed(data)
    && sel.stateOptions == [StatePlaceholder] + StatesFor(data, country)
    && sel.cityOptions == [CityPlaceholder] + CitiesFor(data, country, state)
    && Offers(sel.stateOptions, state)
    && Offers(sel.cityOptions, city)
    && sel.stateDisabled == (StatesFor(data, country) == [])
    && sel.cityDisabled == (CitiesFor(data, country, state) == [])
  }

  /** The cleared selects agree with an empty country, state and city. */
  lemma ResetSelects(data: seq<Country>)
    requires HierarchyWellFormed(data)
    ensures SelectsAgree(data, "", "", "", ClearedSelects)
  {
    PlaceholderOffersEmpty(StatePlaceholder, []);
    PlaceholderOffersEmpty(CityPlaceholder, []);
    assert [StatePlaceholder] + [] == [StatePlaceholder] && [CityPlaceholder] + [] == [CityPlaceholder];
    StatesOfferedIffListed(data, "");
    NoStateNoCities(data, "");
  }

  /**
   * After a country change: the state select lists the country's states and
   * is enabled exactly when the country is in the hierarchy; the city
   * select is back to its placeholder and disabled; state and city are cleared.
   */
  lemma CountrySelects(data: seq<Country>, country: string)
    requires HierarchyWellFormed(data)
    ensures StatesFor(data, country) == [] <==> !(country != "" && FindCountryIn(data, country).Some?)
    ensures country != "" && FindCountryIn(data, country).Some? ==>
      StatesFor(data, country) == StateOptions(FindCountryIn(data, country).value.states)
    ensures SelectsAgree(data, country, "", "",
      Selects([StatePlaceholder] + StatesFor(data, country), [CityPlaceholder], StatesFor(data, country) == [], true))
  {
    StatesOfferedIffListed(data, country);
    PlaceholderOffersEmpty(StatePlaceholder, StatesFor(data, country));
    PlaceholderOffersEmpty(CityPlaceholder, []);
    assert [CityPlaceholder] + [] == [CityPlaceholder];
    NoStateNoCities(data, country);
  }

  /**
   * After a state change: the state select is untouched, the city select
   * lists the state's cities and is enabled exactly when the state is one
   * of the country's; the city is cleared.
   */
  lemma StateSelects(data: seq<Country>, country: string, state: string, sel: Selects)
    requires HierarchyWellFormed(data)
    requires sel.stateOptions == [StatePlaceholder] + StatesFor(data, country)
    requires sel.stateDisabled == (StatesFor(data, country) == [])
    requires Offers(sel.stateOptions, state)
    ensures var found := country != "" && state != "" && FindCountryIn(data, country).Some?
                         && FindRegion(FindCountryIn(data, country).value.states, state).Some?;
      && (CitiesFor(data, country, state) == [] <==> !found)
      && (found ==> CitiesFor(data, country, state) == CityOptions(FindRegion(FindCountryIn(data, country).value.states, state).value.cities))
    ensures SelectsAgree(data, country, state, "",
      sel.(cityOptions := [CityPlaceholder] + CitiesFor(data, country, state), cityDisabled := CitiesFor(data, country, state) == []))
  {
    PlaceholderOffersEmpty(CityPlaceholder, CitiesFor(data, country, state));
    if country != "" && state != "" && FindCountryIn(data, country).Some?
       && FindRegion(FindCountryIn(data, country).value.states, state).Some?
    {
      var c := FindCountryIn(data, country).value;
      assert CountryWellFormed(c);
      var r := FindRegion(c.states, state).value;
      var j :| 0 <= j < |c.states| && c.states[j] == r;
    }
  }

  /** A city change picks one of the offered cities and leaves the options as they are. */
  lemma CitySelects(data: seq<Country>, country: string, state: string, city: string, city': string, sel: Selects)
    requires SelectsAgree(data, country, state, city, sel)
    requires Offers(sel.cityOptions, city')
    ensures SelectsAgree(data, country, state, city', sel)
  {}

  /** The `for … of Object.entries(states)` loop: the placeholder, then one option per state in order. */
  method BuildStateOptions(regions: seq<Region>) returns (options: seq<SelectOption>)
    requires forall r | r in regions :: |r.cities| >= 1
    ensures options == [StatePlaceholder] + StateOptions(regions)
  {
    options := [StatePlaceholder];
    var i := 0;
    while i < |regions|
      invariant 0 <= i <= |regions|
      invariant options == [StatePlaceholder] + StateOptions(regions)[..i]
    {
      assert StateOptions(regions)[..i + 1] == StateOptions(regions)[..i] + [StateOption(regions[i])];
      options := options + [StateOption(regions[i])];
      i := i + 1;
    }
    assert StateOptions(regions)[..i] == StateOptions(regions);
  }

  /** The `cities.forEach` loop: the placeholder, then one option per city in order. */
  method BuildCityOptions(cities: seq<string>) returns (options: seq<SelectOption>)
    ensures options == [CityPlaceholder] + CityOptions(cities)
  {
    options := [CityPlaceholder];
    var i := 0;
    while i < |cities|
      invariant 0 <= i <= |cities|
      invariant options == [CityPlaceholder] + CityOptions(cities)[..i]
    {
      assert CityOptions(cities)[..i + 1] == CityOptions(cities)[..i] + [CityOption(cities[i])];
      options := options + [CityOption(cities[i])];
      i := i + 1;
    }
    assert CityOptions(cities)[..i] == CityOptions(cities);
  }
}
