/**
 * The country -> state -> city cascade: which options the state and city
 * selects offer for the current country and state (`updateStates`,
 * `updateCities`), each list in the hierarchy's declaration order. The
 * hierarchy is a parameter; the page uses `LocationData`.
 */
module Cascade {
  import opened Wrappers
  import opened Text
  import opened Tables

  /** One `<option>` of a select: the value it submits and the text it shows. */
  datatype SelectOption = SelectOption(value: string, text: string)

  /** The blank first option each dependent select is rebuilt from. */
  const StatePlaceholder := SelectOption("", "Select State")
  const CityPlaceholder := SelectOption("", "Select City")

  /** True when one of `opts` submits `v`, i.e. the select can hold the value `v`. */
  predicate Offers(opts: seq<SelectOption>, v: string) {
    exists i | 0 <= i < |opts| :: opts[i].value == v
  }

  /** The states of `country` when `country && data[country]` holds, otherwise none. */
  function KnownStates(data: seq<Country>, country: string): (rs: seq<Region>)
    requires HierarchyWellFormed(data)
    ensures forall r | r in rs :: |r.cities| >= 1
  {
    if country != "" && FindCountryIn(data, country).Some? then
      var c := FindCountryIn(data, country).value;
      assert CountryWellFormed(c);
      c.states
    else []
  }

  /** A state's option: its key, labelled with its FIRST CITY title-cased word by word. */
  function StateOption(r: Region): SelectOption
    requires |r.cities| >= 1
  {
    SelectOption(r.key, TitleCase(r.cities[0]))
  }

  /** One option per region, in order. */
  function StateOptions(rs: seq<Region>): (opts: seq<SelectOption>)
    requires forall r | r in rs :: |r.cities| >= 1
    ensures |opts| == |rs| && forall i | 0 <= i < |rs| :: opts[i] == StateOption(rs[i])
  {
    seq(|rs|, i requires 0 <= i < |rs| => StateOption(rs[i]))
  }

  /**
   * The state options `updateStates` appends after the placeholder. Their
   * content is stated by `StatesOfferedIffListed`, `StateOptionsAreKeys` and
   * `StateLabelIsTitledFirstCity`.
   */
  function StatesFor(data: seq<Country>, country: string): (opts: seq<SelectOption>)
    requires HierarchyWellFormed(data)
    ensures |opts| == |KnownStates(data, country)|
  {
    StateOptions(KnownStates(data, country))
  }

  /** The cities of `state` in `country` when `country && state && data[country]?.states[state]`. */
  function KnownCities(data: seq<Country>, country: string, state: string): seq<string> {
    if country != "" && state != "" && FindCountryIn(data, country).Some?
       && FindRegion(FindCountryIn(data, country).value.states, state).Some?
    then FindRegion(FindCountryIn(data, country).value.states, state).value.cities
    else []
  }

  /** A city's option value: `city.toLowerCase().replace(/\s/g, '')`. */
  function CityKey(city: string): (k: string)
    ensures NoWhitespace(k) && IsLowerCase(k)
  {
    LowerIsLowerCase(city);
    RemoveWhitespaceSpec(Lower(city));
    RemoveWhitespaceKeepsLowerCase(Lower(city));
    RemoveWhitespace(Lower(city))
  }

  /** `Saint-Étienne` is keyed `saint-étienne`: the accented capital is lowered, the hyphen kept. */
  lemma AccentedCityKey(city: string, key: string)
    requires city == "Saint-\U{00C9}tienne" && key == "saint-\U{00E9}tienne"
    ensures CityKey(city) == key
  {
    var w1, w2 := "aint-", "tienne";
    AccentedPieces(city, key, w1, w2);
    LowerAppend(['S'] + w1, ['\U{00C9}'] + w2);
    LowerCapitalised('S', w1);
    LowerCapitalised('\U{00C9}', w2);
    RemoveWhitespaceSpec(key);
  }

  lemma AccentedPieces(city: string, key: string, w1: string, w2: string)
    requires city == "Saint-\U{00C9}tienne" && key == "saint-\U{00E9}tienne" && w1 == "aint-" && w2 == "tienne"
    ensures city == (['S'] + w1) + (['\U{00C9}'] + w2)
    ensures key == (LowerChar('S') + w1) + (LowerChar('\U{00C9}') + w2)
    ensures IsLowerCase(w1) && IsLowerCase(w2) && NoWhitespace(key)
  {}

  /** `Los Angeles` is keyed `losangeles`: lowered, and the space dropped. */
  lemma SpacedCityKey(city: string, key: string)
    requires city == "Los Angeles" && key == "losangeles"
    ensures CityKey(city) == key
  {
    var w1, w2 := "os", "ngeles";
    SpacedPieces(city, key, w1, w2);
    TwoWordKey('L', w1, 'A', w2);
  }

  /** Two capitalised words joined by a space are keyed as the two lowered words run together. */
  lemma TwoWordKey(c1: char, w1: string, c2: char, w2: string)
    requires IsLowerCase(w1) && IsLowerCase(w2)
    requires NoWhitespace(LowerChar(c1) + w1) && NoWhitespace(LowerChar(c2) + w2)
    ensures CityKey([c1] + w1 + [' '] + ([c2] + w2)) == (LowerChar(c1) + w1) + (LowerChar(c2) + w2)
  {
    LowerTwoWords(c1, w1, c2, w2);
    RemoveSpaceBetween(LowerChar(c1) + w1, LowerChar(c2) + w2);
  }

  lemma LowerTwoWords(c1: char, w1: string, c2: char, w2: string)
    requires IsLowerCase(w1) && IsLowerCase(w2)
    ensures Lower([c1] + w1 + [' '] + ([c2] + w2)) == (LowerChar(c1) + w1) + [' '] + (LowerChar(c2) + w2)
  {
    LowerAppend([c1] + w1 + [' '], [c2] + w2);
    LowerAppend([c1] + w1, [' ']);
    LowerCapitalised(c1, w1);
    LowerCapitalised(c2, w2);
    assert Lower([' ']) == [' '];
  }

  lemma RemoveSpaceBetween(u1: string, u2: string)
    requires NoWhitespace(u1) && NoWhitespace(u2)
    ensures RemoveWhitespace(u1 + [' '] + u2) == u1 + u2
  {
    RemoveWhitespaceAppend(u1 + [' '], u2);
    RemoveWhitespaceAppend(u1, [' ']);
    assert RemoveWhitespace([' ']) == [];
    RemoveWhitespaceSpec(u1);
    RemoveWhitespaceSpec(u2);
  }

  lemma SpacedPieces(city: string, key: string, w1: string, w2: string)
    requires city == "Los Angeles" && key == "losangeles" && w1 == "os" && w2 == "ngeles"
    ensures city == ['L'] + w1 + [' '] + (['A'] + w2)
    ensures key == (LowerChar('L') + w1) + (LowerChar('A') + w2)
    ensures IsLowerCase(w1) && IsLowerCase(w2)
    ensures NoWhitespace(LowerChar('L') + w1) && NoWhitespace(LowerChar('A') + w2)
  {}

  /** A city's option: its key and its name unchanged. */
  function CityOption(city: string): SelectOption {
    SelectOption(CityKey(city), city)
  }

  /** One option per city, in order. */
  function CityOptions(cs: seq<string>): (opts: seq<SelectOption>)
    ensures |opts| == |cs| && forall i | 0 <= i < |cs| :: opts[i] == CityOption(cs[i])
  {
    seq(|cs|, i requires 0 <= i < |cs| => CityOption(cs[i]))
  }

  /**
   * The city options `updateCities` appends after the placeholder. Their
   * content is stated by `CitiesOfferedIffStateOffered` and `CityOptionsShape`.
   */
  function CitiesFor(data: seq<Country>, country: string, state: string): (opts: seq<SelectOption>)
    ensures |opts| == |KnownCities(data, country, state)|
  {
    CityOptions(KnownCities(data, country, state))
  }

  // ---------------------------------------------------------------------------
  // Properties of the cascade over any well-formed hierarchy.
  // ---------------------------------------------------------------------------

  /** A country offers states exactly when it is a non-empty key of the hierarchy. */
  lemma StatesOfferedIffListed(data: seq<Country>, country: string)
    requires HierarchyWellFormed(data)
    ensures StatesFor(data, country) != [] <==> country != "" && FindCountryIn(data, country).Some?
  {
    if country != "" && FindCountryIn(data, country).Some? {
      assert CountryWellFormed(FindCountryIn(data, country).value);
    }
  }

  /** The state options are the country's state keys, in declaration order and without repeats. */
  lemma StateOptionsAreKeys(data: seq<Country>, country: string, i: nat)
    requires HierarchyWellFormed(data) && i < |StatesFor(data, country)|
    ensures StatesFor(data, country)[i].value == KnownStates(data, country)[i].key
    ensures IsCanonicalKey(StatesFor(data, country)[i].value)
    ensures forall j | i < j < |StatesFor(data, country)| :: StatesFor(data, country)[j].value != StatesFor(data, country)[i].value
  {
    assert CountryWellFormed(FindCountryIn(data, country).value);
  }

  /**
   * A state's label is its first city title-cased, not the state's name:
   * same length, and a code point is upper-cased exactly when it starts a word.
   */
  lemma StateLabelIsTitledFirstCity(data: seq<Country>, country: string, i: nat, k: nat)
    requires HierarchyWellFormed(data) && i < |StatesFor(data, country)|
    requires k < |KnownStates(data, country)[i].cities[0]|
    ensures var city := KnownStates(data, country)[i].cities[0];
      && |StatesFor(data, country)[i].text| == |city|
      && StatesFor(data, country)[i].text[k] == if k == 0 || city[k - 1] == ' ' then UpperChar(city[k]) else city[k]
  {
    TitleCaseAt(KnownStates(data, country)[i].cities[0], k);
  }

  /**
   * The city list is non-empty exactly when the chosen state is one of the
   * states offered for the chosen country.
   */
  lemma CitiesOfferedIffStateOffered(data: seq<Country>, country: string, state: string)
    requires HierarchyWellFormed(data)
    ensures CitiesFor(data, country, state) != [] <==> state != "" && Offers(StatesFor(data, country), state)
  {
    var rs := KnownStates(data, country);
    if CitiesFor(data, country, state) != [] {
      var r := FindRegion(FindCountryIn(data, country).value.states, state).value;
      assert rs == FindCountryIn(data, country).value.states;
      var i :| 0 <= i < |rs| && rs[i] == r;
      assert StatesFor(data, country)[i].value == state;
    }
    if state != "" && Offers(StatesFor(data, country), state) {
      var i :| 0 <= i < |StatesFor(data, country)| && StatesFor(data, country)[i].value == state;
      assert rs[i].key == state;
      var c := FindCountryIn(data, country).value;
      assert CountryWellFormed(c);
      assert FindRegion(rs, state).Some?;
    }
  }

  /** The city labels are the state's cities in order, and every key is lower case without whitespace. */
  lemma CityOptionsShape(data: seq<Country>, country: string, state: string, i: nat)
    requires i < |CitiesFor(data, country, state)|
    ensures CitiesFor(data, country, state)[i].text == KnownCities(data, country, state)[i]
    ensures NoWhitespace(CitiesFor(data, country, state)[i].value) && IsLowerCase(CitiesFor(data, country, state)[i].value)
  {}

  /** Without a selected state there is no city to choose from. */
  lemma NoStateNoCities(data: seq<Country>, country: string)
    ensures CitiesFor(data, country, "") == []
  {}

  // ---------------------------------------------------------------------------
  // The page's hierarchy.
  // ---------------------------------------------------------------------------

  /** Of the page's hierarchy, a country offers states exactly when it is one of the seven known countries. */
  lemma StatesOfferedIffKnown(country: string)
    ensures HierarchyWellFormed(LocationData)
    ensures StatesFor(LocationData, country) != [] <==> country in CountryKeys
  {
    LocationDataWellFormed();
    KnownCountry(country);
    StatesOfferedIffListed(LocationData, country);
  }

  /** An empty or unknown country offers no states. */
  lemma UnknownCountryNoStates(country: string)
    requires country !in CountryKeys
    ensures HierarchyWellFormed(LocationData) && StatesFor(LocationData, country) == []
  {
    StatesOfferedIffKnown(country);
  }

  /** usa offers california, newyork and texas, labelled with Los Angeles, New York City and Houston. */
  lemma UsaStates()
    ensures HierarchyWellFormed(LocationData)
    ensures |StatesFor(LocationData, "usa")| == 3
    ensures StatesFor(LocationData, "usa")[0].value == "california" && StatesFor(LocationData, "usa")[0].text == TitleCase("Los Angeles")
    ensures StatesFor(LocationData, "usa")[1].value == "newyork" && StatesFor(LocationData, "usa")[1].text == TitleCase("New York City")
    ensures StatesFor(LocationData, "usa")[2].value == "texas" && StatesFor(LocationData, "usa")[2].text == TitleCase("Houston")
  {
    LocationDataWellFormed();
    KnownCountry("usa");
    assert KnownStates(LocationData, "usa") == Usa.states;
  }

  /** usa/california offers Los Angeles, San Francisco and San Diego, in that order. */
  lemma CaliforniaCities()
    ensures KnownCities(LocationData, "usa", "california") == ["Los Angeles", "San Francisco", "San Diego"]
    ensures |CitiesFor(LocationData, "usa", "california")| == 3
    ensures CitiesFor(LocationData, "usa", "california")[0].text == "Los Angeles"
    ensures CitiesFor(LocationData, "usa", "california")[1].text == "San Francisco"
    ensures CitiesFor(LocationData, "usa", "california")[2].text == "San Diego"
  {
    KnownCountry("usa");
  }
}
