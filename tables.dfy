/**
 * The form's constant reference data: the disposable e-mail domains, the
 * dial code of each country, and the country -> state -> city hierarchy in
 * declaration order (the order `Object.entries` yields for these keys).
 */
module Tables {
  import opened Wrappers
  import opened Text

  const DisposableDomains: seq<string> := [
    "tempmail.com", "10minutemail.com", "guerrillamail.com", "mailinator.com",
    "throwaway.email", "temp-mail.org", "getnada.com", "mohmal.com",
    "fakeinbox.com", "yopmail.com", "sharklasers.com", "trashmail.com"
  ]

  const CountryCodes: map<string, string> := map[
    "usa" := "+1",
    "uk" := "+44",
    "canada" := "+1",
    "india" := "+91",
    "australia" := "+61",
    "germany" := "+49",
    "france" := "+33"
  ]

  /** A state of a country: its key and its cities in declaration order. */
  datatype Region = Region(key: string, cities: seq<string>)

  /** A country of the hierarchy: its key and its states in declaration order. */
  datatype Country = Country(key: string, states: seq<Region>)

  const Usa := Country("usa", [
    Region("california", ["Los Angeles", "San Francisco", "San Diego"]),
    Region("newyork", ["New York City", "Buffalo", "Rochester"]),
    Region("texas", ["Houston", "Dallas", "Austin"])])

  const Uk := Country("uk", [
    Region("england", ["London", "Manchester", "Birmingham"]),
    Region("scotland", ["Edinburgh", "Glasgow", "Aberdeen"]),
    Region("wales", ["Cardiff", "Swansea", "Newport"])])

  const Canada := Country("canada", [
    Region("ontario", ["Toronto", "Ottawa", "Hamilton"]),
    Region("quebec", ["Montreal", "Quebec City", "Laval"]),
    Region("britishcolumbia", ["Vancouver", "Victoria", "Surrey"])])

  const India := Country("india", [
    Region("maharashtra", ["Mumbai", "Pune", "Nagpur"]),
    Region("karnataka", ["Bangalore", "Mysore", "Hubli"]),
    Region("delhi", ["New Delhi", "Delhi", "Noida"])])

  const Australia := Country("australia", [
    Region("newsouthwales", ["Sydney", "Newcastle", "Wollongong"]),
    Region("victoria", ["Melbourne", "Geelong", "Ballarat"]),
    Region("queensland", ["Brisbane", "Gold Coast", "Cairns"])])

  const Germany := Country("germany", [
    Region("bavaria", ["Munich", "Nuremberg", "Augsburg"]),
    Region("berlin", ["Berlin"]),
    Region("northrhine", ["Cologne", "D\U{00FC}sseldorf", "Dortmund"])])

  const France := Country("france", [
    Region("iledefrance", ["Paris", "Versailles", "Boulogne-Billancourt"]),
    Region("provence", ["Marseille", "Nice", "Toulon"]),
    Region("rhone", ["Lyon", "Grenoble", "Saint-\U{00C9}tienne"])])

  /** `LOCATION_DATA`: the countries in declaration order. */
  const LocationData: seq<Country> := [Usa, Uk, Canada, India, Australia, Germany, France]

  /** The first country with key `key` (`LOCATION_DATA[key]`). */
  function FindCountry(key: string): (r: Option<Country>)
    ensures r.Some? ==> r.value in LocationData && r.value.key == key
    ensures r.None? <==> forall i | 0 <= i < |LocationData| :: LocationData[i].key != key
  {
    FindCountryIn(LocationData, key)
  }

  function FindCountryIn(cs: seq<Country>, key: string): (r: Option<Country>)
    ensures r.Some? ==> r.value in cs && r.value.key == key
    ensures r.None? <==> forall i | 0 <= i < |cs| :: cs[i].key != key
  {
    if cs == [] then None
    else if cs[0].key == key then Some(cs[0])
    else FindCountryIn(cs[1..], key)
  }

  /** The first state with key `key` among `rs` (`states[key]`). */
  function FindRegion(rs: seq<Region>, key: string): (r: Option<Region>)
    ensures r.Some? ==> r.value in rs && r.value.key == key
    ensures r.None? <==> forall i | 0 <= i < |rs| :: rs[i].key != key
  {
    if rs == [] then None
    else if rs[0].key == key then Some(rs[0])
    else FindRegion(rs[1..], key)
  }

  /** A state key is canonical: lower case, without whitespace. */
  predicate IsCanonicalKey(k: string) {
    NoWhitespace(k) && IsLowerCase(k)
  }

  /**
   * What the hierarchy guarantees about each country: it has at least one
   * state, every state lists at least one city, state keys are canonical,
   * and no two states share a key.
   */
  predicate CountryWellFormed(c: Country) {
    && |c.states| >= 1
    && (forall j | 0 <= j < |c.states| :: |c.states[j].cities| >= 1 && IsCanonicalKey(c.states[j].key))
    && (forall j, k | 0 <= j < k < |c.states| :: c.states[j].key != c.states[k].key)
  }

  /** Every country of a hierarchy is well formed. */
  predicate HierarchyWellFormed(data: seq<Country>) {
    forall c | c in data :: CountryWellFormed(c)
  }

  /** A key made of ASCII lower-case letters only. */
  predicate IsLetterKey(k: string) {
    forall i | 0 <= i < |k| :: 'a' <= k[i] <= 'z'
  }

  /** The concrete shape checked country by country: letter keys, non-empty lists, distinct keys. */
  predicate HasCheckedShape(c: Country) {
    && |c.states| >= 1
    && (forall j | 0 <= j < |c.states| :: |c.states[j].cities| >= 1 && IsLetterKey(c.states[j].key))
    && (forall j, k | 0 <= j < k < |c.states| :: c.states[j].key != c.states[k].key)
  }

  lemma CheckedShapeIsWellFormed(c: Country)
    requires HasCheckedShape(c)
    ensures CountryWellFormed(c)
  {
    forall j | 0 <= j < |c.states| ensures IsCanonicalKey(c.states[j].key) {
      var k := c.states[j].key;
      assert IsLetterKey(k);
    }
  }

  lemma UsaWellFormed() ensures CountryWellFormed(Usa) {
    assert IsLetterKey(Usa.states[0].key) && IsLetterKey(Usa.states[1].key) && IsLetterKey(Usa.states[2].key);
    CheckedShapeIsWellFormed(Usa);
  }

  lemma UkWellFormed() ensures CountryWellFormed(Uk) {
    assert IsLetterKey(Uk.states[0].key) && IsLetterKey(Uk.states[1].key) && IsLetterKey(Uk.states[2].key);
    CheckedShapeIsWellFormed(Uk);
  }

  lemma CanadaWellFormed() ensures CountryWellFormed(Canada) {
    assert IsLetterKey(Canada.states[0].key) && IsLetterKey(Canada.states[1].key) && IsLetterKey(Canada.states[2].key);
    CheckedShapeIsWellFormed(Canada);
  }

  lemma IndiaWellFormed() ensures CountryWellFormed(India) {
    assert IsLetterKey(India.states[0].key) && IsLetterKey(India.states[1].key) && IsLetterKey(India.states[2].key);
    CheckedShapeIsWellFormed(India);
  }

  lemma AustraliaWellFormed() ensures CountryWellFormed(Australia) {
    assert IsLetterKey(Australia.states[0].key) && IsLetterKey(Australia.states[1].key) && IsLetterKey(Australia.states[2].key);
    CheckedShapeIsWellFormed(Australia);
  }

  lemma GermanyWellFormed() ensures CountryWellFormed(Germany) {
    assert IsLetterKey(Germany.states[0].key) && IsLetterKey(Germany.states[1].key) && IsLetterKey(Germany.states[2].key);
    CheckedShapeIsWellFormed(Germany);
  }

  lemma FranceWellFormed() ensures CountryWellFormed(France) {
    assert IsLetterKey(France.states[0].key) && IsLetterKey(France.states[1].key) && IsLetterKey(France.states[2].key);
    CheckedShapeIsWellFormed(France);
  }

  /** The hierarchy is well formed: country keys are unique and every country is well formed. */
  lemma LocationDataWellFormed()
    ensures forall i, j | 0 <= i < j < |LocationData| :: LocationData[i].key != LocationData[j].key
    ensures HierarchyWellFormed(LocationData)
  {
    UsaWellFormed(); UkWellFormed(); CanadaWellFormed(); IndiaWellFormed();
    AustraliaWellFormed(); GermanyWellFormed(); FranceWellFormed();
  }

  lemma LocationCitiesNonEmpty(c: Country, r: Region)
    requires c in LocationData && r in c.states
    ensures |r.cities| >= 1
  {
    LocationDataWellFormed();
    assert CountryWellFormed(c);
  }

  /** A dial code is `+` followed by one or more digits. */
  predicate IsDialCode(code: string) {
    |code| >= 2 && code[0] == '+' && AllDigits(code[1..])
  }

  const CountryKeys: set<string> := {"usa", "uk", "canada", "india", "australia", "germany", "france"}

  /** The dial-code table and the hierarchy name the same seven countries, and every code is well formed. */
  lemma TablesAgree()
    ensures forall c :: c in CountryCodes <==> FindCountry(c).Some?
    ensures forall c | c in CountryCodes :: IsDialCode(CountryCodes[c])
    ensures CountryCodes.Keys == CountryKeys && |LocationData| == 7
  {
    KnownCountries();
    DialCodeKeys();
    DialCodesWellFormed();
  }

  lemma DialCodeKeys()
    ensures CountryCodes.Keys == CountryKeys
  {}

  lemma DialCodesWellFormed()
    ensures forall c | c in CountryCodes :: IsDialCode(CountryCodes[c])
  {
    assert IsDialCode("+1") && IsDialCode("+44") && IsDialCode("+91") && IsDialCode("+61");
    assert IsDialCode("+49") && IsDialCode("+33");
  }

  /** A key names a country of the hierarchy exactly when it is one of the seven country keys. */
  lemma KnownCountry(c: string)
    ensures FindCountry(c).Some? <==> c in CountryKeys
  {
    var keys := seq(|LocationData|, i requires 0 <= i < |LocationData| => LocationData[i].key);
    assert keys == ["usa", "uk", "canada", "india", "australia", "germany", "france"];
    if c in CountryKeys {
      assert c in keys;
      var i :| 0 <= i < |keys| && keys[i] == c;
      assert LocationData[i].key == c;
    } else {
      assert forall i | 0 <= i < |LocationData| :: keys[i] != c;
    }
  }

  lemma KnownCountries()
    ensures forall c :: FindCountry(c).Some? <==> c in CountryKeys
  {
    forall c ensures FindCountry(c).Some? <==> c in CountryKeys {
      KnownCountry(c);
    }
  }
}
