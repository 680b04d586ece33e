/**
 * The form as a snapshot of its field values, the twelve validators run in
 * their fixed order, the aggregate verdict that drives the submit button,
 * and the list of failing fields an invalid submit reports.
 */
module Aggregate {
  import opened Wrappers
  import opened Text
  import opened Validators

  /** Every value the validators read; `gender` is the checked radio button's value, if any. */
  datatype Snapshot = Snapshot(
    firstName: string, lastName: string, email: string, phone: string, age: string,
    gender: Option<string>, address: string, country: string, state: string, city: string,
    password: string, confirmPassword: string, terms: bool)

  /** The form after `form.reset()`, taking every control's default to be empty or unchecked. */
  const EmptySnapshot: Snapshot := Snapshot("", "", "", "", "", None, "", "", "", "", "", "", false)

  /** The validated fields; the address has no validator. */
  datatype Field =
    | FirstName | LastName | Email | Phone | Age | Gender
    | Country | State | City | Password | ConfirmPassword | Terms

  /** The order in which the aggregate runs the validators. */
  const ValidationOrder: seq<Field> :=
    [FirstName, LastName, Email, Phone, Age, Gender, Country, State, City, Password, ConfirmPassword, Terms]

  /** A field's position in `ValidationOrder`. */
  function Rank(f: Field): (n: nat)
    ensures n < |ValidationOrder| && ValidationOrder[n] == f
  {
    match f
    case FirstName => 0 case LastName => 1 case Email => 2 case Phone => 3
    case Age => 4 case Gender => 5 case Country => 6 case State => 7
    case City => 8 case Password => 9 case ConfirmPassword => 10 case Terms => 11
  }

  /** The name an invalid submit's summary uses for a field. */
  function DisplayName(f: Field): string {
    match f
    case FirstName => "First Name" case LastName => "Last Name" case Email => "Email"
    case Phone => "Phone Number" case Age => "Age" case Gender => "Gender"
    case Country => "Country" case State => "State" case City => "City"
    case Password => "Password" case ConfirmPassword => "Confirm Password"
    case Terms => "Terms & Conditions"
  }

  /** The validator of one field, fed with the snapshot's values it reads. */
  function Check(f: Field, s: Snapshot): Outcome {
    match f
    case FirstName => ValidateFirstName(s.firstName)
    case LastName => ValidateLastName(s.lastName)
    case Email => ValidateEmail(s.email)
    case Phone => ValidatePhone(s.phone, s.country)
    case Age => ValidateAge(s.age)
    case Gender => ValidateGender(s.gender)
    case Country => ValidateSelection("Country", s.country)
    case State => ValidateSelection("State", s.state)
    case City => ValidateSelection("City", s.city)
    case Password => ValidatePassword(s.password)
    case ConfirmPassword => ValidateConfirmPassword(s.confirmPassword, s.password)
    case Terms => ValidateTerms(s.terms)
  }

  /** `validations.every(v => v === true)` over the fields of `order`. */
  function Every(order: seq<Field>, s: Snapshot): bool {
    order == [] || (Check(order[0], s).Valid? && Every(order[1..], s))
  }

  /** The conjunction holds exactly when every field of `order` passes. */
  lemma {:induction false} EveryMeansAllPass(order: seq<Field>, s: Snapshot)
    ensures Every(order, s) <==> forall i | 0 <= i < |order| :: Check(order[i], s).Valid?
  {
    if order != [] {
      EveryMeansAllPass(order[1..], s);
      assert forall i | 1 <= i < |order| :: order[i] == order[1..][i - 1];
    }
  }

  /** The aggregate's meaning: every one of the twelve validators passes. */
  ghost predicate AllValid(s: Snapshot) {
    forall f: Field :: Check(f, s).Valid?
  }

  /** `validateAllFields`: the twelve validators in their fixed order, all passing. */
  function ValidateAllFields(s: Snapshot): (b: bool)
    ensures b <==> AllValid(s)
  {
    EveryFieldChecked(s);
    Every(ValidationOrder, s)
  }

  /** Running the twelve validators in order decides exactly the aggregate. */
  lemma EveryFieldChecked(s: Snapshot)
    ensures Every(ValidationOrder, s) <==> AllValid(s)
  {
    EveryMeansAllPass(ValidationOrder, s);
    if Every(ValidationOrder, s) {
      forall f: Field ensures Check(f, s).Valid? {
        assert ValidationOrder[Rank(f)] == f;
      }
    }
  }

  /** `ValidationOrder` lists the fields by increasing rank. */
  lemma ValidationOrderRanks()
    ensures RanksIncrease(ValidationOrder)
  {
    assert forall i | 0 <= i < |ValidationOrder| :: Rank(ValidationOrder[i]) == i;
  }

  /** The failing fields of `order`, in that order. */
  function Failing(order: seq<Field>, s: Snapshot): seq<Field> {
    if order == [] then []
    else (if Check(order[0], s).Invalid? then [order[0]] else []) + Failing(order[1..], s)
  }

  /** A field is listed exactly when it belongs to `order` and fails. */
  lemma {:induction false} FailingMembers(order: seq<Field>, s: Snapshot, f: Field)
    ensures f in Failing(order, s) <==> f in order && Check(f, s).Invalid?
  {
    if order != [] {
      FailingMembers(order[1..], s, f);
      assert order == [order[0]] + order[1..];
    }
  }

  /** No field of `order` fails exactly when every field of it passes. */
  lemma {:induction false} FailingEmptyIffEvery(order: seq<Field>, s: Snapshot)
    ensures Failing(order, s) == [] <==> Every(order, s)
  {
    if order != [] {
      FailingEmptyIffEvery(order[1..], s);
    }
  }

  predicate RanksIncrease(fs: seq<Field>) {
    forall i, j | 0 <= i < j < |fs| :: Rank(fs[i]) < Rank(fs[j])
  }

  /** Filtering keeps the order: from fields in validation order come failing fields in validation order. */
  lemma {:induction false} FailingKeepsOrder(order: seq<Field>, s: Snapshot)
    requires RanksIncrease(order)
    ensures RanksIncrease(Failing(order, s))
  {
    if order != [] {
      FailingKeepsOrder(order[1..], s);
      var rest := Failing(order[1..], s);
      forall k | 0 <= k < |rest| ensures Rank(order[0]) < Rank(rest[k]) {
        FailingMembers(order[1..], s, rest[k]);
        var m :| 0 <= m < |order[1..]| && order[1..][m] == rest[k];
        assert order[1 + m] == rest[k];
      }
    }
  }

  /** Changing the address never changes the aggregate. */
  lemma AddressIsNotValidated(s: Snapshot, a: string)
    ensures AllValid(s.(address := a)) == AllValid(s)
  {
    forall f: Field ensures Check(f, s.(address := a)) == Check(f, s) {}
  }

  /** The aggregate is the conjunction of the twelve verdicts. */
  lemma AllValidFieldByField(s: Snapshot)
    ensures AllValid(s) <==>
      && Check(FirstName, s).Valid? && Check(LastName, s).Valid? && Check(Email, s).Valid?
      && Check(Phone, s).Valid? && Check(Age, s).Valid? && Check(Gender, s).Valid?
      && Check(Country, s).Valid? && Check(State, s).Valid? && Check(City, s).Valid?
      && Check(Password, s).Valid? && Check(ConfirmPassword, s).Valid? && Check(Terms, s).Valid?
  {
    if Check(FirstName, s).Valid? && Check(LastName, s).Valid? && Check(Email, s).Valid?
      && Check(Phone, s).Valid? && Check(Age, s).Valid? && Check(Gender, s).Valid?
      && Check(Country, s).Valid? && Check(State, s).Valid? && Check(City, s).Valid?
      && Check(Password, s).Valid? && Check(ConfirmPassword, s).Valid? && Check(Terms, s).Valid?
    {
      forall f: Field ensures Check(f, s).Valid? {
        match f
        case FirstName => case LastName => case Email => case Phone => case Age => case Gender =>
        case Country => case State => case City => case Password => case ConfirmPassword => case Terms =>
      }
    }
  }

  /** `"Please fix the following fields: " + names.join(', ')`. */
  function SummaryMessage(fields: seq<Field>): (m: string)
    ensures StartsWith(m, "Please fix the following fields: ")
  {
    var prefix := "Please fix the following fields: ";
    var m := prefix + Join(DisplayNames(fields), ", ");
    assert m[..|prefix|] == prefix;
    m
  }

  /** With no failing field the message is the bare prefix; with one it is the prefix and that field's name. */
  lemma SummaryOfFew(f: Field)
    ensures SummaryMessage([]) == "Please fix the following fields: "
    ensures SummaryMessage([f]) == "Please fix the following fields: " + DisplayName(f)
  {
    assert DisplayNames([]) == [];
    assert DisplayNames([f]) == [DisplayName(f)];
  }

  /** Each further failing field adds `", "` and its display name at the end of the message. */
  lemma SummaryAppend(fields: seq<Field>, f: Field)
    requires fields != []
    ensures SummaryMessage(fields + [f]) == SummaryMessage(fields) + ", " + DisplayName(f)
  {
    assert DisplayNames(fields + [f]) == DisplayNames(fields) + [DisplayName(f)];
    JoinSnoc(DisplayNames(fields), DisplayName(f), ", ");
  }

  function DisplayNames(fields: seq<Field>): (names: seq<string>)
    ensures |names| == |fields| && forall i | 0 <= i < |fields| :: names[i] == DisplayName(fields[i])
  {
    seq(|fields|, i requires 0 <= i < |fields| => DisplayName(fields[i]))
  }

  // ---------------------------------------------------------------------------
  // The invalid-submit summary as written: the eleven checks leave out Age.
  // ---------------------------------------------------------------------------

  const SummaryOrderAsWritten: seq<Field> :=
    [FirstName, LastName, Email, Phone, Gender, Country, State, City, Password, ConfirmPassword, Terms]

  /** The fields the source's summary lists. */
  function SummaryFieldsAsWritten(s: Snapshot): seq<Field> {
    Failing(SummaryOrderAsWritten, s)
  }

  /** The source's summary names every failing field except Age, and never Age. */
  lemma AsWrittenNamesFailures(s: Snapshot, f: Field)
    ensures f in SummaryFieldsAsWritten(s) <==> f != Age && Check(f, s).Invalid?
  {
    FailingMembers(SummaryOrderAsWritten, s, f);
    AsWrittenOrderMembers(f);
  }

  /** The source's summary lists its fields in validation order. */
  lemma SummaryFieldsAsWrittenInOrder(s: Snapshot)
    ensures RanksIncrease(SummaryFieldsAsWritten(s))
  {
    AsWrittenOrderRanks();
    FailingKeepsOrder(SummaryOrderAsWritten, s);
  }

  lemma AsWrittenOrderRanks()
    ensures RanksIncrease(SummaryOrderAsWritten)
  {
    assert forall i | 0 <= i < |SummaryOrderAsWritten| :: Rank(SummaryOrderAsWritten[i]) == if i < 4 then i else i + 1;
  }

  /** The eleven fields of the source's summary are all the fields but Age. */
  lemma AsWrittenOrderMembers(f: Field)
    ensures f in SummaryOrderAsWritten <==> f != Age
  {
    if f != Age {
      assert SummaryOrderAsWritten[if Rank(f) < 4 then Rank(f) else Rank(f) - 1] == f;
    }
  }

  /**
   * The discrepancy: when the age is the only invalid field, the form is
   * not valid, yet the source's summary names no field at all.
   */
  lemma AgeOnlyFailureHasEmptySummary(s: Snapshot)
    requires Check(Age, s).Invalid? && forall f | f != Age :: Check(f, s).Valid?
    ensures !AllValid(s) && SummaryFieldsAsWritten(s) == []
  {
    if SummaryFieldsAsWritten(s) != [] {
      AsWrittenNamesFailures(s, SummaryFieldsAsWritten(s)[0]);
    }
  }

  // ---------------------------------------------------------------------------
  // The corrected summary: every failing field, Age included, in validation order.
  // ---------------------------------------------------------------------------

  function SummaryFields(s: Snapshot): seq<Field> {
    Failing(ValidationOrder, s)
  }

  /** The summary names exactly the failing fields. */
  lemma SummaryNamesFailures(s: Snapshot, f: Field)
    ensures f in SummaryFields(s) <==> Check(f, s).Invalid?
  {
    FailingMembers(ValidationOrder, s, f);
    assert ValidationOrder[Rank(f)] == f;
  }

  /** The summary lists the failing fields in validation order. */
  lemma SummaryFieldsInOrder(s: Snapshot)
    ensures RanksIncrease(SummaryFields(s))
  {
    ValidationOrderRanks();
    FailingKeepsOrder(ValidationOrder, s);
  }

  /** The summary names no field exactly when the form is valid. */
  lemma SummaryEmptyIffValid(s: Snapshot)
    ensures SummaryFields(s) == [] <==> AllValid(s)
  {
    FailingEmptyIffEvery(ValidationOrder, s);
    EveryFieldChecked(s);
  }

  /** Off Age, the corrected summary names a field exactly when the source's one does. */
  lemma SummaryAgreesOffAge(s: Snapshot, f: Field)
    requires f != Age
    ensures f in SummaryFields(s) <==> f in SummaryFieldsAsWritten(s)
  {
    SummaryNamesFailures(s, f);
    AsWrittenNamesFailures(s, f);
  }

  /** The corrected summary agrees with the source's one on every field except Age, and adds Age when it fails. */
  lemma SummaryFieldsExtendAsWritten(s: Snapshot)
    ensures forall f | f != Age :: f in SummaryFields(s) <==> f in SummaryFieldsAsWritten(s)
    ensures Age in SummaryFields(s) <==> Check(Age, s).Invalid?
  {
    forall f | f != Age ensures f in SummaryFields(s) <==> f in SummaryFieldsAsWritten(s) {
      SummaryAgreesOffAge(s, f);
    }
    SummaryNamesFailures(s, Age);
  }
}
