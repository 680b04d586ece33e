# Registration form: validation and derived state

This project models the engine of a client-side registration form
(`script.js`) and proves properties of it. The engine covers:

- the twelve field validators, with their exact messages;
- the password-strength score and its tier;
- the country, state and city cascade of the two dependent selects;
- the aggregate verdict that enables or disables the submit button;
- the submit handler, its summary of failing fields and its delayed reset.

The form's controls are read as one `Snapshot` record. That record holds the
names, e-mail, phone, age, address, country, state, city, password,
confirmation, the checked gender (if any) and the terms box.

Modules:

- `Wrappers`: `Option`.
- `Text`: the JavaScript string operations the form relies on, stated over
  sequences of code points. These are `trim()`, `\s`, `startsWith`,
  `indexOf`, `includes`, first-occurrence `replace`, `split`/`join`,
  `toLowerCase`/`toUpperCase`, and the word-by-word title case of a state's
  label.
- `JsNumber`: `parseInt` without a radix. It skips leading whitespace, reads an
  optional sign, switches to hexadecimal after `0x`, reads the longest digit
  prefix, and gives `NaN` (here `None`) when there is no digit.
- `Tables`: the disposable-domain list, the dial-code map and the location
  hierarchy, in declaration order, with their well-formedness lemmas.
- `Validators`: one function per validator. The e-mail regular expression is
  a hand-written test, proved equivalent to a direct reading of the pattern.
- `Strength`: the six-condition score, computed by a counting method as in
  the source, and its tier.
- `Cascade`: the state and city options derived from a hierarchy.
- `Aggregate`: the fields in validation order, the aggregate, and the summary
  of failing fields. There are two summaries, the source's and a corrected one.
- `Gate`: the class `RegistrationForm`. Its fields are:
  - the snapshot;
  - the two selects;
  - the submit button's disabled flag;
  - a pending-submission flag;
  - the visible alert;
  - the strength tier shown.

  Its invariant `Valid()` says two things. The selects show exactly what the
  cascade derives for the current country, state and city. The button is
  disabled exactly while a submission is pending or some field fails.
  The pending-submission part is the correction listed under Findings. As
  written (`script.js:384-387`) the button follows the aggregate alone, and
  `Gate.RefreshAsWritten` models that.

Some consequences of the code are easy to miss, and the model keeps them:

- **Age is read with `parseInt` (`script.js:191`).** Only the longest numeric
  prefix counts. So `"12abc"` is accepted as 12, `" 7"` and `"+7"` as 7, and
  `"0x1F"` as 31. The only age message, "Age must be between 1 and 120"
  (`script.js:193`), speaks of the range alone.
- **The e-mail pattern `^[^\s@]+@[^\s@]+\.[^\s@]+$` (`script.js:142`) needs only
  some `.` inside the domain.** The last character class also matches dots, so
  `x@a.b.` is well formed.
- **The invalid-submit summary skips Age (`script.js:584-594`).** The alert
  asks the user to fix the listed fields (`script.js:596`), but none of the
  eleven checks there calls `validateAge`. See Findings.
- **`updateSubmitButton` (`script.js:384-387`) re-enables the button during a
  pending submission.** See Findings. `Gate.RegistrationForm` models the
  corrected handlers: `UpdateSubmitButton`, `FieldChanged`, the `Change…`
  methods, `Submit` and `ReportFailures`. `Gate.RefreshAsWritten`,
  `Gate.ClickAsWritten` and `Aggregate.SummaryFieldsAsWritten` model the code
  as written.

## Model

| member | source | states |
|---|---|---|
| Tables.LocationDataWellFormed | script.js:17-67 | the country keys are distinct; every country has at least one state, so the state select, which `script.js:397-398` enables for every found country, is never enabled empty; in every country the state keys are distinct, lower case and whitespace-free, and every state lists at least one city |
| Tables.LocationCitiesNonEmpty | script.js:17-67 | every state of the page's hierarchy has at least one city |
| Tables.TablesAgree | script.js:7-67 | the dial-code map and the hierarchy name the same seven countries, and every dial code is `+` followed by digits |
| Tables.KnownCountries | script.js:17-67 | a key finds a country of the hierarchy exactly when it is one of the seven country keys |
| Tables.FindCountryIn | script.js:397 | `data[country]`: a found country is in the list and carries the key; nothing is found exactly when no country carries it |
| Tables.FindRegion | script.js:425 | `states[state]`: a found state is in the list and carries the key; nothing is found exactly when no state carries it |
| Text.Trim | script.js:108 | `trim()`: the result has no surrounding whitespace and is never longer; `Text.TrimOfPadded` pins it down exactly |
| Text.TrimOfPadded | script.js:108 | `trim()` removes exactly the surrounding whitespace of an unpadded middle |
| Text.RemoveWhitespaceAppend | script.js:172 | `replace(/\s/g, '')` works code point by code point, so it distributes over concatenation; with `Text.RemoveWhitespaceSpec` this pins the result down exactly |
| Text.RemoveWhitespaceSpec | script.js:172 | `replace(/\s/g, '')` leaves no whitespace, never lengthens, and changes nothing in a whitespace-free string |
| Text.ReplacePrefix | script.js:172 | replacing the first occurrence of a prefix that `startsWith` accepted drops exactly that prefix |
| Text.JoinSnoc | script.js:596 | `join(sep)` of a non-empty list with one more part is the old join, the separator and that part |
| Text.JoinSplit | script.js:404-406 | joining the pieces of `split(c)` with `c` gives back the string |
| Text.SplitJoin | script.js:404-406 | splitting a join of separator-free pieces gives back the pieces |
| Text.TitleCaseAt | script.js:404-406 | title case keeps the length and upper-cases a code point exactly when it starts a word |
| Text.LowerIsLowerCase | script.js:148 | the result of lower-casing is already lower case, so lower-casing twice changes nothing more |
| Text.LowerAppend | script.js:431 | the model's lower-casing maps each code point on its own, so it distributes over concatenation |
| Text.LowerCapitalised | script.js:431 | lower-casing a capitalised word changes only its first code point |
| JsNumber.ParseInt | script.js:191 | `parseInt(value)` with no radix: leading whitespace skipped, an optional sign, hexadecimal after `0x`/`0X`, the longest digit prefix, `None` for `NaN`; its meaning is proved by the `ParseIntOf…` lemmas and `JsNumber.ParseIntNaN` |
| JsNumber.DigitPrefix | script.js:191 | the longest prefix of digits of the radix: a prefix, all digits, followed by a non-digit or by nothing |
| JsNumber.ParseIntOfDecimal | script.js:191 | `parseInt` of a decimal numeral, after whitespace and an optional sign and before any non-digit that is not `x`/`X`, gives back the signed number |
| JsNumber.ParseIntOfDigits | script.js:191 | after whitespace and an optional sign, a run of decimal digits (leading zeros allowed) that does not start a `0x` prefix and is followed by a non-digit or nothing parses to its signed decimal value |
| JsNumber.ParseIntOfHex | script.js:191 | after whitespace and an optional sign, `0x`/`0X` and a run of hexadecimal digits followed by a non-hex-digit or nothing parses to the signed hexadecimal value; with no hex digit it is `NaN` |
| JsNumber.LeadingZeroIgnored | script.js:191 | a leading `0` does not change a digit run's value |
| JsNumber.ParseIntNaN | script.js:191-192 | with no decimal digit after the optional sign, `parseInt` is `NaN` |
| Validators.ValidateName | script.js:107-133 | valid exactly when the trimmed value has at least two characters; an empty value gives "… is required" and one character gives "… must be at least 2 characters" |
| Validators.ValidateFirstName | script.js:107-119 | valid exactly when the trimmed first name has at least two characters |
| Validators.ValidateLastName | script.js:121-133 | valid exactly when the trimmed last name has at least two characters |
| Validators.NameAccepted | script.js:107-133 | `Jo` passes both name checks |
| Validators.NameIgnoresPadding | script.js:108 | surrounding whitespace never changes a name's verdict or message |
| Validators.HasEmailFormat | script.js:142-143 | `emailRegex.test(value)`, written as a direct test; `Validators.EmailFormatMatchesPattern` proves it equal to the pattern |
| Validators.EmailFormatMatchesPattern | script.js:142-143 | the hand-written test (no whitespace, an `@` with text before it, an inner `.` after it) holds exactly when the value matches `^[^\s@]+@[^\s@]+\.[^\s@]+$` |
| Validators.SplitAtOnlySeparator | script.js:148 | a string with a single `@` splits into the text before and the text after it |
| Validators.EmailDomain | script.js:148 | `split('@')[1]` of a well-formed address is everything after its `@` |
| Validators.IsDisposableDomain | script.js:148-149 | some listed entry occurs in the lower-cased domain; `Validators.DisposableMatchesReference` ties it to the address |
| Validators.DisposableMatchesReference | script.js:148-149 | the `some(… includes …)` check rejects a well-formed address exactly when a listed entry occurs anywhere in its lower-cased domain |
| Validators.ValidateEmail | script.js:135-156 | valid exactly when the trimmed value matches the pattern and its domain contains no listed entry; the required, format and disposable messages come in that order |
| Validators.EmailOfParts | script.js:135-156 | an address built from `[^\s@]` parts with an inner `.` in the domain is valid unless the domain is disposable, and then gets the disposable message |
| Validators.LowerCaseDomainDisposable | script.js:148-149 | for a lower-case domain the disposable test is a plain substring test against the list |
| Validators.ListedDomainIsDisposable | script.js:149 | a listed domain that is already lower case is itself disposable |
| Validators.ShortDomainNotDisposable | script.js:148-149 | every listed entry has at least ten characters, so a lower-case domain shorter than that is not disposable |
| Validators.ShortAddressAccepted | script.js:135-156 | `a@b.c` is a valid address |
| Validators.DisposableAddressRejected | tests/registration.spec.js:266-271 | `test@tempmail.com` gets "Disposable email domains are not allowed" |
| Validators.DialCodeOf | script.js:165-167 | a dial code exists exactly for the keys of the dial-code map, and is the map's entry |
| Validators.ValidatePhone | script.js:158-186 | required; with a dial code, valid exactly when the trimmed value starts with the code and the rest without whitespace is 7 to 12 digits; without one, valid exactly when the whitespace-free value is an optional `+` and 7 to 15 digits; the three messages |
| Validators.PhonePrefixMessageNamesCode | script.js:168-170 | the missing-prefix message contains the expected dial code |
| Validators.PhoneWithDialCode | script.js:166-176 | for a country with a dial code, the code followed by digits is valid exactly when there are 7 to 12 digits |
| Validators.PhoneMissingDialCode | script.js:168-170 | for a country with a dial code, bare digits are told to start with that code |
| Validators.UsaPhoneAccepted | script.js:158-186 | with usa, `+11234567` passes: the code `+1` followed by seven digits |
| Validators.IndiaPhoneExamples | tests/registration.spec.js:280-291 | with india, `+911234567890` passes and `1234567890` is told to start with `+91` |
| Validators.ValidateAge | script.js:188-199 | an empty age is valid; a non-empty one is valid exactly when `parseInt` gives a number from 1 to 120; every rejection carries "Age must be between 1 and 120" |
| Validators.AgeOfDigits | script.js:190-195 | a decimal digit run, possibly zero-padded, after whitespace and a sign and before a non-digit, that does not begin `0x`/`0X`, is accepted exactly when its value is 1 to 120 and the sign is not `-` |
| Validators.AgeOfHex | script.js:190-195 | a `0x` numeral is accepted exactly when it has a hex digit, no `-` sign and a value from 1 to 120 |
| Validators.AgeParseExamples | script.js:188-199 | `007` parses as 7, `08` as 8, `0x1F` as 31 and `12x` as 12, and all four are accepted |
| Validators.AgeOfNumeral | script.js:190-195 | a numeral, possibly after whitespace and a sign and before trailing text, is accepted exactly for 1 to 120 without `-` |
| Validators.AgeWithoutDigits | script.js:191-194 | a non-empty age with no digit after the optional sign is rejected |
| Validators.AgeExamples | script.js:188-199 | `12abc` passes as 12; `0` and `121` fall outside the inclusive bounds |
| Validators.ValidateGender | script.js:201-209 | valid exactly when a radio button is checked; otherwise "Please select a gender" |
| Validators.ValidateSelection | script.js:211-239 | a country, state or city is valid exactly when its value is non-empty; otherwise "… is required" |
| Validators.ValidatePassword | script.js:241-256 | valid exactly when the untrimmed password has at least eight characters; the empty and short messages |
| Validators.ValidateConfirmPassword | script.js:258-274 | valid exactly when the confirmation is non-empty and equal to the password; the empty message comes before the mismatch message |
| Validators.PasswordAccepted | script.js:241-274 | `12345678` passes the password check and is confirmed by itself |
| Validators.ValidateTerms | script.js:276-283 | valid exactly when the box is checked; otherwise the Terms & Conditions message |
| Strength.Score | script.js:286-293 | the number of the six conditions the password meets; `Strength.ScoreBounds` and the lemmas below state its properties |
| Strength.TierOf | script.js:295-297 | weak up to 2, medium for 3 and 4, strong from 5; `Strength.TierMonotone` shows it is monotone |
| Strength.ShownAfterCheck | script.js:241-256 | the indicator is redrawn only when the password passes its check (at least eight characters), and keeps its tier otherwise |
| Strength.CalculatePasswordStrength | script.js:285-298 | the six counter increments give the tier of the six-condition score: weak exactly for scores up to 2, strong exactly from 5, medium for 3 and 4 |
| Strength.ScoreBounds | script.js:286-293 | the score lies in 0..6; it is 6 exactly when all six conditions hold and 0 exactly when none does |
| Strength.ClassesPartition | script.js:290-293 | every code point falls in exactly one of lower, upper, digit and symbol |
| Strength.NonEmptyScoresAtLeastOne | script.js:290-293 | only the empty password scores 0 |
| Strength.ScoreMonotone | script.js:288-293 | appending characters never lowers the score |
| Strength.TierMonotone | script.js:295-297 | a higher score never gives a lower tier |
| Strength.ShortPasswordNeverStrong | script.js:288-297 | below eight characters the tier is never strong |
| Strength.MidLengthStrongNeedsAllClasses | script.js:288-297 | with 8 to 11 characters the tier is strong exactly when all four classes occur |
| Strength.EmptyIsWeak | script.js:285-298 | the empty password is weak |
| Strength.LowerCaseWordIsWeak | script.js:285-298 | `password` scores 2, weak |
| Strength.AllConditionsIsStrong | tests/registration.spec.js:95-100 | `StrongPassword123!@#` scores 6, strong |
| Strength.MediumPassIsStrong | tests/registration.spec.js:175-184 | `MediumPass123`, which the test expects to be medium, scores 5 and is strong |
| Strength.ElevenCharsNoSymbolIsMedium | script.js:285-298 | `Password123` scores 4, medium |
| Cascade.StatesFor | script.js:397-408 | one state option per state of the chosen country, none for an unknown or empty one |
| Cascade.StatesOfferedIffListed | script.js:397-412 | a country offers states exactly when it is a non-empty key of the hierarchy |
| Cascade.StateOptionsAreKeys | script.js:401-403 | the state options are the country's state keys, in declaration order, canonical and without repeats |
| Cascade.StateLabelIsTitledFirstCity | script.js:404-406 | a state's label is its first city, title-cased word by word |
| Cascade.CityKey | script.js:431 | a city's option value is lower case and whitespace-free |
| Cascade.AccentedCityKey | script.js:431 | `Saint-Étienne` is keyed `saint-étienne` |
| Cascade.SpacedCityKey | script.js:431 | `Los Angeles` is keyed `losangeles` |
| Cascade.TwoWordKey | script.js:431 | two capitalised words joined by a space are keyed as the two lowered words run together |
| Cascade.CitiesFor | script.js:425-434 | one city option per city of the chosen state, none when the state is not one of the country's |
| Cascade.CitiesOfferedIffStateOffered | script.js:425-437 | cities are offered exactly when the chosen state is one of the states offered for the chosen country |
| Cascade.CityOptionsShape | script.js:429-434 | the city labels are the state's cities in order, each keyed lower case without whitespace |
| Cascade.NoStateNoCities | script.js:425 | without a state there is no city to choose |
| Cascade.StatesOfferedIffKnown | script.js:397 | with the page's hierarchy, a country offers states exactly when it is one of the seven known countries |
| Cascade.UnknownCountryNoStates | script.js:409-412 | an empty or unknown country offers no states |
| Cascade.UsaStates | script.js:397-408 | usa offers california, newyork and texas, labelled with their first cities title-cased |
| Cascade.CaliforniaCities | script.js:425-434 | usa/california offers Los Angeles, San Francisco and San Diego, in that order |
| Aggregate.ValidateAllFields | script.js:365-382 | the aggregate is true exactly when every one of the twelve validators passes |
| Aggregate.EveryMeansAllPass | script.js:381 | `every(v => v === true)` holds exactly when each listed verdict is valid |
| Aggregate.EveryFieldChecked | script.js:366-381 | running the twelve validators in their fixed order decides exactly the aggregate |
| Aggregate.AllValidFieldByField | script.js:366-379 | the aggregate is the conjunction of the twelve verdicts, field by field |
| Aggregate.AddressIsNotValidated | script.js:366-379 | the address never changes the aggregate |
| Aggregate.FailingMembers | script.js:583-594 | a field is listed exactly when it is among the checked fields and fails |
| Aggregate.FailingEmptyIffEvery | script.js:583-594 | no field is listed exactly when every checked field passes |
| Aggregate.FailingKeepsOrder | script.js:583-594 | failing fields come in the order they are checked |
| Aggregate.SummaryMessage | script.js:596 | the summary starts with "Please fix the following fields: " |
| Aggregate.SummaryOfFew | script.js:596 | with no failing field the message is the bare prefix; with one it is the prefix followed by that field's display name |
| Aggregate.SummaryAppend | script.js:596 | each further failing field adds `", "` and its display name at the end, so the message is the prefix and the names joined by `", "` |
| Aggregate.DisplayNames | script.js:584-594 | one display name per listed field, in order |
| Aggregate.SummaryFieldsAsWritten | script.js:583-594 | the source's summary: the failing fields among its eleven checks, which skip Age; its properties are the three lemmas below |
| Aggregate.AsWrittenNamesFailures | script.js:583-594 | the source's summary names every failing field except Age, and never Age |
| Aggregate.AsWrittenOrderMembers | script.js:584-594 | the source's eleven checks are all the fields but Age |
| Aggregate.SummaryFieldsAsWrittenInOrder | script.js:584-594 | the source's summary lists its fields in validation order |
| Aggregate.AgeOnlyFailureHasEmptySummary | script.js:583-596 | when only the age fails, the form is invalid yet the source's summary names no field |
| Aggregate.SummaryFields | script.js:583-594 | the corrected summary: the failing fields among all twelve, in validation order; its properties are the lemmas below |
| Aggregate.SummaryNamesFailures | script.js:583-594 | the corrected summary names exactly the failing fields |
| Aggregate.SummaryFieldsInOrder | script.js:583-594 | the corrected summary lists the failing fields in validation order |
| Aggregate.SummaryEmptyIffValid | script.js:537-596 | the corrected summary is empty exactly when the form is valid |
| Aggregate.SummaryAgreesOffAge | script.js:584-594 | apart from Age, the corrected summary names a field exactly when the source's one does |
| Aggregate.SummaryFieldsExtendAsWritten | script.js:584-594 | the corrected summary agrees with the source's on every field but Age, and names Age when it fails |
| Gate.RefreshAsWritten | script.js:384-387 | as written, the button is disabled exactly when the aggregate is false, whatever is pending |
| Gate.ClickAsWritten | script.js:540-545 | as written, a click on a disabled button is ignored; otherwise a valid form disables the button and queues one completion |
| Gate.DoubleSubmitAsWritten | script.js:540-545 | as written, an edit during the delay that keeps the form valid, in a field whose input or change handler calls `updateSubmitButton` (e.g. one more letter in the first name), re-enables the button, and a second click queues a second completion |
| Gate.RegistrationForm.constructor | script.js:605 | the loaded page: every control empty, both selects at their placeholders and disabled, the button disabled, no alert, no tier |
| Gate.RegistrationForm.RunValidators | script.js:385 | the result is the aggregate of the current values |
| Gate.RegistrationForm.UpdateSubmitButton | script.js:384-387 | corrected (see Findings): the button is disabled exactly while submitting or invalid, where the code as written (`Gate.RefreshAsWritten`) ignores the pending submission; the tier is refreshed when the password passes its check; nothing else changes |
| Gate.RegistrationForm.FieldChanged | script.js:442-516 | an input or change handler outside the three selects, ending in the corrected `updateSubmitButton`: the new values are taken over, the invariant is kept, the button follows the aggregate and stays disabled while submitting (as written it is re-enabled, `Gate.DoubleSubmitAsWritten`); the tier follows the new password when it passes its check |
| Gate.RegistrationForm.ChangeCountry | script.js:389-416 | state and city are cleared; the state select lists the country's states and is enabled exactly when there are some; the city select is reset and disabled; corrected (see Findings): the button is disabled exactly while submitting or invalid, where as written it follows the aggregate alone; the tier follows the password when it passes its check |
| Gate.RegistrationForm.ChangeState | script.js:418-440 | the city is cleared; the city select lists the state's cities and is enabled exactly when there are some; the state select is untouched; corrected (see Findings): the button is disabled exactly while submitting or invalid, where as written it follows the aggregate alone; the tier follows the password when it passes its check |
| Gate.RegistrationForm.ChangeCity | script.js:494-497 | the city is taken over and the options stay as they are; corrected (see Findings): the button is disabled exactly while submitting or invalid, where as written it follows the aggregate alone; the tier follows the password when it passes its check |
| Gate.RegistrationForm.Submit | script.js:518-603 | corrected (see Findings): ignored while a submission is pending, where as written (`Gate.ClickAsWritten`) only the disabled button guards it; otherwise a valid form starts submitting with no alert and an invalid one shows the corrected summary; the button ends up disabled |
| Gate.RegistrationForm.StartSubmitting | script.js:540-543 | the button is disabled and the submission is pending; nothing else changes |
| Gate.RegistrationForm.ReportFailures | script.js:582-596 | corrected (see Findings): the error alert carries the summary of all failing fields, Age included, where the code as written (`Aggregate.SummaryFieldsAsWritten`) skips Age; nothing else changes |
| Gate.RegistrationForm.CompleteSubmit | script.js:545-578 | the success alert shows, every control is emptied, both selects are back at their placeholders and disabled, the tier is cleared, and the button stays disabled |
| Gate.ResetFormIsInvalid | script.js:577 | the reset form fails the first-name check, so the disabled button agrees with the aggregate |
| Gate.ResetSelects | script.js:570-573 | the cleared selects agree with an empty country, state and city |
| Gate.CountrySelects | script.js:389-416 | after a country change the selects agree with the cascade for that country and an empty state and city |
| Gate.StateSelects | script.js:418-440 | after a state change the selects agree with the cascade for that state and an empty city |
| Gate.CitySelects | script.js:494-497 | choosing an offered city keeps the selects in agreement |
| Gate.BuildStateOptions | script.js:401-408 | the loop yields the placeholder and then one option per state, in order |
| Gate.BuildCityOptions | script.js:429-434 | the loop yields the placeholder and then one option per city, in order |

## Left out

- Rendering is not modelled. That covers the error texts under each field and the `valid`/`invalid` classes (`script.js:318-344`). It also covers the alert boxes' styles (`script.js:346-363`), scrolling, `console.log` and the button's label text. The model keeps the verdicts, the option lists and the flags these are drawn from.
- Per-field event policies are left out. Examples are the blur handlers (`script.js:442-466`, `script.js:507`), age revalidating only when already invalid, and the password handler revalidating the confirmation only when it is non-empty. These affect only which error text shows; a blur handler runs its own field's validator and never touches the button. Every input and change handler ends with `updateSubmitButton`, which recomputes the aggregate from all fields. `FieldChanged` and the `Change…` methods model those handlers.
- `setTimeout` and its 1500 ms delay are not modelled as time. The delayed completion is the explicit step `CompleteSubmit`, and interleavings are chosen by the caller.
- The strength bar's CSS classes, width and text are left out. Only the tier the indicator shows is modelled.
- Strings are sequences of code points. JavaScript counts UTF-16 code units, so lengths differ for characters outside the Basic Multilingual Plane.
- `toLowerCase` covers ASCII, the Latin-1 letters, U+0130 and U+212A. `toUpperCase` covers ASCII, the Latin-1 lower-case letters, `ÿ` (to `Ÿ`) and `µ` (to `Μ`). It leaves `ß` unchanged, where JavaScript gives the two letters `SS`. Every other code point is left unchanged by both. JavaScript's `toLowerCase` also maps `Σ` to `ς` at the end of a word (Unicode's Final_Sigma rule), so `("Α" + "Σ").toLowerCase()` is `"ας"`. A map that works one code point at a time cannot express this context rule, and the model always gives `σ`.
- Lookups such as `LOCATION_DATA[country]` and `COUNTRY_CODES[country]` see only the tables' own keys, not inherited properties such as `constructor`.
- `index.html` is not part of this model. Every control is taken to start empty or unchecked, with both dependent selects disabled at their placeholders.
- The phone placeholder hint (`script.js:484-486`) is presentation only.
- `parseInt` returns a JavaScript Number, and `JsNumber.ParseInt` returns an exact integer. The two differ for `-0`, for digit runs above 2^53 (which JavaScript rounds) and for runs long enough to give `Infinity`. The `ParseIntOf…` lemmas state the exact value. None of these differences changes the age verdict, because every such value lies outside 1 to 120, and `-0` is rejected as 0 is.
- The regular expressions are stated as predicates, not run by a regular-expression engine.
- The hierarchy is a constructor parameter, so the class holds for any well-formed hierarchy. The page's `LOCATION_DATA` is the instance `Tables.LocationData`.
- The DOM rebuilds each select's options in place. The model builds the new lists in locals and then stores them.
- A select can hold only one of its options' values. So `ChangeState` and `ChangeCity` require the chosen value to be offered.
- The submit handler calls each validator several times, once for its error text and once for the summary. The model evaluates each verdict once, because the calls have no effect on the verdicts.
- `Gate.RegistrationForm.CompleteSubmit` requires only a well-formed hierarchy and a pending submission. It does not require the full invariant, because it overwrites every field the invariant reads.

## Findings

| source | as written | input that shows it | evidently intended | confidence | as-written member | corrected member |
|---|---|---|---|---|---|---|
| script.js:583-594 | the invalid-submit summary checks eleven fields and leaves out Age | a submit that bypasses the disabled button, such as `form.requestSubmit()` or a dispatched `submit` event, with age `0` and every other field valid: the form is invalid, but the summary names no field. A click cannot reach this branch, because the button stays disabled while the form is invalid (`Gate.RefreshAsWritten`, `Gate.ClickAsWritten`) | every failing field is named, Age included | not executed | Aggregate.SummaryFieldsAsWritten, Aggregate.AgeOnlyFailureHasEmptySummary | Aggregate.SummaryFields, Aggregate.SummaryNamesFailures, Gate.RegistrationForm.ReportFailures |
| script.js:540-545 | the disabled button is the only guard against a second submit, and `updateSubmitButton` clears it whenever the form is valid | submit a valid form; during the 1.5 s delay make an edit that keeps the form valid in a field whose input or change handler calls `updateSubmitButton` (e.g. add a letter to the first name); click again: two completions are queued | while a submission is pending the button stays disabled and further submits are ignored | not executed | Gate.RefreshAsWritten, Gate.DoubleSubmitAsWritten | Gate.RegistrationForm.UpdateSubmitButton, Gate.RegistrationForm.FieldChanged, Gate.RegistrationForm.Submit |

The strength test at `tests/registration.spec.js:175-184` expects `MediumPass123`
to be medium. It scores 5 and is strong (`Strength.MediumPassIsStrong`). The test
only logs its expectation, so this is a mislabelled test input, not a defect
of the code.
