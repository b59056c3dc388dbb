# Hagrid's shelter: the roster and the adoption flow, in Dafny

The shelter application is one React component (`src/App.jsx`). It holds a
roster of magical creatures. Each record has an id, display strings, an
`available` flag and an optional `adoptedBy` record. The component also holds
the state of a small selection and adoption-form machine: a search query, an
"only adoptable" toggle, the selected animal, whether the adoption form is
shown, the three-field adoption draft and a status message.

This project models that logic and proves what it does. There are four modules:

- `Text` (text.dfy): the JavaScript string behaviour the handlers depend on.
  This covers the `\s`/`trim()` whitespace set, `toLowerCase` (ASCII letters
  only), `includes`, `trim`, `split(" ")[0]`, and the decimal rendering of the
  `Date.now()` timestamp in a surrendered record's id.
- `Email` (email.dfy): the adoption form's address pattern
  `^[^\s@]+@[^\s@]+\.[^\s@]+$`. `RegexMatch` is the language of the pattern,
  given by the split points of its parts. `ValidEmail` is an executable check
  that reads it as "no whitespace, exactly one `@` after a non-empty local
  part, and a `.` inside the domain that is neither its first nor its last
  character". The two are proved equal on every string.
- `Roster` (roster.dfy): the records and the three pure roster
  transformations. These are the search filter (`Array.prototype.filter` with
  the grid's predicate), the adoption rewrite (a `map` that replaces every
  record having the selected id) and the surrender (building a record with
  defaults, then prepending it).
- `Shelter` (shelter.dfy): class `ShelterApp`. Its fields are the component's
  state variables and its methods are the event handlers. Each method assigns
  the fields that the handler's setters assign. Its invariant `Valid()` says
  that the adoption form is shown only while an animal is selected, which the
  submit handler relies on when it reads `selected.id`.

Points where the code's behaviour is easy to misread. The model follows the
code:

- `startAdopt` does not reset the draft; only `openDetails` does
  (src/App.jsx:155-171). `StartAdopt` keeps `form`.
- `selected` holds a copy of the record taken when it was opened, not a
  reference by id. The adoption rewrite builds new objects with spread, so
  after a successful submit `selected` still reads as available.
  `AdoptionStalesCopy` and `AdoptionSession` state this.
- A surrender replaces a field with its default only when the field is
  exactly `""`. A whitespace-only field is kept (`value || default`).
- The adoption rewrite does not check availability, and a missing id leaves
  the roster unchanged (`UnavailableRecordIsAdopted`, `MarkAdoptedUnknownId`).
- The seed list holds eight records, not seven. As written it does not parse:
  a comma is missing between the records at src/App.jsx:74-84 and
  src/App.jsx:86-96. The model takes the initial roster as a constructor
  argument.

## Model

| member | source | states |
|---|---|---|
| Text.IsSpace | src/App.jsx:176-188 | the whitespace set of `\s` and `trim()`: the ECMAScript WhiteSpace and LineTerminator code points |
| Text.Lower | src/App.jsx:148-149 | lowering keeps the length, maps each character by ASCII lowering, and leaves no capital letter |
| Text.LowerIdempotent | src/App.jsx:148-149 | lowering an already lowered string changes nothing |
| Text.Includes | src/App.jsx:148-149 | `String.prototype.includes`; `IncludesIff` characterises it |
| Text.IncludesIff | src/App.jsx:148-149 | `includes` holds exactly when the query occurs at some index of the string (the empty query everywhere) |
| Text.LowerNoUpper | src/App.jsx:148-149 | a string without capitals is its own lowering |
| Text.SkipSpaces | src/App.jsx:176 | the index reached skips only whitespace and stops at a non-space or the end |
| Text.SkipSpacesBack | src/App.jsx:176 | the index reached backwards skips only whitespace and stops after a non-space or at the bound |
| Text.Trim | src/App.jsx:176 | `trim()` is a contiguous piece of the input with only whitespace cut off either side, neither starting nor ending with whitespace |
| Text.TrimEmptyIff | src/App.jsx:176 | a trimmed name is empty exactly when the name is all whitespace |
| Text.TrimNoSpace | src/App.jsx:188 | a string without whitespace is its own trim |
| Text.TrimUnpaddedIff | src/App.jsx:188 | a non-empty string is its own trim exactly when neither end is whitespace |
| Text.FirstWord | src/App.jsx:194 | `split(" ")[0]` is a prefix without a space, followed in the input by a space or by nothing |
| Text.FirstWordOf | src/App.jsx:194 | the first word of `w + " " + rest` is `w` when `w` has no space |
| Text.DigitChar | src/App.jsx:205 | a digit below ten renders as a decimal digit character |
| Text.DigitRoundTrip | src/App.jsx:205 | a digit character reads back as its digit |
| Text.Decimal | src/App.jsx:205 | the rendered timestamp is a non-empty string of decimal digits |
| Text.DecimalRoundTrip | src/App.jsx:205 | reading back the rendered timestamp gives the timestamp |
| Text.DecimalInjective | src/App.jsx:205 | distinct timestamps render differently |
| Email.RegexMatch | src/App.jsx:176 | the language of `^[^\s@]+@[^\s@]+\.[^\s@]+$`, by the split points of its five parts |
| Email.ValidEmail | src/App.jsx:176 | the address check the submit handler runs; `ValidEmailIsRegex` proves it equal to `RegexMatch` |
| Email.IndexOf | src/App.jsx:176 | the first occurrence of a character, or the length when it is absent |
| Email.ValidEmailIsRegex | src/App.jsx:176 | the address check accepts exactly the strings the pattern matches: no whitespace, one `@` after a non-empty local part, a `.` strictly inside the domain |
| Email.ValidEmailMatches | src/App.jsx:176 | an accepted address splits at its `@` and an inner `.` of its domain into three runs of `[^\s@]` |
| Email.DotIn | src/App.jsx:176 | picks a `.` of the domain with a character on either side |
| Email.MatchesAtValid | src/App.jsx:176 | any split of the pattern's shape passes the executable check |
| Email.ValidEmailFromParts | src/App.jsx:176 | three runs of `[^\s@]` joined by `@` and `.` are accepted |
| Email.LettersRun | src/App.jsx:176 | a non-empty run of small ASCII letters is matched by `[^\s@]+` |
| Email.NoAtRefused | src/App.jsx:176 | an address without `@` is refused |
| Email.ValidEmailIsTrimmed | src/App.jsx:176-188 | an accepted address is unchanged by `trim()`, so validating the untrimmed address and storing the trimmed one agree |
| Email.SampleAccepted | src/App.jsx:176 | "ron@weasley.com" is accepted |
| Email.SampleRefused | src/App.jsx:176 | "not-an-email" is refused |
| Roster.Filter | src/App.jsx:146-152 | the filter result is no longer than the roster and holds only roster elements that pass the test |
| Roster.HitsExact | src/App.jsx:146-152 | the matching indices are strictly ascending, in range, and are exactly the indices whose record passes |
| Roster.FilterAtHits | src/App.jsx:146-152 | the filter result is the input read at the matching indices |
| Roster.FilterMembers | src/App.jsx:146-152 | an element is in the filter result exactly when it is in the input and passes |
| Roster.FilterAppend | src/App.jsx:146-152 | filtering a concatenation is concatenating the filtered parts |
| Roster.FilterBoth | src/App.jsx:150-151 | filtering by a conjunction is filtering by one test and then the other |
| Roster.FilterCongruent | src/App.jsx:146-152 | tests that agree on every element filter alike |
| Roster.FilterAll | src/App.jsx:146-152 | a test every element passes keeps the whole input |
| Roster.Matches | src/App.jsx:147-151 | the grid's filter test: the lowered query occurs in the lowered name or species, and the record is available when the toggle is on |
| Roster.Query | src/App.jsx:145-153 | `filtered()`: the roster filtered by `Matches`; `QueryInRosterOrder` and `QueryMembers` characterise it |
| Roster.QueryInRosterOrder | src/App.jsx:145-153 | `filtered()` is the roster read at exactly the matching indices in ascending order: roster order, no match missed |
| Roster.QueryMembers | src/App.jsx:145-153 | a record is shown exactly when it is in the roster, the lowered query occurs in its lowered name or species, and it is available if the toggle is on |
| Roster.QueryEmptyIsAll | src/App.jsx:147-151 | an empty query with the toggle off shows the whole roster in order |
| Roster.QueryOnlyAvailable | src/App.jsx:150-151 | with the toggle on the result is the toggle-off result restricted to available records |
| Roster.QueryAppend | src/App.jsx:146-152 | searching a concatenated roster searches each part |
| Roster.QueryCaseInsensitive | src/App.jsx:148-149 | lowering the query does not change the result |
| Roster.SpeciesHit | src/App.jsx:148-151 | a record whose lowered species contains the lowered query (and that is available if the toggle is on) is listed |
| Roster.KneazleFound | src/App.jsx:148-149 | the query "kneazle" finds a record of species "Kneazle" |
| Roster.Adopted | src/App.jsx:185-189 | the spread `{ ...a, available: false, adoptedBy }`: every other field kept |
| Roster.MarkAdopted | src/App.jsx:182-192 | the rewrite keeps length, order and ids; every record with the selected id becomes unavailable with the adopter recorded; every other record is unchanged |
| Roster.MarkAdoptedUnknownId | src/App.jsx:183-190 | with no record of that id the roster is unchanged |
| Roster.MarkAdoptedConsistent | src/App.jsx:185-189 | the rewrite keeps "adopted implies unavailable" |
| Roster.MarkAdoptedUniqueIds | src/App.jsx:183-191 | the rewrite keeps the ids distinct |
| Roster.AdoptedLeavesAvailableListing | src/App.jsx:145-192 | after the rewrite no record with that id is listed when only adoptable creatures are shown |
| Roster.AdoptionStalesCopy | src/App.jsx:182-192 | a copy of an available record taken before the rewrite is no longer in the roster afterwards |
| Roster.UnavailableRecordIsAdopted | src/App.jsx:182-192 | an unavailable record is adopted all the same: availability is not checked |
| Roster.OrDefault | src/App.jsx:206-210 | a surrendered field, or its default exactly when the field is `""` (JavaScript's logical or on a string) |
| Roster.NewAnimal | src/App.jsx:204-213 | the new record has id `custom-<now>`, each field exactly `""` replaced by its default and any other input kept, the placeholder image, available and not adopted |
| Roster.NewAnimalFieldsFilled | src/App.jsx:206-210 | no text field of a surrendered record is empty |
| Roster.NewAnimalIds | src/App.jsx:205 | two surrenders get the same id exactly when they happen in the same millisecond |
| Roster.Surrender | src/App.jsx:214 | `[newAnimal, ...prev]`; `SurrenderShape` characterises it |
| Roster.SurrenderShape | src/App.jsx:214 | the roster grows by one, the new record is first, and the old roster follows unchanged |
| Roster.SurrenderQuery | src/App.jsx:145-153 | after a surrender the search result is the new record (if it matches) followed by the old result |
| Roster.SurrenderConsistent | src/App.jsx:204-214 | a surrender keeps "adopted implies unavailable" |
| Roster.SurrenderUniqueIds | src/App.jsx:214 | a surrender keeps ids distinct when the new id is not taken |
| Shelter.DraftAccepted | src/App.jsx:176 | the submit handler's test: a name not blank after trimming and an address the check accepts |
| Shelter.AdopterOf | src/App.jsx:188 | the stored adopter: trimmed name, address and notes and the submission date |
| Shelter.ThanksMsg | src/App.jsx:194 | the confirmation, greeting by `name.split(" ")[0]` of the untrimmed name |
| Shelter.DraftAcceptedIff | src/App.jsx:176 | a draft is accepted exactly when its name is not all whitespace and its address matches the pattern |
| Shelter.AcceptedEmailStoredVerbatim | src/App.jsx:176-188 | the stored address of an accepted draft is the address as typed |
| Shelter.BlankNameRefused | src/App.jsx:176 | an empty name is refused even with a good address |
| Shelter.BadAddressRefused | src/App.jsx:176 | an address without `@` is refused |
| Shelter.FullDraftAccepted | src/App.jsx:176-188 | a full draft is accepted and stores the name "Ron Weasley" |
| Shelter.GreetsByFirstName | src/App.jsx:194 | the confirmation for "Ron Weasley" is the one for "Ron": the greeting uses the text before the first space |
| Shelter.ShelterApp.constructor | src/App.jsx:134-139 | the initial state: the given roster, empty query, toggle off, nothing selected, form hidden, empty draft and status |
| Shelter.ShelterApp.Filtered | src/App.jsx:145-153 | the grid shows exactly the roster records that match the current query and toggle |
| Shelter.ShelterApp.SetQuery | src/App.jsx:141-143 | only the query changes |
| Shelter.ShelterApp.SetFilterAvailable | src/App.jsx:247 | only the toggle changes |
| Shelter.ShelterApp.OpenDetails | src/App.jsx:155-160 | the animal is selected, the form hidden, the draft and the status cleared; the invariant holds |
| Shelter.ShelterApp.CloseDetails | src/App.jsx:162-165 | nothing is selected and the form is hidden; draft and status are kept |
| Shelter.ShelterApp.StartAdopt | src/App.jsx:167-171 | the animal is selected, the form shown and the status cleared; the draft is kept |
| Shelter.ShelterApp.CancelAdopt | src/App.jsx:355 | only the form is hidden |
| Shelter.ShelterApp.SetFormName | src/App.jsx:350 | only the draft's name changes |
| Shelter.ShelterApp.SetFormEmail | src/App.jsx:351 | only the draft's email changes |
| Shelter.ShelterApp.SetFormNotes | src/App.jsx:352 | only the draft's notes change |
| Shelter.ShelterApp.SubmitAdoption | src/App.jsx:173-198 | a refused draft changes only the status (the error text); an accepted one rewrites the roster for the selected id with the trimmed draft and the date, greets by the untrimmed name's first word and empties the draft; selection and form visibility never change |
| Shelter.ShelterApp.SurrenderAnimal | src/App.jsx:200-217 | the new record is prepended to the roster and the status confirms; nothing else changes |
| Shelter.AdoptionSession | src/App.jsx:155-198 | open, start, type an accepted draft, submit: the roster entry is adopted and leaves the adoptable listing, while `selected` still reads as available |

## Left out

- Text.Lower: lowercases ASCII letters only. JavaScript's `toLowerCase` applies full Unicode case mapping, which has no counterpart here.
- Text.Trim and Email.ValidEmail: a Dafny `string` is a sequence of Unicode scalar values, while JavaScript strings are UTF-16 code units. Whitespace is matched by code point. Strings holding surrogate pairs are compared the same way but are not modelled unit by unit.
- The browser storage cache (read at start, written on change) and the development-mode clearing on hot reload (src/App.jsx:100-131): browser I/O and build-tool hooks. The constructor takes the initial roster as a parameter instead.
- The literal seed list (src/App.jsx:5-98): the roster is a parameter. It does not parse as written (see above).
- The clock: `Date.now()` is the `now` parameter of `SurrenderAnimal`, and `new Date().toISOString()` is the `date` parameter of `SubmitAdoption`. Ids are not claimed unique: two surrenders in the same millisecond get the same id (`NewAnimalIds`).
- All rendering, CSS and images (src/App.jsx:219-371). The availability guard of the UI (`disabled={!a.available}` at src/App.jsx:303, the `selected.available` test at src/App.jsx:338) is not modelled: `StartAdopt` accepts an unavailable animal, as the handler itself does. Only the selection guard is modelled, as the invariant `Valid()` and the precondition `showAdoptForm` of `SubmitAdoption` (the submit button exists only while the form is rendered).
- `e.preventDefault()` and the intake form's DOM `reset()` (src/App.jsx:174, 202, 215): DOM side effects with no state of the component behind them.
- React's batching of setter calls: each handler's assignments are modelled as taking effect in order within one method call.
