# Booking-form controller of the car-transport site, in Dafny

This project models the client-side controller of the site's multi-step
booking form (`frontend/js/script.js`), together with the contact form's phone
formatter. The DOM and the browser's `localStorage` are replaced by plain
state:

- the set of `.form-step` ids (`data-step`);
- the active step, which can be absent;
- the two stored records: `bookingFormData` as `Option<map<string, string>>`
  and `bookingFormStep` as `Option<int>` (None when the key is absent);
- the form's fields, each with a name, a value, a default value, a required
  flag, an e-mail flag, the step that owns it, an error flag and an error
  message;
- the `.step` indicators and the percentage on display.

Modules:

- `Wrappers`: `Option`.
- `Text`: JavaScript's white-space class (`\s`, also used by `trim()`) and
  `Trim`.
- `Phone`: the phone formatter. It keeps only the digits, then writes them in
  space-separated groups of five.
- `Email`: `validateEmail`. It is a hand-written check, proved to accept
  exactly the language of `^[^\s@]+@[^\s@]+\.[^\s@]+$`.
- `Progress`: how `updateStepUI` classifies each indicator, and its
  percentage table.
- `Booking`: specification functions for validation, saving and restoring,
  and the class `BookingForm`. The class holds the page state. Its methods are
  `validateStep`, `updateStepUI`, `nextStep`, `prevStep`, `saveFormData`,
  `restoreFormData`, the page-load handler and the booking submit handler,
  each proved against those functions.

Three behaviours of `frontend/js/script.js` that the model keeps as written:

- `nextStep` (lines 182-192) removes `active` from the current step before it
  looks for the next one, so advancing past the last step leaves no step
  active. `prevStep` (lines 201-211) does the same before the first step.
- The e-mail check (lines 156-167) sits inside the loop over the step's
  `[required]` fields (lines 140-168), so it runs only on required fields of
  the validated step. An optional e-mail field is never checked.
- Nothing in the code keeps exactly one step active. The model keeps at most
  one.

## Model

| member | source | states |
|---|---|---|
| Text.TrimStart | frontend/js/script.js:147 | the result is a suffix of the input; everything removed is white space; a non-empty result does not start with white space |
| Text.TrimEnd | frontend/js/script.js:147 | the result is a prefix of the input; everything removed is white space; a non-empty result does not end with white space |
| Text.Trim | frontend/js/script.js:147 | the trimmed value is no longer than the input, and a non-empty one has no white space at either end |
| Text.TrimEmptyIff | frontend/js/script.js:147 | `!value.trim()` holds exactly when every character of the value is white space |
| Phone.Digits | frontend/js/script.js:39 | stripping `\D` leaves only ASCII digits and never lengthens the value |
| Phone.DigitsOfChar | frontend/js/script.js:39 | a single character is kept iff it is an ASCII digit; with `DigitsAppend` this pins `Digits` down on every string: exactly the digits, in order |
| Phone.DigitsAppend | frontend/js/script.js:39 | stripping non-digits works piecewise: the digits of a concatenation are the digits of each part, in order |
| Phone.WithoutSpaces | frontend/js/script.js:41 | removing the spaces that `join(" ")` inserts leaves no space and never lengthens the value |
| Phone.WithoutSpacesOfChar | frontend/js/script.js:41 | a single character is dropped iff it is a space; with `WithoutSpacesAppend` this pins `WithoutSpaces` down on every string |
| Phone.WithoutSpacesAppend | frontend/js/script.js:41 | removing spaces works piecewise over a concatenation |
| Phone.Groups | frontend/js/script.js:41 | the matches of `/.{1,5}/g` are non-empty; all but the last have length 5; the last has 1 to 5; concatenated, they give back the digits |
| Phone.FormatPhone | frontend/js/script.js:39-43 | the value written back: removing its spaces gives exactly the input's digits in order; its digits are the input's digits; it is empty iff the input has no digits |
| Phone.FormatPhoneGroups | frontend/js/script.js:39-43 | a value with digits becomes digit groups joined by single spaces, five digits per group except the last, which has 1 to 5 |
| Phone.FormatPhoneLayout | frontend/js/script.js:39-43 | the output has length d + (d-1)/5 for d digits; position k is a space iff k % 6 == 5, and every other position holds digit k - k/6 of the input |
| Phone.FormatPhoneIdempotent | frontend/js/script.js:38-44 | formatting an already formatted value changes nothing, so the handler is stable when it runs again on its own output |
| Phone.FormatDigits | frontend/js/script.js:39-41 | an all-digit value is only grouped, not filtered |
| Phone.FormatPhoneExample | frontend/js/script.js:39-43 | "1234567890123" becomes "12345 67890 123" |
| Email.IndexOf | frontend/js/script.js:130 | finds the first occurrence of a character, or reports that there is none |
| Email.ValidateEmail | frontend/js/script.js:129-131 | `validateEmail` accepts a string iff the string matches the pattern: a non-empty run of pattern characters, `@`, a non-empty run, `.`, a non-empty run, where a pattern character is neither white space nor `@` |
| Email.CheckIsPattern | frontend/js/script.js:129-131 | the scan for the first `@` (no white space; something before the `@`; no other `@`; a dot inside the rest) and the pattern agree on every string |
| Email.AcceptsPlainAddress | frontend/js/script.js:129-131 | "a@b.com" passes |
| Email.RejectsMissingDot | frontend/js/script.js:129-131 | "a@b" fails |
| Email.RejectsWhitespace | frontend/js/script.js:129-131 | "a b@c.com" fails |
| Progress.Classify | frontend/js/script.js:100-108 | an indicator is completed iff its position is before the step, active iff it is the step, and plain iff it is after |
| Progress.Render | frontend/js/script.js:100-108 | one indicator per `.step` element, each classified by its own 1-based position and the step alone |
| Progress.RenderCounts | frontend/js/script.js:100-108 | rendering step s marks s-1 indicators completed (capped by the number that exist), exactly one active when s is a position (none otherwise), and the rest plain |
| Progress.Percent | frontend/js/script.js:110-113 | the percentage shown is between 33 and 100 |
| Progress.PercentOnSteps | frontend/js/script.js:110-113 | on steps 1 to 3 the table matches 100*s/3 rounded down; any other step shows 33; only step 3 shows 100 |
| Progress.PercentMonotonic | frontend/js/script.js:110-113 | moving forward through the steps never lowers the percentage |
| Booking.Validated | frontend/js/script.js:145-167 | a required field of the step ends flagged iff it is not valid, gets the e-mail message when its value is a non-empty e-mail value failing the check, and keeps its old message text otherwise; its name, value, default, flags and step never change; any other field is left as it is |
| Booking.ValidateAll | frontend/js/script.js:144-168 | validation keeps every field in place and every value; each required field of the step ends flagged iff it failed; every other field is untouched |
| Booking.StepValidAppend | frontend/js/script.js:144-170 | adding one more field leaves the step valid iff the step was valid and that field is unchecked or valid |
| Booking.FieldValidMeans | frontend/js/script.js:147-160 | a field is valid iff its value is not all white space and, for an e-mail field with a non-empty raw value, the value matches the e-mail pattern |
| Booking.ValidateAllEffect | frontend/js/script.js:144-168 | validating leaves the step's verdict as it was, and validating twice equals validating once |
| Booking.CheckField | frontend/js/script.js:145-167 | one pass of the loop body. A required field of the step ends with its error set iff its trimmed value is empty or it is a non-empty e-mail value failing the check; an e-mail failure also sets the e-mail message. Any other field is untouched. The pass fails iff the field is required in the step and invalid |
| Booking.LastNamed | frontend/js/script.js:73-77 | finds the last field carrying a given non-empty name, or reports that no field carries it |
| Booking.Saved | frontend/js/script.js:71-79 | the keys of the saved record are the keys stored before together with the non-empty names of the fields, and nothing else |
| Booking.SavedLookup | frontend/js/script.js:67-80 | saving is a merge: a named field's name maps to its value, the last one winning among duplicates; other keys keep their stored values; unnamed fields contribute nothing |
| Booking.Restored | frontend/js/script.js:89-93 | a named field whose name the record holds takes the record's entry; otherwise nothing changes: only the value can change, only to that entry, and without a record or a name nothing does |
| Booking.RestoreAll | frontend/js/script.js:85-93 | every named field whose name the record holds takes the record's entry, and every other field is left as it is; every field keeps its place and everything but its value; with no record nothing changes |
| Booking.ResetAll | frontend/js/script.js:249 | every field's value becomes its default value and nothing else about it changes |
| Booking.SaveThenRestore | frontend/js/script.js:67-94 | with distinct names, restoring right after saving leaves every field unchanged |
| Booking.SaveThenReload | frontend/js/script.js:67-94 | after a reload (fields back to their defaults), restoring the saved record gives every named field its saved value; unnamed fields keep their default |
| Booking.DuplicateNameLastWins | frontend/js/script.js:73-77 | with a duplicated name, restoring gives the earlier field the later field's value |
| Booking.BookingForm.UpdateStepUI | frontend/js/script.js:98-125 | afterwards the indicators are the rendering of the step and the percentage is the table's value for it |
| Booking.BookingForm.SaveFormData | frontend/js/script.js:67-80 | the stored record becomes the merge of the old record (empty when absent) with the fields |
| Booking.BookingForm.RestoreFormData | frontend/js/script.js:82-94 | a field takes the stored value iff it is named and the record holds its name; with no record nothing changes |
| Booking.BookingForm.Input | frontend/js/script.js:220-221 | an edit to one field followed by a save; with distinct names, the stored record maps that field's name to the new value |
| Booking.BookingForm.ValidateStep | frontend/js/script.js:133-171 | returns true iff every required field of the step is valid. Every such field is visited, and its error ends set iff it failed. Fields of other steps and all values are untouched |
| Booking.BookingForm.NextStep | frontend/js/script.js:175-193 | with no active step, nothing changes; if validation fails, active and stored step stay put; on success, step s+1 becomes active, stored and shown when it exists, and otherwise no step is left active and the stored step is unchanged |
| Booking.BookingForm.PrevStep | frontend/js/script.js:195-212 | never validates; step s-1 becomes active, stored and shown when it exists; otherwise no step is left active and nothing else changes |
| Booking.BookingForm.Load | frontend/js/script.js:216-241 | restores the field values; picks the stored step (1 when none is stored); if that step exists, it becomes the only active step and is shown and stored again, otherwise no step is active and the stored step is kept |
| Booking.BookingForm.Submit | frontend/js/script.js:243-262 | confirms iff step 3 exists and validates, whatever step is active; otherwise only the validation marks change. On success the fields go back to their defaults, both stored records are removed, and step 1, when it exists, becomes the only active step and is shown; when it does not, no step is left active and the indicators and percentage are unchanged |
| Booking.BookingForm.ResetFields | frontend/js/script.js:249 | every field's value becomes its default value |
| Booking.NextThenPrev | frontend/js/script.js:175-212 | advancing from a valid step s to an existing step s+1 and then going back leaves step s active, stored and shown again |

## Left out

- The contact form's submit handler (lines 12-34): timer, `alert` and button markup swapping.
- The phone formatter is modelled as a function from the field's value to its new value. The `input` listener that writes it back is not modelled.
- Input focus/blur scale animations (lines 51-63), the keyboard Easter egg (lines 267-278) and the preloader (lines 282-292): cosmetic only.
- The document-wide scan that rewrites any text ending in "% Complete" (lines 116-124). The model keeps only the percentage it would write.
- `JSON.parse`/`JSON.stringify` and the string encoding of the stored step. The stored record is taken as well-formed, and the stored step as an integer.
- `parseInt` of `data-step` and of the stored step, including values that do not parse. Step ids are integers.
- Keys inherited by a parsed JSON object, such as `constructor` and `__proto__`. On restore, in JavaScript a field with such a name finds a value in any stored record; in the model, only keys actually stored count. On save, `data[field.name] = field.value` with the name `__proto__` goes to the prototype setter, which ignores a string, so that field is never saved; `Saved` stores it like any other name.
- A page without the booking form element (`if (!bookingForm) return`). The model assumes the form exists.
- A field whose error-message element is missing. The model's error flag covers both the `error` class and the message's display, and assumes the message element exists.
- Field: each field is taken to own its error-message element. The page finds that element through the field's parent (line 145), so required fields that share a parent share one message: its display ends as the last such field's verdict (lines 149, 153, 164), and the e-mail text written at line 163 stays on it for the other fields.
- Markup that marks several `.form-step` elements active at once. The model holds at most one active step.
- The `alert` shown on a confirmed booking. It is the `confirmed` result of `Submit`.
- JavaScript strings are UTF-16 code units; the model's strings are sequences of Unicode scalar values. This only matters for lone surrogates, which neither the trimming nor the e-mail check treats specially.
