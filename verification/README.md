# Patient records and intake-form validation, modelled in Dafny

This project models the logic core of a browser-based patient-record utility
for an Ayurveda practice (`script.js`). That core has three parts.

- **The record store.** All patients live as one JSON list under the
  local-storage key `"patients"`. `getPatients` reads that list and reads a
  missing or unparsable value as the empty list. `getPatientById` returns the
  first record with a given `patientId`. `savePatient` is an upsert. For a new
  id it stamps `createdAt` and `lastUpdated` and appends the record. For a known
  id it merges the incoming fields over the first matching record, in place,
  and refreshes `lastUpdated`. `deletePatient` keeps every record whose id
  differs. Save and delete rewrite the whole list and report `false` when the
  write throws.
- **The form validator.** `validatePatientForm` runs seven checks in a fixed
  order: name, age, gender, contact number, prakriti type, email format, phone
  format. It collects one message per failing check and skips none.
  `isValidEmail` and `isValidPhone` test two regular expressions.
- **The BMI category.** `getBMICategory` maps a BMI text to Underweight,
  Normal, Overweight or Obese, or to `""` when the text is empty.

Records are field maps (`map<string, string>`), so the object spread
`{...existing, ...incoming}` is Dafny's right-biased map union. A record's id
is `Option<string>`. `None` stands for `undefined`, so two records without an
id match each other, as `undefined === undefined` does in the source. Storage is
`Option<seq<Record>>`: `None` means absent, empty or unparsable. The clock
(`new Date().toISOString()`) is a `now` parameter. Whether the browser accepts
a write is a `writeSucceeds` parameter. Save and delete are pure functions from
the old storage to a `WriteResult(ok, storage)`.

Each regular expression has two definitions. One is a direct scan
(`EmailScan`, `PhoneScan`). The other reads the expression piece by piece as a
language (`EmailShape`, `PhoneShape`). `IsValidEmail` and `IsValidPhone` decide
by the scan, and their contracts say they accept exactly the language. The
white-space class `\s` and `String.prototype.trim` share one definition, the
ECMAScript WhiteSpace and LineTerminator characters.

`validatePatientForm` returns an array of message strings. The model computes
the errors as a `FormError` list (`ValidatePatientForm`) and turns it into the
strings with `ErrorTexts`.

Behaviour of the code worth noting:

- An update whose incoming record has its own `createdAt` overwrites the
  stored one, because the spread puts the incoming fields last (script.js:38-42,
  `UpdateOverridesCreatedAt`).
- A contact number of only white space gets the "Contact Number is required"
  error (script.js:108). It also gets the phone-format error only when it is
  shorter than ten characters, because ten or more white-space characters
  match `[\d\s\-\(\)]{10,}` (script.js:117-119, `ShortBlankContact`,
  `LongBlankContact`).
- A non-empty age text with no numeric value passes the age check, because
  every comparison with NaN is false (script.js:106, `NonNumericAgeAccepted`).
  An infinite age, such as the text "1e999", is rejected, because it is above
  150.
- A BMI text that parses as NaN or as Infinity is classed "Obese", and one that
  parses as -Infinity is "Underweight" (script.js:21-25). `calculateBMI` gives
  "Infinity" for a height of `"0"`, since the text `"0"` is truthy
  (script.js:12-14).

## Model

| member | source | states |
|---|---|---|
| `PatientStore.IdOf` | script.js:34 | (definition) `p.patientId`: none when the record has no such field, so two records without one carry the same id |
| `PatientStore.FindIndex` | script.js:34 | returns -1 exactly when no record carries the id; otherwise the position of the first record that does |
| `PatientStore.Find` | script.js:72 | returns none exactly when no record carries the id; otherwise the first record that does |
| `PatientStore.WithoutId` | script.js:79 | keeps exactly the records whose id differs: no kept record carries the id, and a record is kept iff it was present with another id |
| `PatientStore.Stamp` | script.js:45-47 | the appended record has the incoming fields, with `createdAt` and `lastUpdated` both set to `now`; its id is unchanged |
| `PatientStore.Merge` | script.js:38-42 | incoming fields override existing ones; `lastUpdated` is `now`; `createdAt` is kept when the incoming record has none; the id comes from the incoming record when it has one |
| `PatientStore.Upsert` | script.js:33-48 | new id: length grows by one, earlier records unchanged in place, stamped record last. Known id: length unchanged, only the first match replaced, by the merge |
| `PatientStore.GetPatients` | script.js:59-67 | (definition) the stored list; an absent, empty or unparsable stored value reads as the empty list |
| `PatientStore.SetItem` | script.js:50-55 | a write reports its success; a successful write stores the list; a failed write leaves storage unchanged |
| `PatientStore.GetPatientById` | script.js:70-73 | finds the first stored record with the id, none exactly when no stored record has it |
| `PatientStore.SavePatient` | script.js:29-56 | returns whether the write succeeded; on failure storage is unchanged. On success: the stored list is exactly the upsert of the old one, so every old record keeps its position except the first match, which the merge replaces, and a new id's stamped record is appended last; the saved id finds the stamped record (new id) or the merge with its first match (known id); every other id finds what it found before; the list grows by one exactly for a new id; distinct ids stay distinct |
| `PatientStore.DeletePatient` | script.js:76-86 | returns whether the write succeeded; on failure storage is unchanged. On success: the stored list is exactly the old one without the records carrying the id, in order; the id is no longer found; every other id finds what it found before; distinct ids stay distinct |
| `PatientStore.SameIdsSameFirstMatch` | script.js:34 | lists with the same ids position by position have the same first matches |
| `PatientStore.UpsertThenFind` | script.js:34-47 | after a save, find on the saved id returns the stamped record (new id) or the merged record (known id) |
| `PatientStore.UpsertKeepsIdsUnique` | script.js:34-47 | if ids are pairwise distinct before a save, they are after it |
| `PatientStore.UpsertKeepsOtherFinds` | script.js:34-47 | a save leaves find on every other id unchanged |
| `PatientStore.SaveTwice` | script.js:38-46 | saving a new record, then an update without `createdAt`, keeps the first save's `createdAt` and carries the second save's `lastUpdated` |
| `PatientStore.UpdateOverridesCreatedAt` | script.js:38-42 | an update carrying `createdAt` replaces the stored `createdAt` |
| `PatientStore.WithoutIdAppend` | script.js:79 | deleting from a concatenation deletes from each part, so the kept records stay in their original relative order |
| `PatientStore.WithoutAbsentId` | script.js:79 | deleting an id no record carries leaves the list unchanged |
| `PatientStore.WithoutIdIdempotent` | script.js:79 | deleting twice equals deleting once |
| `PatientStore.WithoutIdLength` | script.js:79 | delete shortens the list by exactly the number of records carrying the id |
| `PatientStore.UniqueCount` | script.js:79 | with distinct ids, an id is carried by one record when present and none when absent |
| `PatientStore.WithoutIdKeepsOtherFinds` | script.js:79 | a delete leaves find on every other id unchanged |
| `PatientStore.WithoutIdKeepsIdsUnique` | script.js:79 | a delete keeps distinct ids distinct |
| `PatientStore.DeleteTwice` | script.js:76-84 | two deletes in a row both succeed, and the second changes nothing |
| `PatientStore.DeleteLength` | script.js:76-81 | with distinct ids, delete drops exactly one record when the id is present and none when it is absent |
| `PatientStore.EmptyStore` | script.js:59-73 | an absent or empty store lists no patients and finds none |
| `JsStrings.IsWhitespace` | script.js:105 | (definition) the ECMAScript WhiteSpace and LineTerminator characters: what `trim` strips and what `\s` matches |
| `JsStrings.Trim` | script.js:105 | the trimmed text is a slice of the input with only white space before and after it, and it neither starts nor ends with white space; it is empty exactly when every character is white space |
| `JsStrings.MiddleSlice` | script.js:105 | (helper) a prefix of a suffix is a slice, with white space around it when the dropped ends are white space |
| `JsStrings.TrimStart` | script.js:105 | (helper) drops exactly the leading white space |
| `JsStrings.TrimEnd` | script.js:105 | (helper) drops exactly the trailing white space |
| `FormValidation.IndexOf` | script.js:126 | (helper) the first position of a character, -1 exactly when it is absent |
| `FormValidation.EmailScanSound` | script.js:125-128 | every string the email scan accepts splits as local part, `@`, host, `.`, top-level part |
| `FormValidation.SplitAtDot` | script.js:126 | (helper) cutting at the `@` and at a later `.` gives the three parts of the expression |
| `FormValidation.EmailScanComplete` | script.js:125-128 | every such split is accepted by the email scan |
| `FormValidation.IsValidEmail` | script.js:125-128 | `isValidEmail` accepts exactly the language of `^[^\s@]+@[^\s@]+\.[^\s@]+$` |
| `FormValidation.IsValidPhone` | script.js:131-134 | `isValidPhone` accepts exactly the language of `^[\+]?[\d\s\-\(\)]{10,}$` |
| `FormValidation.PhoneAcceptsDashes` | script.js:131-134 | ten dashes pass the phone format; nine digits after `+` and a trailing letter do not |
| `FormValidation.Truthy` | script.js:106 | (definition) `age` is truthy unless missing or the number 0 |
| `FormValidation.Below` | script.js:106 | (definition) `age < bound`: a finite number below the bound or -Infinity; false for NaN |
| `FormValidation.Above` | script.js:106 | (definition) `age > bound`: a finite number above the bound or Infinity; false for NaN |
| `FormValidation.AgeRejected` | script.js:106 | (definition) the age check fails for a missing age, a number outside 1..150 and an infinity, and passes for a non-numeric text |
| `FormValidation.AgeCheckFails` | script.js:106 | the JavaScript test "`!age` or `age < 1` or `age > 150`" holds exactly when the age is rejected |
| `FormValidation.ErrorMessage` | script.js:105-118 | each error's text, as pushed, reads back as that error, so the seven texts are distinct |
| `FormValidation.Collect` | script.js:103-121 | (helper) the collected errors number at most the checks and are drawn from them |
| `FormValidation.CollectReports` | script.js:103-121 | a check's error is collected exactly when that check fails |
| `FormValidation.CollectInReportOrder` | script.js:103-121 | collected errors keep the order of their checks |
| `FormValidation.Report` | script.js:103-121 | each of the seven errors is listed iff its check failed, in check order, at most seven |
| `FormValidation.ValidatePatientForm` | script.js:102-122 | name error iff the name is only white space; age error iff the age is missing, a number outside 1..150 or infinite; gender and prakriti errors iff empty; contact error iff only white space; email error iff the email is non-empty and malformed; phone error iff the contact is non-empty and malformed; errors in check order, at most seven |
| `FormValidation.ValidateReportsFailingChecks` | script.js:102-134 | an error is reported exactly when its check fails, with the formats read as the regular expressions' languages |
| `FormValidation.Messages` | script.js:105-118 | the texts of a list of errors: one per error, in order, each reading back as its error; an error's text is present exactly when the error is |
| `FormValidation.ErrorTexts` | script.js:102-122 | the returned strings: an error's text is present exactly when its check fails, every string is one of the seven texts, they come in check order, at most seven |
| `FormValidation.ErrorsDistinct` | script.js:102-122 | no error is reported twice |
| `FormValidation.EmptyFormErrors` | script.js:105-109 | an all-empty form without email yields exactly the five required-field errors, in order |
| `FormValidation.BadEmailReportedOnce` | script.js:112-114 | the email `not-an-email` yields the email error exactly once |
| `FormValidation.ShortBlankContact` | script.js:108 | a contact of one to nine white-space characters yields both the required error and the phone-format error |
| `FormValidation.LongBlankContact` | script.js:117-119 | a contact of ten or more white-space characters yields the required error but not the phone-format error |
| `FormValidation.NonNumericAgeAccepted` | script.js:106 | a truthy non-numeric age passes the age check |
| `Bmi.BmiCategory` | script.js:19-26 | `""` exactly for empty text; Underweight below 18.5, Normal in [18.5, 25), Overweight in [25, 30), Obese from 30 up; -Infinity yields Underweight, Infinity and NaN yield Obese |
| `Bmi.BmiCategoryMonotone` | script.js:22-25 | a larger BMI never yields an earlier category |
| `Bmi.BmiBoundaries` | script.js:22-25 | 18.5 is Normal, 25 is Overweight, 30 is Obese, 22.9 is Normal, empty text has no category |

## Left out

- `generatePatientId` (script.js:4-8): it reads the clock and `Math.random`, and its uniqueness is not guaranteed, so there is nothing to prove.
- `calculateBMI` (script.js:11-16): floating-point division and `toFixed(1)` rounding.
- `parseFloat` in `getBMICategory`: the input arrives already read, as empty, a finite number, an infinity or NaN.
- `formatDate` (script.js:89-99): locale-dependent display formatting.
- `showNotification`, `toggleHerb` and the top-level DOM query (script.js:137-191): presentation only.
- JSON serialisation: a written list is assumed to read back unchanged. Field values are strings, so numbers in records are not modelled.
- A stored value that parses as JSON but is not a list (for example `null`), or a list with a `null` element (for example `[null]`), is not modelled. Reading `p.patientId` or calling `findIndex`/`filter` then throws a TypeError. `savePatient` and `deletePatient` catch it and return `false`, while `getPatientById`, which has no try/catch, lets it escape (script.js:70-73).
- Primitive list elements (numbers, strings, booleans, as in `[5]` or `["x"]`) are not modelled either. They throw nothing: their `patientId` reads as `undefined`, so they match an incoming record without an id (script.js:34), and a string element is spread into indexed fields by the merge (script.js:39).
- `console.error` logging on the failure paths.
- SavePatient: the new-record branch reads the clock twice (script.js:45-46). The model uses one reading for both, so it proves `createdAt == lastUpdated` only on the assumption that the clock does not move between the two reads.
- SavePatient: the new-record branch also sets the timestamps on the caller's own object, even when the write then fails. The model is pure, so this mutation is not modelled.
- SavePatient: timestamps are opaque strings, so "`lastUpdated` is no earlier than `createdAt`" is not stated.
- ValidatePatientForm: `fullName` and `contactNumber` are always strings. In the source, a missing one makes `.trim()` throw.
- ValidatePatientForm: a NaN number and the other falsy age values are all folded into `Missing`. A string age is taken as already converted: to a finite number, to an infinity (for example "Infinity" or "1e999"), or else to `NonNumeric`.
- Characters are Unicode scalar values, while JavaScript strings are UTF-16 code units. This matters only for characters outside the Basic Multilingual Plane, and none of them is white space.
- Lost updates between browser tabs: the source is single-threaded and has no concurrency logic.
