# Quarantine ward patient engine, in Dafny

This project models the patient status and eligibility engine of a client-side
quarantine-ward application (`app.js`). The engine covers:

- Each patient's **fever-free streak**: the number of most recent recorded days
  whose lowest reading is below 37.5 °C. Only recorded days count, so a gap in
  the recording does not break the run.
- The **status** shown for a patient on a given day.
- The **mutation rules**: record a temperature, record a doctor visit, discharge,
  mark deceased and admit a new patient. These guard against duplicate daily
  entries, double-booked beds and early discharge.
- The **dashboard aggregates**: the nurse's and the doctor's to-do counts, and the
  five KPI cards.

Modules:

- `JsText` (`jstext.dfy`): the JavaScript built-ins the engine depends on, written
  out. These are `String.prototype.trim`, `parseInt` without a radix, `String(n)`
  on whole numbers, `padStart` and a single-character `replace`. It also holds
  lemmas that read back the numerals these functions write.
- `Patients` (`patients.dfy`): the patient record and `find`. It also states the
  collection invariant `WellFormed` (one reading and one visit per patient per
  day, no two active patients on one bed, distinct ids) and proves that each
  kind of update keeps it.
- `Clinical` (`clinical.dfy`):
  - the per-day minimum dictionary `DailyMin`;
  - the streak `Streak` as a specification;
  - `FeverFreeDays`, the imperative computation (a fill loop, a sort, and a
    counting loop that breaks), proved equal to `Streak`;
  - `ComputeStatus`.
- `PatientIds` (`ids.dfy`): `P` + the highest numeric suffix in use plus one,
  zero-padded to three digits.
- `Repository` (`repository.dfy`): class `Ward` holds the loaded collection. Its
  five methods change it in place, and each states every error case, the exact
  new state, and that `Valid()` is preserved.
- `Aggregates` (`aggregates.dfy`): the to-do counts and the KPIs.

Days are natural numbers. The application stores `YYYY-MM-DD` strings and only
compares them for equality and by string order, and both agree with the order of
day numbers. The current day is a parameter everywhere. The raw form inputs come
in already parsed as `Parsed<T>`, which is `NaN` or `Num(v)`.

Behaviour of the code worth knowing:

- `computeStatus` tests `discharged` **before** `deceased` (app.js:163-164), so a
  patient with both flags shows as Discharged (`Clinical.DischargedOutranksDeceased`).
- `recordTemperature` checks the selected id, then the reading, and only then
  looks the patient up (app.js:197-201). Its outcomes come in that order.
- Neither `adminDischarge` nor `adminMarkDeath` looks at the terminal flags, so a
  deceased patient with a three-day streak can still be discharged, and
  discharging again succeeds and changes nothing (`Repository.DischargeTwice`).
- The application dereferences the result of `find` without checking it. An id
  that matches no patient makes it fail, and the model returns `NotFound` there.

## Model

| member | source | states |
|---|---|---|
| JsText.TrimStart | app.js:379 | the result is a suffix of the input; every dropped character is JavaScript whitespace; the result is empty or starts with a non-blank |
| JsText.TrimEnd | app.js:379 | the result is a prefix of the input; every dropped character is whitespace; the result is empty or ends with a non-blank |
| JsText.Trim | app.js:379-383 | the trimmed name is empty exactly when the input is all whitespace; otherwise it starts and ends with a non-blank |
| JsText.TrimIsMiddle | app.js:379 | the trimmed text is a slice `s[i..j]` of the input with only whitespace before `i` and after `j` |
| JsText.TrimPadded | app.js:379 | whitespace padding around a text with non-blank ends is removed exactly, and nothing else is |
| JsText.DigitRun | app.js:395 | the digit prefix `parseInt` reads is as long as possible: all digits of the radix, followed by a non-digit or the end |
| JsText.PadStart | app.js:396 | the result has length max(\|s\|, width), ends with `s`, and is filled with the pad character before it |
| JsText.FirstIndex | app.js:395 | the position returned holds the character and no earlier position does |
| JsText.RemoveFirst | app.js:395 | `replace('P','')` leaves a string without `P` unchanged; otherwise it removes the first `P` only, keeping everything before and after it in order |
| JsText.ParseInt | app.js:395 | `parseInt` gives NaN when the text after leading whitespace is empty or starts with neither a sign nor a digit; a negative result needs a leading `-` |
| JsText.IntToString | app.js:396 | `String(n)` of a natural number is decimal digits whose value is n, with no leading zero (`0` for zero); of a negative number, `-` followed by such digits whose value is -n |
| JsText.DecimalDigits | app.js:396 | `String(n)` of a natural number is a non-empty string of decimal digits whose value is `n`, starting with a non-zero digit unless n is 0 |
| JsText.CanonicalNumeral | app.js:396 | any digit string worth n with no leading zero is exactly the numeral `String(n)` writes, so the clauses above fix it uniquely |
| JsText.LeadingDigitPositive | app.js:396 | a digit string that does not start with 0 is worth at least 1 |
| JsText.ParsePaddedDecimal | app.js:395-396 | `parseInt` of a zero-padded decimal numeral gives back the number |
| JsText.ParseNegativeDecimal | app.js:395-396 | `parseInt` of `-` followed by the numeral of m gives back -m |
| Patients.Find | app.js:201 | `find` returns the first position whose id matches, and returns none exactly when no patient has that id |
| Patients.FindAfterUpdate | app.js:278-285 | changing a patient's fields but not its id leaves every lookup unchanged |
| Patients.RecordKeepsWellFormed | app.js:204-209 | appending a reading for a day with no reading keeps one reading per day and every other invariant |
| Patients.VisitKeepsWellFormed | app.js:243-248 | appending a visit for a day with no visit keeps one visit per day and every other invariant |
| Patients.TerminalFlagKeepsWellFormed | app.js:285-300 | setting discharged or deceased keeps bed uniqueness among active patients and every other invariant |
| Patients.AdmitKeepsWellFormed | app.js:389-409 | admitting an active patient on a bed no active patient holds, under an unused id, keeps every invariant |
| Clinical.DailyMinIsMinimum | app.js:145-148 | the dictionary's keys are exactly the recorded days; each day's value is one of its readings and no higher than any of them |
| Clinical.SameDayCollapsesToMinimum | app.js:147 | a further reading on a recorded day replaces that day's value by the smaller of the two and adds no key |
| Clinical.SortDatesDescending | app.js:150 | the days come out strictly newest first, and they are exactly the dictionary's days |
| Clinical.CollectDailyMinima | app.js:145-148 | the fill loop produces `DailyMin` of the records |
| Clinical.CountFeverFreeRun | app.js:151-156 | the counting loop over the sorted days, which breaks at the first day at or above the threshold, returns the size of the current fever-free run |
| Clinical.FeverFreeDays | app.js:142-159 | `feverFreeDays` returns `Streak(p.records)`, including 0 for no records |
| Clinical.StreakBounds | app.js:143-156 | the streak is 0 without records and never exceeds the number of distinct recorded days |
| Clinical.RunIsUpwardClosed | app.js:153-156 | every recorded day after a day in the run is in the run too |
| Clinical.StreakByRank | app.js:150-156 | the k most recent days, for k up to the streak, are all below 37.5; the next most recent day, if any, is not |
| Clinical.RankWithinRun | app.js:153-156 | a day ranked no further back than the length of the run belongs to it and is below the threshold |
| Clinical.StreakExampleThreeDays | app.js:142-159 | three days at 38.0, 37.0 and 36.5 (oldest first) give a streak of 2 |
| Clinical.StreakExampleAtThreshold | app.js:154 | a reading of exactly 37.5 is not fever-free: the threshold is exclusive |
| Clinical.ComputeStatus | app.js:162-175 | each status holds exactly under its condition: Discharged iff discharged; Deceased iff deceased and not discharged; for an active patient, NeedsTemp iff no reading today; NeedsVisit iff a reading but no visit today; Eligible or Stable iff both; Eligible only with streak ≥ 3 and Stable only below |
| Clinical.DischargedOutranksDeceased | app.js:163-164 | a patient with both flags shows as Discharged |
| Clinical.MissingReadingOutranksVisit | app.js:170-171 | an active patient without today's reading shows NeedsTemp whatever the visits and the streak |
| PatientIds.IdSuffix | app.js:395 | an empty id reads as suffix 0, through the `P000` default |
| PatientIds.SuffixAfterP | app.js:395 | the suffix of `P` followed by a text is `parseInt` of that text, and 0 when that is NaN |
| PatientIds.Max | app.js:396 | `Math.max` over a non-empty list is an element of it, and no element is larger |
| PatientIds.MaxOfSuffixes | app.js:395-396 | the largest suffix in the list bounds every patient's suffix and is some patient's suffix |
| PatientIds.NextNumber | app.js:395-396 | the new number is above every patient's suffix and exactly one above some patient's suffix, so it is the highest plus one; with no patients it is 1 |
| PatientIds.IdFor | app.js:396 | the id is `P` followed by at least three characters; for n ≥ 0 they are decimal digits worth n, and more than three only when the numeral itself is longer, with no leading zero then |
| PatientIds.IdForSuffix | app.js:395-396 | reading the suffix back from the id made from n gives at least n, and exactly n when n ≥ 0 |
| PatientIds.ShortNegativeNumeral | app.js:395-396 | an id made from a number between -9 and -1 (`P0-d`) reads back as suffix 0 |
| PatientIds.IdForAbove | app.js:396 | the id made from a number above an id's suffix differs from that id |
| PatientIds.IdForOne | app.js:396 | the number 1 gives the id `P001` |
| PatientIds.NextId | app.js:395-396 | no existing patient has the new id; the first admission to an empty ward gets `P001`; the id is `P` followed by at least three characters, and when the next number is not negative they are digits worth it and the suffix read back is it |
| PatientIds.NextIdIsFresh | app.js:395-396 | the suffix read back from the new id is above every suffix in use |
| Repository.Ward.RecordTemperature | app.js:193-215 | in this order, it rejects an empty id, a reading that is NaN or 0, an unknown id, and a second reading for today; otherwise it appends exactly one record (today, reading) to that patient and changes nothing else; `Valid()` is preserved |
| Repository.Ward.MarkDoctorVisit | app.js:233-254 | it rejects an empty id, an unknown id, and a second visit today; otherwise it appends exactly one visit (today, notes) and changes nothing else; `Valid()` is preserved |
| Repository.Ward.AdminDischarge | app.js:273-290 | it rejects an empty id, an unknown id, and a streak below 3; otherwise it sets `discharged` on that patient only; `Valid()` is preserved |
| Repository.Ward.AdminMarkDeath | app.js:292-305 | it rejects only an empty id and an unknown id, with no eligibility gate; otherwise it sets `deceased` on that patient only; `Valid()` is preserved |
| Repository.Ward.AddNewPatient | app.js:378-418 | in this order, it rejects an all-blank name, an age that is not a positive number, a bed that is not a positive number, and a bed held by an active patient; otherwise it appends exactly one patient (next id, bed, trimmed name, age, no entries, no flags) after the unchanged existing ones; `Valid()` is preserved |
| Repository.DischargeTwice | app.js:273-290 | a second discharge returns the first one's outcome and leaves the collection as the first discharge left it |
| Aggregates.Count | app.js:314-315 | a filtered count never exceeds the collection size |
| Aggregates.CountNone | app.js:314-315 | the count is 0 exactly when no patient meets the criterion |
| Aggregates.CountAll | app.js:333-337 | the count equals the collection size exactly when every patient meets the criterion |
| Aggregates.CountMonotone | app.js:314-315 | a weaker criterion never counts fewer patients |
| Aggregates.CountAgree | app.js:314 | criteria that agree on every patient give equal counts |
| Aggregates.CountAppend | app.js:314-315 | the count over two collections one after the other is the sum of their counts |
| Aggregates.CountIsCardinality | app.js:314-335 | the count is the number of positions whose patient meets the criterion |
| Aggregates.CountIsMatching | app.js:314-335 | the count is the size of the set of matching positions |
| Aggregates.MatchingSnoc | app.js:314-335 | appending a patient adds its position to the matching positions exactly when it meets the criterion |
| Aggregates.NeedTempCount | app.js:314 | the nurse's to-do count is the number of active patients without a reading today, so at most the number of active patients |
| Aggregates.NeedVisitCount | app.js:315 | the doctor's to-do count is the number of active patients without a visit today, so at most the number of active patients |
| Aggregates.NurseTodoMatchesTable | app.js:314 | the nurse's to-do count equals the number of patients whose status is NeedsTemp |
| Aggregates.DoctorTodoCoversTable | app.js:315 | the doctor's to-do count is at least the number of patients whose status is NeedsVisit |
| Aggregates.DoctorTodoCanExceedTable | app.js:315 | a newly admitted patient counts in the doctor's to-do while its status shows NeedsTemp, not NeedsVisit |
| Aggregates.Percent | app.js:335-339 | 0 for an empty ward; otherwise the nearest whole number to 100k/total (exact halves round up), at most 100 when k ≤ total |
| Aggregates.PercentIsNearest | app.js:335-339 | in exact arithmetic the percentage is within one half of 100k/total |
| Aggregates.FullPercent | app.js:335 | when every patient is counted the percentage is 100 |
| Aggregates.AlmostFullShowsHundred | app.js:335 | 199 out of 200 (99.5) also shows as 100 |
| Aggregates.KpiCounts | app.js:328-334 | each KPI count is the number of patients with a reading today, with a visit today, discharged, or deceased |
| Aggregates.ComputeKpis | app.js:324-341 | total is the collection size; temperature and visit compliance are the rounded percentages of patients with a reading or a visit today; the discharged card is the number of discharged patients; mortality is the rounded percentage of deceased patients; all percentages are in 0..100; an empty ward gives all zeros; full temperature compliance shows 100 |

## Left out

- Persistence in `localStorage` (load, save, export, import) and the JSON format
  are not modelled. An operation's effect on the stored collection is its effect
  on `Ward.patients`.
- The clock (`today()`) is a parameter; the conversion of `Date` to an ISO string
  is not modelled.
- The DOM is not modelled: reading form fields, the messages shown, dropdowns,
  the patient table, the detail view, search, bed sorting and `renderAll`.
- The status labels and CSS classes are presentation and are not modelled; the
  status is a plain enumeration.
- `confirm("Mark as deceased?")`: only the confirmed branch of `adminMarkDeath`
  is modelled. The declined branch changes nothing.
- `parseFloat` on the temperature input, and `parseInt` on the age and bed inputs,
  are not modelled: their results come in as `Parsed<T>`. `parseInt` is modelled
  where the engine applies it to the stored ids.
- Aggregates.Percent: it uses exact rational rounding rather than the
  floating-point `Math.round(k/total*100)`. The two can differ when the double
  product lands just below a half. For example, 23 of 40 patients is 57.5% exactly,
  which the model rounds to 58. In doubles, 23/40*100 is 57.49999999999999, which
  the application shows as 57%. A ward of 40 can reach this case.
- JavaScript numbers are modelled as unbounded integers and exact reals. Double
  precision, `Infinity`, and the exponent form that `String(n)` uses for very large
  suffixes are not modelled.
- PatientIds.NextIdIsFresh: the new id is fresh only because integers are unbounded
  here. With doubles, a stored suffix of 2^53 or more can make the maximum plus
  one round back to the maximum, which repeats an existing id. Between 2^53 and
  2^54 this happens for about half the values, and from 2^54 on it always does.
  From 10^21 on, `String(n)` writes the number in exponent form, such as `1e+21` or
  `2e+21`. `parseInt` reads such an id back only up to the `e` (1 or 2), so later
  ids can repeat existing ones. Only imported data can hold such suffixes.
- Clinical.SortDatesDescending: it orders day numbers, whereas the source sorts
  date strings with `localeCompare`. For `YYYY-MM-DD` strings the two orders agree.
- Patients.Find: the crash on an unknown id is modelled as a `NotFound` outcome.
  What the application leaves behind after the exception is not modelled.
- Missing `records` or `visits` arrays (the `!p.records` and `|| []` guards) are not
  modelled: every patient carries both sequences.
