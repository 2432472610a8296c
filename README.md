# Job-opportunity portal: eligibility matcher and page flow

The portal is a two-page Streamlit application, in two versions. `app.py` is the first
version and `app_evolved.py` the later one. On the form page an applicant enters a name,
a date of birth, a degree, their 10th- and 12th-standard percentages and two uploads. On
submission the portal works out the applicant's age and average percentage. It then keeps
the postings of a static job catalog that the applicant is eligible for and shows them on
the results page. "Go Back" returns to the form.

This project models the logic under the widgets:

- `Matcher` (matcher.dfy) is the matching loop both versions share. A posting is kept
  exactly when three things hold. The applicant's degree is listed, or the posting lists
  the wildcard `"Any"`. The average is at least the posting's minimum. The age lies
  within the posting's age bounds, both ends included. Each kept posting becomes a row
  `(company, role, min_per, "min-max")`.
  - `Matches` is the specification. `MatchJobs` is the loop, proved equal to it.
  - Lemmas state membership in both directions, catalog order, inclusive bounds and the
    wildcard.
  - `ParseAgeLimit` reads the `"min-max"` text back, so the row loses neither bound.
- `Calendar` (calendar.dfy) holds the age formula with the "birthday not reached yet"
  adjustment. `Age` is proved to be the number of birthdays that have been reached. It
  also holds the evolved form's latest allowed date of birth, `today` minus 18 years.
  Every date of birth allowed by that bound gives an age of at least 18. Building the
  bound fails on every 29 February, because eighteen years earlier is never a leap year.
  The model gives `None` there.
- `Validation` (validation.dfy) holds the evolved form's five checks. All five always
  run and their errors are collected in a fixed order. The list is empty exactly when the
  name is not blank, a degree is chosen, both percentages are non-zero and both files are
  uploaded. `Text.Strip` models Python's `str.strip()` with Python's whitespace set.
- `EvolvedApp` (evolved_app.dfy) and `BasicApp` (basic_app.dfy) each hold their catalog
  and a `Session` class for `st.session_state`.
  - The page starts on the form. "Find Eligible Jobs" exists only on the form page and
    "Go Back" only on the results page, so `Submit` requires the form and `GoBack` the
    results page.
  - In the evolved version a submission with errors changes nothing. A valid submission
    stores the name, the age and the matches, and moves to the results page.
  - The first version stores every submission, without validation.
  - "Go Back" sets the page to the form and changes nothing else.
- `Portal` (portal.dfy) holds the `Option` and `Page` types. `Sequences` (sequences.dfy)
  holds the subsequence relation used for "in order".

The clock is a parameter: `today` is passed to `Submit` instead of calling
`date.today()`. Each upload is a boolean that says whether a file was given.
Percentages are `real`.

The two preconditions of the evolved `Submit` come from the page itself, not from the
contract:

- The form is only drawn after the latest-date-of-birth bound was built (app_evolved.py:93).
- The date widget offers no later date of birth (app_evolved.py:100).

Two representation choices:

- The age bounds may be any integers, as in the code. The catalogs use non-negative ones.
  Only non-negative bounds are read back by `ParseAgeLimit`.
- The evolved error list is a list of `Validation.ValidationError` values.
  `Validation.Message` gives the text the page shows for each one.

## Model

| member | source | states |
|---|---|---|
| `Calendar.Age` | app_evolved.py:143-145 | The age is the number of birthdays reached by `today`: birthday number `age` falls on or before today and birthday number `age + 1` falls after it. Dates compare as (year, month, day) tuples, as in Python. |
| `Calendar.MaxDob` | app_evolved.py:93 | Definition of `max_dob`: the date 18 years before `today`, or `None` when `date(...)` would raise because that date does not exist. Its meaning is stated by the three lemmas below. |
| `Calendar.MaxDobFailsOnlyOnLeapDay` | app_evolved.py:93 | For a valid `today` (year at least 19), building `date(today.year - 18, today.month, today.day)` fails exactly when today is 29 February. |
| `Calendar.AdultIffBornByBound` | app_evolved.py:92-93 | The age is at least 18 exactly when the date of birth is no later than `today` minus 18 years. |
| `Calendar.AcceptedDobIsAdult` | app_evolved.py:100 | Every date of birth the bounded date widget can return gives an age of at least 18. |
| `Text.IsSpace` | app_evolved.py:128 | Definition: the characters Python's `str.isspace` accepts, the set `strip()` removes. |
| `Text.Strip` | app_evolved.py:128 | Definition of `str.strip()`: `TrimRight` after `TrimLeft`. Its meaning is stated by `StripEmptyIffBlank` and `StripEnds`. |
| `Text.StripEmptyIffBlank` | app_evolved.py:128 | `name.strip()` is empty exactly when every character of the name is Python whitespace. |
| `Text.StripEnds` | app_evolved.py:128 | A non-empty `strip()` result begins and ends with a non-whitespace character. |
| `Text.TrimLeft` | app_evolved.py:128 | Removes exactly the longest whitespace prefix. The result is a suffix of the input, everything removed is whitespace, and the result does not start with whitespace. |
| `Text.TrimRight` | app_evolved.py:128 | Removes exactly the longest whitespace suffix, stated the same way. |
| `Text.NatToString` | app_evolved.py:156 | `str(n)` is a non-empty string of decimal digits with no leading zero. |
| `Text.NatToStringRoundTrip` | app_evolved.py:156 | Reading back the digits of `str(n)` gives `n` again. |
| `Text.IntToString` | app_evolved.py:156 | `str(i)` starts with `-` exactly when `i` is negative. For `i >= 0` it is a string of digits whose value is `i`. For `i < 0` the characters after the `-` are digits whose value is `-i`. |
| `Matcher.Average` | app_evolved.py:146 | The average lies exactly halfway between the two percentages. |
| `Matcher.IsEligible` | app_evolved.py:151-155 | Definition of the loop's condition: the degree or `"Any"` is listed, `avg >= min_per`, and `min_age <= age <= max_age`. Its meaning in the result is stated by `MatchesMembership` and `MatchesExactly`. |
| `Matcher.ToRow` | app_evolved.py:156 | Definition of the appended row `[company, role, min_per, f"{min_age}-{max_age}"]`. |
| `Matcher.AgeLimit` | app_evolved.py:156 | Definition of `f"{min_age}-{max_age}"`. `AgeLimitRoundTrip` states that it keeps both bounds. |
| `Matcher.AgeLimitRoundTrip` | app_evolved.py:156 | For non-negative bounds the `f"{min_age}-{max_age}"` text parses back to exactly `(min_age, max_age)`. |
| `Matcher.Matches` | app_evolved.py:148-156 | The specification of the result. It never has more rows than the catalog has postings. |
| `Matcher.MatchJobs` | app_evolved.py:148-156 | The `for job in jobs` loop with `append` returns exactly `Matches` of the catalog. |
| `Matcher.MatchesEmptyCatalog` | app_evolved.py:148-156 | An empty catalog gives an empty result, never an error. |
| `Matcher.MatchesMembership` | app_evolved.py:149-156 | Every eligible posting's row is in the result. Every row of the result is the row of some eligible posting of the catalog. |
| `Matcher.MatchesExactly` | app_evolved.py:151-156 | When no two postings share a row, a posting's row is in the result if and only if the posting is eligible: its degree is accepted, `avg >= min_per` and `min_age <= age <= max_age`. |
| `Matcher.BoundsInclusive` | app_evolved.py:153-154 | An accepted degree with `avg == min_per` and `age == min_age`, or `age == max_age`, includes the posting. |
| `Matcher.WildcardAcceptsAnyDegree` | app_evolved.py:152 | A posting listing `"Any"` is matched for every applicant degree, whatever else it lists. |
| `Matcher.MatchesInCatalogOrder` | app_evolved.py:148-156 | The result is a subsequence of the rows of the whole catalog, so catalog order is kept. |
| `Validation.Message` | app_evolved.py:129-137 | Definition: the text `st.error` shows for each of the five errors. |
| `Validation.ErrorsOf` | app_evolved.py:126-137 | Definition of the error list: the five checks in order, each contributing its error when it fails. Its meaning is stated by `ErrorReported`, `ErrorsInFixedOrder` and `ErrorsEmptyIffComplete`. |
| `Validation.CollectErrors` | app_evolved.py:126-137 | The five `if ...: errors.append(...)` steps build exactly `ErrorsOf(sub)`. |
| `Validation.MessagesDistinct` | app_evolved.py:129-137 | No two errors share a message, so the messages shown identify the errors. |
| `Validation.ErrorReported` | app_evolved.py:128-137 | An error is in the list if and only if its check fails: blank name, degree `"Select"`, a zero percentage, a missing photo, a missing certificate. |
| `Validation.ErrorsInFixedOrder` | app_evolved.py:126-137 | The errors appear in the order name, degree, percentages, photo, certificate: a subsequence of that order. |
| `Validation.ErrorsEmptyIffComplete` | app_evolved.py:126-139 | The error list is empty exactly when the name has a non-whitespace character, the degree is not `"Select"`, both percentages are non-zero and both uploads are present. |
| `EvolvedApp.Session.constructor` | app_evolved.py:83-84 | A new session is on the form page with nothing stored. |
| `EvolvedApp.Session.Submit` | app_evolved.py:87-161 | It is called only on the form page (lines 87 and 125). It returns `ErrorsOf(sub)`. With any error the page stays the form and name, age and matches are unchanged. With none, the page is the results page, the name is `sub.name` and the age is `Age(today, dob)`, which is at least 18. The matches are `Matches` of the catalog for that degree, average and age. |
| `EvolvedApp.Session.GoBack` | app_evolved.py:165-190 | It is called only on the results page (lines 165 and 189). The page becomes the form. It may modify only `page`, so nothing else changes. |
| `EvolvedApp.CatalogKeysDistinct` | app_evolved.py:38-80 | No two of the 23 postings share both company and role. |
| `EvolvedApp.CatalogRowsDistinct` | app_evolved.py:38-80 | No two postings of the catalog give the same row, so the catalog meets the requires of `MatchesExactly`. |
| `EvolvedApp.CatalogMatchesExactly` | app_evolved.py:38-80 | For each posting of the catalog: its row is in the matches exactly when the applicant is eligible for it. |
| `EvolvedApp.CatalogMatchesAll` | app_evolved.py:148-160 | The same for every posting at once. With `Submit`'s `eligibleJobs == Some(Matches(...))`, the stored list holds the row of every eligible posting and of no ineligible one. |
| `EvolvedApp.ClerkAtThreshold` | app_evolved.py:76 | A BA applicant of 25 with percentages 60 and 50 (average exactly 55) gets the row `("Banking Exam", "Clerk", 55, "20-30")`. |
| `BasicApp.Session.constructor` | app.py:26-27 | A new session is on the form page with nothing stored. |
| `BasicApp.Session.Submit` | app.py:30-76 | It is called only on the form page (lines 30 and 53). Every submission stores the name, `Age(today, dob)`, the degree, the average and `Matches` of the catalog, then moves to the results page. |
| `BasicApp.Session.GoBack` | app.py:80-105 | It is called only on the results page (lines 80 and 104). The page becomes the form and nothing else changes. |
| `BasicApp.CatalogRows` | app.py:19-23 | The three postings give the rows `("Infosys","Software Trainee",60,"18-28")`, `("TCS","Data Analyst Intern",65,"21-26")` and `("Banking Exam","Clerk",55,"20-30")`. |
| `BasicApp.CatalogKeysDistinct` | app.py:19-23 | No two of the three postings share both company and role. |
| `BasicApp.CatalogRowsDistinct` | app.py:19-23 | No two postings of the catalog give the same row. |
| `BasicApp.CatalogMatchesExactly` | app.py:19-23 | For each posting of the catalog: its row is in the matches exactly when the applicant is eligible for it. |
| `BasicApp.CatalogMatchesAll` | app.py:65-74 | The same for every posting at once. With `Submit`'s postcondition, the stored list holds exactly the eligible postings' rows. |
| `BasicApp.BTechAt22` | app.py:65-74 | A BTech applicant of 22 averaging 70 gets all three rows in catalog order, Infosys first. |
| `BasicApp.BTechAt30` | app.py:68-72 | At 30 the same applicant loses Infosys (30 > 28) and TCS (30 > 26) and keeps only the clerk row. |
| `BasicApp.ApplicantAnyIsOrdinary` | app.py:69 | An applicant whose degree is `"Any"` matches only the posting that lists the wildcard. |

## Left out

- Widgets and rendering are not modelled: page configuration, titles, columns,
  `st.error`/`st.success`/`st.warning`, the results DataFrame and `st.rerun`. They are
  presentation only.
- The 60-second auto-refresh is not modelled. It is wall-clock polling.
- The interview listing is not modelled: reading `interviews.csv` and its fallback message
  in the evolved version, and the fixed info text in the first version. It is file I/O
  and display, and it never touches the stored matches.
- The state/college selection and `colleges_by_state` are not modelled. They are
  collected but never used by matching.
- Upload contents and file types are not modelled. Only whether a file was given matters.
- `date.today()` is a parameter.
- Percentages are exact `real`s. Python float rounding is not modelled.
- The degree drop-down lists and the 0–100 limits of the number inputs are not modelled.
  These are widget choices that no check relies on.
- Matching idempotence (the same inputs give the same rows twice) has no lemma.
  `Matches` is a function, so this holds by definition.
- `Matcher.MatchesExactly` requires pairwise-distinct rows. With repeated rows, the
  membership lemma still holds but "iff" cannot be stated per row. Both catalogs meet the
  requirement (`CatalogRowsDistinct` in each version).
- `EvolvedApp.Session.Submit` and `BasicApp.Session.Submit` do not repeat the catalog-wide
  "iff" in their own postconditions. They state `eligibleJobs == Some(Matches(...))`, and
  `CatalogMatchesAll` states the "iff" for that list. Proving it inside the methods makes
  the verifier unfold the whole catalog literal.
