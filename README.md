# Reconciliation engine of `src/match.py`, modelled in Dafny

`src/match.py` pairs a bank transaction with the invoice or receipt
(an "attachment") it pays, and an attachment with its transaction. Each
candidate in the pool is judged in order:

- a candidate whose normalized reference number is non-empty and equals
  the record's (also non-empty) is returned at once;
- a candidate whose absolute amount differs is skipped;
- otherwise the candidate earns
  - 10 points for the amount;
  - `max(3, 7 - diff // 2)` points for the smallest gap `diff` of at most
    10 days between the transaction date and an attachment date;
  - 7 points for a counterparty name that normalizes to the transaction
    contact, or 4 for one that only matches fuzzily.
- A candidate needs two signals (the amount and a date or a name). A
  candidate with a date but no name needs a same-day date.
- The first candidate with the strictly highest score is kept, and it is
  returned only if that score is at least 17.

Names match fuzzily:
- after lower-casing and collapsing whitespace;
- by equality or containment;
- token by token, with a Levenshtein tolerance of 1 edit for tokens of up
  to 5 characters and 2 edits for longer ones.

The model has one module per concern. Every module is declared in its own file.

- `Text` holds the Python string operations the engine uses: `lower`,
  `upper`, `split`, `" ".join`, `replace(" ", "")`, `lstrip("0")` and `in`.
  It works over ASCII.
- `Normalize` holds `normalizing_refnum` and `normalize_name`. It proves
  their normal forms and idempotence.
- `Levenshtein` holds `edit_distance`. It is a method that fills a
  two-dimensional array row by row, proved equal to the recursive
  definition `Lev`.
- `Dates` holds a `YYYY-MM-DD` parser to day numbers, and `dates_close`.
- `Records` holds the transaction and attachment records, and the two
  field extractors as methods that append to a list.
- `Names` holds `names_match`. It is a method with its three loops, proved
  equal to the predicate `NamesAgree`.
- `Scoring` holds the body of the candidate loop. The method
  `ScoreCandidate` keeps the source's counters and flags. It is proved to
  return the verdict `Assess(tx, att)`:
  - `ReferenceMatch` for the immediate return;
  - `Rejected` for `continue`;
  - `Scored(score)` otherwise.
- `Search` holds `find_attachment` and `find_transaction`:
  - The two methods loop over the pool with `best_score` and `best_match`.
  - Each is proved to return `Pick(pool, Choose(vs))`, where `vs` are the
    verdicts on the pool. The verdict function is proved to provide them.
  - `Choose` is then characterised as the first reference match or the
    earliest highest score of at least 17.

## Model

| member | source | states |
|---|---|---|
| Text.Lower | src/match.py:20 | `name.lower()`: same length, each character lower-cased, no capital left |
| Text.Upper | src/match.py:13 | `.upper()`: same length, each character upper-cased, no lower-case letter left |
| Text.Split | src/match.py:20 | `str.split()` yields only non-empty tokens without separators |
| Text.SplitSkipsSpace | src/match.py:20 | a leading separator contributes no token |
| Text.SplitWordFirst | src/match.py:20 | a separator-free word followed by a separator or the end is the first token, so tokens are maximal runs |
| Text.SplitAtSpace | src/match.py:20 | a separator between two strings splits their tokens apart: `split()` of `a + c + b` is the tokens of `a` followed by those of `b` |
| Text.SplitJoin | src/match.py:20 | `split()` undoes `" ".join(...)` on tokens |
| Text.Join | src/match.py:20 | `" ".join(...)` starts with the first token; `SplitJoin` and `JoinCanonical` give its meaning: `split()` recovers the tokens, and lower-case tokens join to a canonical string |
| Text.JoinCanonical | src/match.py:20 | joining lower-case tokens with single spaces gives a string with no capital and only single interior spaces |
| Text.RemoveSpacesKeeps | src/match.py:13 | `replace(" ", "")` leaves no space and adds no character |
| Text.RemoveSpaces | src/match.py:13 | `replace(" ", "")` never grows the string; `RemoveSpacesChar` and `RemoveSpacesAppend` pin it down as dropping exactly the ' ' characters and keeping the rest in order |
| Text.RemoveSpacesAppend | src/match.py:13 | `replace(" ", "")` on a concatenation is the concatenation of the two parts' results, so every other character is kept in order |
| Text.RemoveSpacesChar | src/match.py:13 | a single character is dropped exactly when it is ' ' |
| Text.RemoveSpacesNoop | src/match.py:13 | `replace(" ", "")` leaves a string without spaces unchanged |
| Text.StripLeadingZeros | src/match.py:13 | `lstrip("0")` never grows the string and the result does not start with '0' |
| Text.StripLeadingZerosSuffix | src/match.py:13 | `lstrip("0")` only removes a prefix |
| Text.StripLeadingZerosPrefix | src/match.py:13 | every character `lstrip("0")` removes is a '0' |
| Text.IsSubstringAt | src/match.py:36 | Python's `a in b` holds exactly when `a` occurs in `b` at some index |
| Text.IsSubstring | src/match.py:36 | `a in b` needs `a` to be no longer than `b`; `IsSubstringAt` gives its meaning as an occurrence at some index |
| Text.EmptyIsSubstring | src/match.py:36 | `"" in b` holds for every `b` |
| Text.BlankSplit | src/match.py:20 | a string made only of whitespace has no tokens |
| Normalize.NormalizeRefnum | src/match.py:9-14 | None or "" gives ""; the result never starts with '0' |
| Normalize.NormalizeRefnumContent | src/match.py:9-14 | for a non-empty reference, the text without spaces is a run of zeros followed by a rest not starting with '0', and the result is that rest upper-cased |
| Normalize.SpacedReference | src/match.py:9-14 | "0 7a" and "7A" both normalize to "7A" |
| Normalize.NormalizeRefnumChars | src/match.py:13 | a normalized reference contains no ' ' and no lower-case letter |
| Normalize.NormalizeRefnumIdempotent | src/match.py:9-14 | normalizing a normalized reference changes nothing |
| Normalize.RefnumFixedPoint | src/match.py:13 | a string without spaces, leading zero or lower-case letter passes the three steps unchanged |
| Normalize.ZeroReferenceIsAbsent | src/match.py:10-13 | a reference of zeros and spaces such as "000" normalizes to "", so it is never present |
| Normalize.NormalizeName | src/match.py:17-20 | None or "" gives "" |
| Normalize.NormalizeNameWords | src/match.py:17-20 | a normalized name has exactly the words of the lower-cased name, in order |
| Normalize.NormalizeNameCanonical | src/match.py:17-20 | a normalized name has no capital, no leading or trailing whitespace and no doubled interior space |
| Normalize.NormalizeNameIdempotent | src/match.py:17-20 | normalizing a normalized name changes nothing |
| Normalize.BlankNameNormalizesEmpty | src/match.py:17-20 | a whitespace-only name normalizes to "" like an absent one |
| Levenshtein.EditDistance | src/match.py:78-105 | `edit_distance` returns the recursive Levenshtein distance `Lev` (the other length when one string is empty) |
| Levenshtein.FillRow | src/match.py:95-103 | the inner loop fills row i with the distances from the first i characters, leaving every other row unchanged |
| Levenshtein.LevStep | src/match.py:96-103 | one cell of the table recurrence agrees with the recursive definition on prefixes |
| Levenshtein.LevBounds | src/match.py:78-105 | the distance is at most the longer length and at least the difference of the lengths |
| Levenshtein.LevZeroIffEqual | src/match.py:78-105 | the distance is 0 exactly for equal strings |
| Levenshtein.LevSelf | src/match.py:78-105 | a string is at distance 0 from itself |
| Levenshtein.LevSymmetric | src/match.py:78-105 | the distance does not depend on argument order |
| Levenshtein.LevAppendSame | src/match.py:96-97 | a common last character does not change the distance |
| Dates.ParseDate | src/match.py:113-114 | a parsed date was written as ten characters with '-' at positions 4 and 7 |
| Dates.ParseDateSound | src/match.py:113-117 | every accepted text is a valid date written `YYYY-MM-DD` and parses to that date's day number, so impossible dates such as "2024-02-30" are refused |
| Dates.ParseFormat | src/match.py:113-114 | every valid date written as `YYYY-MM-DD` parses back to its day number |
| Dates.NextDayOrdinal | src/match.py:115 | consecutive calendar days get consecutive day numbers, so a difference of day numbers counts days |
| Dates.DaysBeforeNextYear | src/match.py:115 | a year has 366 days when leap and 365 otherwise |
| Dates.Gap | src/match.py:115 | `abs((d1 - d2).days)` exists only when both dates are present (and parse), and a gap of 0 means the two texts parse to the same day |
| Dates.DatesClose | src/match.py:108-117 | true exactly when both dates are present and parse and their gap is at most `max_days` (10 by default); false for an absent, empty or unparsable date |
| Dates.DatesCloseSymmetric | src/match.py:108-117 | closeness does not depend on the order of the dates |
| Dates.DatesCloseMonotone | src/match.py:108-117 | a wider window accepts every pair a narrower one does |
| Records.PresentValues | src/match.py:120-150 | the kept values are no more than the fields and none is "" |
| Records.TransactionAmount | src/match.py:164 | `abs(transaction.get("amount", 0))` is 0 exactly for a missing or zero amount, and otherwise the amount or its negation |
| Records.AttachmentAmount | src/match.py:183-184 | `abs(data.get("total_amount", 0))` is 0 exactly for a missing or zero total, and otherwise the total or its negation |
| Records.GetCounterpartyInfo | src/match.py:120-136 | the present, non-empty values among recipient, issuer and supplier, in that order; at most 3, none empty |
| Records.GetAttachmentDates | src/match.py:139-150 | the present, non-empty values among due, invoicing and receiving date, in that order; at most 3, none empty |
| Records.PresentValuesOfThree | src/match.py:122-134 | filtering three fields is the concatenation of the three one-field filters |
| Records.PresentValuesAppend | src/match.py:122-134 | filtering keeps the order of the fields |
| Records.PresentValuesMembers | src/match.py:125-134 | a value is kept exactly when some field holds it and it is not "" |
| Records.MissingDataHasNoFields | src/match.py:121 | an attachment without `data` gives no names and no dates |
| Names.NamesMatch | src/match.py:23-73 | `names_match` equals `NamesAgree`: false for an absent or empty name, true on equal or containing normal forms, else the token rule |
| Names.PartsAgree | src/match.py:40-73 | the token loops decide `PartsMatch`: coverage for different counts, positional tolerance for equal counts |
| Names.AllCovered | src/match.py:49-63 | the loop over the shorter name succeeds exactly when every token has a correspondent |
| Names.HasCorrespondent | src/match.py:50-60 | the inner loop finds a correspondent exactly when some longer-name token contains, is contained in, or is within tolerance of the token |
| Names.CorrespondsMeaning | src/match.py:51-60 | `Corresponds` is the existential search over the longer name's tokens |
| Names.CoveredMeaning | src/match.py:49-63 | `Covered` asks every shorter-name token for a correspondent |
| Names.AlignedMeaning | src/match.py:66-73 | `Aligned` holds exactly when each positional pair is within the first token's tolerance |
| Names.TokenRule | src/match.py:40-73 | past the shortcuts, names match iff every shorter token has some correspondent (different counts), or iff each positional pair is within the first name's tolerance (equal counts) |
| Names.BlankNameMatchesAnything | src/match.py:24-36 | a whitespace-only name matches every given name, through containment of "" |
| Names.CaseInsensitive | src/match.py:28-33 | names equal up to letter case match |
| Names.NamesMatchReflexive | src/match.py:24-33 | a name matches itself exactly when it is given and non-empty |
| Names.CoverageSymmetric | src/match.py:44-46 | with different token counts the result does not depend on argument order |
| Names.NormalizeWord | src/match.py:17-20 | a lower-case word is its own normal form and its only token |
| Names.ToleranceFollowsFirstName | src/match.py:69 | the tolerance comes from the first name, so "axbcdey" matches "abcde" but not the other way round |
| Scoring.CloseGaps | src/match.py:194-195 | one close-gap entry per attachment date, in order |
| Scoring.FirstMatch | src/match.py:214-222 | an index found by the name loop lies within the list |
| Scoring.FirstMatchSpec | src/match.py:214-222 | the name loop stops at the first counterparty the test accepts; None means it accepts none |
| Scoring.FirstMatchAt | src/match.py:214-222 | an accepted name at j with none accepted before it is the one the loop finds |
| Scoring.ScoreCandidate | src/match.py:173-236 | the loop body yields `Assess(tx, att)`: reference return, amount gate, date and name signals, the two confidence gates |
| Scoring.ScoreSignals | src/match.py:187-236 | with the amounts equal, the signals, points and gates give `Decide` |
| Scoring.DatePoints | src/match.py:208 | `max(3, 7 - best_date_diff // 2)` lies between 3 and 7 (`DatePointsRange` and `DatePointsMonotone` say where) |
| Scoring.NamePoints | src/match.py:217-220 | the name points are 7 or 4 |
| Scoring.ReferencesMatch | src/match.py:178-179 | a reference match needs a reference on both records, since an absent one normalizes to "" |
| Scoring.Decide | src/match.py:179-236 | the verdict is the immediate return exactly when the references match, and a scored candidate has equal amounts and a name or a same-day date |
| Scoring.DateSignal | src/match.py:191-208 | the date signal is the smallest close gap of the attachment dates |
| Scoring.NameSignal | src/match.py:211-225 | the name signal is the points of the first matching counterparty |
| Scoring.DateLoop | src/match.py:192-204 | `date_matched` and `best_date_diff` after the loop are the fold of the close gaps |
| Scoring.NameLoop | src/match.py:212-222 | the name loop returns the points of the first matching name, or no name |
| Scoring.FirstMatchingName | src/match.py:214-222 | the loop stops at the first counterparty name that `names_match` accepts, and reports none only when it accepts no name |
| Scoring.NameScoreFound | src/match.py:214-222 | the first name that matches the contact decides the name points |
| Scoring.NameScoreNone | src/match.py:214-222 | when no name matches the contact there are no name points |
| Scoring.FoldIsLeast | src/match.py:200-201 | keeping the smaller gap yields the least gap seen |
| Scoring.BestDateDiffIsSmallestGap | src/match.py:191-204 | a date signal exists exactly when some date is within 10 days, and then it is the smallest such gap |
| Scoring.DatePointsRange | src/match.py:208 | date points lie between 3 and 7; 7 exactly for gaps 0 and 1, 3 from gap 8 on |
| Scoring.DatePointsMonotone | src/match.py:208 | a wider gap never earns more date points |
| Scoring.NameScoreMeaning | src/match.py:214-225 | a name scores exactly when some counterparty matches, and then 7 or 4 |
| Scoring.DecideScored | src/match.py:229-236 | with equal amounts, a candidate survives the gates exactly when a name matched or the date is the same day |
| Scoring.DecideScore | src/match.py:187-236 | a surviving score lies in 14..24; without a name it is exactly 17; below 17 exactly for a fuzzy name and no date |
| Scoring.ScoredCandidate | src/match.py:179-236 | a scored candidate has no reference match, equal amounts, a date or name signal, a same-day date when no name matched, and a score in 14..24 |
| Scoring.BelowThreshold | src/match.py:229-247 | a scored candidate falls below 17 exactly when its only other signal is a fuzzy name |
| Scoring.ScoredWhen | src/match.py:229-236 | with equal amounts and no reference match, the candidate is scored iff a name matched or the date is the same day |
| Scoring.ReferenceShortcut | src/match.py:178-180 | references "0 7a" and "7A" match, and the verdict is the immediate return whatever the amounts, dates and names |
| Scoring.ZeroReferenceNeverMatches | src/match.py:178-179 | an all-zero reference never triggers the reference return |
| Search.FirstReference | src/match.py:172-180 | the index of the first reference match in pool order; None means there is none |
| Search.FindAttachment | src/match.py:157-249 | `find_attachment` returns the candidate `Choose` selects from the verdicts on the pool |
| Search.ScoreNextAttachment | src/match.py:172-236 | judging the next attachment extends the verdicts seen so far by one |
| Search.AttachmentVerdictsJudged | src/match.py:172-236 | the verdicts on the whole attachment pool exist, one per candidate |
| Search.AttachmentsPrefix | src/match.py:172-236 | the verdicts on a pool are unique, so a partial scan sees a prefix of them |
| Search.AttachmentReferenceChosen | src/match.py:179-180 | the first reference match met by the scan is the chosen candidate |
| Search.AttachmentBestChosen | src/match.py:239-249 | without a reference match, the best score kept by the scan decides against 17 |
| Search.FindTransaction | src/match.py:256-342 | `find_transaction` returns the candidate `Choose` selects from the verdicts on the pool |
| Search.ScoreNextTransaction | src/match.py:271-332 | judging the next transaction extends the verdicts seen so far by one |
| Search.TransactionVerdictsJudged | src/match.py:271-332 | the verdicts on the whole transaction pool exist, one per candidate |
| Search.TransactionsPrefix | src/match.py:271-332 | the verdicts on a pool are unique, so a partial scan sees a prefix of them |
| Search.TransactionReferenceChosen | src/match.py:277-278 | the first reference match met by the scan is the chosen candidate |
| Search.TransactionBestChosen | src/match.py:334-342 | without a reference match, the best score kept by the scan decides against 17 |
| Search.BestSoFarPrefix | src/match.py:239-241 | the best so far depends only on the candidates already seen |
| Search.ChooseReference | src/match.py:179-180 | a reference match with none before it ends the scan with that candidate |
| Search.ChooseBest | src/match.py:239-249 | with no reference match, the result is the kept best when its score reaches 17 |
| Search.BestSoFarIsFirstMax | src/match.py:239-241 | the kept candidate is the first one with the highest positive score, and no score exceeds it |
| Search.ChooseNothing | src/match.py:246-249 | nothing is returned exactly when no candidate matches by reference and none scores 17 |
| Search.ChooseFirstReference | src/match.py:172-180 | a returned reference match is the first in pool order; no later candidate is considered |
| Search.ChooseHighestScore | src/match.py:239-247 | otherwise the result scores at least 17, no candidate scores higher, every earlier one scores lower, so ties keep the earliest |
| Search.AcceptedAttachment | src/match.py:179-247 | a returned attachment matches by reference, or has the same amount and either a close date or an exactly equal name |
| Search.AcceptedTransaction | src/match.py:277-340 | the same for a returned transaction |
| Search.Accepted | src/match.py:179-247 | a candidate matching by reference or scoring at least 17 matches by reference, or has equal amounts and a close date or an exactly equal name |
| Search.SingleCandidateMirror | src/match.py:251-342 | with one candidate on each side, both searches see the same verdict, so one returns its candidate exactly when the other does, which is when the pair matches by reference or scores at least 17 |
| Search.LoneCandidate | src/match.py:246-249 | a lone candidate is returned exactly when it matches by reference or scores at least 17 |

## Where the comments and the code disagree

The model follows the code:

- The comments at src/match.py:155 and 254 promise +6 points for a
  1-2 day gap. The code computes `max(3, 7 - diff // 2)`, which gives 7 for
  a gap of 1 day and 6 for 2 or 3 days.
- The comment at src/match.py:244-245 speaks of thresholds 19 and 21. The
  code returns a candidate from 17 on.
- The comment at src/match.py:8 speaks of removing whitespace. The code
  removes only the space character `' '`, so a tab survives in a reference.

## Left out

- Amounts are integers (for example cents) compared by absolute value.
  Python's float arithmetic is not modelled.
- `datetime.strptime(s, "%Y-%m-%d")` is modelled as a strict parser of
  exactly four, two and two ASCII digits separated by '-'. Python also
  accepts a single-digit month or day ("2024-3-5"), a space-padded day
  ("2024-03- 5") and non-ASCII decimal digits. The model rejects those.
  Like Python, it rejects any leading or trailing text.
- The inner `try`/`except` around the second parse (src/match.py:196-203)
  cannot fail once `dates_close` succeeded. The model reads the gap
  directly.
- `best_date_diff = float('inf')` is modelled by the `dateMatched` flag.
  The model never reads the distance while the flag is false.
- Case mapping and the whitespace set of `split()` are modelled over ASCII.
  Unicode case folding and non-ASCII separators are not modelled.
- Records are fixed datatypes with `Option` fields. A missing `data` behaves
  as all fields absent. Other dict shapes are not modelled: a `data` that is
  present but `null`, or a field of the wrong type, would raise in Python.
- Search.FindAttachment: the postcondition is stated for every sequence of
  verdicts judged on the pool, rather than through the recursive verdict
  function. Search.AttachmentVerdictsJudged supplies that function as one
  such sequence.
- Search.FindTransaction: the same, with Search.TransactionVerdictsJudged.
- `find_attachment` and `find_transaction` are modelled as two methods, one
  per direction. They share `Assess` and `Choose` rather than a routine
  parameterised by field accessors.
- Mutation of a shared Python list is not modelled. The extractors return
  fresh sequences, and the Levenshtein table is a local array.
