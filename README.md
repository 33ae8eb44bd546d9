# Persometer scoring core in Dafny

Persometer is a client-side questionnaire widget. It shows agree/disagree
statements, sums each statement's per-category scores into one total per
category (persona), reports the best-matching category, and keeps the answers
in a result code (the `r` query parameter) so a result can be reloaded or
shared. This project models the scoring core of the library version
(`persometer.js`) and of the earlier standalone quiz (`quiz.js`), and proves
what that core promises.

Modules:

- `Wrappers` (wrappers.dfy): `Option`, for `undefined`, `false` and missing parameters.
- `Strings` (strings.dfy): `Split` and `Join` on a one-character separator, with JavaScript's `split` semantics.
- `Numbers` (numbers.dfy): `ParseInt`, the part of `Number(...)` that a result code uses, and `NatToString`, the decimal index written into a form field's name.
- `Codec` (codec.dfy): the result code. `Decode` is what both decoders compute. `Encode` is the `&`/`=` join written on submit. The round trip between them is proved.
- `Scoring` (scoring.dfy): the engine both files implement, over a table of score rows. It gives totals (`Accumulate`), maxima (`Maxima`) and the first-maximum index (`BestIndex`). It proves the entry-wise sums, additivity, the bound |total| ≤ maximum, and the all-agree/all-disagree values.
- `Persometer` (persometer.dfy): `persometer.js`. This covers the id-to-index map, the in-place expansion of keyed scores, the three advisory checks, `add_scores`, `get_maximum_scores`, `get_best_result` and the URL decoder.
- `Quiz` (quiz.dfy): `quiz.js`. It has the same operations over a questions dictionary keyed by name. The shipped questions and results are constants, with their worked examples proved.

The widget closes over its configuration. Here the categories and statements
are parameters, and the quiz's globals are parameters too. The loops of the
source (`add_scores`, `get_maximum_scores`, the checks, the decoders, the
score expansion) are methods with loops. Each is proved equal to a
specification function, and the properties are proved about those functions.
The advisory checks log to the console in the source; here they return
pass/fail booleans.

Where the code's behaviour may be unexpected, the model follows the code:

- An answer whose statement index is out of range is not skipped. `STATEMENTS[...]` is `undefined` and reading its `scores` throws (persometer.js:176-177). An unknown question key throws in the same way (quiz.js:118). The model therefore requires every answer to resolve.
- The id check fails for a category with no id at all, not only for a repeated id (persometer.js:64-69). So a configuration whose categories have no ids never passes it.
- A decoded segment with no `=` is not dropped. It becomes an answer with an absent value (persometer.js:91-92).
- Duplicate answers for one statement are added, not overwritten (persometer.js:174-181).
- A submission with no answers still shows a result (persometer.js:121-124). But it writes an empty code, which a reload treats as no code at all (persometer.js:86), so the form is shown instead.
- persometer.js:16 and persometer.js:24 read lowercase `categories` and `statements`, which are not defined in that scope. The model reads them as the configuration's `CATEGORIES` and `STATEMENTS` (persometer.js:4-5).

## Model

| member | source | states |
|---|---|---|
| `Strings.Split` | persometer.js:89 | splitting gives at least one piece, no piece holds the separator, and joining the pieces gives the input back |
| `Strings.SplitJoin` | persometer.js:89-92 | splitting a join of separator-free pieces returns exactly those pieces |
| `Numbers.ParseNatToString` | persometer.js:134 | `Number(name)` of a statement's form-field name (its decimal index) is that index |
| `Codec.DecodeSegment` | persometer.js:91-92 | the name is the text before the first `=` (the whole segment if there is none); the value is absent iff there is no `=`, else it is the `=`-free text up to the second `=` or the end |
| `Codec.Decode` | persometer.js:83-95 | absent iff the code is missing or empty; otherwise exactly one answer per `&`-separated segment, in order, each decoded as above |
| `Codec.DecodeEncode` | persometer.js:121-124 | decoding the `name=value` pairs joined with `&` returns the same pairs in the same order, when there is at least one and no name or value holds `&` or `=` |
| `Codec.EmptySubmissionNotRestored` | persometer.js:86 | a submission with no answers writes an empty code, which decodes to no result |
| `Persometer.CategoryToIndex` | persometer.js:16-21 | every category with a non-empty id is a key; each key maps to a position holding that id, and no later position holds it (a repeated id maps to its last position) |
| `Persometer.KeyedScoresPlacement` | persometer.js:23-32 | a key that is a category id puts its score at that id's position; every position no key maps to holds 0 |
| `Persometer.ExpandKeyedScores` | persometer.js:26-31 | the zero-filled array, after each key's score is written at the key's position in any key order, equals the expansion specification; keys that are not ids land nowhere |
| `Persometer.NormalisedIsPositional` | persometer.js:24-31 | after normalisation every statement's scores are positional; expanded ones have one entry per category; positional ones are unchanged |
| `Persometer.NormaliseStatements` | persometer.js:24-32 | each statement in the array is replaced by its normalised form and nothing else changes |
| `Persometer.AddScores` | persometer.js:170-184 | the returned totals are the answers applied in input order to a zero vector of one entry per category; only the answered statements need a score per category |
| `Persometer.UnansweredStatementMayBeShort` | persometer.js:174-181 | a statement with too few scores that no answer names does not stop the answered ones being summed |
| `Scoring.AccumulateEntry` | persometer.js:174-181 | entry `c` of the totals is the in-order sum of `coefficient * scores[c]` over the answers |
| `Persometer.TotalsAdditive` | persometer.js:173-181 | no answers give all zeros; the totals of two answer lists joined are the sums of their totals, so a statement answered twice contributes twice |
| `Persometer.GetMaximumScores` | persometer.js:190-198 | the returned maxima equal the specification: `abs(scores[c])` added per statement |
| `Scoring.Maxima` | persometer.js:190-198 | there is one maximum per category, and every maximum is non-negative |
| `Scoring.MaximaEntry` | persometer.js:192-195 | entry `c` of the maxima is the sum of `abs(scores[c])` over all statements |
| `Scoring.AccumulateWithinMaxima` | persometer.js:207-218 | when no row is picked twice and every coefficient is in -1..1, every total lies within -maximum..maximum |
| `Persometer.TotalsWithinMaxima` | persometer.js:200-218 | with each statement answered at most once, agree or disagree, -maxima[c] ≤ totals[c] ≤ maxima[c], the -1..1 range the normaliser relies on |
| `Scoring.UniformReachesMaxima` | persometer.js:200-204 | answering every row with 1 (or -1) gives the maximum (or minus it) in each category whose scores are non-negative |
| `Persometer.AnswerAllReachesMaxima` | persometer.js:200-204 | agreeing with every statement yields the maxima, and disagreeing with every one yields their negation, where the category's scores are non-negative |
| `Persometer.AgreeAllMissesNegativeScores` | persometer.js:200-204 | a single statement scored -1 and agreed with totals -1 against a maximum of 1, so the all-1s claim fails for a category with a negative score |
| `Scoring.Max` | persometer.js:227 | `Math.max(...scores)` is one of the scores and at least every score |
| `Scoring.IndexOf` | persometer.js:227 | `indexOf` is -1 iff the value is absent; otherwise it is the first position holding the value |
| `Scoring.BestIndex` | persometer.js:227 | the position chosen holds a score ≥ every score, and every earlier position's score is strictly smaller |
| `Persometer.GetBestResult` | persometer.js:225-229 | the category returned is the one at the first position of the maximum score |
| `Persometer.GetAnswersFromUrl` | persometer.js:83-95 | the pushed answers equal `Decode` of the `r` value, including absent for a missing or empty code |
| `Persometer.ReloadRestoresSubmittedAnswers` | persometer.js:121-137 | the code written for submitted form fields (index name, value 1 or -1) decodes on reload to exactly those fields, given at least one answer |
| `Persometer.CheckScoreLengths` | persometer.js:40-50 | passes iff every statement has exactly one score per category |
| `Persometer.MaximumZeroIffUnscored` | persometer.js:51-59 | a category's maximum is 0 iff no statement gives it a nonzero score |
| `Persometer.CheckNonzeroMaxima` | persometer.js:51-59 | passes iff every category gets a nonzero score from some statement |
| `Persometer.CheckUniqueIds` | persometer.js:60-72 | passes iff every category has a non-empty id and no two categories share an id |
| `Persometer.Validate` | persometer.js:38-75 | reports the length check, the zero-maximum check and the id check, each exactly as above |
| `Quiz.AddScores` | quiz.js:112-126 | the returned totals are the answers, looked up by question key, applied in order to a zero vector of `POSSIBLE_RESULTS` entries; only the answered questions need `POSSIBLE_RESULTS` scores |
| `Quiz.TotalsAdditive` | quiz.js:113-123 | no answers give all zeros; the totals of two answer lists joined are the sums of their totals, so a question answered twice contributes twice |
| `Quiz.GetMaximumScores` | quiz.js:128-136 | the returned maxima equal `abs(scores[c])` summed over the questions in key order |
| `Quiz.TotalsWithinMaxima` | quiz.js:138-150 | with each question answered at most once, agree or disagree, every total lies within plus or minus its maximum |
| `Quiz.GetBestResult` | quiz.js:152-156 | the result returned is the one at the first position of the maximum score |
| `Quiz.GetAnswersFromCode` | quiz.js:56-68 | the pushed answers equal `Decode` of the `r` value, including absent for a missing or empty code |
| `Quiz.CheckScoreLengths` | quiz.js:25-36 | passes iff every question has exactly `POSSIBLE_RESULTS` scores |
| `Quiz.MaximumZeroIffUnscored` | quiz.js:38-46 | a result's maximum is 0 iff no question gives it a nonzero score |
| `Quiz.CheckNonzeroMaxima` | quiz.js:38-47 | passes iff every result gets a nonzero score from some question |
| `Quiz.Validate` | quiz.js:23-48 | reports the length check and the zero-maximum check, each exactly as above |
| `Quiz.ShippedQuizPassesChecks` | quiz.js:4-15 | the shipped questions have three scores each, and their maxima are [3, 3, 3], so every result is scored by some question and both checks pass |
| `Quiz.ShippedExample` | quiz.js:112-156 | agreeing with q1 and q2 and disagreeing with q3 totals [1, 3, -1], and the best result is Thing2 |
| `Quiz.ShippedNoAnswers` | quiz.js:152-156 | no answers total [0, 0, 0], and the tie goes to the first result, Thing1 |

## Left out

- Rendering: the statement form, the result page, the best-match blurb, the score table, `render` and `reset` in both files. These only build markup.
- `score_meter_markup`: it builds CSS strings with floating-point widths.
- `normalize_results`: it is floating-point division, and the result is NaN or Infinity for a zero maximum. The integer bound |total| ≤ maximum is proved instead.
- `set_result_code` and the `URL`/`searchParams`/`history.pushState` handling: this is browser I/O. The decoders take the `r` parameter's already percent-decoded value, or `None` when it is missing.
- jQuery's `serialize`/`serializeArray`: this is a foreign library. `Encode` models only the `&`/`=` join, without percent-encoding.
- Floating point: scores, totals, maxima and coefficients are exact integers. The source uses double-precision numbers, so fractional weights and coefficients (`[0.5, 1, 0]`, `Number("0.5")`) and rounding in the sums are not modelled. Such rounding could change which index wins a tie in `get_best_result`.
- Console output: each check returns its pass/fail outcome instead of logging.
- `webpack.config.js`: build configuration.
- Persometer.AddScores: requires each answer's name to be a decimal statement index in range and its value a decimal integer. The source throws for an out-of-range or non-numeric index. `Number()`'s other coercions (`""` as 0, whitespace, hex, a missing value as NaN) are not modelled.
- Persometer.AddScores: requires every answered statement to have a score per category. A shorter answered row gives NaN totals in the source, which are not modelled. Every statement must also be positional, as normalisation at construction leaves them.
- Quiz.AddScores: requires each answer's name to be a question key and its value a decimal integer. An unknown key throws in the source, and `Number()`'s other coercions are not modelled.
- Quiz.AddScores: requires every answered question to have `POSSIBLE_RESULTS` scores. A shorter answered row gives NaN totals in the source, which are not modelled.
- Persometer.GetMaximumScores: requires every statement to have at least one score per category. A shorter array gives NaN entries in the source, which are not modelled.
- Persometer.Validate: requires every statement to have at least one score per category, for the zero-maximum check's NaN reason above. So the length check is only exercised on arrays that are too long.
- Persometer.CheckNonzeroMaxima: same requirement as `Persometer.GetMaximumScores`.
- Quiz.GetMaximumScores: requires every question to have at least `POSSIBLE_RESULTS` scores, for the same NaN reason.
- Quiz.Validate: same requirement as `Quiz.GetMaximumScores`.
- Quiz.CheckNonzeroMaxima: same requirement as `Quiz.GetMaximumScores`.
- Persometer.GetBestResult: requires a non-empty score vector no longer than the categories. For an empty vector the source returns `undefined`.
- Quiz.GetBestResult: requires a non-empty score vector no longer than the results, for the same reason.
- Persometer.NormaliseStatements: statements are values held in an array. The source mutates the caller's statement objects, and that aliasing is not captured.
- Persometer.ExpandKeyedScores: ids are strings. Keys that name inherited `Object` properties (such as `toString`) are not modelled, and neither are non-string ids.
- Quiz.Questions: the dictionary is keys in enumeration order plus a map. JavaScript's ordering of integer-like keys first is not modelled.

## Findings

| source | as written | input that shows it | evidently intended | confidence | as-written member | corrected member |
|---|---|---|---|---|---|---|
| persometer.js:200-204 | the doc comment of `normalize_results` says agreeing with every statement normalises to all 1s (and disagreeing to all -1s) | one category, one statement scored [-1], agreed with: the total is -1 and the maximum is 1, so the normalised score is -1 | the all-1s claim holds for categories whose scores are all non-negative and not all zero; a category scored all zero has maximum 0 and normalises to NaN | high, proved; not executed | `Persometer.AgreeAllMissesNegativeScores` | `Persometer.AnswerAllReachesMaxima` |
