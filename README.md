# snf_csv_to_json in Dafny

This project models the core of `snf_csv_to_json`, a command-line filter over the
nursing-home ("skilled nursing facility") provider CSV. The tool reads the header
row and looks up the position of every column it needs. If a filter column or an
output column is missing, it stops with an error. It then walks the data rows:

- empty rows are counted and skipped;
- every other row is checked against five conditions (state, minimum overall
  rating, minimum certified beds, maximum health deficiencies, maximum penalties);
- each row that passes becomes an output record. The record holds seven formatted
  fields plus a recommendation score.

The score is the sum of ten weighted factors read from eleven columns, divided by 5.

Modules:

- `Wrappers` — `Option` and `Result`.
- `PyText` — the Python built-ins the code relies on: `str.isdigit()` (ASCII
  decimal digits), `int()` on a digit string, `get_valid_number`, and `list.index()`.
- `RecScore` — `rec_score_analytic.py`: `get_column_data`, the ten weighting rules
  and `weight_rec_score_data`.
- `App` — `app.py`:
  - the index dictionaries and their validation;
  - the typed filter cells and the five conditions;
  - output formatting;
  - `get_recommendation_score`;
  - the row loop, as `FilterRows`;
  - the whole run after the CSV is read, as `Run`.

Code that changes state step by step is written as methods with loops. Each such
method is proved equal to a specification function: `GetColumnData`,
`GetIndexDictFromColumns`, `SetIndexDictFromHeaders`, `GetCellValDict`, the early
exit in `MeetsAllFilters`, `FormatOutputDictionaries`/`JoinCells` and `FilterRows`.
The weighting rules and the checks are pure functions.

How the code behaves, and how the model follows it where that may be surprising:

- The four count rules (deficiencies, penalties, incidents, complaints) parse a
  malformed cell to the sentinel -1. No tier matches -1, so a malformed count weighs
  **0**, not -1 (`WeightCount`, `WeightCountExamples`).
- Physical-therapist hours are parsed with `isdigit()` and `int()`. So "0.5" or
  "1.5" weigh 0, and the factor is 1 exactly for a whole number of hours ≥ 1
  (`WeightPtPerRes`, `WeightPtPerResExamples`).
- In `weight_available_beds`, the final `return 0` can never be reached for a
  number, so that factor is never 0.
- `weight_council` gives "Resident" the same 0 as any other text.
- The validation error names *all* the expected columns of the failing group, not
  only the missing ones (`ValidateIndexDictUpdate`).
- The weighted sum is divided by the constant 5, not by the number of factors
  (`WeightedScore`).
- The address value is the street address and the city run together, then
  ", state", then ", zip". The join puts ", " only after the middle columns
  (`JoinFour`, `FormatOutputShape`).
- The output key `"residents_per_day:"` carries a trailing colon.
- A malformed overall rating reads as 1 for the filter (`MalformedRatingPassesDefault`)
  but as 0 for the score.
- The result-count option (`num_facilities`) is parsed but never applied. Every
  passing row is kept: there is exactly one record per passing row
  (`FilteredRecordsCount`).
- A row's width is never compared with the header's width. A row narrower than
  the header is filtered and recorded normally as long as it has a cell at every
  position that is read (`RowHandled`, `NarrowRowScoreExample`).
- A score-only column (such as "Abuse Icon") is looked up only when a row
  passes. A header without one is accepted, and the run completes as long as no
  row passes.

## Model

| member | source | states |
|---|---|---|
| `PyText.GetValidNumber` | app.py:133-136 | a string of decimal digits yields its value; any other string, the empty one included, yields the default |
| `PyText.DigitsValueOfNatToDigits` | app.py:136 | `int()` inverts decimal formatting: the numeral of n parses back to n |
| `PyText.GetValidNumberOfNumeral` | app.py:133-136 | a numeral parses to its own value whatever the default |
| `PyText.FirstIndex` | app.py:119 | `headers.index(h)` is a position holding h with no earlier occurrence of h |
| `PyText.FirstIndexOfDistinct` | app.py:116-119 | in a header without repeats, each header is found at its own position |
| `PyText.FirstIndexOfPrefix` | app.py:119 | appending names to a header does not move the first occurrence of a name already in it |
| `RecScore.CellsOf` | rec_score_analytic.py:22-25 | the gathered dictionary has exactly the given columns as keys |
| `RecScore.GatherColumns` | rec_score_analytic.py:22-25 | the loop builds a dictionary whose keys are exactly the given columns, each holding the row's cell at that column's position |
| `RecScore.ColumnData` | rec_score_analytic.py:19-25 | the extracted data holds a cell for every one of the eleven score columns |
| `RecScore.GetColumnData` | rec_score_analytic.py:19-25 | the loop builds a dictionary whose keys are exactly the score columns, each holding the row's cell at that column's index |
| `RecScore.WeightOverallRating` | rec_score_analytic.py:74-78 | 1.25 times the rating for a digit string; 0 for anything else; never negative |
| `RecScore.WeightOverallRatingOfNumeral` | rec_score_analytic.py:74-78 | the numeral of n weighs exactly 1.25·n |
| `RecScore.WeightAvailableBeds` | rec_score_analytic.py:84-92 | +1 exactly inside [5, 50], -1 exactly outside it, never 0 |
| `RecScore.WeightCount` | rec_score_analytic.py:95-107 | +1 iff the count is 0, -0.25 iff it is 1..5, -1 iff it is above 5, 0 iff the cell is not a digit string; the same rule as lines 110-121, 168-179 and 182-193 |
| `RecScore.WeightCountOfNumeral` | rec_score_analytic.py:110-121 | the three tiers on the numeral of any n |
| `RecScore.WeightCountExamples` | rec_score_analytic.py:182-193 | "0" → 1, "1" and "5" → -0.25, "6" → -1, and "abc", "" and "-1" → 0 |
| `RecScore.WeightAbuse` | rec_score_analytic.py:124-132 | "Y" → -1, "N" → +1, any other text → 0, each in both directions |
| `RecScore.WeightInspection` | rec_score_analytic.py:135-143 | "Y" → +1, "N" → -1, any other text → 0, each in both directions |
| `RecScore.WeightCouncil` | rec_score_analytic.py:146-154 | +1 iff the cell is exactly "Both", else 0 ("Resident" included) |
| `RecScore.WeightPtPerRes` | rec_score_analytic.py:157-164 | +1 iff the cell is a digit string whose value is at least 1, else 0 |
| `RecScore.WeightPtPerResExamples` | rec_score_analytic.py:157-164 | "0.5", "1.5", "" and "0" weigh 0; "2" weighs 1 |
| `RecScore.AvailableBeds` | rec_score_analytic.py:33-41 | beds minus residents when both are digit strings; a malformed resident count adds 1 to the beds; a malformed bed count gives at most 0 |
| `RecScore.MalformedBedsScoreMinusOne` | rec_score_analytic.py:37-41 | a malformed bed count always gives the available-beds factor -1 |
| `RecScore.WeightRecScoreData` | rec_score_analytic.py:28-70 | each of the ten factors is its own rule applied to its own column; available beds comes from the two bed columns |
| `RecScore.FactorRanges` | rec_score_analytic.py:58-69 | the rating factor is 1.25 times a natural number; the nine others are each -1, -0.25, 0 or 1; no factor is below -1 |
| `RecScore.SumLowerBound` | app.py:175 | a sum whose first term is non-negative and whose other terms are at least -1 is at least -(n-1) |
| `RecScore.WeightRecScoreDataExample` | rec_score_analytic.py:28-70 | rating 5, 40 beds, 20 residents, zero counts, abuse N, inspection N, council Both, 1 PT hour give factors 6.25, 1, 1, 1, 1, -1, 1, 1, 1, 1, summing to 13.25 |
| `App.GetIndexDictFromColumns` | app.py:104-110 | keys exactly the given columns, every value `None` |
| `App.SetIndexDictFromHeaders` | app.py:113-120 | each column found in the headers maps to its first header position; every other entry is kept unchanged; no other key is added |
| `App.IndexDictOfDistinctHeader` | app.py:116-119 | for a header without repeats, looking the header up in itself maps each name to its own position |
| `App.ValidateIndexDictUpdate` | app.py:123-130 | an error exactly when some entry is still `None`; the error carries the whole expected column list |
| `App.HeaderLookup` | app.py:104-130 | after set-up, present columns map to their first position and absent ones to `None`; validation passes iff every column is in the header, and then every column resolves inside it |
| `App.HeaderCheck` | app.py:191-205 | the run fails iff some filter or output column is missing; the filter group is reported first; on success both dictionaries resolve |
| `App.MissingPenaltiesRejected` | app.py:192-197 | a header without "Total Number of Penalties" fails the filter-column check |
| `App.ParseCell` | app.py:139-150 | the state cell stays text; the rating parses with default 1; the other filter cells parse with default 0 |
| `App.GetCellValDict` | app.py:139-150 | one typed value per filter column, each the parse of the row's cell at that column's index |
| `App.CellValDictWellTyped` | app.py:143-149 | every numeric filter key holds a number, so no condition compares text with a number |
| `App.CellMeetsFilterCondition` | app.py:153-167 | state equality, rating ≥ minimum, beds ≥ minimum, deficiencies and penalties ≤ maximum (no maximum = infinity); any other key fails |
| `App.MeetsAllFilters` | app.py:219-225 | the early-exit loop returns true iff every filter key meets its condition |
| `App.AcceptsIff` | app.py:217-225 | a row passes iff all five conditions hold on its parsed cells |
| `App.MalformedRatingPassesDefault` | app.py:146-147 | with the default minimum rating of 1, a malformed rating never rejects a row |
| `App.OutputNamesResolved` | app.py:39-85 | every column named in the output format is an output column, so it resolves once the output columns do |
| `App.JoinCells` | app.py:96-100 | the inner loop appends each column's cell, with ", " after every column but the first and the last |
| `App.FormatOutputDictionaries` | app.py:90-101 | the record is the fields of the output format in order, each key with its joined cells |
| `App.FormatFieldsAt` | app.py:94-101 | the i-th field is the i-th key with its joined columns |
| `App.JoinOne` | app.py:97-98 | a single column is copied verbatim |
| `App.JoinFour` | app.py:96-100 | four columns join as c0 + c1 + ", " + c2 + ", " + c3 |
| `App.FormatOutputShape` | app.py:72-101 | exactly seven keys in order, "residents_per_day:" included; single-column values verbatim; the address as street+city, ", " state, ", " zip |
| `App.ScoreIndexDict` | app.py:171-172 | with every score column in the header, each score column resolves inside the header |
| `App.WeightedScore` | app.py:174-176 | the score is at least -9/5 |
| `App.RecommendationScore` | app.py:170-176 | the score of any row with a cell at every score position is at least -9/5; the row may be narrower than the header |
| `App.RecommendationScoreExample` | app.py:170-176 | with a header of exactly the score columns, the row 5,40,20,0,0,N,N,Both,1,0,0 scores 13.25 / 5 = 2.65 |
| `App.RecommendationScoreTrailingColumns` | app.py:170-176 | appending header columns leaves the score of a row unchanged, even when the row does not reach them |
| `App.NarrowRowScoreExample` | app.py:170-176 | with a header of the score columns plus "Comment", the eleven-cell example row is narrower than the header and still scores 2.65 |
| `App.ProcessRow` | app.py:217-237 | for a non-empty row, the loop body's verdict is true iff the row passes, and then its record is the formatted fields plus the score |
| `App.FilterRows` | app.py:207-237 | the loop's records are the records of the passing rows, in row order, and its empty-row count is the number of empty rows; rows of any width are handled |
| `App.Run` | app.py:179-237 | fails iff a filter or output column is missing, with that group's error, before any row is read; otherwise returns the filtered records and the empty-row count |
| `App.FilteredRecordsAppend` | app.py:210-237 | output order follows input order: the records of two blocks of rows are those of the first block followed by those of the second |
| `App.FilteredRecordsOne` | app.py:210-237 | one row yields its record iff it is non-empty and passes all conditions |
| `App.FilteredRecordsCount` | app.py:210-237 | the number of records equals the number of passing rows: every passing row is kept and no count limit stops the loop |
| `App.FilteredRecordsBound` | app.py:210-237 | at most one record per non-empty row |
| `App.FilteredRecordsSound` | app.py:210-237 | every record is the record of some non-empty input row that passes every condition |

## Left out

- CSV reading and JSON writing (app.py:186-188 and 239-246) are not modelled: the
  latin-1 decoding, `csv.reader`, `json.dump` and the final prints. The header and
  the rows are parameters of `Run`. The output is its `RunResult`: the records
  plus the empty-row count that the source prints.
- Argument parsing (`arg_parse.py`) is not modelled. The options are a `Filter`
  value. `ValidFilter` states what parsing guarantees: a two-letter state,
  upper-cased, and a rating minimum in 1..5. Only ASCII letters are modelled.
- The option-name mismatch is not modelled. The program reads `args.file`, but the
  parser defines `--input_file`. `--output_file` is never used.
- `num_facilities` is never applied by the source, so the model has no count limit.
- Floating point is not modelled: scores are exact `real`s. The rounding of
  `float` division (for example 13.25 / 5) is not captured.
- The deficiency and penalty maxima are `float` in the source. They are
  `Option<int>` here, with `None` standing for the default of infinity. Every
  compared cell is a whole number, so a fractional maximum m acts like the whole
  number below it.
- `str.isdigit()` also accepts non-ASCII digits, and `int()` rejects some of them.
  Only ASCII `'0'..'9'` is modelled.
- App.RecommendationScore: the source raises when a score column is missing from
  the header (`row[None]`) or when a score position lies beyond the end of the
  row. Those inputs are excluded by `requires ScoreReady` rather than modelled as
  errors.
- App.Run: rows the source would raise on are excluded by `requires RowsHandled`
  rather than modelled as errors. These are a non-empty row without a cell at
  some filter position, and a passing row that lacks an output or score cell or
  whose header lacks a score column. Rows the source handles are never excluded,
  whatever their width.
- `set_index_dict_from_headers` updates its dictionary in place and returns it;
  the model returns a new value. The callers reassign the result, so no aliasing
  is lost.
- Python dictionaries are modelled two ways. Where order matters (the output
  record) they are sequences of pairs. Where it does not (index dictionaries, the
  filter cells, the score data) they are maps. The filter conditions are checked
  in the order of `FILTER_COLUMNS`, which is the source dictionary's insertion
  order.
- The "Recommendation Score" entry is the `recommendationScore` field of
  `FacilityRecord`, not an eighth pair.
