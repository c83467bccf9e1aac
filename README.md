# diasig: the GISAID case-table normalizer and mutation counters

This project models the core of `diasig` in Dafny. `diasig` prepares GISAID
SARS-CoV-2 sample tables for analysis of Mexico's covid-19 cases. The model
covers two parts of it.

**The normalizer** (`Diasing.py`) works row by row:

- It keeps only samples whose collection date is given to the day.
- It gives each sample a continuous week index that runs across 2020–2022.
- It takes the state token from the location path.
- It classifies the lineage into a variant label.
- It resolves the free-text patient age and puts it in a five-year age bucket.
- It groups the patient status into a numeric code.
- It maps the state token to a state key and a region descriptor.

**The mutation helpers** (`utils.py`) work on the substitution column:

- They extract each cell's first token that mentions a protein segment.
- They tally the distinct tokens.
- They read a token's residue position and the protein region holding it.
- They cross-tabulate requested mutations against variant types.

The code is modelled as written:

- Every Python exception the code can raise is a `Result` error, kind by kind.
- A loop the source writes as a loop is a `method` whose `while` loops carry invariants. Its `ensures` ties the result to a recursive specification function.
- A comprehension or lambda is a `function`.
- Python's `int()`, `str()`, `split`, `lower`, `replace` and literal `re.search` are written out in module `PyStr`.

The model follows the code as written. In particular:

- The status grouper and the lineage classifier drop a row they cannot resolve. They do not emit a sentinel for it.
- The age column aborts on the `ValueError` of an `int()` call made inside the `except` branch.
- A mutation whose position lies in no protein region is an `IndexError`, not a default region.
- The state token is the raw third path field, surrounding spaces included.

Modules: `Py` (Option, Result, Python exceptions, comprehension combinators),
`PyStr` (Python string operations and integer parsing), `Completion`,
`Lineage`, `Age`, `PatientStatus`, `States` (all from `Diasing.py`),
`ValueCounts`, `Mutations`, `CrossTab` (from `utils.py`).

## Model

| member | source | states |
|---|---|---|
| Completion.KeepDated | diasig/core/Diasing.py:103 | the filtered table holds exactly the rows whose collection date is longer than seven characters, and no more rows than the input |
| Completion.KeepDatedAppend | diasig/core/Diasing.py:103 | the filter works row by row: filtering a concatenation is the concatenation of the filtered parts, so relative order is kept |
| Completion.KeepDatedCount | diasig/core/Diasing.py:103 | no row is dropped exactly when every date has a day, and then the table is unchanged |
| Completion.ContinuousWeek | diasig/core/Diasing.py:123-124 | a week index exists exactly for ISO years 2020 to 2022; any other year raises KeyError |
| Completion.ContinuousWeekValue | diasig/core/Diasing.py:123-124 | the index is the ISO week plus 53 per year after 2020 |
| Completion.ContinuousWeekIncreasing | diasig/core/Diasing.py:123-124 | for weeks 1 to 53 the index strictly increases with (ISO year, ISO week) |
| Completion.ContinuousWeekInverse | diasig/core/Diasing.py:123-124 | the index lies in 1..159 and the ISO year and week can be recovered from it |
| Completion.ContinuousWeeks | diasig/core/Diasing.py:122-124 | one index per row; the column is computed exactly when every row's year is listed, and otherwise fails with KeyError |
| Completion.StateToken | diasig/core/Diasing.py:127 | a token exists exactly when the path has at least two '/' separators; it contains no '/', and otherwise IndexError is raised |
| Completion.StateTokenOf | diasig/core/Diasing.py:127 | for any path continent/country/state[/…] the token is the state field exactly as written |
| Completion.StateTokenUntrimmed | diasig/core/Diasing.py:127 | in "North America / Mexico / Jalisco" the token keeps its leading space: " Jalisco" |
| Completion.StateTokens | diasig/core/Diasing.py:126-127 | one token per row; the column is computed exactly when every path has three fields, and otherwise fails with IndexError |
| Lineage.Scan | diasig/core/Diasing.py:150-156 | no label exactly when no entry lists the lineage and none is the catch-all; otherwise the label of the first entry that lists it or is the catch-all |
| Lineage.Classify | diasig/core/Diasing.py:147-156 | Delta for any lineage containing "AY"; no label exactly when there is no "AY" and no entry fires; otherwise the label of the first entry that fires |
| Lineage.Labels | diasig/core/Diasing.py:144-156 | the labels of a column, at most one per row |
| Lineage.LineageNormalized | diasig/core/Diasing.py:143-159 | for a non-empty column it returns the labels row by row; for an empty column the logging line raises UnboundLocalError |
| Lineage.LabelsAppend | diasig/core/Diasing.py:146-156 | classification is row by row: labels of a concatenation are the concatenated labels |
| Lineage.LabelsLength | diasig/core/Diasing.py:146-156 | no row is dropped exactly when every row is classified |
| Lineage.CatchAllTotal | diasig/core/Diasing.py:154-156 | with the "Other linages" entry in the catalog every lineage is classified |
| Lineage.LabelsAligned | diasig/core/Diasing.py:146-156 | with the catch-all present, label i belongs to row i: Delta for an "AY" lineage, else the first firing entry's label |
| Lineage.DeltaOverride | diasig/core/Diasing.py:147-148 | a lineage containing "AY" is Delta whatever the catalog lists it under |
| Lineage.UnmatchedDropped | diasig/core/Diasing.py:150-156 | a lineage no entry lists, without a catch-all entry, contributes no label |
| Age.Quinquennium | diasig/core/Diasing.py:161-164 | None exactly when no bucket holds the age; otherwise (age, id of the first bucket holding it) |
| Age.GetQuinquennium | diasig/core/Diasing.py:161-164 | the loop returns the first-bucket pair of Quinquennium |
| Age.ResolveAge | diasig/core/Diasing.py:178-197 | the cascade's failure contract (each step that succeeds has a lemma below): it fails only with ValueError, and only for text that int() rejects, that the alias catalog lacks, and that is a placeholder, has an 'A' or has a '.' |
| Age.AgeCell | diasig/core/Diasing.py:179-196 | a row's element fails exactly when its cascade fails, and only with ValueError |
| Age.AgeColumn | diasig/core/Diasing.py:176-198 | one element per row, computed exactly when no row's cascade raises; otherwise ValueError |
| Age.AgeColumnAborts | diasig/core/Diasing.py:177-198 | once a prefix of the rows raises, the whole column raises that same exception |
| Age.AgeNormalized | diasig/core/Diasing.py:166-198 | the loop, which takes each row's try/except cascade as ResolveAge, returns AgeColumn: the bucket pairs of every row, or the first row's ValueError |
| Age.IntegerAge | diasig/core/Diasing.py:179-180 | any text int() accepts (" 45", "045", "+45", and the decimal spelling of every integer) is that age, whatever the catalogs hold |
| Age.AliasAge | diasig/core/Diasing.py:182-184 | text int() rejects whose lower-cased form is in the alias catalog takes the catalog's number, before any later step |
| Age.PlaceholderAge | diasig/core/Diasing.py:185-186 | a status or sex placeholder reads int() of the gender column, raising when that is not an integer |
| Age.DecadeAge | diasig/core/Diasing.py:187-189 | text with an 'A' is the integer before the first 'A' |
| Age.MonthsAge | diasig/core/Diasing.py:190-191 | text without an 'A' that mentions "onths" is age 0 |
| Age.DecimalAge | diasig/core/Diasing.py:192-194 | otherwise a decimal's integer part is the age |
| Age.UnresolvedAge | diasig/core/Diasing.py:195-197 | text no step recognises is age -1, which has no bucket unless a bucket lists -1 |
| Age.MaleExample | diasig/core/Diasing.py:185-186 | "Male" with gender "1" is age 1 |
| Age.MaleAliasExample | diasig/core/Diasing.py:182-186 | "Male" with "male" in the alias catalog takes the alias, not the gender column |
| Age.PaddedIntegerExample | diasig/core/Diasing.py:179 | " 045" is age 45 |
| Age.YearsTextExample | diasig/core/Diasing.py:187-189 | "40 Años" is age 40 |
| Age.AdultAborts | diasig/core/Diasing.py:187-189 | "Adult" leaves nothing before the 'A', so the cascade raises ValueError |
| PatientStatus.GroupPatientStatus | diasig/core/Diasing.py:216-226 | the loop returns StatusGroups: one code per resolved row, in order |
| PatientStatus.StatusCode | diasig/core/Diasing.py:219-225 | an integer catalog code for the lower-cased text wins; no code exactly when the lookup or int() fails and the text does not mention "home"; any code other than 1 comes from the catalog |
| PatientStatus.StatusGroups | diasig/core/Diasing.py:218-225 | the codes of a column, at most one per row |
| PatientStatus.StatusGroupsAppend | diasig/core/Diasing.py:218-225 | grouping is row by row and keeps relative order |
| PatientStatus.StatusGroupsLength | diasig/core/Diasing.py:218-225 | no row is dropped exactly when every status resolves to a code |
| PatientStatus.CatalogHit | diasig/core/Diasing.py:220 | a status whose lower-cased text has an integer code gets that code, in any letter case |
| PatientStatus.HomeFallback | diasig/core/Diasing.py:221-223 | a catalog miss mentioning "home" is code 1 |
| PatientStatus.UnknownDropped | diasig/core/Diasing.py:224-225 | any other status contributes nothing |
| PatientStatus.AtHomeExample | diasig/core/Diasing.py:219-223 | "At Home" is code 1 when the catalog lacks "at home" |
| States.StatePair | diasig/core/Diasing.py:212-213 | KeyError exactly when the token is not in states_types; otherwise the pair (key, descriptor) when the key is a listed string key, and (99, "Extra") when it is not |
| States.StateNormalized | diasig/core/Diasing.py:212-213 | one pair per token, computed exactly when every token is in states_types; otherwise KeyError |
| States.IntegerKeyFallsBack | diasig/core/Diasing.py:212 | as written, an integer key always falls back to (99, "Extra") |
| States.IntegerKeyExample | diasig/core/Diasing.py:212 | Jalisco with key 14 and "14" listed as "Occidente" still yields (99, "Extra") |
| States.StatePairIntended | diasig/core/Diasing.py:212 | corrected lookup by the key's string: KeyError exactly when the token is missing |
| States.CorrectionChanges | diasig/core/Diasing.py:212 | the corrected and as-written lookups differ exactly for an integer key whose decimal string is listed with a pair other than (99, "Extra") |
| States.IntendedIntegerKey | diasig/core/Diasing.py:212 | corrected: an integer key finds the descriptor under its decimal string |
| States.IntendedAgreesOnStringKeys | diasig/core/Diasing.py:212 | for string keys the corrected and as-written lookups agree |
| States.StateNormalizedIntended | diasig/core/Diasing.py:212-213 | the corrected column: one pair per token, each the listed descriptor or the fallback |
| Mutations.Tokens | diasig/utils/utils.py:68 | a cell splits into at least one token, and no token holds '(' , ')' or ',' |
| Mutations.FirstWith | diasig/utils/utils.py:68-71 | None exactly when no token contains the segment; otherwise the first token that does |
| Mutations.CellHit | diasig/utils/utils.py:68-71 | a cell adds at most one token: one exactly when some token contains the segment, and it contains the segment and no parenthesis or comma |
| Mutations.Extracted | diasig/utils/utils.py:67-71 | at most one token per cell, each containing the segment and free of parentheses and commas |
| Mutations.SearchAmino | diasig/utils/utils.py:66-72 | the loops append to the accumulator exactly the extracted tokens of the column, in row order |
| Mutations.ExtractedAppend | diasig/utils/utils.py:67-71 | extraction is cell by cell: the tokens of a concatenation are the concatenated tokens |
| Mutations.ExtractedTokens | diasig/utils/utils.py:67-71 | at most one token per cell; each contains the segment and no parenthesis or comma; one per cell exactly when every cell has a hit |
| Mutations.InfixMatch | diasig/utils/utils.py:69 | the segment is matched anywhere inside a token, not only at its start |
| Mutations.Position | diasig/utils/utils.py:13 | IndexError when there is no second field or it has no digits; a position implies the token has an '_' |
| Mutations.PositionOf | diasig/utils/utils.py:13 | "segment_<letters><n><rest>" has position n |
| Mutations.PositionNoSeparator | diasig/utils/utils.py:13 | a token without '_' raises IndexError |
| Mutations.PositionNoDigits | diasig/utils/utils.py:13 | a second field without digits raises IndexError |
| Mutations.PositionExample | diasig/utils/utils.py:13 | "Spike_D614G" has position 614 |
| Mutations.FirstCover | diasig/utils/utils.py:18 | no name exactly when no region's half-open range holds the position; otherwise the first covering region's name |
| Mutations.RegionOf | diasig/utils/utils.py:18 | a region exactly when the protein is catalogued, the position exists and a region covers it; the first such region; else KeyError for an unknown protein and IndexError otherwise |
| Mutations.TableRow | diasig/utils/utils.py:15 | a row exactly when the region is found, carrying the token, its count, its segment prefix, its position and its region; the error of the first failing lookup otherwise |
| Mutations.Table | diasig/utils/utils.py:15 | one row per pair, built exactly when every token has a region |
| Mutations.TableOfTokens | diasig/utils/utils.py:15-17 | the table of a tally has tokens strictly ascending, one row per distinct token, each count equal to its occurrences, with its position and region |
| Mutations.RegionOfArray | diasig/utils/utils.py:18 | as written, p_p on the value array always raises: KeyError exactly for an unknown protein |
| Mutations.TableRowAsWritten | diasig/utils/utils.py:15 | as written, every row raises |
| Mutations.TableAsWritten | diasig/utils/utils.py:15 | as written, the table is built exactly when there are no tokens |
| Mutations.TableAsWrittenExample | diasig/utils/utils.py:15-18 | "Spike_D614G" within S1 raises AttributeError as written, and gives the row (…, 614, "S1") once corrected |
| ValueCounts.Tally | diasig/utils/utils.py:17 | the tally is strictly ascending with positive counts, records each value's multiplicity and sums to the input length |
| ValueCounts.UniqueCounts | diasig/utils/utils.py:17 | np.unique with counts: distinct values ascending, each count equal to its occurrences, a value listed exactly when it occurs |
| ValueCounts.InsertAscending | diasig/utils/utils.py:17 | adding one occurrence keeps the tally ascending with positive counts |
| ValueCounts.InsertOcc | diasig/utils/utils.py:17 | adding one occurrence adds one to that value's count and to the total, and nothing else |
| CrossTab.PropertiesMutations | diasig/utils/utils.py:55-64 | the empty table gives {}; otherwise every requested change has an entry with a count for every variant type, equal to the times requested multiplied by the matching rows of that type |
| CrossTab.CountRow | diasig/utils/utils.py:59-63 | the inner loop over the changes, for one row, equals its specification RowCount |
| CrossTab.StepEffect | diasig/utils/utils.py:60-63 | one pass of the inner loop gives the change an entry, all zeros when new, and adds one under the row's variant exactly when its substitutions contain the change; nothing else changes |
| CrossTab.RowCountKeys | diasig/utils/utils.py:59-63 | the inner loop gives every change of the list an entry and leaves other entries as they were |
| CrossTab.Tabulate | diasig/utils/utils.py:56-63 | no rows give {}; otherwise the keys are exactly the requested changes |
| CrossTab.TabulateSpec | diasig/utils/utils.py:57-63 | the keys, the shape and the counts of the cross-tabulation, in terms of the input |
| CrossTab.WeightedHits | diasig/utils/utils.py:59-63 | counting once per request gives the request count multiplied by the number of hits |
| CrossTab.DistinctChanges | diasig/utils/utils.py:59-63 | with each change requested once, an entry is the number of matching rows, at most the rows of that type |
| CrossTab.TwoVariantsExample | diasig/utils/utils.py:62-63 | N_R203K in one Delta row and one Omicron row counts one for each |
| Py.MapOrRaise | diasig/core/Diasing.py:124 | a comprehension is computed exactly when no element raises, element by element; otherwise the first raising element's exception |
| PyStr.PyInt | diasig/core/Diasing.py:179 | int() accepts only digits, a sign and whitespace, and reads any run of decimal digits as its value |
| PyStr.Split | diasig/core/Diasing.py:127 | at least one field, none holding the separator (with SplitJoin, JoinSplit and SplitCount) |
| PyStr.Lower | diasig/core/Diasing.py:182 | the same length, lowering each character |
| PyStr.Remove | diasig/utils/utils.py:68 | no longer than the input, holding exactly its characters other than the removed one |
| PyStr.Find | diasig/core/Diasing.py:188 | the index of the first occurrence of the character, None exactly when it does not occur |
| PyStr.FirstDigitRun | diasig/utils/utils.py:13 | None exactly when the text holds no digit; otherwise a non-empty run of digits |
| PyStr.PyIntShowInt | diasig/core/Diasing.py:179 | int(str(i)) == i |
| PyStr.PyIntRejects | diasig/core/Diasing.py:179 | int() rejects text holding any character other than digits, a sign or whitespace |
| PyStr.SplitJoin | diasig/core/Diasing.py:127 | splitting a join of separator-free fields gives back the fields |
| PyStr.SplitCount | diasig/core/Diasing.py:127 | a split has one more field than there are separators |
| PyStr.FirstDigitRunOf | diasig/utils/utils.py:13 | findall of digit runs returns first the run that follows a digit-free prefix |
| PyStr.ContainsAt | diasig/utils/utils.py:69 | a literal search finds the pattern at some offset |

## Left out

- Reading the CSV and JSON files, the catalog loading, logging and the `ThreadPoolExecutor` fan-out. These are I/O and scheduling. The catalogs are parameters, and a logged message is not modelled.
- `strptime` and `isocalendar`: date parsing is library work. The ISO (year, week, weekday) triple is an input of `Completion.ContinuousWeek`.
- `__year__` and `__week__` are not modelled. `__year__` re-parses the date and takes its calendar year, which differs from the ISO year at year boundaries (2021-01-01 is ISO week 53 of 2020 but Year 2021). `__week__` copies the ISO week of the triple.
- `get_mutations`, the orchestration around the helpers, is not modelled. The helpers it calls are. Two of its behaviours are therefore not captured: it never calls `search_amino` for "NSP", and its `table2` reuses the last `v, c`.
- `get_table` builds a list that it never returns. It has no observable result.
- `__normalize__` assigns the normalizers' columns to the data frame and is not modelled. Those assignments raise pandas' length-mismatch `ValueError` whenever the lineage classifier or the status grouper has dropped a row, which is what `Lineage.LabelsLength` and `PatientStatus.StatusGroupsLength` characterise.
- Mutations.SearchAmino: the shared mutable default `amino=[]` is not modelled. It makes successive calls append to the same list. The model takes the accumulator as a value and returns the new list, so aliasing between calls is left out.
- `re.search` with a pattern is modelled as a literal substring search. The segment names and mutation names the code searches for contain no regular-expression metacharacters.
- Python's `int()` is modelled on ASCII only. Unicode digits, Unicode whitespace and underscores between digits are left out. `lower()` lowers ASCII letters only, and `\d` matches ASCII digits only.
- A JSON catalog value is modelled as a number or a string. JSON floats, booleans and nulls are left out.
- NaN cells of the data frame are left out. Every cell is modelled as text.
- ValueCounts.Tally: numpy returns the distinct values and their counts as two arrays. The model keeps them as one sequence of pairs. numpy's stripping of trailing NUL characters from `<U` strings is left out.
- CrossTab.PropertiesMutations: `df['variant_type'].unique()` is modelled as a set. The insertion order of the inner dictionaries is therefore not modelled.
- CrossTab.Step: the `+= 1` on a missing variant would raise `KeyError`, and the specification function guards it. The method `CrossTab.CountRow` performs the update unguarded, as the source does; its loop invariant `HasVariant` (every entry has a count for the row's variant) is what shows the guard never fails.
- Age: the `age_quinquennia` catalog is a module-level constant of the repository. It is not part of this model and is passed in as a parameter.
- The `age_unification` values are modelled as integers.

## Findings

| source | as written | input that shows it | evidently intended | confidence | as-written member | corrected member |
|---|---|---|---|---|---|---|
| diasig/core/Diasing.py:157-158 | the final logging line reads the loop variable `_df`, which is unbound when the column is empty | an empty lineage column: UnboundLocalError | return the empty label list (logging the miss) | not executed | Lineage.LineageNormalized | Lineage.Labels |
| diasig/core/Diasing.py:212 | `_df in dic_k.keys()` compares an integer state key with the string keys of a JSON object, so it never holds | states_types {"Jalisco": 14}, unique_states_types {"14": "Occidente"}: (99, "Extra") | test `str(_df) in dic_k.keys()`, as the lookup `dic_k[str(_df)]` does | not executed | States.IntegerKeyExample | States.CorrectionChanges |
| diasig/utils/utils.py:15 | `p_p(val, aa)` passes the whole value array, so `position` calls `.split` on an array | the tally [("Spike_D614G", 1)] with Spike region S1 = 14..686: AttributeError | `p_p(val[i], aa)`, the region of row i's token | not executed | Mutations.TableAsWrittenExample | Mutations.TableOfTokens |
