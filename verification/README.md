# Follow-up fusion and staging of hub-als, modelled in Dafny

This project models the follow-up pipeline of the hub-als ALS registry
tools. The pipeline takes three per-source visit tables: `als_data` (the
ALSFRS items), `nutr_data` (nutrition) and `resp_data` (respiratory). It
fuses them into one row per (`id_paciente`, `fecha_visita`) and derives
`cortar`, King's stage, MiToS stage and the ALSFRS sub-totals for each row.
It then resamples each patient's timeline onto a regular calendar. The
pipeline exists in two near-identical copies, `src/projects/followup.py`
and `src/projects/_followup.py`, and in an older variant in
`bin/projects/precision_als.py`. That variant also exports the earliest
date at which each patient reached each stage.

A table is a sequence of `Row(patient, date, cells)`. The two identifier
columns are `Option`s, because they can be missing before clean-up. A
missing cell is simply absent from the row's map. Under that encoding,
"fill this cell from another row" is map union. Dates are day numbers.
Nullable values follow pandas' nullable dtypes (`Int64`, `boolean`):

- a comparison on a missing value is missing;
- `|` is Kleene OR;
- `.any(axis=1)` skips missing values;
- `astype('Int64')` and `+` propagate missing values;
- `where` treats a missing condition as false.

Modules, in pipeline order:

- `Nullable`: `Option` and the nullable operators.
- `Records`: rows, keys, the pandas key order (missing parts last), the column lists, and the rows of one key.
- `Merge`: the full outer join on the key and the three-source merge.
- `Fill`: the grouped forward fill, the drop of incomplete keys, the per-key back fill and the keep-first dedup.
- `Staging`: `cortar` resolution, King's, MiToS, the ALSFRS sub-totals and `_add_calculated_fields`.
- `Followup`: `load_followup_data` end to end.
- `Resample`: `resample_followup_data` and its per-patient helper.
- `PrecisionAls`: the cases filter, the follow-up table, the earliest stage dates and the label maps of the precision_als project.

Every step is a pure function. Its contract, or a lemma next to it, states
what the step guarantees in the pipeline's own terms:

- the merged keys are exactly the source keys;
- after clean-up every key is complete and occurs once;
- each column holds the first value present among its key's rows;
- filling never crosses patients;
- stages and sub-totals keep their ranges;
- each resampled row carries the latest visit value per column.

Three behaviours are modelled as the code has them:

- **`cortar` on carriers.** Line 130 of `src/projects/followup.py` reassigns the whole `cortar` column from the non-carrier rows. This discards the `cortar_con_peg` values line 129 gave to PEG carriers. On a carrier's row `cortar` is therefore missing, and so are `alsfrs_motorf_c` and `alsfrs_total_c` (`Staging.CortarResolution`, `Staging.CarrierLosesCortar`). The model builds the column from the three assignments as written; `Staging.IntendedCortar` is the carrier-aware value, and `Staging.CortarVersusIntended` says exactly where the two differ.
- **King's inputs.** The upper region reads `cortar_sin_peg`, and the end-stage test reads `indicacion_peg` rather than `portador_peg`.
- **precision_als forward fill.** The fill at `bin/projects/precision_als.py:75` runs in place on a `.loc` copy and never reaches the table. The precision follow-up table is therefore the plain merge with the two stages added (`PrecisionAls.PrecisionFollowupsSpec`).

## Model

| member | source | states |
|---|---|---|
| Nullable.Or | src/projects/followup.py:97 | Kleene OR: true iff either side is true, false iff both are false, missing otherwise |
| Nullable.AnySkipNa | src/projects/followup.py:94-95 | `.any(axis=1)` is true iff some entry is true; missing entries are skipped, so the result is never missing |
| Merge.OuterJoin | src/projects/followup.py:119 | the outer merge is sorted by key; each key's rows are the joined block of both sides; a key is present iff it is on either side |
| Merge.BlockBothSides | src/projects/followup.py:119 | a key on both sides gives the cartesian product: one fused row per pair of left and right rows, and every pair occurs |
| Merge.Product | src/projects/followup.py:119 | the rows of a key found on both sides number the left rows times the right rows |
| Merge.ProductOrder | src/projects/followup.py:119 | the product is left-major: left row i meets right row j at position i·n + j, n being the number of right rows |
| Merge.BlockOrder | src/projects/followup.py:119-120 | within a key found on both sides, the joined rows come left-major, which fixes the row the back fill reads first |
| Merge.ProductMembers | src/projects/followup.py:119 | every product row fuses one left row with one right row, and every such pair is in the product |
| Merge.Merge3 | src/projects/followup.py:119-120 | the three-source merge is sorted by key and has exactly the keys of als, nutrition and respiratory data |
| Merge.MissingSourceKey | src/projects/followup.py:119-120 | a source without the key adds no rows and no columns to it: the key's rows are the join of the two other sources alone |
| Merge.SingleSourceKey | src/projects/followup.py:119-120 | a key found in one source only (als, nutrition or respiratory) comes through with exactly that source's rows, so the other sources' columns stay missing |
| Merge.FuseSingleVisits | src/projects/followup.py:119-120 | one visit per source for a key gives exactly one merged row holding the union of the three rows' columns |
| Fill.ForwardFill | src/projects/followup.py:121 | the grouped fill keeps the row count and every row's key |
| Fill.ForwardFillCells | src/projects/followup.py:121 | columns outside the fill list are untouched; a row without a patient loses its fill columns; otherwise a fill cell is the row's own value, else the patient's latest earlier value |
| Fill.LastValueSpec | src/projects/followup.py:121 | the carried value is missing iff no earlier row of the same patient has the column; otherwise it comes from the latest such row |
| Fill.CarriedIsLastValue | src/projects/followup.py:121 | the per-patient carry state holds, for each fill column, exactly the patient's latest non-missing value |
| Fill.LeadingMissingStays | src/projects/followup.py:121 | if no row of the patient up to this one has the column, the filled cell stays missing |
| Fill.ForwardFillIdempotent | src/projects/followup.py:121 | filling a filled table changes nothing |
| Fill.DropMissingKeys | src/projects/followup.py:122 | every surviving row comes from the input and has both identifiers |
| Fill.DropMissingKeysRows | src/projects/followup.py:122 | the rows of every complete key are all kept, in their order |
| Fill.DropMissingKeysSorted | src/projects/followup.py:122 | dropping rows keeps a sorted table sorted |
| Fill.DropMissingKeysNoOp | src/projects/followup.py:122 | a table with only complete keys is unchanged |
| Fill.FirstPresentSpec | src/projects/followup.py:124-125 | a key's back-filled value is missing iff none of its rows has the column, else it is the value of the first row that has it |
| Fill.FirstPresentRowsWith | src/projects/followup.py:124-125 | the back fill of a key depends only on that key's rows |
| Fill.KeyBackfill | src/projects/followup.py:124-125 | each row keeps its key, and each cell becomes the first value present from that row onward among rows of the same key |
| Fill.DedupPerKey | src/projects/followup.py:126 | dedup leaves, for each key, exactly the key's first row, or nothing when the key is absent |
| Fill.DropDuplicates | src/projects/followup.py:126 | the kept rows come from the input, have pairwise distinct keys and stay sorted |
| Fill.DedupNoOp | src/projects/followup.py:126 | a table with distinct keys is unchanged by dedup |
| Fill.Consolidate | src/projects/followup.py:122-126 | the cleaned table has pairwise distinct keys |
| Fill.ConsolidateSpec | src/projects/followup.py:122-126 | after clean-up: every key is complete and unique; the keys are the input's complete keys; every cell is the first value present for its key; a sorted input gives a strictly sorted output |
| Fill.ConsolidateNoOp | src/projects/followup.py:122-126 | a table with complete, distinct keys is already clean |
| Fill.ConsolidateIdempotent | src/projects/followup.py:122-126 | cleaning twice is the same as cleaning once |
| Fill.ConsolidateRowOrigin | src/projects/followup.py:122-126 | a cleaned row has a complete key that survives the drop, and is the first back-filled row of that key |
| Staging.AssignWhere | src/projects/followup.py:129-130 | assigning a filtered column gives the source column's value on the selected rows and a missing value on every other row; other columns and the key are kept |
| Staging.CortarResolution | src/projects/followup.py:128-130 | after the three assignments, `cortar` is missing on PEG carriers and equals `cortar_sin_peg` on every other row, a missing carrier flag included; nothing else changes |
| Staging.CortarVersusIntended | src/projects/followup.py:128-130 | the resolved `cortar` equals the carrier-aware value (`cortar_con_peg` for carriers) exactly on non-carriers and on carriers without a `cortar_con_peg` value |
| Staging.CortarCarrierExample | src/projects/followup.py:129-130 | a carrier with `cortar_con_peg` 2 and `cortar_sin_peg` 3 gets no `cortar`, where the carrier-aware value is 2 |
| Staging.CortarIgnoresWithPegItem | src/projects/followup.py:129-130 | `cortar_con_peg` has no influence on the resolved `cortar` |
| Staging.CarrierLosesCortar | src/projects/followup.py:128-139 | on carriers, `cortar`, the fine-motor sub-total and the total are missing; elsewhere `cortar` is `cortar_sin_peg` |
| Staging.KingsStage | src/projects/followup.py:93-100 | 4 iff end-stage; otherwise missing when `caminar` is missing, else the number of affected regions, with upper read from `cortar_sin_peg`; always within 0..4 |
| Staging.PairFlag | src/projects/followup.py:104-107 | a two-item domain's Kleene OR is true iff an item is at or below its bound, and known iff the domain is determined |
| Staging.MitosStage | src/projects/followup.py:103-112 | present iff every domain is determined (an affected item, or all items present); then the count of affected domains, in 0..4 |
| Staging.SubTotal | src/projects/followup.py:135-139 | a sub-total is present iff every item is present, never a partial sum; items in 0..4 give a value in 0..4 per item |
| Staging.SubTotalOfThree | src/projects/followup.py:135-138 | a three-item sub-total is the plain sum of the three items |
| Staging.SubTotalAppend | src/projects/followup.py:139 | the sum over two item lists is the nullable sum of their sums |
| Staging.TotalIsSumOfSubtotals | src/projects/followup.py:21-58 | the total is bulbar + fine motor + gross motor + respiratory, since its item list is their concatenation |
| Staging.AlsfrsBounds | src/projects/followup.py:135-139 | with items in 0..4, each sub-total is in 0..12 and the total is in 0..48 |
| Staging.AddCalculatedFields | src/projects/_followup.py:83-95 | the key and every non-derived column are unchanged; each of the eight derived columns takes its rule's value |
| Followup.LoadFollowupData | src/projects/followup.py:114-141 | the follow-up table has pairwise distinct keys |
| Followup.FilledKeys | src/projects/followup.py:119-121 | the filled merge is sorted and has exactly the merged keys |
| Followup.LoadFollowupDataRows | src/projects/followup.py:119-139 | each output row has a complete key and extends a row that holds, per column, the first value present among its key's filled merged rows |
| Followup.LoadFollowupDataSpec | src/projects/followup.py:114-141 | no missing identifier; strictly increasing (patient, date), so each key occurs once; keys are exactly the complete keys of the three sources; cells as in LoadFollowupDataRows |
| Resample.Patients | src/projects/_followup.py:133 | the groups are the patients with a row, in increasing id order, each once |
| Resample.Group | src/projects/_followup.py:121-123 | a group holds exactly the rows of one patient id; this is the single-id assertion |
| Resample.LastDate | src/projects/_followup.py:124 | `end` is missing iff no row of the group is dated; otherwise it is the latest visit date |
| Resample.DayCellsSpec | src/projects/_followup.py:130-131 | on each calendar day, a column holds the value of the latest visit in [begin, day] that has it, and is missing when there is none |
| Resample.ResamplePatient | src/projects/_followup.py:130-131 | one row per kept calendar day, row j for patient p at day begin + j·k |
| Resample.ResamplePatientCalendar | src/projects/_followup.py:130-131 | the rows are dated exactly begin, begin+k, … up to end, in strictly increasing order; a daily step gives end − begin + 1 rows |
| Resample.ResamplePatientCells | src/projects/_followup.py:130-131 | each resampled row's column comes from the latest visit from `begin` to its day; visits before `begin` are never carried in |
| Resample.VisitKept | src/projects/_followup.py:130-131 | a visit dated on the kept calendar has all its values on the row of its day |
| Resample.PatientRows | src/projects/_followup.py:121-131 | every row of a valid group's resampling belongs to the patient and is dated |
| Resample.PatientRowsCalendar | src/projects/_followup.py:123-130 | with no start date: one row at the last visit; a start after the last visit: no rows; otherwise, daily: one row per day from start to last visit |
| Resample.LastVisitKept | src/projects/_followup.py:124-131 | when the last visit is on the calendar, the last row is dated at it and keeps every value it has |
| Resample.ResampleGroups | src/projects/_followup.py:133 | success iff every group is valid; a failure names the first invalid patient and the reason (no dated visit, or repeated dates) |
| Resample.ResampleGroupsRows | src/projects/_followup.py:133-134 | on success, every row belongs to a listed patient, rows are strictly sorted by (patient, date), and each patient's rows are its resampled group |
| Resample.Resample | src/projects/_followup.py:119-135 | the operation fails iff some patient's group has no dated visit or repeats a date, and then names the lowest such patient |
| Resample.ResampleRows | src/projects/_followup.py:133-135 | on success, rows are keyed by (patient, calendar day), strictly sorted, and each patient contributes exactly its resampled group |
| PrecisionAls.Cases | bin/projects/precision_als.py:61 | the cases are exactly the patient records with a diagnosis date, each with its original multiplicity |
| PrecisionAls.CasesAppend | bin/projects/precision_als.py:61 | the filter keeps table order |
| PrecisionAls.WithStages | bin/projects/precision_als.py:78-79 | a row gains `kings_c` and `mitos_c` from its own items and keeps its key and every other column |
| PrecisionAls.WithStagesAllSpec | bin/projects/precision_als.py:78-79 | adding the stages keeps the table's length, keys and every other column |
| PrecisionAls.PrecisionFollowups | bin/projects/precision_als.py:73-79 | the follow-up table is sorted by key and has exactly the keys of the three sources |
| PrecisionAls.PrecisionFollowupsSpec | bin/projects/precision_als.py:73-76 | the follow-up table is the merge row for row: incomplete keys kept, no dedup, no carry-forward column filled |
| PrecisionAls.PrecisionStages | bin/projects/precision_als.py:34-53 | each row's King's and MiToS stages follow the same rules as `load_followup_data`, hence lie in 0..4 or are missing |
| PrecisionAls.EarliestStageDates | bin/projects/precision_als.py:156-166 | every patient with an entry has a row at the stage |
| PrecisionAls.EarliestStageDatesSpec | bin/projects/precision_als.py:156-166 | a patient has an entry iff some row is at stage n; the entry is the earliest such visit date, and NaT only when none of those rows is dated |
| PrecisionAls.NoDatesOutsideStages | bin/projects/precision_als.py:156-166 | no patient has a date for a stage outside 0..4, so the ten export columns cover all stage dates |
| PrecisionAls.Relabel | bin/projects/precision_als.py:146 | `.map(labels)` is present exactly on listed values (a missing value gives missing), and every result is one of the map's labels |
| PrecisionAls.RelabelRoundTrip | bin/projects/precision_als.py:148-149 | a sanity property of the label maps, not a computation of the source: with a one-to-one map, reading the label back gives the original value |
| PrecisionAls.ExportLabels | bin/projects/precision_als.py:15-18 | Hombre→Male and Mujer→Female; Normal→Normal and Alterado→Altered; anything else is missing; both maps are one-to-one |

## Left out

- File loading through `load_data` (`src/projects/followup.py:115-117`, `src/projects/_followup.py:101-103`, `bin/projects/precision_als.py:60-71`) is not modelled. The tables are parameters.
- The inner merge with the patients table and the export column selection (`src/projects/followup.py:150-153`) are not modelled. They are pandas plumbing.
- From precision_als, the console report `describe` is not modelled. Neither are the export DataFrame's index alignment, its constant `None` columns and its column selection. The earliest stage dates and the label maps are modelled.
- Merge.OuterJoin: does not model pandas' `_x`/`_y` suffixing of clashing non-key column names. A fused row takes the right side's value for such a column, and the three sources' non-key columns are taken to be disjoint.
- Merge.Merge3: a column that a source table lacks altogether is modelled as present and missing on every row. In the source, selecting such a column raises a KeyError or AttributeError: the merge keys at `src/projects/followup.py:119-120`, the `portador_peg`, `cortar_con_peg` and `cortar_sin_peg` columns at lines 129-130, and the item columns at lines 94-107 and 135-139. The model has no table schema, so it has no such error path.
- Fill.ForwardFill: a fill column missing from the merged table is a KeyError at `src/projects/followup.py:121`; the model fills it as an all-missing column. The nutrition columns are spelled `supl_oral`/`supl_enteral` there and `supl_nutr_oral`/`supl_nutr_ent` in `bin/projects/precision_als.py`, so unless the nutrition table carries both spellings, one of the two fill lines raises.
- PrecisionAls.PrecisionFollowups: the `.loc[:, FOLLOWUP_FFILL_COLUMNS]` selection at `bin/projects/precision_als.py:75` raises a KeyError when a listed column is absent; the model treats the line as having no effect.
- Column dtypes are not modelled. Every score is read as a nullable integer, a non-numeric cell reads as missing, and every flag is read as a nullable boolean.
- PrecisionAls.PrecisionStages: precision_als computes the stages with `astype(float)` instead of `astype('Int64')`. With nullable (Kleene) inputs the two give the same value, and that is the case modelled. With plain `float64` columns, a comparison on NaN is false rather than missing, and the results could differ.
- Resample.Resample: the frequency is modelled as a step of k ≥ 1 days. Anchored frequencies such as 'W' or 'M' are not modelled, and neither is the exception pandas raises for a non-positive step.
- Resample.Resample: the start dates are a map from patient id to an optional date. A `start` Series with repeated index labels is not modelled.
- Resample.Resample: an exception is modelled as a failure naming the patient and the reason. It is the first failing patient in group order, which is the order `apply` visits the groups. Exception types and messages are not modelled.
- Resample.ResamplePatient: in the output, the calendar date column is named `fecha` and the patient id comes back from the group index. The model keeps both in the row's key.
- Dates are whole day numbers. Times of day and time zones are not modelled.
- This model does not cover the hub_hosp and hub_urg source readers, `bin/core.py` or `bin/als-describe.py`.
