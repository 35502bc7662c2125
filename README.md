# Fault-injection log analysis, modelled in Dafny

This project models the analysis scripts of a GPU fault-injection campaign.
There are three parts.

- **Log analysis** (`gpufi-instinject/analysis_fault.py`). `parse_log` reads
  the injection log in a single pass. It reassembles WRITER/READER evidence
  into deduplicated effect groups keyed by (run id, instance name). For each
  result line it freezes one snapshot and one outcome under an injection key
  (pair, occurrence number). `write_csv` folds the frozen trials into
  counters per (kernel, instruction line, instruction text) and source. It
  counts how often each register name is used, then emits a header and rows
  in sorted order with per-source and total columns.
- **Register selection for the vulnerability estimate** (`accel/accel.py`).
  `parse_csv` sums N and SDC per register from the result CSV.
  `parse_danger_log` sums closed cycle intervals per register. `compute_p`
  chooses the registers that take part and counts them in `used_regs`.
- **Register extraction** (`gpufi-instinject/extract_registers.py`). This
  finds the register names of a PTX text. It expands each `%base<COUNT>`
  declaration, scans every other `%name`, drops blocked names, removes
  duplicates and sorts by `natural_key`.

## How the code is modelled

**Files and modules.**

| file | module | contents |
|---|---|---|
| `wrappers.dfy` | `Wrappers` | `Option`, `Result` |
| `seqs.dfy` | `Seqs` | sequence helpers: distinctness, first index, counting |
| `strings.dfy` | `Strings` | Python's `str.strip`, `str.lower`, `str.split`, `str.join`, `int()` and `str(n)` |
| `ordering.dfy` | `Ordering` | Python's ordering of strings and tuples, and `sorted` applied to a set (`SortSet`) |
| `effects.dfy` | `Effects` | `_merge_unique` and `_merge_records` |
| `outcomes.dfy` | `Outcomes` | `normalize_result` |
| `log_parser.dfy` | `LogParser` | `parse_log` |
| `log_properties.dfy` | `LogProperties` | properties of `parse_log` |
| `aggregate.dfy` | `CsvAggregate` | the counting loop of `write_csv` |
| `emit.dfy` | `CsvEmit` | the header, row order and cells of `write_csv` |
| `accel.dfy` | `Accel` | `accel/accel.py` |
| `registers.dfy` | `Registers` | `extract_registers.py` |

**The log parser.**
- The variables `parse_log` mutates are the fields of the class
  `LogParser.LogParser`. Its methods are proved to follow the value-level step
  function `LogParser.Step`, and the properties are proved about `Step`.
- Each log line enters as a `LineMatch`: for each of the six regular
  expressions, either what it captures or `None`.
- Python's dictionary insertion order matters because `write_csv` iterates
  `effects_occ` in that order. It is kept explicitly as the sequence `order`.

**The loops.** Every loop of the source is a `method` with a loop. Each such
method is proved equal to a recursive specification function (`Final`,
`Tallied`, `RegStats`, `DangerStats`, `Collected`, …), and the properties are
lemmas about those functions.

**Behaviour of the code worth knowing.**
- Only `kernel == "invalid_summary"` or `src == "invalid"` keeps a record
  out of the register-name counts (gpufi-instinject/analysis_fault.py:288).
- An empty `inst_text` becomes `"unknown"`, so the sentinel's row is
  `("invalid_summary", -1, "unknown")` (gpufi-instinject/analysis_fault.py:281).
- Register extraction drops a name for either of two reasons: a '.' in it,
  or a leading letter run that starts with `ctaid`
  (gpufi-instinject/extract_registers.py:36-44).

## Model

| member | source | states |
|---|---|---|
| Outcomes.NormalizeResult | gpufi-instinject/analysis_fault.py:17-26 | `normalize_result`; its meaning, an if-and-only-if per category in the order sdc, due, masked, is the contract of `NormalizeResultCategories` |
| Outcomes.NormalizeResultCategories | gpufi-instinject/analysis_fault.py:17-26 | the outcome is SDC iff the stripped, lower-cased text mentions "sdc"; DUE iff it mentions "due" and not "sdc"; Masked iff it mentions "masked" and neither of those; Others otherwise |
| Effects.Dedup | gpufi-instinject/analysis_fault.py:62-74 | deduplication never lengthens the list and keeps a non-empty list non-empty |
| Effects.DedupMembers | gpufi-instinject/analysis_fault.py:62-74 | deduplication keeps exactly the records of its input |
| Effects.DedupDistinct | gpufi-instinject/analysis_fault.py:62-74 | no two kept records share the (src, kernel, inst_line, inst_text) key |
| Effects.DedupKeepsFirstOccurrences | gpufi-instinject/analysis_fault.py:64-74 | kept records appear in the order of their first occurrence |
| Effects.DedupOfDistinct | gpufi-instinject/analysis_fault.py:62-74 | a duplicate-free list is kept as it is |
| Effects.DedupAbsorbs | gpufi-instinject/analysis_fault.py:62-74 | appending records already present changes nothing |
| Effects.DedupExtends | gpufi-instinject/analysis_fault.py:62-74 | the deduplicated list of a prefix is a prefix of the deduplicated whole |
| Effects.Unique | gpufi-instinject/analysis_fault.py:60-84 | `_merge_unique` is never empty, and is the one sentinel record when there is no evidence |
| Effects.UniqueValid | gpufi-instinject/analysis_fault.py:60-84 | a merged group is non-empty and duplicate-free |
| Effects.UniqueMembers | gpufi-instinject/analysis_fault.py:60-84 | with some evidence, the group holds exactly the writer and reader records |
| Effects.UniqueKeepsFirstOccurrences | gpufi-instinject/analysis_fault.py:64-74 | writers come first, then readers, each in first-occurrence order |
| Effects.MergeUnique | gpufi-instinject/analysis_fault.py:60-84 | the loop with its `seen` set computes `Unique` |
| Effects.Combined | gpufi-instinject/analysis_fault.py:86-91 | `_merge_records` is never empty |
| Effects.CombinedValid | gpufi-instinject/analysis_fault.py:86-91 | `_merge_records` gives a non-empty, duplicate-free group |
| Effects.CombinedKeepsExisting | gpufi-instinject/analysis_fault.py:86-91 | an existing group is a prefix of the merge, whose records are those of both arguments |
| Effects.CombinedAbsorbs | gpufi-instinject/analysis_fault.py:86-91 | merging records already in the group leaves it unchanged |
| Effects.CombinedIdempotent | gpufi-instinject/analysis_fault.py:86-91 | merging a group with itself leaves it unchanged |
| Effects.DedupTwo | gpufi-instinject/analysis_fault.py:62-74 | two different records are both kept, in order |
| Effects.CombinedTwo | gpufi-instinject/analysis_fault.py:86-91 | merging two different single records keeps both, in order |
| Effects.SentinelBesideRealRecords | gpufi-instinject/analysis_fault.py:75-91 | flushing an empty buffer into a real group appends the sentinel next to the real record |
| Effects.MergeRecords | gpufi-instinject/analysis_fault.py:86-91 | the three branches compute `Combined` |
| Effects.FirstOccurrenceOrderExtend | gpufi-instinject/analysis_fault.py:64-74 | one more input record keeps the first-occurrence order, and a new record extends it |
| LogParser.InlineEvidence | gpufi-instinject/analysis_fault.py:124-146 | an inline header carries a WRITER entry when its rest matches the writer pattern, else a READER entry when it matches the reader pattern, else nothing |
| LogParser.Classify | gpufi-instinject/analysis_fault.py:111-192 | each kind of event holds exactly when its pattern matches and no earlier one applies: inline header, then legacy header, then (only while a key is open) WRITER before READER, then params before result, else unrecognised; each event carries the captured pair, record or text |
| LogParser.SnapshotIgnoresCounters | gpufi-instinject/analysis_fault.py:199-219 | the snapshot of a result line does not depend on the occurrence counters |
| LogParser.LogParser.constructor | gpufi-instinject/analysis_fault.py:50-58 | all state starts empty and no key is open |
| LogParser.LogParser.FlushCurrentEffects | gpufi-instinject/analysis_fault.py:93-100 | the open buffers are merged into the open key's registry entry and the key is closed |
| LogParser.LogParser.TakeSnapshot | gpufi-instinject/analysis_fault.py:203-219 | the open key's buffers merged into its entry, which is also stored; otherwise the stored entry or the sentinel |
| LogParser.LogParser.Freeze | gpufi-instinject/analysis_fault.py:221-222 | the snapshot and outcome are stored under the trial key, and a new key is appended to the insertion order |
| LogParser.LogParser.RecordResult | gpufi-instinject/analysis_fault.py:192-223 | a result line counts one more occurrence and freezes snapshot and outcome under (pair, count) |
| LogParser.LogParser.SwitchTo | gpufi-instinject/analysis_fault.py:119-122 | an inline header naming another key flushes and opens that key with empty buffers |
| LogParser.LogParser.OpenInline | gpufi-instinject/analysis_fault.py:111-146 | an inline header switches key, then appends its own line's evidence |
| LogParser.LogParser.Feed | gpufi-instinject/analysis_fault.py:108-223 | one iteration of the line loop, branch for branch, is `Step` |
| LogParser.ParseLog | gpufi-instinject/analysis_fault.py:29-226 | the whole pass with the final flush returns `Final(lines)` |
| LogProperties.FlushedFacts | gpufi-instinject/analysis_fault.py:93-100 | a flush keeps the frozen trials, grows the registry, closes the key and keeps the parameters |
| LogProperties.FlushedInv | gpufi-instinject/analysis_fault.py:93-100 | a flush preserves the parser's invariant |
| LogProperties.FlushMerges | gpufi-instinject/analysis_fault.py:93-100 | after a flush the key's entry extends its old entry and holds exactly its old records, the buffered evidence, or the sentinel |
| LogProperties.ResolvedNumbered | gpufi-instinject/analysis_fault.py:199-201 | the new trial key was never used, and keys stay numbered 1..count per pair |
| LogProperties.ResolvedOrder | gpufi-instinject/analysis_fault.py:199-222 | the new key is appended to the insertion order, which stays ordered by occurrence |
| LogProperties.ResolvedShape | gpufi-instinject/analysis_fault.py:199-222 | a result line adds exactly one trial with its snapshot and outcome, and leaves the open buffers alone |
| LogProperties.ResolvedGroupsValid | gpufi-instinject/analysis_fault.py:203-221 | every frozen and registered group is non-empty and duplicate-free |
| LogProperties.ResolvedInv | gpufi-instinject/analysis_fault.py:192-223 | a result line preserves the invariant |
| LogProperties.ResolvedGrowsRegistry | gpufi-instinject/analysis_fault.py:203-207 | a result line never removes a registry entry |
| LogProperties.SnapshotValid | gpufi-instinject/analysis_fault.py:203-219 | every snapshot is a valid group |
| LogProperties.MergedGroup | gpufi-instinject/analysis_fault.py:93-100 | merging the buffers into an entry keeps the earlier group in front and holds exactly its records, the buffered evidence, or the sentinel |
| LogProperties.SnapshotOfOpenKey | gpufi-instinject/analysis_fault.py:203-207 | for the open key, the snapshot extends the stored entry, holds the stored records and the buffered evidence, and becomes the stored entry |
| LogProperties.SnapshotOfOtherKey | gpufi-instinject/analysis_fault.py:208-219 | for any other key, the snapshot is the stored entry, or the sentinel when there is none, and the registry is unchanged |
| LogProperties.InlineQuiet | gpufi-instinject/analysis_fault.py:111-146 | an inline header freezes nothing and keeps the parameters |
| LogProperties.LegacyQuiet | gpufi-instinject/analysis_fault.py:148-156 | a legacy header freezes nothing and keeps the parameters |
| LogProperties.OtherEvent | gpufi-instinject/analysis_fault.py:158-189 | evidence and params lines freeze nothing; a params line overwrites the pair's stripped parameter text |
| LogProperties.ApplyResult | gpufi-instinject/analysis_fault.py:191-223 | a result line resolves its pair with the normalised outcome |
| LogProperties.ApplyInv | gpufi-instinject/analysis_fault.py:108-223 | every line preserves the invariant |
| LogProperties.ApplyKeepsSnapshots | gpufi-instinject/analysis_fault.py:108-223 | no later line alters an already frozen trial |
| LogProperties.ApplyOcc | gpufi-instinject/analysis_fault.py:199-200 | only a result line for a pair advances that pair's counter, by one |
| LogProperties.ApplyParams | gpufi-instinject/analysis_fault.py:183-189 | only a params line changes the parameters, and it overwrites |
| LogProperties.ApplyGrowsRegistry | gpufi-instinject/analysis_fault.py:108-223 | no line removes a registry entry |
| LogProperties.RunStep | gpufi-instinject/analysis_fault.py:108-223 | reading one more line is one more step |
| LogProperties.PrefixInv | gpufi-instinject/analysis_fault.py:108-223 | after any prefix the invariant holds and each pair's counter equals its number of result lines |
| LogProperties.FrozenFrom | gpufi-instinject/analysis_fault.py:221-222 | trials frozen after a prefix stay frozen, unchanged, for every longer prefix |
| LogProperties.FinalWellFormed | gpufi-instinject/analysis_fault.py:221-226 | both returned maps share their keys, the order lists each key once, and every snapshot is a valid group |
| LogProperties.FinalOccurrences | gpufi-instinject/analysis_fault.py:199-201 | (pair, i) is a trial exactly when 1 <= i <= the pair's number of result lines |
| LogProperties.FinalTrials | gpufi-instinject/analysis_fault.py:225-226 | the final flush changes no trial, outcome, order or parameter |
| LogProperties.ResultLineStep | gpufi-instinject/analysis_fault.py:192-222 | the j-th line, a result for p, freezes the snapshot taken just before it under the next occurrence number |
| LogProperties.ResultLineRecorded | gpufi-instinject/analysis_fault.py:192-226 | that trial is in the returned maps with that snapshot and the normalised outcome |
| LogProperties.ParamsLastWins | gpufi-instinject/analysis_fault.py:183-189 | the last params line for a pair decides its returned parameter text |
| LogProperties.ParamsKept | gpufi-instinject/analysis_fault.py:183-189 | a pair's parameters are kept while no params line names it |
| LogProperties.InlineSameKeyContinues | gpufi-instinject/analysis_fault.py:119-146 | an inline header for the open key keeps its buffers and appends its evidence |
| LogProperties.InlineNewKeyFlushes | gpufi-instinject/analysis_fault.py:119-146 | an inline header for another key flushes the open key's evidence into the registry and starts fresh buffers |
| LogProperties.LegacyHeaderFlushes | gpufi-instinject/analysis_fault.py:148-156 | a legacy header flushes the open key's evidence and opens its own key with empty buffers |
| CsvAggregate.Bump | gpufi-instinject/analysis_fault.py:285 | one outcome counter grows by one and the others are unchanged |
| CsvAggregate.BumpSum | gpufi-instinject/analysis_fault.py:285 | every counted record adds one to the total |
| CsvAggregate.RowOf | gpufi-instinject/analysis_fault.py:277-283 | a row key never has an empty kernel or text: a given kernel or text is kept, a missing one reads "unknown"; the line is kept |
| CsvAggregate.SentinelSkipped | gpufi-instinject/analysis_fault.py:277-289 | the sentinel is excluded from register counts and lands in row ("invalid_summary", -1, "unknown") |
| CsvAggregate.RegEntry | gpufi-instinject/analysis_fault.py:269-275 | the entry found starts with `reg_name=` |
| CsvAggregate.RegEntryFirst | gpufi-instinject/analysis_fault.py:269-275 | there is an entry exactly when some `;` part, stripped, starts with `reg_name=`, and it is the first such part, stripped |
| CsvAggregate.KeepStripped | gpufi-instinject/analysis_fault.py:274 | filtering the stripped names never lengthens the list |
| CsvAggregate.KeepStrippedMembers | gpufi-instinject/analysis_fault.py:274 | a name is kept exactly when it is non-empty and is some part, stripped |
| CsvAggregate.KeepStrippedClean | gpufi-instinject/analysis_fault.py:274 | each kept name is non-empty and already stripped |
| CsvAggregate.RegNamesWellFormed | gpufi-instinject/analysis_fault.py:267-275 | every extracted register name is non-empty, stripped and holds no ':' |
| CsvAggregate.RegValueWellFormed | gpufi-instinject/analysis_fault.py:271-274 | the names of one `reg_name=` entry are non-empty, stripped and free of ':' |
| CsvAggregate.SingleRegEntry | gpufi-instinject/analysis_fault.py:269-275 | a params text that is one `reg_name=` entry is found as that entry |
| CsvAggregate.SingleRegValue | gpufi-instinject/analysis_fault.py:271-274 | the value after `reg_name=` is split on ':' and each part stripped, empty parts dropped |
| CsvAggregate.RegNamesRoundTrip | gpufi-instinject/analysis_fault.py:267-275 | `reg_name=` followed by clean names joined with ':' reads back as exactly those names |
| CsvAggregate.ExtractRegNames | gpufi-instinject/analysis_fault.py:267-275 | the loop over the ';' parts computes `RegNames` |
| CsvAggregate.Stamped | gpufi-instinject/analysis_fault.py:277-292 | one entry per record of the trial |
| CsvAggregate.ItemsFollowOrder | gpufi-instinject/analysis_fault.py:262 | the trials are visited in the insertion order of `effects_occ`, each with its snapshot |
| CsvAggregate.AddNamesLoop | gpufi-instinject/analysis_fault.py:290-292 | the inner loop adds one per listed name |
| CsvAggregate.AddRecord | gpufi-instinject/analysis_fault.py:277-292 | counting one record is one more step of `Tallied` |
| CsvAggregate.AddTrial | gpufi-instinject/analysis_fault.py:277-292 | counting the records of one trial appends them to `Tallied` |
| CsvAggregate.CountAll | gpufi-instinject/analysis_fault.py:262-292 | the whole counting loop computes `Tallied` of every trial's entries |
| CsvAggregate.AddedTally | gpufi-instinject/analysis_fault.py:285 | one entry bumps exactly its own (row, source, outcome) counter |
| CsvAggregate.TalliedCounts | gpufi-instinject/analysis_fault.py:262-286 | each (row, source, outcome) counter is the number of entries with that row, source and outcome |
| CsvAggregate.TalliedKeys | gpufi-instinject/analysis_fault.py:283-286 | the sources are exactly the sources seen and the rows exactly the rows seen |
| CsvAggregate.AddNamesCounts | gpufi-instinject/analysis_fault.py:290-292 | a name's counter grows by its number of occurrences in the list |
| CsvAggregate.AddedNames | gpufi-instinject/analysis_fault.py:288-292 | one non-sentinel entry adds each of its names to its own row's counter |
| CsvAggregate.TalliedNames | gpufi-instinject/analysis_fault.py:288-292 | a row's register counter is the number of (non-sentinel record, name) pairs of that row, and lists exactly the names counted |
| CsvAggregate.SentinelRowsHaveNoNames | gpufi-instinject/analysis_fault.py:288-289 | the sentinel's row never counts a register name |
| CsvAggregate.SourceSumTotal | gpufi-instinject/analysis_fault.py:330-350 | summing a row's counters over all sources gives the row's count per outcome |
| CsvEmit.SourceColumns | gpufi-instinject/analysis_fault.py:295-297 | four columns per source |
| CsvEmit.SourceColumnsAt | gpufi-instinject/analysis_fault.py:295-297 | column 4i+k is the i-th source followed by the k-th outcome suffix |
| CsvEmit.HeaderShape | gpufi-instinject/analysis_fault.py:295-303 | the header is the four leading columns, the source columns in order, then the four totals and `tot_inj` |
| CsvEmit.RowLtStrictTotal | gpufi-instinject/analysis_fault.py:309-311 | the row order (kernel, line, text) is a strict total order |
| CsvEmit.NameLtStrictTotal | gpufi-instinject/analysis_fault.py:325 | the name order (count descending, then name) is a strict total order |
| CsvEmit.ListingUnique | gpufi-instinject/analysis_fault.py:325 | the sorted listing of a register counter is unique |
| CsvEmit.NamePairs | gpufi-instinject/analysis_fault.py:326 | cell k is `name:count` of the k-th listed name |
| CsvEmit.PerSourceAt | gpufi-instinject/analysis_fault.py:332-340 | the i-th per-source tally is that source's counter of the row |
| CsvEmit.TallyCells | gpufi-instinject/analysis_fault.py:337-340 | four cells per source |
| CsvEmit.TallyCellsAt | gpufi-instinject/analysis_fault.py:337-340 | cell 4i+k holds source i's Masked, SDC, DUE or Others count, in the order of the suffixes |
| CsvEmit.TotalCells | gpufi-instinject/analysis_fault.py:346-350 | five cells: the Masked, SDC, DUE and Others totals in the order of the suffixes, then their sum |
| CsvEmit.CellsAt | gpufi-instinject/analysis_fault.py:330-350 | a row's cells are the key and names, four counts per source, the four totals and `tot_inj` |
| CsvEmit.CellsMatchHeader | gpufi-instinject/analysis_fault.py:299-350 | a row has one cell per header column, and under `{src}_{outcome}` stands that source's count of that outcome, under the totals the totals and under `tot_inj` their sum |
| CsvEmit.LineCellReadsBack | gpufi-instinject/analysis_fault.py:315 | the line cell is empty exactly for a negative line and reads back as the line otherwise |
| CsvEmit.TotalOf | gpufi-instinject/analysis_fault.py:341-349 | each total is the sum of its outcome's per-source cells |
| CsvEmit.PerSourceSum | gpufi-instinject/analysis_fault.py:330-344 | the per-source cells of an outcome add up to that outcome's count over the listed sources |
| CsvEmit.OutcomesPartitionRow | gpufi-instinject/analysis_fault.py:346-350 | the four outcome counts of a row add up to the row's records, positive exactly for the rows seen |
| CsvEmit.RowTotalsCount | gpufi-instinject/analysis_fault.py:330-350 | a row's totals are its per-outcome counts and `tot_inj` is its positive number of records |
| CsvEmit.RowNamesCount | gpufi-instinject/analysis_fault.py:319-328 | a row lists a name exactly when it was counted, with its count, each once, by count descending then name |
| CsvEmit.RowSourcesCount | gpufi-instinject/analysis_fault.py:332-340 | the j-th group of four cells counts the row's records from the j-th source, by outcome |
| CsvEmit.SourceTotals | gpufi-instinject/analysis_fault.py:331-350 | the loop over the sources yields the per-source tallies and their total |
| CsvEmit.RowNames | gpufi-instinject/analysis_fault.py:319-328 | empty for invalid_summary, else the counter listed by count descending then name |
| CsvEmit.SortedRows | gpufi-instinject/analysis_fault.py:309-311 | the row keys strictly increasing, each key once |
| Ordering.DistinctSortedIncreasing | gpufi-instinject/analysis_fault.py:309-311 | a listing sorted by a total order without repeats is strictly increasing |
| CsvEmit.BuildRow | gpufi-instinject/analysis_fault.py:312-350 | one row as it is written |
| CsvEmit.WriteRows | gpufi-instinject/analysis_fault.py:295-352 | sorted distinct sources, the header, then every row once in key order |
| CsvEmit.WriteCsv | gpufi-instinject/analysis_fault.py:234-355 | the sources seen, sorted; the header; one row per key seen, in order; each row's per-source cells count its records from that source by outcome, its totals count all its records, `tot_inj` is positive, and its names are exactly those counted, with their counts, by count descending then name |
| Accel.RowStatOf | accel/accel.py:25-52 | a taken row carries its SDC cell's value |
| Accel.ReadRow | accel/accel.py:25-52 | the steps of one row compute `RowStatOf` |
| Accel.Credit | accel/accel.py:54-58 | a new register starts at zero, then N and SDC grow by the row's values |
| Accel.ParseCsv | accel/accel.py:10-60 | the loop over the rows computes `RegStats` |
| Accel.AccumulateSums | accel/accel.py:24-58 | a register is listed iff some taken row names it, and its N and SDC are the sums over those rows |
| Accel.RegStatsSums | accel/accel.py:10-60 | the same, for whole rows |
| Accel.ColonsOtherThanOneSkipped | accel/accel.py:31-35 | a cell without exactly one ':' (several registers, say) is skipped |
| Accel.BadCountSkipped | accel/accel.py:37-45 | a non-integer count is skipped |
| Accel.SingleRegisterCellRead | accel/accel.py:25-52 | a `name:count` cell, as the table writes it, reads back as that register, count and SDC |
| Accel.SdcOf | accel/accel.py:47-52 | the SDC cell read as an integer, 0 when empty or not an integer; `SdcCell` proves a written count reads back |
| Accel.SdcCell | accel/accel.py:47-52 | a written SDC count reads back |
| Accel.ParseCycles | accel/accel.py:98-111 | the loop over the segments of a line computes `CyclesTotal` |
| Accel.ParseDangerLog | accel/accel.py:63-115 | the loop over the lines computes `DangerStats` |
| Accel.SumFailureSticks | accel/accel.py:100-108 | once a segment raises, the line raises the same error |
| Accel.CollectFailureSticks | accel/accel.py:87-113 | once a line raises, the whole log raises the same error |
| Accel.SegmentLength | accel/accel.py:102-111 | the closed length of one segment, or the error `int()` or the unpacking raises; its meaning is the contract of `RangeText`, `SingleText` and `TwoDashesFail` |
| Accel.RangeText | accel/accel.py:104-111 | `lo-hi` counts `hi - lo + 1` |
| Accel.SingleText | accel/accel.py:109-111 | a single cycle counts 1 |
| Accel.SpanReadsBack | accel/accel.py:100-111 | a written span reads back as its closed length |
| Accel.SpansReadBack | accel/accel.py:98-111 | spans joined with ',' read back as the sum of their closed lengths |
| Accel.BlankSegmentSkipped | accel/accel.py:101-103 | a blank segment adds nothing |
| Accel.TwoDashesFail | accel/accel.py:104-105 | a segment with two or more '-' raises |
| Accel.LastLineWins | accel/accel.py:84-113 | a register is listed iff some matched line names it, and its value is the total of the last such line |
| Accel.ListedIffNamed | accel/accel.py:84-113 | a register is listed iff some matched line names it |
| Accel.LastNamingLine | accel/accel.py:113 | the total of the last line naming a register is its value |
| Accel.CollectFails | accel/accel.py:84-113 | the log raises iff some matched line's cycles raise |
| Accel.SelectedMembers | accel/accel.py:150-166 | the filter keeps exactly the registers in both maps with N > 0 |
| Accel.SelectedOrder | accel/accel.py:150 | the kept registers stay in name order |
| Accel.SelectionOfSortedKeys | accel/accel.py:150-168 | filtering the sorted keys keeps exactly the registers that take part, in strictly increasing name order, as many as there are such registers |
| Accel.SelectRegisters | accel/accel.py:146-172 | the registers taking part are those in both maps with N > 0, in strictly increasing name order, and `used_regs` is their number |
| Accel.UsedCount | accel/accel.py:154-168 | `used_regs` is the number of registers in both maps with N > 0 |
| Registers.RunEnd | gpufi-instinject/extract_registers.py:40 | the end of the longest run of a character class |
| Registers.RunEndAt | gpufi-instinject/extract_registers.py:40 | a run that cannot be extended is the longest run |
| Registers.IsBlocked | gpufi-instinject/extract_registers.py:36-44 | `is_blocked`; what it decides is the contract of `ExpansionBlocked` (an expanded name is blocked iff its base is) and `ScannedNamesHaveNoDot` (a scanned name is blocked only by the prefix rule) |
| Registers.ExpansionBlocked | gpufi-instinject/extract_registers.py:36-54 | an expanded name is blocked iff its base has the "ctaid" prefix: the declaration skip and the per-name test agree |
| Registers.DeclAt | gpufi-instinject/extract_registers.py:47 | a found declaration is written at that position, with an identifier base and a digit count |
| Registers.DeclAtFinds | gpufi-instinject/extract_registers.py:47 | wherever a declaration is written, exactly that declaration is found |
| Registers.NameAt | gpufi-instinject/extract_registers.py:57-62 | a found name is '%' and an identifier written there, neither followed by '<' nor extendable |
| Registers.NameAtFinds | gpufi-instinject/extract_registers.py:57-62 | '%' and a longest identifier not followed by '<' is found |
| Registers.DeclsFrom | gpufi-instinject/extract_registers.py:47 | every declaration found has an identifier base and a digit count and is written in the text where it ends |
| Registers.DeclHasOnePercent | gpufi-instinject/extract_registers.py:47 | a declaration holds '%' only at its start |
| Registers.DeclsFromFinds | gpufi-instinject/extract_registers.py:47 | every declaration written in the text is found by the scan |
| Registers.NameHasOnePercent | gpufi-instinject/extract_registers.py:57-62 | a general match holds '%' only at its start |
| Registers.NamesFromFinds | gpufi-instinject/extract_registers.py:64 | every '%' and longest identifier written in the text and not followed by '<' is found by the scan |
| Registers.NamesFromReaches | gpufi-instinject/extract_registers.py:64 | the scan from a position reaches every name found at or after it |
| Registers.ScannedNamesNotDeclarations | gpufi-instinject/extract_registers.py:57-64 | every scanned name is '%' and an identifier, written in the text and not followed by '<' |
| Registers.ScannedNamesHaveNoDot | gpufi-instinject/extract_registers.py:38-44 | no scanned name holds '.', so only the prefix rule can block it |
| Registers.DottedSpecialRegister | gpufi-instinject/extract_registers.py:57-67 | `%tid.x` yields `%tid`, which is kept |
| Registers.RegInjective | gpufi-instinject/extract_registers.py:52 | different indices give different names |
| Registers.RegRangeSize | gpufi-instinject/extract_registers.py:51-52 | `%base0` … `%base(n-1)` are n names |
| Registers.ExpansionExact | gpufi-instinject/extract_registers.py:47-54 | a declaration adds exactly `%base0` … `%base(COUNT-1)`, COUNT names, or nothing for a "ctaid" base |
| Registers.FromDeclsExact | gpufi-instinject/extract_registers.py:47-54 | the declarations add exactly the names `%base<i>`, i < COUNT, of their unblocked bases |
| Registers.FromDeclsUnblocked | gpufi-instinject/extract_registers.py:53 | no expanded name is blocked |
| Registers.CollectedUnblocked | gpufi-instinject/extract_registers.py:46-67 | no collected name is blocked |
| Registers.WrittenDeclarationCollected | gpufi-instinject/extract_registers.py:47-54 | every `%base<COUNT>` written in the text with an unblocked base adds `%base0` … `%base(COUNT-1)` |
| Registers.WrittenNameCollected | gpufi-instinject/extract_registers.py:64-67 | every unblocked name written in the text and not followed by '<' is collected |
| Registers.StripPercent | gpufi-instinject/extract_registers.py:10 | the result is the name after its leading '%' characters and does not start with '%' |
| Registers.Chunks | gpufi-instinject/extract_registers.py:11-12 | the key alternates text and number, starts and ends with a text, so comparing two keys never sets a number against a text |
| Registers.PartLtStrictTotal | gpufi-instinject/extract_registers.py:9-12 | comparing key elements is a strict total order |
| Registers.NaturalLePreorder | gpufi-instinject/extract_registers.py:70 | ordering by `natural_key` is a total preorder |
| Registers.NaturalKey | gpufi-instinject/extract_registers.py:9-12 | `natural_key`; the parts it gives are the contracts of `StripPercent`, `ChunksOfText` and `ChunksStep`, and the order it induces is a total preorder by `NaturalLePreorder` |
| Registers.ChunksOfName | gpufi-instinject/extract_registers.py:11-12 | a digit-free text followed by digits splits into text, value, empty text |
| Registers.ChunksOfText | gpufi-instinject/extract_registers.py:11-12 | a name without digits is one text part |
| Registers.ChunksStep | gpufi-instinject/extract_registers.py:11-12 | a digit-free text, a digit run and a rest not starting with a digit give the text, the run's value and the rest's parts |
| Registers.RegKey | gpufi-instinject/extract_registers.py:9-12 | the key of `%base<i>` for a digit-free base is (base, i, "") |
| Registers.RegOrder | gpufi-instinject/extract_registers.py:9-12 | names of one digit-free base are ordered by their index, so `%r2` comes before `%r10` |
| Registers.ExpandAll | gpufi-instinject/extract_registers.py:46-54 | the loop over the declarations collects exactly `FromDecls` |
| Registers.AddScanned | gpufi-instinject/extract_registers.py:64-67 | the loop over the general matches adds exactly the unblocked names |
| Registers.Expand | gpufi-instinject/extract_registers.py:50-54 | the inner loop adds the declaration's unblocked names |
| Registers.ExtractRegisters | gpufi-instinject/extract_registers.py:30-70 | the output is duplicate-free, non-decreasing by `natural_key`, and holds exactly the collected names |

## Left out

- File and console I/O are left out: opening the log, CSV and PTX files, `os.makedirs`, the `.tmp` file and `os.replace`, `print`, `argparse` and `sys.argv`. Each parser takes the file's contents as a parameter, and each writer returns what it would write.
- `parse_log` returns empty maps when the log file is missing. This branch is not modelled, because it is file I/O.
- The regular expressions of `parse_log` and `parse_danger_log` are not modelled as patterns. Each line enters already classified: a `LineMatch` for the log, and an optional `DangerMatch` (register and cycles text) for `danger.log`. This includes `rstrip("\n")` and the blank-line check of `parse_danger_log`.
- The regular expressions of `extract_registers.py` are modelled character by character, for ASCII identifiers and digits. `\d` in Python also matches non-ASCII decimal digits, and those are not modelled.
- Python's `int()` and `str.isdigit()` are modelled for ASCII digits only. `str.lower()` is modelled for ASCII letters only.
- `deepcopy` is the identity here, because records are values.
- `csv.DictWriter` quoting and the exact file text of the table are not modelled. A row is modelled as its list of cells.
- In `csv.DictReader`, a short row gives `None` for a missing column, and `.strip()` on that value raises. The model reads a missing cell as "".
- `compute_p`'s floating-point result is not modelled, because it is floating point. This covers `T`, `R`, each `term`, `sum_terms`, `p` and the `R == 0` branch. Only the selection of registers and `used_regs` are modelled.
- `main` of `analysis_fault.py` counts SDC outcomes in `total_sdc` only to print them. This count is not modelled.
- `Registers.ExtractRegisters`: `sorted` of a set leaves the order of two names with equal keys (`%r1` and `%r01`) to the set's iteration order. The contract promises only a non-decreasing order by key.
- `extract_registers.py` writes the sorted names joined by newlines to `register_used.txt`. Only the sorted list is modelled.
- Only one entry of `blocked_prefixes` exists, "ctaid". It is modelled as the constant `BlockedPrefix`.
- RegEntry: its own contract says only that the entry found starts with `reg_name=`. Which part it is, and when there is none, is stated by `CsvAggregate.RegEntryFirst`.
- KeepStripped: its own contract gives only a length bound. Which names are kept is stated by `CsvAggregate.KeepStrippedMembers` and `CsvAggregate.KeepStrippedClean`.
- TallyCells: its own contract gives only the number of cells. Which count each cell holds is stated by `CsvEmit.TallyCellsAt`.
- Chunks: its own contract states only that text and numbers alternate. What the parts are is stated by `Registers.ChunksOfText` and `Registers.ChunksStep`, which together cover every name.
- The comment at gpufi-instinject/extract_registers.py:56 says the general scan excludes names with a dot. The pattern stops at the dot, so `%tid.x` gives `%tid`, which is kept. The model follows the code (`Registers.DottedSpecialRegister`).
