# LCO archive frame analysis — a Dafny model

This project models the analysis core of the `astronomical_archive_scrapers`
scripts. The Las Cumbres Observatory (LCO) archive describes every exposure as
a *frame*. The scripts do the following with those frames:

- they normalise each frame: parse `DATE_OBS`, take the footprint centroid and
  fill in an empty `PROPID`;
- they collapse reprocessed duplicates to one frame per timestamp;
- they cut the time-sorted frames into PROPID runs and then BLKUID runs, and
  summarise each run as a block (times, exposure sums, efficiencies, orphan
  and moving flags, mean position);
- they check the table's internal consistency by grouping on time, request and
  (request, time);
- they roll the blocks up for plots: quarter-hour histograms per OBSTYPE,
  orphaned science time per proposal, pattern rankings and percentage
  rankings.

Around the analysis sit the downloaders. The model keeps their bookkeeping:

- the dataset name, the resume index and the resume offset;
- gathering API pages into files of 5000 entries;
- splitting the archive's date span into three-month ranges;
- the controller that folds the progress messages of the download processes;
- the duration formatter.

It also covers the SOAR/Goodman VOTable converter. The converter turns masked
cells into nulls and splits the rows by OBSTYPE.

Data frames are sequences of records, and `groupby` is a stable partition with
groups in ascending key order (module `Grouping`). Timestamps are integer
microseconds. RA, Dec and EXPTIME are `real`. Loops in the source are methods
with loop invariants. Each method is proved equal to a specification function,
and the lemmas state the properties of those functions. The download
controller is a class whose methods update its fields.

Modules, one per source file plus shared ones:

| file | module | models |
|---|---|---|
| `wrappers.dfy` | `Wrappers` | `Option` and `Result` |
| `grouping.dfy` | `Grouping` | `groupby`, `unique()`, runs of `(x != x.shift()).cumsum()` |
| `frames.dfy` | `Frames` | the frame record, calendar datetimes, time-of-day fields |
| `lco_default.dfy` | `LcoDefault` | `get_dataframe_lco_default.py` |
| `check_structure.dfy` | `CheckStructure` | `check_structure_lco.py` |
| `lco_helpers.dfy` | `LcoHelpers` | `get_dataframe_lco.py` |
| `plotting.dfy` | `Plotting` | `plotting.py` |
| `download_datasets.dfy` | `DownloadDatasets` | `download_datasets_lco.py` |
| `download_new.dfy` | `DownloadNew` | `download_lco_new.py` |
| `fits_checker.dfy` | `FitsChecker` | `fits_checker.py` |

What the scripts do not do:

- They do not treat all frames sharing a block id as one block. Blocks are
  BLKUID runs inside PROPID runs of the time-sorted table.
- The code does not skip zero-duration blocks, add an epsilon to exposure
  sums, raise on blocks spanning several proposals, apply the calibration-frame
  target rule, compute gaps or condense patterns. Targets are the distinct
  OBJECTs of the block.
- The reducer's count mismatch is only printed. The model proves that it
  cannot happen.
- Efficiencies and the orphaned percentage divide with no guard. Where a
  denominator is zero the model gives `None`, standing for numpy's inf/NaN.
- The centroid RA is shifted by 360 only when negative. It is not reduced
  into [0, 360) in general.

## Model

| member | source | states |
|---|---|---|
| Grouping.GroupBy | get_dataframe_lco.py:25-28 | one non-empty group per key, each group the rows carrying its key in their original order |
| Grouping.GroupByPartition | get_dataframe_lco.py:25-28 | groups come in strictly ascending key order, hold exactly the rows with their key, cover every row, and together are a permutation of the rows |
| Grouping.GroupByAscending | get_dataframe_lco.py:25-28 | group keys strictly ascend |
| Grouping.GroupByMembers | get_dataframe_lco.py:25-28 | a row is in a group iff it carries that group's key |
| Grouping.GroupByCovers | get_dataframe_lco.py:25-28 | every row lies in some group |
| Grouping.GroupByPermutation | get_dataframe_lco.py:25-28 | the concatenated groups are a permutation of the rows |
| Grouping.GroupMembers | check_structure_lco.py:10-21 | a key's group holds exactly the rows with that key |
| Grouping.Unique | check_structure_lco.py:17 | `unique()` lists each value of the column once, and only values of the column |
| Grouping.UniqueFirstAppearance | check_structure_lco.py:17 | the values of `unique()` are in order of their first appearance in the column |
| Grouping.UniqueMoreThanOne | check_structure_lco.py:17 | more than one distinct value iff some value differs from the first |
| Grouping.RunsConcat | get_dataframe_lco_default.py:141 | the PROPID/BLKUID runs concatenate back to the rows |
| Grouping.RunsLinked | get_dataframe_lco_default.py:141 | inside a run every row is "same" as its predecessor |
| Grouping.RunsCut | get_dataframe_lco_default.py:150 | adjacent runs are not "same" at the cut |
| Grouping.RunsPartition | get_dataframe_lco_default.py:141-150 | runs are non-empty, concatenate to the rows, are linked inside and cut between |
| Grouping.RunUniform | get_dataframe_lco_default.py:141 | when runs are cut on equality of a column, each run has one value of it |
| Frames.TimeOfDay | plotting.py:19-25 | hour, minute, second and microsecond read back from an instant are the datetime's own |
| LcoDefault.StrToDatetime | get_dataframe_lco_default.py:30-34 | the fractional layout first; the whole-second layout only when that fails; a parse error when neither fits |
| LcoDefault.LetterCaseIgnored | get_dataframe_lco_default.py:30-34 | `strptime` matches the `T` and the `Z` in either case: lower-casing them changes neither success nor the parsed value |
| LcoDefault.LayoutsExclusive | get_dataframe_lco_default.py:30-34 | no string fits both layouts |
| LcoDefault.RoundTripFractional | get_dataframe_lco_default.py:30-32 | a valid datetime printed with microseconds parses back to itself |
| LcoDefault.RoundTripWhole | get_dataframe_lco_default.py:30-34 | a datetime printed without fraction is rejected by the first layout and parsed by the fallback to itself |
| LcoDefault.DateOnlyIsError | get_dataframe_lco_default.py:34 | a date with no time is a parse error |
| LcoDefault.ConvertDatesObs | get_dataframe_lco_default.py:36-39 | succeeds iff every DATE_OBS parses; then every row gets its parsed datetime and nothing else changes |
| LcoDefault.GetCentroid | get_dataframe_lco_default.py:41-56 | a bare `None` iff the first ring is None; otherwise a pair, empty without a usable ring, else RA is the corner RA mean shifted by 360 when negative and Dec the corner Dec mean |
| LcoDefault.CentroidRaInRange | get_dataframe_lco_default.py:53-55 | corner RAs in [-360, 360) give a centroid RA in [0, 360) |
| LcoDefault.MeanBounds | get_dataframe_lco_default.py:53 | the mean lies between the bounds of the values |
| LcoDefault.AddRaDec | get_dataframe_lco_default.py:41-61 | raises iff some area's first ring is None (a bare `None` among the pairs); otherwise each row's position is the centroid of its area and nothing else changes |
| LcoDefault.FillEmptyProposal | get_dataframe_lco_default.py:69-73 | never empty; the empty id becomes "no_proposal"; others unchanged |
| LcoDefault.FillEmptyProposalIdempotent | get_dataframe_lco_default.py:69-73 | applying it twice equals applying it once |
| LcoDefault.FillEmptyPropids | get_dataframe_lco_default.py:75-77 | every row's PROPID is filled; nothing else changes |
| LcoDefault.CheckSciencePropid | get_dataframe_lco_default.py:210-211 | true iff a word prefix followed by four digits, a word character, a hyphen and a digit starts the id |
| LcoDefault.ScanFromCorrect | get_dataframe_lco_default.py:211 | the backtracking scan finds a match iff one exists |
| LcoDefault.ScienceExamples | get_dataframe_lco_default.py:211 | "LCO2016A-005" matches, "no_proposal" does not |
| LcoDefault.ScienceIdExtends | get_dataframe_lco_default.py:211 | the match is anchored at the start only, so any extension of a science id still matches |
| LcoDefault.MaxRlevel | get_dataframe_lco_default.py:85 | the maximum RLEVEL of a group is attained and bounds every row |
| LcoDefault.FirstAtMax | get_dataframe_lco_default.py:85 | the kept row has the group's top RLEVEL and no earlier row reaches it |
| LcoDefault.ReduceFrames | get_dataframe_lco_default.py:79-93 | raises exactly on an empty table (`pd.concat` of no groups); otherwise returns one representative per datetime group; never reports a count mismatch |
| LcoDefault.ReducedRows | get_dataframe_lco_default.py:84-87 | the i-th kept row is a row of the i-th datetime group |
| LcoDefault.ReducedOnePerDatetime | get_dataframe_lco_default.py:81-89 | as many rows as distinct datetimes, datetimes strictly ascending |
| LcoDefault.ReducedAscending | get_dataframe_lco_default.py:81-87 | kept datetimes strictly ascend |
| LcoDefault.ReducedCovers | get_dataframe_lco_default.py:81-87 | every input datetime is kept |
| LcoDefault.ReducedKeepsFirstHighest | get_dataframe_lco_default.py:85 | each kept row has its datetime's highest RLEVEL and is the first such row |
| LcoDefault.ReducedOfAscending | get_dataframe_lco_default.py:79-93 | a table with strictly ascending datetimes is already reduced |
| LcoDefault.ReducedIdempotent | get_dataframe_lco_default.py:79-93 | reducing twice equals reducing once |
| LcoDefault.ScienceAttemptOfUnique | get_dataframe_lco_default.py:144-148 | scanning the distinct PROPIDs decides the same as scanning all rows |
| LcoDefault.IsScienceAttempt | get_dataframe_lco_default.py:144-148 | the loop with `break` finds a science PROPID iff the run has one |
| LcoDefault.SummariseSubBlocks | get_dataframe_lco_default.py:150-207 | one block per BLKUID run, in order |
| LcoDefault.Contiguous3 | get_dataframe_lco_default.py:140-207 | the blocks of all BLKUID runs of all PROPID runs, in table order |
| LcoDefault.AllSubBlocksWellCut | get_dataframe_lco_default.py:141-152 | the sub-blocks concatenate back to the table and each is non-empty with one PROPID |
| LcoDefault.Contiguous3Structure | get_dataframe_lco_default.py:141-152 | sub-blocks cut the table into consecutive non-empty pieces of one PROPID each, adjacent PROPID runs differing |
| LcoDefault.StatsMeaning | get_dataframe_lco_default.py:160-176 | the accumulated rows are the first earliest and first latest frames; the exposure totals equal the EXPTIME sums over all frames and over the EXPOSE/SPECTRUM frames; the position count and sums are those of the frames with a position |
| LcoDefault.BlockTimes | get_dataframe_lco_default.py:160-172 | start is the first earliest frame's datetime; end is the first latest frame's datetime plus its EXPTIME; duration is end minus start in seconds; efficiency is the EXPTIME sum as a percentage of the duration, undefined for zero duration; duration is non-negative when EXPTIMEs are |
| LcoDefault.BlockExposureSums | get_dataframe_lco_default.py:170-177 | exposure is the EXPTIME sum of the block, science exposure that of its EXPOSE/SPECTRUM frames, and science efficiency the second as a percentage of the first |
| LcoDefault.BlockExposures | get_dataframe_lco_default.py:170-177 | with non-negative EXPTIMEs the science exposure is at most the total and its efficiency lies in [0, 100] |
| LcoDefault.BlockOrphan | get_dataframe_lco_default.py:153-157 | "-" outside science runs; orphaned iff no EXPOSE or SPECTRUM frame |
| LcoDefault.BlockMoving | get_dataframe_lco_default.py:184-192 | moving iff the earliest and latest frames differ by more than 0.001 in RA or Dec |
| LcoDefault.BlockTargetsAndMean | get_dataframe_lco_default.py:181-195 | targets are the distinct OBJECTs; the mean RA and Dec are the means over the frames that have a position, undefined when none has |
| CheckStructure.MixedMeans | check_structure_lco.py:40-42 | a group of several rows is counted for a column iff some row disagrees with the first |
| CheckStructure.GroupMixed | check_structure_lco.py:40-42 | a group of groupby is mixed iff two frames with its key disagree in the column |
| CheckStructure.Homogeneous | check_structure_lco.py:58-62 | no group is counted iff the column is a function of the key |
| CheckStructure.CheckReqnums | check_structure_lco.py:7-27 | records exactly the DATE_OBS groups with several REQNUMs, with their distinct REQNUMs; triggered iff one is recorded |
| CheckStructure.ReqnumsReportedSound | check_structure_lco.py:16-19 | every reported time has two frames of different requests |
| CheckStructure.ReqnumsReportedComplete | check_structure_lco.py:16-19 | two simultaneous frames of different requests get their time reported |
| CheckStructure.TallyMeaning | check_structure_lco.py:41-54 | each counter holds the number of groups mixed in its column; absent when there are none |
| CheckStructure.TypeTupleMeaning | check_structure_lco.py:46-48 | the tuple lists each OBSTYPE of the group once, ascending |
| CheckStructure.TypeTupleOrderFree | check_structure_lco.py:46-49 | the tuple depends only on which OBSTYPEs occur |
| CheckStructure.TypeSetMembers | check_structure_lco.py:36-49 | the set holds exactly the tuples of inhomogeneous groups |
| CheckStructure.CheckRequestHomogeneity | check_structure_lco.py:29-64 | counters and tuple set are those of the REQNUM groups; a parameter is reported homogeneous iff it has no counter |
| CheckStructure.RequestReport | check_structure_lco.py:58-62 | a parameter is reported homogeneous iff all frames of a request agree on it |
| CheckStructure.RequestTypeSet | check_structure_lco.py:36-49 | each collected tuple is the OBSTYPE tuple of an inhomogeneous request |
| CheckStructure.SingleFrameUncounted | check_structure_lco.py:93-99 | a single-frame group never moves a counter |
| CheckStructure.SizedGroupsCount | check_structure_lco.py:85-91 | the examples kept for size n are as many as the count for n |
| CheckStructure.FrameNumsTotal | check_structure_lco.py:84-91 | the size histogram's counts add up to the number of exposures |
| CheckStructure.CheckExposureHomogeneity | check_structure_lco.py:71-112 | counters, size histogram and examples are those of the (REQNUM, DATE_OBS) groups |
| CheckStructure.ExampleTypes | check_structure_lco.py:114-118 | the OBSTYPEs seen among the examples of one size |
| CheckStructure.ExposureReport | check_structure_lco.py:103-109 | a parameter gets no counter iff all frames of an exposure agree on it |
| CheckStructure.ReduceFramesKeepTies | check_structure_lco.py:159-179 | expected count is the number of datetimes; raises exactly on an empty table (`pd.concat` of no groups); otherwise the result keeps every row tied at its datetime's top RLEVEL |
| CheckStructure.KeepTiesMembers | check_structure_lco.py:174-177 | a row is kept iff no row of its datetime has a higher RLEVEL |
| CheckStructure.KeepTiesCount | check_structure_lco.py:174-178 | at least one row per datetime, exactly one per datetime iff there are no ties |
| CheckStructure.ReducedIsFirstOfTies | check_structure_lco.py:174-177 | the default reducer keeps the first of each datetime's tied rows |
| LcoHelpers.CleanDateShape | get_dataframe_lco.py:30-31 | no 'T' or 'Z' remains; the length drops by the number of 'Z's |
| LcoHelpers.CleanDateConcat | get_dataframe_lco.py:30-31 | cleaning distributes over concatenation |
| LcoHelpers.CleanDateIdempotent | get_dataframe_lco.py:30-31 | cleaning a cleaned date changes nothing |
| LcoHelpers.GetCentroid | get_dataframe_lco.py:33-48 | none without a usable ring; otherwise the plain corner means |
| LcoHelpers.CentroidsAgree | get_dataframe_lco.py:33-48 | for one area, the default script's centroid is a bare `None` only where the plain one is None; otherwise both have a position or neither, the Decs agree, and the RAs agree unless the plain RA is negative, where the default one is 360 more |
| LcoHelpers.NumberExposures | get_dataframe_lco.py:67-76 | the exposures of a request numbered from 1 in DATE_OBS order |
| LcoHelpers.LoopThroughRequests | get_dataframe_lco.py:60-77 | the request count, and per request in REQNUM order its numbered exposures |
| LcoHelpers.ExposureNumbering | get_dataframe_lco.py:66-74 | numbers run 1..(distinct DATE_OBS of the request) |
| LcoHelpers.ExposureFrames | get_dataframe_lco.py:71-75 | each exposure lists exactly the request's frames at its start |
| LcoHelpers.ExposureOrder | get_dataframe_lco.py:67-72 | exposures come in strictly ascending DATE_OBS order |
| Plotting.BinTime | plotting.py:22-25 | the bin index is in 0..95 |
| Plotting.RoundTime15Floor | plotting.py:19-21 | the rounded time is the largest quarter hour not after the input |
| Plotting.RoundTime15Bounds | plotting.py:19-21 | at most the input, less than 15 minutes before it, and idempotent |
| Plotting.RoundTime15Fields | plotting.py:19-21 | no seconds or microseconds; the minute is a multiple of 15; the hour is kept |
| Plotting.BinTimeIsQuarterOfDay | plotting.py:22-25 | the bin is the quarter hour of the day |
| Plotting.Histogram | plotting.py:31-33 | 96 bins, bin b counting the group's frames in bin b |
| Plotting.TypeTimebins | plotting.py:31-33 | the filled array is the histogram of the group |
| Plotting.TimeDistribution | plotting.py:27-34 | one histogram per OBSTYPE present, of that OBSTYPE's frames |
| Plotting.HistogramTotal | plotting.py:30-34 | the bins add up to the group's frame count |
| Plotting.EmptyBins | plotting.py:31-33 | a bin is zero iff no frame falls in it |
| Plotting.Having | plotting.py:60-61 | the blocks with a given orphan value, in order |
| Plotting.GetOrphanData | plotting.py:57-71 | one entry per proposal, its counts, hours and percentage |
| Plotting.OrphanEntriesMeaning | plotting.py:57-70 | the dictionary the loop builds holds one key per proposal group, each mapped to the data of that proposal's blocks |
| Plotting.OrphanSplit | plotting.py:59-66 | true and false counts add up to the blocks that are not "-"; durations likewise |
| Plotting.PercentageBounds | plotting.py:68-69 | with non-negative durations, the percentage is undefined iff both times are zero, and otherwise in [0, 1] |
| Plotting.SortDescSorted | plotting.py:13 | the reverse sort lists keys in non-increasing order and is a permutation |
| Plotting.SortDescStable | plotting.py:13 | elements with equal keys keep their relative order |
| Plotting.PrintProposalPatterns | plotting.py:7-15 | per proposal in ascending order, its ranked pattern list |
| Plotting.CollectPatterns | plotting.py:10-12 | one `[count, pattern]` entry per pattern group |
| Plotting.PatternListCounts | plotting.py:11-12 | each entry's count is the number of rows with its pattern, and every pattern is listed |
| Plotting.PatternListDistinct | plotting.py:11-12 | no pattern is listed twice |
| Plotting.PatternListTotal | plotting.py:11-12 | the counts add up to the proposal's row count |
| Plotting.RankedPatterns | plotting.py:8-14 | counts non-increasing, each pattern once with its count, summing to the row count |
| Plotting.PercentagesRanked | plotting.py:104-105 | proposals by non-increasing percentage, a stable permutation of the items |
| DownloadDatasets.FirstTokenMeaning | download_datasets_lco.py:64-65 | `split()[0]` is the first maximal run of non-space characters; none for a blank string |
| DownloadDatasets.SplitJoin | download_datasets_lco.py:62-65 | splitting a joined list gives it back when no part holds the separator |
| DownloadDatasets.DataNameSplits | download_datasets_lco.py:61-66 | a dataset name splits on '_' into SITEID, TELID and the two dates |
| DownloadDatasets.FirstFreeIndex | download_datasets_lco.py:147-155 | the least index not taken, every smaller one taken |
| DownloadDatasets.DetermineStartIndex | download_datasets_lco.py:147-155 | the least absent data file index |
| DownloadDatasets.ZipOldData | download_datasets_lco.py:21-45 | nothing when there are no files; otherwise the least absent archive index |
| DownloadDatasets.DownloadData | download_datasets_lco.py:158-219 | resumes at the least absent index with offset index*5000; fails early iff a reply fails; completes iff the last page has no next; writes files with consecutive indices holding the 50-page chunks of the pages |
| DownloadDatasets.FetchPages | download_datasets_lco.py:179-213 | the loop writes the page chunks, flushing every 50 pages, and counts 100 entries per followed link |
| DownloadDatasets.AppendResults | download_datasets_lco.py:194-195 | the pending list grows by the page's results |
| DownloadDatasets.ChunksConcat | download_datasets_lco.py:179-213 | the files concatenated are all pages' results concatenated |
| DownloadDatasets.ChunkPages | download_datasets_lco.py:185-191 | every file but the last holds exactly 50 pages |
| DownloadNew.AddMonths | download_lco_new.py:92 | a valid date n months on, the day clipped to the month |
| DownloadNew.ControlDateRanges | download_lco_new.py:293-305 | the three-month ranges from 2014-05-01 to today |
| DownloadNew.CountDateEntries | download_lco_new.py:84-104 | the `>=` clipping steps through the same ranges |
| DownloadNew.RangesTile | download_lco_new.py:293-305 | ranges chain, start before end, end no later than today, last end today, each non-last three months long |
| DownloadNew.LastMessage | download_lco_new.py:352-356 | the last message from a process, none iff it sent none |
| DownloadNew.AnyMeans | download_lco_new.py:398 | `any` is true iff some element is |
| DownloadNew.Controller.constructor | download_lco_new.py:330-339 | every process active with count 0, timer 0 |
| DownloadNew.Controller.UpdateEntryCounts | download_lco_new.py:350-357 | change iff a message was drained; each slot takes its last message, others unchanged; the queue ends empty |
| DownloadNew.Controller.CheckProgress | download_lco_new.py:389-395 | drains the queue as `UpdateEntryCounts` does; prints and resets the timer iff due and changed, else increments it |
| DownloadNew.Controller.DownloadIsActive | download_lco_new.py:397-398 | true iff some process is active |
| DownloadNew.TimeFieldsSplit | download_lco_new.py:359-362 | for t >= 0 minutes and seconds are in 0..59 and 3600h + 60m + s is the floor of t |
| DownloadNew.FormatShape | download_lco_new.py:363-369 | "Hh Mm" with hours, else "Mm Ss" with minutes, else "Ss" |
| FitsChecker.Clean | fits_checker.py:24-27 | null iff the cell is masked, otherwise its value |
| FitsChecker.CleanRow | fits_checker.py:22-27 | the entry of a row, one value per wanted column |
| FitsChecker.ConvertRows | fits_checker.py:18-28 | one entry per row in row order, exactly the wanted keys, null iff masked, values kept |
| FitsChecker.SplitByObstype | fits_checker.py:37-50 | fails at the first entry whose OBSTYPE is not text; otherwise each list is the info of its category's entries, in order |
| FitsChecker.BucketsPartition | fits_checker.py:37-50 | the three list lengths add up to the entry count |
| FitsChecker.BucketMembers | fits_checker.py:45-50 | a list holds an info iff some entry of its category has it |
| FitsChecker.InfoFields | fits_checker.py:38-43 | info holds exactly the five copied fields, unchanged |
| FitsChecker.ConvertedCategory | fits_checker.py:45 | a converted row fails iff its OBSTYPE cell is masked or numeric |

## Left out

- Network access: API requests, counting archive entries, the browser scrape
  of site ids. Replies are given as a sequence of pages or failures.
- Multiprocessing: starting and killing processes, the kill file, the queue
  itself. The queue is a sequence of messages.
- File-system and JSON I/O: `merge_datasets`, reading and writing data files,
  the `_complete` file, zip writing and clearing the data directory. Existing
  files are sets of indices.
- Printing, charts (plotly) and interactive prompts: `dataset_status`,
  `ask_permissions`, `list_param_files`, `parse_args`, `check_dataset_size`,
  `request_from_param_dict`, `check_groups`, `obtain_requests`,
  `check_request_areas` (empty), `contiguous` and `contiguous2` (print-only or
  returning only the first sub-block).
- Clocks: `datetime.date.today()` is a parameter. `print_progress_update`'s
  timing, percentage and predicted time are left out, including its division
  by a zero completed count.
- Broken code: `mp_download_frames_between_dates` (never clears its buffer,
  dumps an undefined name) and `check_parameter_sizes` (undefined name).
- `count_date_entries` also sums counts it never uses, and its `t_params`
  aliases the caller's dictionary. Only the ranges it queries are modelled.
- Floating point: reals are exact. There is no NaN beyond the `None` cases
  named above, no `round(..., n)`, and no microsecond rounding of EXPTIME.
- DataFrame column assignment in place is modelled by returning the new table.
- The diagnostic prints inside the variant `reduce_frames` are left out.
- `remove_unnecessary_columns` is modelled by the frame record holding only
  those columns.
- `str.split()` splits on the six C whitespace characters only (not on the
  ASCII separators `\x1c`-`\x1f` or Unicode spaces), and `str.lower()` lowers
  ASCII letters only. Unicode case and space rules are not modelled.
- The single-digit fields `strptime` also accepts are not modelled; the
  layouts require two-digit fields.
- A footprint ring that is present but empty is treated as no position.
- LcoDefault.AddRaDec: raises whenever some first ring is None. When every
  row's ring is None, `apply` returns a column of bare `None`s and no pair at
  all; what assigning that to two columns does is not modelled.
- A missing dictionary key or table column (a `KeyError`) is not modelled.
  `ConvertRows` requires every wanted column. `SplitByObstype` fails on an
  entry without OBSTYPE, as the source does.
- Plotting.OrphanPercentages: requires every percentage to be defined, because
  the order of NaN keys in Python's sort is not modelled. The excluded case is
  common: every proposal whose blocks are all `"-"` (no orphaned and no
  non-orphaned time) gets a NaN percentage. The dictionary's item order is
  taken as the input order.
- Plotting.PercentagesRanked: carries the same requirement as
  `OrphanPercentages`, so it says nothing about a ranking that holds a NaN
  percentage, which every all-`"-"` proposal produces.
- DownloadNew.Controller.UpdateEntryCounts: requires every message to name an
  existing process. An out-of-range name raises in the source.
