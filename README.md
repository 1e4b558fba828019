# jlu-bda-2020 data preparation and scoring core, modelled in Dafny

jlu-bda-2020 is a pipeline. It pairs ChIP-seq binding tracks with ATAC-seq/DNase-seq
accessibility tracks around called peaks and hands the pairs to a statistical fitting stage.
This project models the logic between the external tools the pipeline calls, and proves
properties of that model:

- **Peak scoring** (`score.dfy`, over the track model in `tracks.dfy`): `calculate_mean`, the
  overlap-weighted mean of a bigWig track over a window around a peak summit, and `findarea`,
  which builds the nested table biosource → transcription factor → chromosome → samples
  with its skip and prune rules.
- **Normalisation** (`signal_scaling.dfy` for values and tracks, `normalize.dfy` for files
  and the batch):
  - the log scaling of a file into its `.ln` sibling, including the chunked cursor loop;
  - the global minimum/maximum fold seeded with (0, −∞);
  - the in-place min-max rescaling;
  - the three passes of `normalize_all`, with their index-aligned exclusion bookkeeping.
- **Forward/reverse merging** (`merge.dfy`): the linking-table filter, `find_pairs`, the
  derived path rules, and the bookkeeping of `merge_all`. That bookkeeping covers
  conversion with a sort and a retry, merging, the conversion of merged files, deletion,
  and the appended rows.
- **Index building** (`pickle_index.dfy`): `read_bed` and the chip and accessibility index
  loops of `parse`.
- **The visualisation back end** (`api.dfy`): the result tree of
  `get_biosource_list_for_tree`, `getChecked`, and the key derivation of `getRawData`.
- **Result-file maintenance** (`modify_csv.dfy`): `modifyCSV.compare`.
- **The data wrapper** (`generate_data.dfy`):
  - the step sequencing of `DataConfig.pull_data`;
  - the return-code handling of `generate_csv` and `download_data`;
  - the row selection that writes `validation.csv` and `normalization.csv`;
  - the chrom.sizes path list of `merge_forward_reverse`.

`util.dfy` holds shared definitions: `Option`/`Result`, string helpers such as `split`,
`basename`, `splitext` and `lower`, and an insertion-ordered dictionary. That dictionary
models a Python `dict` as a sequence of entries, in Python's iteration order.

How the environment is modelled:

- **External programs.** bedGraphToBigWig, bigWigMerge, `sort`, the R scripts and the shell
  scripts are function-valued parameters. They report whether they wrote their output, or
  return their exit code.
- **The file system.** It is a set of existing paths, or a map from paths to contents.
- **Library calls.** `numpy.log`, `float()`, `str()`, `time.asctime` and the bigWig header
  statistics are parameters. A lemma that needs `log(1) = 0` states it as a precondition.
- **Iteration order.** Where the source iterates a Python `set` or `os.listdir`, the order
  is a parameter. A directory that `os.listdir` cannot list is a listing of `None`.
- **Uncaught errors.** An error that ends `merge_all`, `parse` or `normalize_all` is returned
  together with the files written before it (`MergeRun`, `Outcome`, `Progress`).

The code does the following, which a reader may not expect:

- `find_pairs` emits every matching pair (i, j), not a first match.
- A pair whose member has no genome row or no chrom.sizes path aborts `merge_all` with an
  IndexError, rather than being skipped.
- Every member of every found pair is deleted, whether or not its merge succeeded.
- The scorer does not deduplicate samples.
- A blank or comment-only line in a flat file is skipped by `numpy.loadtxt` in pass 1, but
  the rewrite loop of pass 3 splits it like any other line.
  - When the value column is above 0, that line has too few fields. Its IndexError is not
    caught, and `normalize_all` stops there (`Normalize.BlankLineExample`, which requires
    the column to be above 0).
  - When the value column is 0, the blank line splits to one empty field and takes a value.
    The IndexError then comes only when the scaled values run out.
- `max == min` in the rescaling has no guard in the code. The model returns `ZeroDivision`
  whenever `max == min` (`Normalize.ScaledBigWig`, `Normalize.ScaledFlat`). The source
  divides only when there is a value to scale, so a bigWig with no intervals, or a flat log
  with no values, raises nothing there, while the model still reports `ZeroDivision`. The
  scaling lemmas require `max > min`.

The source's index-alignment slips are modelled literally:

- `find_pairs` looks up rows of the filtered frame by their original row labels.
- `converted_idxs` is applied to `pairs_merge`.
- `merged_files[m]` is matched with `pairs[m][0]`.

The lemmas state what holds under the preconditions that avoid these slips (for example
`Merge.FindPairsLeading` and `Merge.ConvertedMembersInRange`), and exhibit the failure
(`Merge.FindPairsFilteredGap`, `Merge.DeleteSlipExample`).

## Model

| member | source | states |
|---|---|---|
| Tracks.QueryProperties | bin/scripts/score.py:79-80 | `intervals(chrom, s, e)` returns only stored intervals, each overlapping the window; from sorted non-overlapping intervals the result is again sorted and non-overlapping |
| Tracks.QueryValuesIn | bin/scripts/score.py:79-80 | a query keeps every returned value within any bounds the stored values keep |
| Tracks.QueryMembers | bin/scripts/score.py:79-80 | every interval a query returns is stored and overlaps the window, and there are no more of them than stored |
| Tracks.QueryDisjoint | bin/scripts/normalize_signal_values.py:194-211 | the answer to a query on sorted non-overlapping intervals is again sorted and non-overlapping |
| Score.OverlapLengthBounds | bin/scripts/score.py:116-124 | the clipped interval length is between 1 and the window length for an interval overlapping the window |
| Score.CalculateMean | bin/scripts/score.py:108-127 | the accumulating loop computes the overlap-weighted sum divided by the window length; no intervals give 0 |
| Score.FullCoverMean | bin/scripts/score.py:116-117 | one interval covering the whole window yields exactly its value |
| Score.HalvesMean | bin/scripts/score.py:119-125 | two intervals splitting the window in halves yield the average of their values |
| Score.CoveredLengthBound | bin/scripts/score.py:115-124 | sorted non-overlapping intervals cover at most the window length in total |
| Score.WeightedSumBound | bin/scripts/score.py:125 | values in [0, 1] keep the weighted sum between 0 and the covered length |
| Score.MeanWithinUnit | bin/scripts/score.py:108-127 | on a min-max normalised track every window mean lies in [0, 1] |
| Score.ScorePeaks | bin/scripts/score.py:67-87 | the peak loop appends one [start, end, chip mean, atac mean] sample per peak when both tracks hold the chromosome, in peak order. It stops at the first window that starts below 0 or ends past the chip or atac chromosome's length, where `intervals` raises RuntimeError, and keeps the samples before it |
| Score.ScoreFile | bin/scripts/score.py:55-88 | the chromosome loop of one chip file scores only requested chromosomes and stops with KeyError at a chromosome missing from the atac pickle. A RuntimeError (an unopenable atac bigWig or a rejected peak window) ends the file's scan and keeps the samples appended so far |
| Score.StoppedScanStays | bin/scripts/score.py:55-65 | once the chromosome scan stops, the remaining chromosomes change nothing |
| Score.ScoreTfFiles | bin/scripts/score.py:49-89 | the file loop of one tf: an unopenable chip file (RuntimeError) is skipped, its partial samples kept |
| Score.FailedFilesStay | bin/scripts/score.py:49-89 | an uncaught failure in one file ends the file loop with that failure |
| Score.ScoreTf | bin/scripts/score.py:43-97 | a requested tf gets its key, is filled from its chip files and is deleted again when empty |
| Score.ScoreTfs | bin/scripts/score.py:41-97 | the tf loop of one biosource visits the chip pickle's tfs in order, skipping unrequested ones |
| Score.FailedTfsStay | bin/scripts/score.py:41-97 | an uncaught failure in one tf ends the tf loop with that failure |
| Score.ScoreBiosource | bin/scripts/score.py:36-103 | a biosource with both pickles gets its key, is filled from its tfs and is deleted again when empty |
| Score.FindArea | bin/scripts/score.py:12-105 | the biosource loop returns the table the nested folds define, or the KeyError of a missing atac chromosome |
| Score.FailedBiosStay | bin/scripts/score.py:25-103 | an uncaught failure in one biosource ends findarea with that failure |
| Score.PeakSamplesOk | bin/scripts/score.py:73-87 | every sample's window is 2w wide; over normalised tracks both means lie in [0, 1] |
| Score.ChromFoldOk | bin/scripts/score.py:55-87 | the chromosome scan keeps only requested chromosomes with well-formed samples |
| Score.FileFoldOk | bin/scripts/score.py:49-89 | the file loop keeps the same shape |
| Score.TfStepOk | bin/scripts/score.py:43-97 | after one tf only requested tfs remain and none is empty |
| Score.TfPut | bin/scripts/score.py:43-97 | storing a requested tf's chromosomes, or deleting the tf when it has none, keeps the tf table's shape |
| Score.TfStepIs | bin/scripts/score.py:43-97 | one requested tf stores what its chip files gave, drops the tf when that is empty, or fails as they fail |
| Score.TfFoldOk | bin/scripts/score.py:41-97 | the tf loop keeps that shape |
| Score.BioStepResult | bin/scripts/score.py:36-103 | one biosource step stores the tf table its tfs give, drops the key when that is empty, or fails as they fail |
| Score.TablePut | bin/scripts/score.py:94-103 | storing or dropping a biosource keeps the table's shape |
| Score.BioStepOk | bin/scripts/score.py:36-103 | after one biosource only biosources with both pickles remain, none empty |
| Score.BioFoldOk | bin/scripts/score.py:25-103 | the biosource loop keeps that shape or fails with a chromosome missing from a requested biosource's atac pickle |
| Score.FindAreaShape | bin/scripts/score.py:12-105 | the result holds only requested biosources with both pickles, requested tfs and requested chromosomes, with no empty level |
| Score.FindAreaErrorCause | bin/scripts/score.py:65 | findarea fails only on a requested chromosome that a requested biosource's atac pickle lacks |
| Score.FindAreaSucceedsWhenCovered | bin/scripts/score.py:65 | if every such atac pickle lists every requested chromosome, findarea succeeds |
| Score.PeakSamplesAt | bin/scripts/score.py:67-88 | on a chromosome both tracks hold, with peak k the first whose window a track rejects (k = the peak count when none is), the scan fails exactly when some window is rejected, and sample i for each i < k is peak i's window with the two query means |
| Score.PeakSamplesMissing | bin/scripts/score.py:78 | a chromosome missing from either track contributes no sample and raises nothing |
| Score.Record | bin/scripts/generate_pickle.py:135 | a stored peak record is the three-cell list start, end, summit |
| Score.BindingAsWritten | bin/scripts/score.py:69-70 | the read as written succeeds exactly on records of four or more cells, taking cells 0 and 3 |
| Score.StoredRecordRaises | bin/scripts/score.py:69-70 | every record the peak-index builder stores makes the as-written read raise IndexError |
| Score.Binding | bin/scripts/score.py:69-70 | the intended read succeeds exactly on records of three or more cells, taking the summit from cell 2 |
| Score.BindingRecord | bin/scripts/score.py:69-75 | the intended read gives back the stored peak, and the window is centred on start plus the stored summit |
| Score.ScoreExample | bin/scripts/score.py:69-87 | a worked peak: start 100, summit 10, w 5 gives window [105, 115), chip mean 2.0 from one covering interval and atac mean 0.0 from none |
| Score.ScoreEdgeExample | bin/scripts/score.py:73-88 | on a chromosome of length 100, a peak at 95 with summit 5 and w 10 has the window [90, 110): the scan fails with no sample, and the chip file's scan stops with the samples it had |
| Tracks.QuerySlice | bin/scripts/normalize_signal_values.py:194-211 | for a window starting after every earlier interval has ended, the query returns one contiguous run of the stored intervals and everything after it starts at or after the window end |
| Tracks.QueryRun | bin/scripts/normalize_signal_values.py:194-211 | the same run, with every member starting before the window end |
| Tracks.QueryRunPair | bin/scripts/normalize_signal_values.py:299-318 | two tracks with the same interval boundaries answer a window with runs at the same positions |
| SignalScaling.MapLogAppend | bin/scripts/normalize_signal_values.py:204-208 | log scaling distributes over concatenation of interval lists |
| SignalScaling.CursorNext | bin/scripts/normalize_signal_values.py:194-211 | a chunk holding intervals k to k2 - 1 moves the cursor strictly past them to the last one's end; a chunk holding none moves it by one million; either way every earlier interval has ended and every later one starts at or after the cursor |
| SignalScaling.LogChunk | bin/scripts/normalize_signal_values.py:196-211 | one chunk of the log loop advances the cursor and extends the output to the log copy of one more run of intervals |
| SignalScaling.LogScaleChrom | bin/scripts/normalize_signal_values.py:191-211 | the million-base chunk loop writes every stored interval once, in order, with the log of its value (0 read as 1) and its boundaries unchanged |
| SignalScaling.ScaleValueInUnit | bin/scripts/normalize_signal_values.py:311-313 | a value between min and max scales into [0, 1]; min goes to 0 and max to 1 |
| SignalScaling.ScaleValueMonotone | bin/scripts/normalize_signal_values.py:311-313 | min-max scaling keeps the order of values |
| SignalScaling.ScaleFromAppend | bin/scripts/normalize_signal_values.py:305-316 | rescaling distributes over concatenation |
| SignalScaling.ScaleFromExtend | bin/scripts/normalize_signal_values.py:305-316 | extending the rescaled prefix by one chunk's run gives the rescaled longer prefix |
| SignalScaling.RescaleChunk | bin/scripts/normalize_signal_values.py:299-318 | one chunk of the rescale loop advances the cursor and extends the output by the same run of both tracks, boundaries from the original and scaled values from the log |
| SignalScaling.RescaleChrom | bin/scripts/normalize_signal_values.py:294-318 | the chunk loop writes the original boundaries with the scaled values of the log track, once each and in order |
| SignalScaling.LogScaleTrack | bin/scripts/normalize_signal_values.py:184-214 | the log copy of a bigWig keeps every chromosome and length and holds the chunk loop's output per chromosome |
| SignalScaling.RescaleTrack | bin/scripts/normalize_signal_values.py:286-323 | the rescaled copy keeps every chromosome and holds the rescale loop's output per chromosome |
| SignalScaling.LogTrackRescale | bin/scripts/normalize_signal_values.py:184-214 | a log track written by log scaling fits the rescale loop, and every rescaled interval keeps its boundaries and carries the scaled log of its original value |
| SignalScaling.Combine | bin/scripts/normalize_signal_values.py:265-266 | the running minimum and maximum keep the smaller and the larger of the old bound and the file's bound, and equal one of them |
| SignalScaling.ExtremaBounds | bin/scripts/normalize_signal_values.py:53-54 | seeded (0, -inf), the run ends at most 0 and at every file minimum, and at the largest file maximum, -inf only when no file was read |
| SignalScaling.GlobalMinUnique | bin/scripts/normalize_signal_values.py:117-123 | the global minimum is determined by the set of file bounds |
| SignalScaling.GlobalMaxUnique | bin/scripts/normalize_signal_values.py:117-123 | the global maximum is determined by the set of file bounds |
| SignalScaling.ExtremaOrderFree | bin/scripts/normalize_signal_values.py:117-123 | the global extrema do not depend on the order in which the files are visited |
| SignalScaling.SeqMin | bin/scripts/normalize_signal_values.py:262 | `min()` of a non-empty list is at most every element and is one of them |
| SignalScaling.SeqMax | bin/scripts/normalize_signal_values.py:263 | `max()` of a non-empty list is at least every element and is one of them |
| SignalScaling.GetValueIndex | bin/scripts/normalize_signal_values.py:354-369 | the first position of SIGNAL_VALUE in the comma-separated names, else of VALUE; None (ValueError) when neither is listed |
| SignalScaling.SplitExtLn | bin/scripts/normalize_signal_values.py:380-383 | appending ".ln" to a named path makes ".ln" its extension and leaves the path as its stem |
| SignalScaling.IsBigWigPathLn | bin/scripts/normalize_signal_values.py:380-385 | the log file of a path is a bigWig candidate exactly when the path has a .bw or .bigwig extension in any case |
| SignalScaling.BigWigPathAnyCase | bin/scripts/normalize_signal_values.py:380 | the extension is compared in lower case, so any named path followed by ".BigWig" is a candidate |
| SignalScaling.BigWigPathLogged | bin/scripts/normalize_signal_values.py:381-383 | one ".ln" is looked through, so any named path followed by ".bw.ln" is a candidate |
| SignalScaling.BigWigPathTwiceLogged | bin/scripts/normalize_signal_values.py:381-383 | only one ".ln" is looked through, so no named path followed by ".bw.ln.ln" is a candidate |
| SignalScaling.SplitExtSuffix | bin/scripts/normalize_signal_values.py:380 | a dot-led suffix without further dots or slashes is the extension of a named path, and the extended path is again named |
| SignalScaling.RescaleLineColumns | bin/scripts/normalize_signal_values.py:343-349 | a rewritten flat-file line splits back into the stripped line's columns with only the value column replaced, plus a final "\n" column |
| SignalScaling.RescaleExample | bin/scripts/normalize_signal_values.py:204-206 | raw values [0, 1, 10] log to [0, 0, ln 10], have extrema (0, ln 10) and scale to [0, 0, 1] |
| Normalize.LoadColumnValues | bin/scripts/normalize_signal_values.py:225-226 | `numpy.loadtxt(usecols=[idx])` skips blank and comment-only lines, splits at '#' and whitespace, yields a value for every data line in order, and fails exactly when a data line lacks a numeric column idx |
| Normalize.DataRowsFacts | bin/scripts/normalize_signal_values.py:225-226 | the data rows loadtxt reads are exactly the lines with a field before any '#', in file order |
| Util.WordLength | bin/scripts/normalize_signal_values.py:225-226 | the first field runs up to the first whitespace character or the end |
| Util.WordsFacts | bin/scripts/normalize_signal_values.py:225-226 | whitespace splitting yields non-empty fields free of whitespace, and none exactly when the text is all whitespace |
| Normalize.LogScaleFlatValues | bin/scripts/normalize_signal_values.py:217-235 | the flat log file holds one logged value per data line, a zero becoming ln 1 = 0 |
| Normalize.LogScaleFile | bin/scripts/normalize_signal_values.py:167-241 | log_scale_file computes the log copy of the specification |
| Normalize.LogScaleSpecFacts | bin/scripts/normalize_signal_values.py:180-241 | FileNotFoundError exactly for a missing file; success adds `<path>.ln` and changes nothing else; a bigWig's log copy has the same chromosomes and boundaries and is well formed |
| Normalize.FileStats | bin/scripts/normalize_signal_values.py:253-263 | a flat log file that yields bounds holds at least two values (one value squeezes to a 0-d array and raises), all between its min and max |
| Normalize.CollectStatsStays | bin/scripts/normalize_signal_values.py:117-130 | a failure in pass 2 ends the pass with that failure |
| Normalize.ExtremaPass | bin/scripts/normalize_signal_values.py:115-130 | pass 2 folds every non-excluded log file's bounds into the running extrema, seeded (0, -inf) |
| Normalize.CollectStatsMembers | bin/scripts/normalize_signal_values.py:117-123 | pass 2 reads the bounds of exactly the rows with a log path, so it is empty only when every row was excluded |
| Normalize.ExtremaCoverFiles | bin/scripts/normalize_signal_values.py:115-130 | every file visited in pass 2 lies within the global extrema, and the minimum is at most 0; the maximum is finite exactly when some file was visited |
| Normalize.FlatLogWithinExtrema | bin/scripts/normalize_signal_values.py:261-266 | every value of a flat log file visited in pass 2 lies within the global extrema |
| Normalize.BigWigLogWithinExtrema | bin/scripts/normalize_signal_values.py:254-266 | a bigWig log whose header statistics bound its values lies within the global extrema |
| Normalize.RescaledLines | bin/scripts/normalize_signal_values.py:343-349 | every data line gets the string of the value with the same index in column idx; it fails when a line lacks column idx or values run out |
| Normalize.RescaleLines | bin/scripts/normalize_signal_values.py:343-349 | the line loop with its running counter computes exactly the rescaled lines |
| Normalize.RescaledLinesStays | bin/scripts/normalize_signal_values.py:343-349 | a failing line makes the whole rewrite fail |
| Normalize.BlankLineExample | bin/scripts/normalize_signal_values.py:225-349 | a blank line between two data lines: loadtxt reads the two values, while the rewrite loop fails on the blank line (IndexError) |
| Normalize.RescaledLinesSome | bin/scripts/normalize_signal_values.py:343-349 | the rewrite succeeds exactly when there are values for all data lines and each line has column idx |
| Normalize.RescaledLinesValues | bin/scripts/normalize_signal_values.py:343-349 | a successful rewrite has one line per data line, line i being line i rewritten with value i |
| Normalize.ScaledFlat | bin/scripts/normalize_signal_values.py:325-349 | the flat branch succeeds only for an existing file |
| Normalize.ScaleBigWigFile | bin/scripts/normalize_signal_values.py:286-323 | the bigWig branch's chunk loops compute the rescaled track |
| Normalize.ScaleFlatFile | bin/scripts/normalize_signal_values.py:325-349 | the flat branch's loops compute the rewritten text |
| Normalize.MinMaxScaleFile | bin/scripts/normalize_signal_values.py:271-351 | min_max_scale_file computes the rewritten file system of the specification |
| Normalize.MinMaxScaleFrame | bin/scripts/normalize_signal_values.py:284-351 | min-max scaling replaces the file, leaves no `<path>.tmp`, changes nothing else and keeps the bigWigs well formed |
| Normalize.RescaledWellFormed | bin/scripts/normalize_signal_values.py:286-323 | a rescaled bigWig is again well formed |
| Normalize.ScaledBigWigInUnit | bin/scripts/normalize_signal_values.py:311-313 | with log values inside [min, max] and min < max, every rescaled bigWig value lies in [0, 1] |
| Normalize.ScaledStringsInUnit | bin/scripts/normalize_signal_values.py:327-328 | every value string written to a flat file shows a value in [0, 1] when the log values lie within the extrema |
| Normalize.RewriteTextColumns | bin/scripts/normalize_signal_values.py:334-349 | in the flat branch a header line is kept stripped, and data line k gets the k-th value string in column idx with every other column kept |
| Normalize.RescaledLinesColumns | bin/scripts/normalize_signal_values.py:343-349 | each rewritten line splits back into the original columns with only column idx replaced |
| Normalize.LogPassSpec | bin/scripts/normalize_signal_values.py:64-113 | pass 1 records one log path, or none, per linkage-table row |
| Normalize.NoneIndicesFacts | bin/scripts/normalize_signal_values.py:83-113 | the excluded list of pass 1 holds exactly the rows without a log path, in increasing order |
| Normalize.LogPassFacts | bin/scripts/normalize_signal_values.py:64-113 | pass 1 keeps every path and the bigWigs well formed; each row's log path is its own `<path>.ln`, which then exists |
| Normalize.LogPass | bin/scripts/normalize_signal_values.py:64-113 | the pass 1 loop reuses an existing `.ln`, otherwise log-scales, and excludes a missing or failing file |
| Normalize.ScalePassStays | bin/scripts/normalize_signal_values.py:135-151 | an uncaught failure in pass 3 ends the run with that failure, keeping the files and exclusions reached before it |
| Normalize.ScalePass | bin/scripts/normalize_signal_values.py:135-151 | pass 3 min-max scales every row not excluded; a RuntimeError excludes the row |
| Normalize.ScalePassExcluded | bin/scripts/normalize_signal_values.py:144-151 | pass 3 only appends the row being scaled, so the excluded list stays free of repetitions and within the table |
| Normalize.ScaleRow | bin/scripts/normalize_signal_values.py:137-151 | the loop body of pass 3 for row j computes pass 3 over one more row |
| Normalize.ScaleStep | bin/scripts/normalize_signal_values.py:137-151 | one row of pass 3: a failure keeps the files and exclusions; otherwise the row is appended to the excluded list (which did not hold it, files unchanged) or its file is min-max scaled |
| Normalize.ScalePassFrame | bin/scripts/normalize_signal_values.py:135-151 | however pass 3 ends, it keeps every bigWig well formed, creates no path, removes none but a row's `.tmp`, and changes only rows' files |
| Normalize.RowScalingFrames | bin/scripts/normalize_signal_values.py:271-351 | scaling one row replaces only that row's file (dropping its `.tmp`) and keeps the bigWigs well formed |
| Normalize.NormalizeAll | bin/scripts/normalize_signal_values.py:31-151 | normalize_all runs the three passes; a missing linkage table is FileNotFoundError; a run ended by an uncaught error returns the files and exclusions it reached |
| Normalize.NormalizeAllFacts | bin/scripts/normalize_signal_values.py:31-164 | however the run ends, the bigWigs stay well formed, every row that failed in pass 1 is excluded, each row is listed at most once and only rows of the table; every row is excluded when the maximum stayed -inf |
| Normalize.NormalizeAllKeeps | bin/scripts/normalize_signal_values.py:31-151 | however the run ends, every earlier path and every path pass 1 left survives unless it is a row's `.tmp`, and pass 3 creates no path |
| Merge.ReadFrame | bin/scripts/merge_reads.py:206-219 | the frame holds only forward/reverse ATAC-seq rows of the table, each with its row number as label, labels increasing |
| Merge.ReadFrameComplete | bin/scripts/merge_reads.py:215-219 | every forward/reverse ATAC-seq row of the table is in the frame |
| Merge.Lookup | bin/scripts/merge_reads.py:234-242 | `frame[col][label]` finds a row carrying that label, and fails only when no row carries it |
| Merge.FindPairs | bin/scripts/merge_reads.py:222-252 | the nested loops compute the pairing specification, raising KeyError where a looked-up label is missing |
| Merge.PairsOfRow | bin/scripts/merge_reads.py:238-250 | the inner loop either raises KeyError because a later label is missing, or returns row i's pairs with every later row |
| Merge.PairsOfLabel | bin/scripts/merge_reads.py:234-250 | one outer pass raises KeyError only when a label is missing, and otherwise gives row i's pairs with every later row |
| Merge.PairWithLabel | bin/scripts/merge_reads.py:238-250 | one inner pass fails only on a missing label, and otherwise gives the pair of rows i and j exactly when genome, biosource, file id and (when present) chromosome agree |
| Merge.PairsWithSound | bin/scripts/merge_reads.py:238-250 | every pair of row i comes from a matching later row |
| Merge.PairsWithComplete | bin/scripts/merge_reads.py:238-250 | every matching later row gives row i a pair |
| Merge.AllPairsSound | bin/scripts/merge_reads.py:234-252 | every emitted pair comes from matching rows i < j |
| Merge.AllPairsComplete | bin/scripts/merge_reads.py:234-252 | every pair of matching rows i < j is emitted |
| Merge.PairsWithMembers | bin/scripts/merge_reads.py:238-250 | row i's pairs are exactly its matching later rows (same genome and biosource, the later path containing the file id, same chromosome when that column exists) |
| Merge.AllPairsMembers | bin/scripts/merge_reads.py:232-252 | find_pairs emits [path_i, path_j] for exactly the matching label pairs i < j |
| Merge.FindPairsShort | bin/scripts/merge_reads.py:234 | fewer than two read files give no pairs |
| Merge.FindPairsFilteredGap | bin/scripts/merge_reads.py:215-242 | a table whose first row is a chip-seq file and whose next two rows would pair makes find_pairs raise KeyError |
| Merge.RenumberedLookup | bin/scripts/merge_reads.py:234-242 | in the frame numbered by position, label k finds the k-th read file |
| Merge.ByLabelRenumbered | bin/scripts/merge_reads.py:234-242 | in the frame numbered by position every label is found, and the rows taken by label are the frame's rows in order |
| Merge.PositionalMembers | bin/scripts/merge_reads.py:232-252 | over the frame's rows in order, the emitted pairs are exactly those of matching positions i < j |
| Merge.FindPairsPositional | bin/scripts/merge_reads.py:222-252 | on the frame labelled by position the loops raise nothing and emit exactly the [path_i, path_j] of the matching read-file rows i < j |
| Merge.FindPairsLeading | bin/scripts/merge_reads.py:215-252 | when the read files are the first rows of the table, find_pairs raises nothing and emits [path_i, path_j] for exactly the matching positions i < j |
| Merge.ConvertedPathIdempotent | bin/scripts/merge_reads.py:266 | the converted path ends in '.bw', and converting its name again keeps it |
| Merge.MergedPathIdempotent | bin/scripts/merge_reads.py:288 | the merged path of a merged path is itself |
| Merge.BeforeFirstNoSep | bin/scripts/merge_reads.py:288 | `split("_")[0]` of a text with a leading part free of '_' followed by '_' is that part |
| Merge.DeleteFile | bin/scripts/merge_reads.py:300-307 | delete_file removes the path and nothing else, a missing path being no error |
| Merge.SortFile | bin/scripts/merge_reads.py:311-329 | sort_file raises FileNotFoundError exactly when the file is missing |
| Merge.ConvertWithRetry | bin/scripts/merge_reads.py:90-97 | converting (with a sort and a second try) only adds the '.bw' path and only loses the sort leftover; sort_file can raise only for a missing input, which the first try leaves untouched |
| Merge.PrepareStays | bin/scripts/merge_reads.py:78-110 | an error in step 1 for a prefix of the pairs is the error of the whole step |
| Merge.PreparePairs | bin/scripts/merge_reads.py:78-110 | the loop over pairs computes step 1's specification, and the file system it leaves also when a pair fails |
| Merge.PrepareNext | bin/scripts/merge_reads.py:80-110 | one pair of the loop extends step 1 by one pair, the file system left by a failing second member keeping the first member's conversion |
| Merge.PrepareReachedStays | bin/scripts/merge_reads.py:78-110 | after a failing pair no later pair touches the file system |
| Merge.PrepareReachedFrame | bin/scripts/merge_reads.py:78-110 | however step 1 ends, it gains only bigWigs and loses only sort leftovers |
| Merge.PrepareReachedOk | bin/scripts/merge_reads.py:78-110 | a finished step 1 leaves the file system of its result |
| Merge.PrepareMemberFacts | bin/scripts/merge_reads.py:80-108 | a member reaching pairs_merge exists and is its own path or (when converted) its '.bw' path; only that path is added |
| Merge.PrepareStepFacts | bin/scripts/merge_reads.py:78-110 | one pair adds only bigWigs, loses only sort leftovers, appends at most one pairs_merge entry built from the pair, and converted_idxs gains only entries for this pair |
| Merge.PreparedGrows | bin/scripts/merge_reads.py:78-110 | one more pair keeps the step 1 invariant: only bigWigs gained, only sort leftovers lost, pairs_merge entries built from found pairs, converted_idxs within range |
| Merge.PrepareFacts | bin/scripts/merge_reads.py:78-110 | after step 1 pairs_merge has at most one entry per pair, each built from a found pair, and converted_idxs names pair numbers and positions 0 or 1 |
| Merge.MergePairs | bin/scripts/merge_reads.py:115-124 | the merge loop computes step 2's specification |
| Merge.MergeFacts | bin/scripts/merge_reads.py:115-124 | every merged file exists and is the merged path of a pairs_merge entry; at most one per entry; no file is lost |
| Merge.ConvertMergedStays | bin/scripts/merge_reads.py:134-156 | an error on a prefix of the merged files is the error of step 3 |
| Merge.ConvertMergedFiles | bin/scripts/merge_reads.py:127-156 | step 3's loop computes its specification and lists every merged file as an old file; it also returns the file system left when a file fails |
| Merge.ConvertReachedStays | bin/scripts/merge_reads.py:134-156 | after a failing merged file no later file touches the file system |
| Merge.ConvertReachedFrame | bin/scripts/merge_reads.py:134-156 | however step 3 ends, the only new files are '.bw' paths of merged files and the only lost files sort leftovers; a finished step 3 leaves its result's file system |
| Merge.ConvertMergedFacts | bin/scripts/merge_reads.py:134-156 | the converted merged files are '.bw' paths of merged files, at most one each; only sort leftovers are lost |
| Merge.ConvertMergedInRange | bin/scripts/merge_reads.py:138-141 | step 3 raises IndexError only when some pairs[j] has no genome row or no chrom.sizes path |
| Merge.DeleteAll | bin/scripts/merge_reads.py:162-182 | deleting a list of files removes exactly those paths |
| Merge.Members | bin/scripts/merge_reads.py:170-174 | the deleted members are exactly both members of every pair |
| Merge.ConvertedMembers | bin/scripts/merge_reads.py:179-181 | `pairs_merge[idx_pair[0]]` succeeds iff every recorded pair number indexes pairs_merge, and otherwise raises IndexError |
| Merge.InRangeCount | bin/scripts/merge_reads.py:179-181 | the entries of converted_idxs the loop handles before the first one past pairs_merge |
| Merge.DeleteReachedFacts | bin/scripts/merge_reads.py:160-182 | however step 4 ends, it adds nothing and has deleted every old file and every pair member; a finished step 4 leaves its result |
| Merge.DeleteSlipExample | bin/scripts/merge_reads.py:78-181 | pairs (a1, a2), (b1, b2) with a2 missing and b1 converted give converted_idxs [[1, 0]] against one pairs_merge entry: step 4 raises IndexError after deleting all four members |
| Merge.DeleteSpecFacts | bin/scripts/merge_reads.py:160-182 | step 4 deletes every old file, every pair member and every converted member, and adds nothing |
| Merge.ConvertedMembersInRange | bin/scripts/merge_reads.py:179-181 | when pairs_merge has an entry for every pair number recorded, step 4's index lookup cannot fail |
| Merge.RowsWithPath | bin/scripts/merge_reads.py:188-189 | `frame.loc[file_path == p]` holds only rows with that path |
| Merge.RowsWithPathUnique | bin/scripts/merge_reads.py:188-189 | with unique paths, a path of the frame selects exactly one row |
| Merge.RowsWithPathAbsent | bin/scripts/merge_reads.py:188-189 | a path not in the frame selects no row |
| Merge.NewRowsSingles | bin/scripts/merge_reads.py:186-192 | when every first member selects exactly one row, merged file m gets that row with the merged path and its basename |
| Merge.NewRowsOnePerFile | bin/scripts/merge_reads.py:186-192 | with unique paths, each merged file m gets exactly one row: the row of pairs[m][0] with the merged path and its basename |
| Merge.MergeAll | bin/scripts/merge_reads.py:34-203 | merge_all computes the file system afterwards and the appended rows; an uncaught error keeps the files left by the steps before it and appends no row |
| Merge.MergeAllDeletes | bin/scripts/merge_reads.py:160-182 | after a finished merge no member of any found pair exists any more |
| PickleIndex.HalfLength | bin/scripts/generate_pickle.py:129-130 | `int((end - start) / 2)` truncates toward zero: for end >= start twice the result is end - start or one less; for end < start it rounds up toward zero |
| PickleIndex.DefaultSummitMiddle | bin/scripts/generate_pickle.py:124-130 | without a PEAK column (or with PEAK -1) the summit offset lies inside the peak and splits it into halves differing by at most one |
| PickleIndex.HalfLengthExamples | bin/scripts/generate_pickle.py:129-130 | concrete values: length 5 gives 2; a reversed peak of length -5 gives -2, not -3 |
| PickleIndex.ReadBed | bin/scripts/generate_pickle.py:110-137 | the row loop builds exactly the chromosome grouping of the file's rows |
| PickleIndex.ChromPeaksUnseen | bin/scripts/generate_pickle.py:135 | a chromosome that does not occur has no peaks |
| PickleIndex.SeenSnoc | bin/scripts/generate_pickle.py:120 | a chromosome occurs in rows plus one row iff it occurs before or is that row's chromosome |
| PickleIndex.GroupedShape | bin/scripts/generate_pickle.py:116-137 | read_bed's dict has unique keys and a key exactly for each chromosome that occurs |
| PickleIndex.GroupedContents | bin/scripts/generate_pickle.py:116-137 | under each occurring chromosome read_bed's dict holds that chromosome's [start, end, summit] triples in file order |
| PickleIndex.GroupedKeys | bin/scripts/generate_pickle.py:116-137 | the keys come in order of first appearance in the file |
| PickleIndex.TfNames | bin/scripts/generate_pickle.py:23 | every mark other than 'dnasei' is a transcription factor name, and 'dnasei' is not |
| PickleIndex.AccessibilityIsTf | bin/scripts/generate_pickle.py:23 | `('dnasei' or 'dna accessibility')` evaluates to 'dnasei', so a 'dna accessibility' mark is kept as a transcription factor |
| PickleIndex.BedNames | bin/scripts/generate_pickle.py:64 | the file list holds exactly the listed names ending in '.bed', case-insensitively |
| PickleIndex.IndexTf | bin/scripts/generate_pickle.py:64-76 | a transcription factor folder that does not list fails with its path (FileNotFoundError); otherwise the bed-file loop computes the index specification over the listed bed files |
| PickleIndex.IndexTfKept | bin/scripts/generate_pickle.py:71-76 | entries already in the transcription factor's dict are never replaced |
| PickleIndex.IndexTfKeys | bin/scripts/generate_pickle.py:71-76 | the keys afterwards are the old ones plus exactly the existing bigWig paths of listed bed files |
| PickleIndex.IndexTfValues | bin/scripts/generate_pickle.py:71-76 | each new key holds read_bed of a listed bed file whose bigWig path it is |
| PickleIndex.IndexTfFixed | bin/scripts/generate_pickle.py:75 | a dict that already has every existing bigWig of the listed bed files is returned unchanged |
| PickleIndex.IndexTfIdempotent | bin/scripts/generate_pickle.py:58-76 | indexing again over the same listing adds nothing |
| PickleIndex.Selected | bin/scripts/generate_pickle.py:53 | the folder list holds exactly the listed names that are linking-table transcription factors |
| PickleIndex.IndexChip | bin/scripts/generate_pickle.py:53-80 | a chip-seq folder that does not list fails with its path; otherwise the transcription factor loop computes the chip index specification, stopping at the first folder that does not list |
| PickleIndex.IndexChipStays | bin/scripts/generate_pickle.py:55-64 | once a transcription factor folder fails to list, the rest of the loop does not run and the failure is the result |
| PickleIndex.IndexChipNext | bin/scripts/generate_pickle.py:55-80 | one transcription factor of the loop extends the chip index to that of one more folder, or fails with that folder's path |
| PickleIndex.PutNonEmpty | bin/scripts/generate_pickle.py:79-80 | storing a non-empty entry keeps every stored entry non-empty |
| PickleIndex.IndexChipFacts | bin/scripts/generate_pickle.py:55-80 | a failure names a folder that does not list; on success every stored (bigWig, peaks) entry survives, every stored transcription factor stays, and no empty transcription factor entry is stored |
| PickleIndex.BigWigNameHasDot | bin/scripts/generate_pickle.py:98-99 | a listed bigWig name contains a dot, so `split('.')[-2]` exists |
| PickleIndex.CollectAtac | bin/scripts/generate_pickle.py:97-101 | the loop over the atac-seq folder's listing builds the candidate specification |
| PickleIndex.PutNonEmptySizes | bin/scripts/generate_pickle.py:101 | adding a file keeps every candidate chromosome non-empty |
| PickleIndex.CandidatesShape | bin/scripts/generate_pickle.py:96-101 | candidates have unique keys, each has at least one file, and none is a chromosome already in the loaded atac pickle |
| PickleIndex.CandidatesAt | bin/scripts/generate_pickle.py:97-101 | the files of a candidate chromosome are exactly its listed bigWigs (when it is not yet indexed), each with its size on disk |
| PickleIndex.CandidateStepAt | bin/scripts/generate_pickle.py:98-101 | one listed file keeps that characterisation of a chromosome's files |
| PickleIndex.MaxEntry | bin/scripts/generate_pickle.py:104 | `max(..., key=...)` returns an entry of the dict whose size is at least every other entry's |
| PickleIndex.SelectLargest | bin/scripts/generate_pickle.py:103-104 | the candidate loop computes the selection specification |
| PickleIndex.SelectKeys | bin/scripts/generate_pickle.py:103-104 | afterwards the chromosomes are the old ones plus the candidates |
| PickleIndex.SelectKept | bin/scripts/generate_pickle.py:103-104 | a chromosome that is not a candidate keeps its path |
| PickleIndex.SelectChosen | bin/scripts/generate_pickle.py:103-104 | each candidate chromosome gets the path of its largest file |
| PickleIndex.AtacIndexLargest | bin/scripts/generate_pickle.py:88-104 | per chromosome: an indexed one keeps its path; an unindexed one with a listed bigWig gets the path of a listed bigWig of largest size; one with none stays absent |
| PickleIndex.PutEntries | bin/scripts/generate_pickle.py:104 | after `d[k] = v` each entry is the new one or an old one |
| PickleIndex.ParseBiosource | bin/scripts/generate_pickle.py:44-108 | one biosource updates the pickles as the biosource specification says |
| PickleIndex.ExtendsTrans | bin/scripts/generate_pickle.py:27-108 | the pickle-extension relation is transitive |
| PickleIndex.BiosourceExtends | bin/scripts/generate_pickle.py:44-108 | one biosource loses no pickle and writes a chip pickle only when non-empty; a failure names a folder that does not list; without one the atac pickle is written |
| PickleIndex.BiosourceChipFirst | bin/scripts/generate_pickle.py:83-97 | when the atac-seq folder does not list, the chip pickle is already written, the atac pickles are untouched, and the failure is that folder (or an earlier chip-seq failure with nothing written) |
| PickleIndex.ParseGenome | bin/scripts/generate_pickle.py:44-108 | the biosource loop of one genome computes the genome specification, stopping at the first failure |
| PickleIndex.GenomeStays | bin/scripts/generate_pickle.py:44-108 | after a failure no later biosource is processed |
| PickleIndex.Parse | bin/scripts/generate_pickle.py:11-108 | parse computes the specification over the linking table's genomes; a genome folder that does not list stops it |
| PickleIndex.ParseStays | bin/scripts/generate_pickle.py:27-108 | after a failure no later genome is processed |
| PickleIndex.GenomeExtends | bin/scripts/generate_pickle.py:44-108 | the biosources of one genome extend the pickles; a failure names a folder that does not list; without one every biosource has an atac pickle |
| PickleIndex.GenomeOfExtends | bin/scripts/generate_pickle.py:42-108 | the same for one genome, with its own folder as the failure when it does not list, and an atac pickle for every listed biosource of the linking table |
| PickleIndex.ParseExtends | bin/scripts/generate_pickle.py:11-108 | after parse no pickle is lost and every chip pickle it wrote is non-empty; a failure names a folder that does not list (FileNotFoundError); without one every listed biosource folder named in the linking table has an atac pickle |
| PickleIndex.ParseCompletes | bin/scripts/generate_pickle.py:42-97 | on a disk where every folder lists, parse runs to the end |
| ApiCalls.FirstKeysFacts | bin/scripts/api_calls.py:25-33 | the reference list of outer labels (biosource_genome) holds each label of a row once and nothing else |
| ApiCalls.FirstTfsFacts | bin/scripts/api_calls.py:26-35 | the reference labels of a group hold each inner label (tf, width, analysis time) of a row in that group once and nothing else |
| ApiCalls.FirstTfsUnseen | bin/scripts/api_calls.py:32-35 | a group that no row opens has no labels |
| ApiCalls.GroupUnique | bin/scripts/api_calls.py:25-35 | data_dict never holds an outer label twice |
| ApiCalls.GroupContents | bin/scripts/api_calls.py:25-35 | data_dict holds under each outer label that occurs exactly its inner labels in order of first appearance, and nothing under any other key |
| ApiCalls.GroupKeys | bin/scripts/api_calls.py:32-33 | the groups come in order of first appearance |
| ApiCalls.GroupRows | bin/scripts/api_calls.py:25-35 | the first loop builds data_dict, and the time variable holds the last row's time afterwards |
| ApiCalls.GroupNext | bin/scripts/api_calls.py:26-35 | one row of the first loop extends data_dict to that of one more row |
| ApiCalls.TfNodes | bin/scripts/api_calls.py:40-42 | one inner node per label, in order: unchecked, childless, owned by the group, with the label as item and the last row's time text as type |
| ApiCalls.TreeOf | bin/scripts/api_calls.py:38-43 | one outer node per group, in order, unchecked, with the group as item |
| ApiCalls.ChildNodes | bin/scripts/api_calls.py:40-42 | the inner loop computes the inner nodes |
| ApiCalls.BuildTree | bin/scripts/api_calls.py:14-45 | the whole function computes the tree specification |
| ApiCalls.TreeContents | bin/scripts/api_calls.py:14-45 | no rows give an empty tree; otherwise one node per distinct outer label in order of first appearance, each holding one node per distinct inner label of its rows, all carrying the last row's time |
| ApiCalls.Pairs | bin/scripts/api_calls.py:60 | `[item, type]` of each node, position by position |
| ApiCalls.CheckedOnlyMembers | bin/scripts/api_calls.py:62-64 | the filter keeps exactly the checked children |
| ApiCalls.CheckedOnlyConcat | bin/scripts/api_calls.py:62-64 | filtering keeps order: filtering a concatenation concatenates the filtered parts |
| ApiCalls.SelectionOf | bin/scripts/api_calls.py:56-64 | the inner loops compute the selection of one biosource object |
| ApiCalls.DropEmpty | bin/scripts/api_calls.py:66-70 | the removal loop keeps the non-empty entries |
| ApiCalls.GetChecked | bin/scripts/api_calls.py:48-72 | getChecked computes its specification |
| ApiCalls.CheckedContents | bin/scripts/api_calls.py:53-64 | whats_checked_bio_tf has unique keys and maps each biosource item to the selection of the last object carrying it |
| ApiCalls.NonEmptyValues | bin/scripts/api_calls.py:66-72 | the filtered dict holds no empty selection |
| ApiCalls.NonEmptyGet | bin/scripts/api_calls.py:66-72 | the filtered dict holds exactly the non-empty entries of the input |
| ApiCalls.NonEmptyUnique | bin/scripts/api_calls.py:66-72 | the filtered dict has unique keys when the input has |
| ApiCalls.GetCheckedContents | bin/scripts/api_calls.py:48-72 | each biosource item maps to its last selection when that is non-empty and is absent otherwise; no entry is empty |
| ApiCalls.SelectionChecked | bin/scripts/api_calls.py:58-60 | a checked biosource selects every child, in order, whatever the child's own flag |
| ApiCalls.SelectionUnchecked | bin/scripts/api_calls.py:61-64 | an unchecked biosource selects exactly the `[item, type]` of its checked children |
| ApiCalls.SelectionOrder | bin/scripts/api_calls.py:61-64 | an unchecked biosource's selection keeps the order of its children: that of `a + c` is that of `a` followed by that of `c` |
| ApiCalls.PairsConcat | bin/scripts/api_calls.py:59-60 | the pairs of a concatenation concatenate |
| ApiCalls.NoCommaConcat | bin/scripts/api_calls.py:90 | joining two comma-free texts gives a comma-free text |
| ApiCalls.RawKeyOfLabel | bin/scripts/api_calls.py:90-91 | for a label the tree built (comma-free tf, width and time text), splitting at commas and joining parts 0 and 2 gives tf, two spaces and the "analyzed:" part |
| ModifyCsv.KeptPositionsSound | bin/scripts/modify_csv.py:59-63 | the five pops leave only positions of columns not popped, in column order |
| ModifyCsv.KeptPositionsComplete | bin/scripts/modify_csv.py:59-63 | the five pops keep the position of every column not popped |
| ModifyCsv.NamedPositions | bin/scripts/modify_csv.py:43-45 | when every name is a column, the positions of the names in order; otherwise some name is missing |
| ModifyCsv.Compare | bin/scripts/modify_csv.py:43-86 | compare fails exactly on a parameter list of the wrong length; an unreadable file stays unwritten; a readable one keeps its columns |
| ModifyCsv.RemoveMatching | bin/scripts/modify_csv.py:65-79 | the row loop plus the drop keep exactly the rows the removal specification keeps |
| ModifyCsv.CompareFileAsWritten | bin/scripts/modify_csv.py:43-86 | the method computes the as-written comparison |
| ModifyCsv.CompareFile | bin/scripts/modify_csv.py:43-86 | the method computes the comparison by name |
| ModifyCsv.UnmatchedMembers | bin/scripts/modify_csv.py:70-79 | a row is kept iff it is in the table and its compared cells differ from the parameters; never more rows than before |
| ModifyCsv.UnmatchedConcat | bin/scripts/modify_csv.py:70-79 | kept rows stay in order: removal over a concatenation concatenates |
| ModifyCsv.UnmatchedNone | bin/scripts/modify_csv.py:70-79 | a table without a matching row is kept whole |
| ModifyCsv.UnmatchedIdempotent | bin/scripts/modify_csv.py:70-79 | a second removal with the same parameters removes nothing more |
| ModifyCsv.ProjectNamed | bin/scripts/modify_csv.py:72 | the projected cells equal the parameters iff the row agrees with them on each of the six named columns |
| ModifyCsv.CompareContents | bin/scripts/modify_csv.py:29-86 | with the six parameter columns present, a row is removed exactly when its genome, width, mode, chr, biosource and tf equal the parameters; the columns are kept |
| ModifyCsv.CompareIdempotent | bin/scripts/modify_csv.py:29-86 | compare applied to its own result changes nothing more |
| ModifyCsv.CompareUnreadable | bin/scripts/modify_csv.py:47-86 | an unreadable result.csv is left as it is, both as written and as intended |
| ModifyCsv.WrittenPopped | bin/scripts/modify_csv.py:59-63 | of the twelve written columns exactly positions 6 to 9 and 11 are popped |
| ModifyCsv.KeptSnoc | bin/scripts/modify_csv.py:59-63 | one more column is kept iff it is not popped |
| ModifyCsv.WrittenKept | bin/scripts/analyse_main.py:79-148 | after the pops a result.csv with the columns of the saved result frame has seven cells left: genome, width, mode, chr, biosource, tf and time |
| ModifyCsv.AsWrittenNeverRemoves | bin/scripts/modify_csv.py:70-86 | as written, compare leaves every result.csv with the written columns unchanged |
| ModifyCsv.WrittenParams | bin/scripts/analyse_main.py:79-142 | a written row agrees with the parameters on the six named columns iff its first six cells are the parameters, in the order the analysis lists them |
| ModifyCsv.DuplicateKept | bin/scripts/modify_csv.py:70-79 | any stored result whose genome, width, mode, chr, biosource and tf equal the new analysis's parameters is kept as written and removed by the comparison by name |
| GenerateData.CsvCheck | bin/generate_data.py:129-132 | generate_csv succeeds iff the R tool returns 0 and the csv file exists |
| GenerateData.DownloadResult | bin/generate_data.py:164-173 | return code 2 means no new data, 0 new data, and every other code raises |
| GenerateData.DataConfig.constructor | bin/generate_data.py:50-82 | a configuration holds the given lists, paths and flags and has performed no step |
| GenerateData.DataConfig.GenerateCsvStep | bin/generate_data.py:103-133 | records the csv step and fails exactly as generate_csv does |
| GenerateData.DataConfig.DownloadStep | bin/generate_data.py:135-173 | records the download step and returns its result |
| GenerateData.DataConfig.RunStep | bin/generate_data.py:94-97 | records one called step and fails when it fails |
| GenerateData.DataConfig.PullData | bin/generate_data.py:84-101 | pull_data performs exactly the steps of the run specification, appended to those before, and fails exactly as it says |
| GenerateData.DataConfig.PrepareData | bin/generate_data.py:93-97 | the middle block records validate, merge, sort and pickle as far as they get, and fails as they fail |
| GenerateData.PrepareShape | bin/generate_data.py:93-97 | the middle block performs a prefix of validate, merge, sort and pickle: nothing when it does not run, all four when it succeeds |
| GenerateData.ShapeInOrder | bin/generate_data.py:89-101 | csv and download, then a prefix of the middle block, then normalize, is in the wrapper's order |
| GenerateData.PullOrder | bin/generate_data.py:84-101 | the steps of every run are in the wrapper's order, and normalize is the last whenever it runs |
| GenerateData.PullOffline | bin/generate_data.py:90-92 | offline runs neither generate the csv nor download; online runs start with the csv |
| GenerateData.PullStages | bin/generate_data.py:89-101 | validation runs iff the run got past the download and new data arrived or re-verification is asked; merge, sort and pickle only after validation; normalize iff nothing failed before; success iff normalize ran and succeeded |
| GenerateData.ColumnsOf | bin/generate_data.py:208-212 | on success every looked-up position lies inside the header and names its column; a missing column is a ValueError |
| GenerateData.And | bin/generate_data.py:216-219 | `and` of two tests is true exactly when both are, the second raising only when the first holds |
| GenerateData.SelectedStays | bin/generate_data.py:215-227 | a pass that raises on a prefix raises the same on the whole file |
| GenerateData.SelectRows | bin/generate_data.py:215-237 | the writing loop of a pass computes the pass specification |
| GenerateData.ReadFileRows | bin/generate_data.py:206-237 | reading one csv (header, both passes, the rewind) computes its rows |
| GenerateData.ValidationList | bin/generate_data.py:197-237 | the validation.csv loop computes the validation specification |
| GenerateData.NormStays | bin/generate_data.py:315-355 | a failure on a prefix of the listing is the failure of the whole loop |
| GenerateData.NormalizationList | bin/generate_data.py:305-355 | the normalization.csv loop computes the normalization specification's rows or raises its failure |
| GenerateData.WantedMembers | bin/generate_data.py:215-237 | a row is wanted iff it is one of the rows and meets the pass's column conditions |
| GenerateData.WantedConcat | bin/generate_data.py:215-237 | wanted rows keep file order: the wanted rows of a concatenation concatenate |
| GenerateData.ColumnsNamed | bin/generate_data.py:208-212 | a header with all checked columns yields their first positions |
| GenerateData.RowTestWanted | bin/generate_data.py:216-236 | on a row as wide as the header, a pass's test raises nothing and holds iff the row is wanted |
| GenerateData.SelectedWanted | bin/generate_data.py:215-227 | on a well-formed file a pass writes exactly the wanted rows, in order |
| GenerateData.HeaderNotWanted | bin/generate_data.py:231-233 | the header line, read again after the rewind, is never an accessibility row |
| GenerateData.FileRowsWanted | bin/generate_data.py:206-237 | a well-formed csv contributes its wanted chip rows, then its wanted atac/dnase rows |
| GenerateData.ValidationContents | bin/generate_data.py:197-237 | validation.csv is the header, the rows with requested genome, biosource, mark and chromosome, then the atac-seq/dnase-seq rows with requested genome, biosource and chromosome |
| GenerateData.ValidationErrors | bin/generate_data.py:206-212 | an empty linking table raises StopIteration; one lacking a checked column raises ValueError |
| GenerateData.CsvNames | bin/generate_data.py:315-316 | the processed names are exactly the listed names ending in .csv |
| GenerateData.NoCsvNoRows | bin/generate_data.py:315-316 | a listing without .csv files contributes no rows |
| GenerateData.NormalizationContents | bin/generate_data.py:305-355 | with well-formed .csv files, normalization.csv is the first file's header once, then file after file the wanted rows of both passes with .bw filenames; nothing when no .csv is listed |
| GenerateData.NormSnoc | bin/generate_data.py:315-355 | one more listed name keeps that description |
| GenerateData.NormSnocFirst | bin/generate_data.py:319-322 | the first .csv file writes the header and its rows |
| GenerateData.NormSnocMore | bin/generate_data.py:319-355 | a later .csv file adds only its rows |
| GenerateData.ChromSizePaths | bin/generate_data.py:269-272 | one chrom.sizes path per requested genome, in order, each <out>/data/chromsizes/<genome>.chrom.sizes |
| GenerateData.ChromSizeLookup | bin/generate_data.py:269-274 | every path ends in its genome's file name, and merging finds a chrom.sizes path containing each requested genome |
| GenerateData.LookupFinds | bin/scripts/merge_reads.py:87-89 | a path containing the genome makes the lookup succeed with a path containing the genome |
| GenerateData.WhichOutput | bin/generate_data.py:265-267 | `subprocess.check_output(["which", tool])` gives the tool's path and a newline, as bytes |
| GenerateData.CommandAsWritten | bin/scripts/merge_reads.py:269-270 | the command line as written fails with TypeError exactly when the tool path is bytes; otherwise it is the path followed by the quoted arguments |
| GenerateData.WhichCommandRaises | bin/scripts/merge_reads.py:269-270 | every command built from a `which` result raises TypeError |
| GenerateData.ToolPath | bin/generate_data.py:265-267 | the intended tool path is a str with no surrounding whitespace |
| GenerateData.WhichCommand | bin/scripts/merge_reads.py:291-292 | with the intended tool path, the command is the path `which` found followed by the quoted arguments |
| Util.Split | bin/scripts/api_calls.py:90 | `str.split(sep)`: at least one part, none holding the separator |
| Util.SplitJoin | bin/scripts/api_calls.py:90 | splitting a joined text at the separator gives back the parts when no part holds it |
| Util.BeforeFirst | bin/scripts/merge_reads.py:236 | `split(c)[0]`: a prefix free of c, followed by c or equal to the whole text |
| Util.Basename | bin/scripts/merge_reads.py:235 | `os.path.basename`: a suffix of the path holding no '/' |
| Util.BasenameNoSlash | bin/scripts/merge_reads.py:235 | the basename holds no '/' |
| Util.BasenameSuffix | bin/scripts/merge_reads.py:235 | the basename is a suffix of the path |
| Util.BasenameAfterLast | bin/scripts/merge_reads.py:235 | the basename is the text after the last '/', or the whole path when there is none |
| Util.Strip | bin/scripts/normalize_signal_values.py:344 | `str.strip()` leaves neither leading nor trailing whitespace |
| Util.ReplaceAll | bin/scripts/generate_pickle.py:74 | `str.replace` leaves a text without the pattern unchanged |
| Util.SplitExt | bin/scripts/merge_reads.py:82 | `os.path.splitext`: root and extension make up the path; the extension is empty or one '.' followed by no '.' |
| Util.Lower | bin/scripts/merge_reads.py:82 | `str.lower` (ASCII), character by character |
| Util.IndexOf | bin/generate_data.py:208-212 | `list.index`: the first position holding the value; absent only when no position holds it |
| Util.Get | bin/scripts/api_calls.py:34 | a dict lookup finds an entry with that key, and fails exactly when the key is absent |
| Util.Put | bin/scripts/api_calls.py:33 | `d[k] = v` keeps the length when k is present and appends the entry when it is absent |
| Util.PutKeys | bin/scripts/api_calls.py:33 | after `d[k] = v` the keys are the old ones plus k, k maps to v, and every other key keeps its value |

## Left out

- File contents are values. Reading and writing csv, pickle, bed and bigWig files is modelled as those values, with no parsers or encoders. `print` and `logging` are left out.
- pyBigWig is left out; a track is its per-chromosome intervals (`Tracks.Chrom`). `bw.intervals` is `Tracks.Query`, and the windows it accepts are `Tracks.QueryBounds` (a start of at least 0, a non-empty window, an end within the chromosome length), `bw.chroms` is the chromosome map, and `header()` is an `Env` parameter.
- The external programs are oracles: bedGraphToBigWig, bigWigMerge, `LC_COLLATE=C sort`, the R scripts, convert_files.sh and sort_files.sh. Their command lines (the `args` lists and `-l localfiles`; only the `which` tool paths are modelled, see Findings) and the way they change the data are left out; only whether they wrote their output, or the exit code, is modelled.
- Floating point: values are `real`. NaN, infinities other than the −∞ seed of the extrema fold, and rounding (`round(..., 5)`, `round(..., 3)` in getRawData) are left out. `numpy.log` is a parameter, and lemmas that need `log(1) = 0` require it.
- numpy's division by `max - min = 0` would give inf/nan for flat files. The model fails that division instead (`ZeroDivision`), and the scaling lemmas require `max > min`.
- Clocks and iteration orders are parameters: `time.asctime`, `str(time)`, the iteration order of Python sets, and the order and presence of `os.listdir` results.
- Directory set-up and the renaming of the `.old` backups of validation.csv and normalization.csv are left out (`os.mkdir`, `os.rename`, `os.remove`), as is the re-creation of result.csv by `to_csv`.
- The `found_genomes`, `found_biosources` and `found_chromosomes` lists in validate_convert_files and normalize are built but never read by the source; they are left out.
- `DataConfig.pull_data` treats validate, merge_forward_reverse, sort_files, generate_dictionaries and normalize as steps whose success is given (`Outcomes`). The row selection these steps write, `merge_all`, `parse` and `normalize_all` are modelled separately, in `GenerateData`, `Merge`, `PickleIndex` and `Normalize`; pull_data's trace does not compose them.
- getRawData: only the derivation of the dictionary key is modelled (`ApiCalls.RawKey`). The lookups in result.csv, the csv reading of the score files and the rounding are left out.
- bin/tf_analyzer.py (argument parsing, DeepBlue calls, `ng serve`), analyse_main.py and visualize_data.py (model fitting and plotting), the Flask start script, logging set-up and the Angular front end are not part of this model.
- ModifyCsv.WrittenKept: Repository.save_csv is not part of this model. The lemmas about written rows assume it writes the result frame's columns in their order.
- Types of cells: pandas parses numeric result.csv cells (width, time) as numbers. ModifyCsv compares cell texts, so a width written as `50` and passed as the integer 50 count as equal here.
- The elementwise comparison in modify_csv.py of a 7-cell row with a 1×6 frame either raises (swallowed) or yields False, depending on the numpy version. Both leave the file's rows as they were; the model does not distinguish the two.
- Score.MeanWithinUnit: the bound on the mean is proved only for track values in [0, 1] (the normalised tracks), not for arbitrary bounds lo ≤ v ≤ hi.
- PickleIndex.TfNames: parse reads the linking table's three columns by position. The model names them genome, biosource and epigenetic_mark, which is right when the table lists them in this order.
- PickleIndex.Parse: the linking table's genomes come as a sequence covering exactly its genome set, in the set's (unspecified) iteration order.
- Util.Lower: only ASCII letters are lowered, and Util.IsSpace (behind Util.Strip and Util.Words) knows only space, tab, newline, carriage return, vertical tab and form feed; the other characters Python treats as whitespace (such as \x1c-\x1f and the Unicode spaces) and its Unicode case mapping are left out.
- Normalize.BigWigLogWithinExtrema: an already existing `.ln` bigWig is reused unread. The lemma assumes its header bounds are its values' bounds, as for one the script wrote.
- Normalize.MinMaxScaleSpec: a file whose scaling fails part-way may leave `<path>.tmp` behind in the source; the model keeps the file system from before that step.
- Normalize.ScaledBigWig: the model maps every `.ln` without the scaled file's chromosomes and interval boundaries to RuntimeError, so pass 3 excludes that row. The source raises only in some of these cases. A chromosome missing from the `.ln` makes `intervals` raise RuntimeError, and a chunk whose two queries return different numbers of intervals makes `addEntries` raise RuntimeError. A chunk with equal counts but other boundaries raises nothing: the source writes the `.ln` values on the original boundaries and rescales the row, which the model does not capture.
- Normalize.ScaledBigWig: with `max == min`, a bigWig with no intervals raises nothing in the source but is `ZeroDivision` in the model; the same holds for Normalize.ScaledFlat and a flat log with no values.
- PickleIndex.Parse: a folder that `os.listdir` cannot list raises FileNotFoundError and stops parse. The model returns the pickles written so far with that folder's path (`Outcome`). Other `OSError`s of `os.stat` and `pickle.load` are left out.
- Score.PeakSamples: the scorer takes its peaks as `Score.Peak` values, the ones `PickleIndex.PeakOf` builds, and so reads the summit as intended (see Findings), not from `binding[3]`.
- Merge.FindPairs: the label lookup is modelled literally. Merge.FindPairsLeading gives the pairs only for tables whose read files come first; otherwise a gap raises KeyError (Merge.FindPairsFilteredGap).
- Merge.MergeAll: `converted_idxs` applied to `pairs_merge` and `pairs[m][0]` matched with `merged_files[m]` are modelled literally. Merge.ConvertedMembersInRange and Merge.NewRowsOnePerFile state the results under the preconditions that avoid the slips, not for every table.

## Findings

| source | as written | input that shows it | evidently intended | confidence | as-written member | corrected member |
|---|---|---|---|---|---|---|
| bin/scripts/modify_csv.py:59-79 | the five pops keep `time`, so every row of result.csv (with the columns of the result frame built at bin/scripts/analyse_main.py:79-148) has seven cells, compared as a whole with the six parameters | result.csv with the row `hg19;50;auto;chr1;GM12878;ATF3;m;c;w;out;1.5;v.png` and parameters `[hg19, 50, auto, chr1, GM12878, ATF3]`: the row is kept | remove a row exactly when its genome, width, mode, chr, biosource and tf equal the parameters, compared by column name | not executed | ModifyCsv.DuplicateKept | ModifyCsv.CompareContents |
| bin/scripts/score.py:69-70 | the peak loop reads `peak = binding[3]`, but bin/scripts/generate_pickle.py:135 stores each peak as the three-cell list `[start, end, peak]`; the IndexError is not caught by the `except RuntimeError` at bin/scripts/score.py:88 | a chip pickle holding `{"chr1": [[100, 200, 50]]}` for a requested chromosome: reading `binding[3]` raises IndexError and findarea aborts | take the summit offset from `binding[2]` | not executed | Score.StoredRecordRaises | Score.BindingRecord |
| bin/scripts/merge_reads.py:269-270 | merge_forward_reverse passes the output of `subprocess.check_output(["which", ...])` (bin/generate_data.py:265-267), which is bytes, as the tool path; convert_bedgraph_to_bigwig and merge_pair (bin/scripts/merge_reads.py:291-292) append str to it | `which` printing `/usr/bin/bedGraphToBigWig` and an existing bedGraph file: building the command raises TypeError | decode and strip the output, then build the command from the str path | not executed | GenerateData.WhichCommandRaises | GenerateData.WhichCommand |
