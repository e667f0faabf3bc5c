# Waking-up event detection from a pupil trace

This project models in Dafny the event-detection core of a pipeline. The pipeline finds "waking-up" events in a normalised, smoothed pupil-size trace and confirms them against whisker-velocity activity. The stages are:

1. **Sudden-change detection** (`SuddenChange`, src/utils/utilities.py). The trace is padded at both ends with its first and last value. A baseline window and the event window right after it then slide over the padded trace. Each step is labelled 0 (no change), 1 (increase) or 2 (decrease). The label compares the shift of the window means with three times the standard deviation of the baseline.
2. **Accumulation mask** (`EventMask`). Every label-1 step adds +1 to the integer mask, and every label-2 step adds −1, over `[idx, idx + event_window + pre_event_window)`. The index is the padded step index, used unshifted against the unpadded length and clipped there. The mask is then compared with 0.5.
3. **Gaps and blocks** (`Runs`). Runs of False of at most `10 * rate` samples are closed (`fill_false_between_trues`). The maximal runs of True become `(start, end)` blocks (`find_consecutive_true_blocks`). A run reaching the end of the mask gets the start `min(s, |s − 5·rate|)`.
4. **Block filters** (`BlockFilter`). A block is kept when its stretch `signal[start:end]` crosses the midline 0.5. It must then also span more than 0.5 (max − min).
5. **Onset selection** (`Refiner`, src/visualization/plotter.py).
   - In each block, candidate offsets are scanned every `step` samples (`calculate_properties_possible_events`).
   - The candidates are filtered.
   - The first candidate with the largest total downward magnitude gives the onset (`find_best_events`).
   - Blocks without a passing candidate give nothing (`find_best_events_for_blocks`).
6. **Whisker confirmation** (`Whisker`).
   - For each onset, the whisker index is the number of whisker times before the onset time.
   - Whisker velocity is integrated by the trapezoid rule over the waking window that starts at this index and the baseline window that ends there.
   - The onset is kept when waking / baseline is above 1.5.
7. **The whole detector** (`Pipeline`): `detect_pupil_events` and `detect_events`.
   - `Pipeline.DetectEvents` follows the inline `detect_events` of src/utils/event_detection.py. It takes the whisker velocity and its time axis as inputs of equal length.
   - The version in src/utils/event_detection_tmp.py runs the same pupil stages through helper functions. Each helper is modelled on its own.
   - Its whisker step differs from the inline version (see "Left out").

Modelling choices:
- **Signal values** are `real`.
- **The mean** is the sum divided by the count.
- **The standard deviation** is a parameter `std: seq<real> -> real`, because it involves a square root. The lemmas about constant traces require it to be non-negative. The lemmas about negated traces also require it to be unchanged by negating a window, as `np.std` is.
- **numpy slicing** is modelled exactly by `Numeric.Slice`: clipping, and a negative start that counts from the end. So a baseline window that starts before index 0 behaves as in numpy and needs no precondition.
- **Empty windows.** The mean or std of an empty window is NaN in numpy; here it is `Stat.Undefined`, which fails every comparison, as NaN does.
- **Float division** of the whisker ratio is IEEE division (`Whisker.Quotient`). A zero baseline integral gives +inf, −inf or NaN, and there is no nonzero-denominator precondition.
- **Loops in place.** Loops that update state in the source are methods with loops:
  - `CreateEventMask` accumulates into an array;
  - `FillFalseBetweenTrues` fills slices of a copied array;
  - `FindConsecutiveTrueBlocks` walks the mask array;
  - the detector, candidate scan, per-block and ratio loops append to lists.
  Each method is proved equal to a specification function, and the properties are proved about those functions.
- **Comprehensions** are functions.

Behaviour worth noting:
- **Detector loop.** The loop is `range(0, L − pre − ev, step)`, so every position visited has `i + pre + ev < L`.
- **Windows before index 0 or past the end.** Windows that start before 0 wrap around and windows past the end are clipped, as numpy slicing does.
  - In `calculate_properties_possible_events`, a baseline window that starts before index 0 wraps around. An event window past the end skips the offset.
  - In the whisker ratio, a baseline window that starts before 0 wraps around. A waking window past the end is clipped.
- **`find_best_events`** tests `if optimal_event`, which is false only for `None`, because a result row is a non-empty tuple.

## Model

| member | source | states |
|---|---|---|
| Numeric.Slice | src/utils/utilities.py:153 | numpy slice `s[lo:hi]`: its length is the clipped length, it is the plain slice when `0 <= lo <= hi <= n`, and a non-empty result read from a non-negative start is the contiguous slice from that start |
| Numeric.MeanStat | src/utils/utilities.py:159 | the mean of a window is undefined (NaN) exactly when the window is empty |
| Numeric.StdStat | src/utils/utilities.py:160 | the std of a window is undefined (NaN) exactly when the window is empty |
| Numeric.MeanConstant | src/utils/utilities.py:75-77 | the mean of a non-empty window of equal values is that value |
| Numeric.Max | src/utils/event_detection_tmp.py:46 | `np.max` of a non-empty stretch is one of its samples and no sample exceeds it |
| Numeric.Min | src/utils/event_detection_tmp.py:46 | `np.min` of a non-empty stretch is one of its samples and no sample is below it |
| Numeric.Filter | src/utils/event_detection_tmp.py:43 | a list comprehension with a condition keeps a sub-list, in order: every kept element satisfies the condition and every element satisfying it is kept |
| Numeric.FilterMultiset | src/utils/event_detection_tmp.py:43 | the comprehension keeps each element satisfying the condition as many times as it occurs, and no other element |
| Numeric.MeanNegated | src/utils/utilities.py:75-77 | negating every sample of a non-empty window negates its mean |
| Numeric.SubseqFacts | src/utils/event_detection.py:47 | a sub-list is never longer than the list and takes its elements from it |
| Numeric.SubseqIncreasing | src/utils/event_detection.py:47 | a sub-list of a strictly increasing list of indices is strictly increasing |
| Numeric.SubseqTransitive | src/utils/event_detection.py:26-28 | a sub-list of a sub-list is a sub-list of the original |
| SuddenChange.PaddedSpec | src/utils/utilities.py:64-69 | padding by `w` gives length `n + 2w`: `w` copies of the first value, the signal unchanged, `w` copies of the last value; no padding leaves the signal as it is |
| SuddenChange.DetectSuddenChangeEvents | src/utils/utilities.py:63-88 | the method returns exactly the label list and event list of the padded signal |
| SuddenChange.ScanSteps | src/utils/utilities.py:74-86 | the loop over `range(0, n, step)` appends one label per step and one tagged event per non-zero label |
| SuddenChange.StepOnce | src/utils/utilities.py:79-86 | one loop step appends the step's label and, for label 1 or 2, its tagged event, keeping the scan invariant |
| SuddenChange.NumStepsCeil | src/utils/utilities.py:74 | `range(0, m, step)` has `ceil(m / step)` values for `m > 0` and none otherwise |
| SuddenChange.NumStepsExact | src/utils/utilities.py:74 | the k-th value `k * step` is enumerated exactly when it is below `m` |
| SuddenChange.StepAtValue | src/utils/utilities.py:74 | the k-th step from `i` is at `i + k * step` |
| SuddenChange.LabelsFromLength | src/utils/utilities.py:74-86 | one label per enumerated step |
| SuddenChange.LabelsFromAt | src/utils/utilities.py:74-86 | label k is the label of the k-th step, which lies below the bound |
| SuddenChange.LabelsCount | src/utils/utilities.py:64-74 | `events_indices` has `max(0, ceil((L − pre − ev) / step))` entries, L the padded length (`n + 2·padding`), and k indexes it exactly when `k * step < L − pre − ev` |
| SuddenChange.Classify | src/utils/utilities.py:79-84 | the label of the step at `i`: 1 when the event-window mean exceeds the baseline mean by more than `threshold` baseline std, 2 when it falls short by more than that, 0 otherwise |
| SuddenChange.LabelsClassify | src/utils/utilities.py:74-86 | label k classifies step `k * step`, and both windows of that step lie strictly inside the padded signal |
| SuddenChange.ClassifyNegated | src/utils/utilities.py:75-86 | negating the trace swaps the labels 1 (increase) and 2 (decrease) of a step and keeps 0, for a sign-symmetric, non-negative std and a non-negative threshold |
| SuddenChange.PaddedNegated | src/utils/utilities.py:64-69 | padding the negated trace gives the negated padded trace |
| SuddenChange.LabelsNegated | src/utils/utilities.py:63-88 | the negated trace has as many labels, and each one is the original label with increase and decrease swapped |
| SuddenChange.EventsFromAfter | src/utils/utilities.py:74-84 | events come out at or after the first step, at strictly increasing positions |
| SuddenChange.EventsFromSound | src/utils/utilities.py:79-84 | every event is at a step whose label is its direction's code |
| SuddenChange.EventsFromComplete | src/utils/utilities.py:79-84 | every step labelled 1 or 2 is reported with the matching direction |
| SuddenChange.EventsFromSpec | src/utils/utilities.py:74-86 | the events increase, each matches its label, and each non-zero label has its event |
| SuddenChange.EventsSpec | src/utils/utilities.py:71-88 | `events` lists exactly the non-zero-labelled positions, increasing, tagged increase for 1 and decrease for 2 |
| SuddenChange.ClassifyConstant | src/utils/utilities.py:75-86 | over a constant signal, with a non-negative std and threshold, a step is labelled 0 |
| SuddenChange.ZeroLabelsFrom | src/utils/utilities.py:74-86 | steps all labelled 0 give all-zero labels and no event |
| SuddenChange.ConstantSignalNoEvents | src/utils/utilities.py:63-88 | a constant signal yields all-zero labels and an empty event list |
| EventMask.Mask | src/utils/event_detection_tmp.py:32 | the mask has the shape of the unpadded signal |
| EventMask.AboveHalf | src/utils/event_detection_tmp.py:26 | `mask > 0.5` has the mask's length |
| EventMask.CreateEventMask | src/utils/event_detection_tmp.py:31-40 | a new array of the given shape whose entry j is the sum of the +1 / −1 contributions of the flagged steps covering j, clipped at the end |
| EventMask.NetCounts | src/utils/event_detection_tmp.py:33-39 | entry j is the number of label-1 steps covering j minus the number of label-2 steps covering j |
| EventMask.AboveHalfMeansMoreIncreases | src/utils/event_detection_tmp.py:26 | `mask > 0.5` is True at j exactly when the increases covering j outnumber the decreases covering j |
| Runs.FillGaps | src/utils/utilities.py:90-109 | the filled mask has the same length, keeps every True, and entry j is True exactly when the mask is True there or j is in a False run of at most `threshold` entries |
| Runs.FillFalseBetweenTrues | src/utils/utilities.py:90-109 | the method returns a new array (the input is not modified) equal to the filled mask |
| Runs.FillGapsRuns | src/utils/utilities.py:96-107 | a maximal False run, leading and trailing runs included, becomes all True exactly when it has at most `threshold` entries, and is untouched otherwise |
| Runs.FillGapsIdempotent | src/utils/utilities.py:90-109 | filling an already filled mask changes nothing |
| Runs.TrueRunsMaximal | src/utils/utilities.py:117-125 | each run found is all True, closed by a False or the end, preceded by a False unless it starts the scan; runs are increasing with a False between them |
| Runs.TrueRunsCover | src/utils/utilities.py:117-125 | every True index lies in one of the runs |
| Runs.TrueRunsSkip | src/utils/utilities.py:122-125 | a False sample closes nothing new: the runs found so far followed by the runs of the rest are unchanged |
| Runs.TrueRunsAt | src/utils/utilities.py:117-125 | a run of True closed by a False or the end is the next block found |
| Runs.AdjustLast | src/utils/utilities.py:127-128 | only the last block can change, keeping its end, and its start never moves forward |
| Runs.AdjustLastNoop | src/utils/utilities.py:127 | without a run reaching the end the blocks are the runs |
| Runs.AdjustLastAppend | src/utils/utilities.py:127-128 | a last run `[s, n − 1]` gets start `min(s, abs(s − 5·rate))` |
| Runs.FindConsecutiveTrueBlocks | src/utils/utilities.py:111-130 | the loop returns exactly the maximal True runs as inclusive blocks, the last one adjusted |
| Runs.ConsecutiveBlocksShape | src/utils/utilities.py:111-130 | every block has `start <= end < n`; blocks before the last are increasing and separated by a False, and end before the last block ends; when the last block ends before `n − 1`, all blocks are separated; every block not touching the end is a maximal True run |
| Runs.UnmovedLastSeparated | src/utils/utilities.py:127-130 | a last block ending before `n − 1` keeps its start, so all blocks are increasing and separated by a False |
| Runs.FilledGap | src/utils/utilities.py:90-109 | in a filled mask, a True at `s` right after a False is more than `threshold + 1` indices after any earlier True |
| Runs.FilledRunsGap | src/utils/utilities.py:90-130 | in a filled mask, the last run starts more than `threshold + 1` indices after the end of every earlier run |
| Runs.FilledLastApart | src/utils/utilities.py:90-130 | in a filled mask, every earlier run ends more than `threshold + 1` indices before the last run starts |
| Runs.ApartBlocksSeparated | src/utils/utilities.py:111-130 | when the last run is more than `10·rate + 1` indices after every other run, the returned blocks, the moved last one included, are ordered and separated |
| Runs.AdjustLastSeparated | src/utils/utilities.py:127-128 | moving the last run's start to `min(s, abs(s − 5·rate))` keeps the blocks separated when the last run is more than `10·rate + 1` after every other run |
| Runs.FilledBlocksSeparated | src/utils/event_detection.py:23-24 | after the gaps of at most `10·rate` samples are closed, all blocks, the moved last one included, are ordered by start and separated by a False |
| Runs.SubseqSeparated | src/utils/event_detection.py:26-28 | a sub-list of separated blocks is separated |
| Runs.ConsecutiveBlocksCover | src/utils/utilities.py:111-130 | every True index is in some block, and there is no block exactly when the mask is all False |
| Runs.LastBlockSpec | src/utils/utilities.py:127-128 | a mask ending in True gives a last block `(min(s, abs(s − 5·rate)), n − 1)` where `[s, n)` is the maximal True run at the end |
| Runs.TrueRunsLast | src/utils/utilities.py:117-128 | the scan ends with the block of the maximal True run reaching the end |
| Runs.LastBlockMayOverlap | src/utils/utilities.py:128 | with rate 1 and True only at indices 1 and 6 of seven, the blocks are (1, 1) and (1, 6): the adjusted last block overlaps the one before |
| BlockFilter.Above | src/utils/utilities.py:133 | one flag per sample |
| BlockFilter.Below | src/utils/utilities.py:134 | one flag per sample |
| BlockFilter.ChangeBefore | src/utils/utilities.py:135 | a flag differing from the first means two neighbouring flags differ |
| BlockFilter.AnyChangeMeansNotConstant | src/utils/utilities.py:135 | `np.any(np.diff(flags) != 0)` holds exactly when the flags are not all equal |
| BlockFilter.CrossesMidline | src/utils/utilities.py:132-136 | `check_cross_midline`: the above-midline flags or the below-midline flags of the segment change between some two neighbouring samples |
| BlockFilter.CrossesMidlineMeaning | src/utils/utilities.py:132-136 | a segment crosses exactly when its above-midline flags or its below-midline flags are not all equal; a segment of fewer than two samples never crosses |
| BlockFilter.FilterCrossMidlineBlocks | src/utils/event_detection_tmp.py:42-43 | the ordered sub-list of the blocks whose stretch `[start, end)` crosses 0.5, all such blocks included |
| BlockFilter.Range | src/utils/event_detection_tmp.py:46 | max − min of a non-empty stretch is non-negative and bounds every difference of two samples |
| BlockFilter.FilterFinalBlocks | src/utils/event_detection_tmp.py:45-47 | the ordered sub-list of the blocks whose stretch spans more than 0.5, all such blocks included |
| BlockFilter.CrossMidlineBlocksNonEmpty | src/utils/event_detection_tmp.py:45-46 | every block passed to the range filter has a stretch of at least two samples, so `np.max` never sees an empty stretch |
| BlockFilter.ConstantSegmentNoCrossing | src/utils/utilities.py:132-136 | no stretch of a constant trace crosses the midline |
| BlockFilter.ConstantSignalNoCrossing | src/utils/event_detection_tmp.py:42-43 | on a constant trace the midline filter keeps no block, whatever blocks it is given |
| Refiner.DownwardCount | src/utils/utilities.py:164-165 | the number of negative first differences is below the window length |
| Refiner.DownwardMagnitude | src/utils/utilities.py:164-166 | the sum of the negative first differences is never positive |
| Refiner.DownwardMagnitudeZero | src/utils/utilities.py:164-166 | the magnitude is zero exactly when there is no downward movement |
| Refiner.CandidateAt | src/utils/utilities.py:168-171 | a row records its offset in the block |
| Refiner.BaselineWindowIsSlice | src/utils/utilities.py:153 | the baseline window is the numpy slice `signal[at − baseline:at]` |
| Refiner.BaselineWindowEmpty | src/utils/utilities.py:153 | the baseline window is empty exactly when `at == 0` or the start wraps to a position not before `at` |
| Refiner.CandidateAtSpec | src/utils/utilities.py:153-171 | the baseline mean and std are NaN exactly when the baseline window is empty; the downward count is below the event size and the magnitude is not positive |
| Refiner.KeptOffsets | src/utils/utilities.py:149-150 | every offset kept satisfies the scan condition |
| Refiner.KeptOffsetsSound | src/utils/utilities.py:149-150 | kept offsets lie in `[idx, count)` on the step grid and increase |
| Refiner.KeptOffsetsComplete | src/utils/utilities.py:149-150 | every grid offset satisfying the condition is kept |
| Refiner.Rows | src/utils/utilities.py:152-171 | one row per offset |
| Refiner.RowsAt | src/utils/utilities.py:152-171 | row k is the row of offset k |
| Refiner.KeptStep | src/utils/utilities.py:152-171 | one loop step appends the row of a kept offset |
| Refiner.CollectRows | src/utils/utilities.py:152-171 | the loop returns the rows of exactly the kept offsets, in order |
| Refiner.BlockOffsetsSound | src/utils/utilities.py:149-156 | every scanned offset is a multiple of step in `[0, end − start)`, below 0.5 in the signal, with the event window inside the signal; offsets increase |
| Refiner.BlockOffsetOnset | src/utils/utilities.py:149-156 | the k-th scanned offset is a valid onset offset |
| Refiner.BlockOffsetsComplete | src/utils/utilities.py:149-156 | every valid onset offset is scanned |
| Refiner.PossibleEvents | src/utils/utilities.py:138-173 | one row per scanned offset, carrying that offset |
| Refiner.CalculatePropertiesPossibleEvents | src/utils/utilities.py:138-173 | the method returns exactly the rows of the scanned offsets |
| Refiner.FilterCandidates | src/visualization/plotter.py:49 | the candidates with event std > 3 · baseline std, baseline mean < 0.5 and event mean − baseline mean > 0.2 are kept in scan order, all of them |
| Refiner.FirstMaxIndex | src/visualization/plotter.py:76 | `max(key=x[6])` picks the index of the largest downward magnitude, and every earlier index has a strictly smaller one (first on ties) |
| Refiner.BestOffsetIn | src/visualization/plotter.py:76 | the chosen offset is the offset of one of the candidates |
| Refiner.BestOffsetSelects | src/visualization/plotter.py:49-76 | the chosen offset belongs to a passing candidate of maximal magnitude with every earlier passing candidate strictly smaller |
| Refiner.FindBestEvent | src/visualization/plotter.py:44-94 | `find_best_events`: the block start plus the offset of the first passing candidate with the largest downward magnitude, or None when no candidate passes |
| Refiner.FindBestEventNone | src/visualization/plotter.py:76-94 | `find_best_events` returns None exactly when no candidate passes the filter |
| Refiner.FindBestEventScanned | src/visualization/plotter.py:94 | a returned index is the block start plus a scanned offset |
| Refiner.FindBestEventBounds | src/visualization/plotter.py:94 | a returned index r has `start <= r < end`, `r + event_size <= len(signal)` and the trace below 0.5 at r |
| Refiner.BestEvents | src/utils/event_detection_tmp.py:52-58 | the best onset of each block, in block order, with the blocks that have none dropped |
| Refiner.FindBestEventsForBlocks | src/utils/event_detection_tmp.py:52-58 | the loop returns the onsets of the blocks in block order, dropping None |
| Refiner.InBlocksLength | src/utils/event_detection_tmp.py:52-58 | at most one onset per block |
| Refiner.InBlocksIncreasing | src/utils/event_detection.py:30-34 | at most one onset per block, taken in order from separated blocks, gives strictly increasing onsets |
| Refiner.BestEventsInBlocks | src/utils/event_detection.py:30-34 | at most one onset per final block, in block order, each inside its block's `[start, end)` and inside the signal |
| Whisker.CountBelow | src/utils/event_detection.py:39 | the count of whisker times below a time is at most the number of whisker samples |
| Whisker.CountBelowMonotone | src/utils/event_detection.py:39 | the count is monotone in the query time |
| Whisker.CountBelowSplits | src/utils/event_detection.py:39 | for sorted times, the count splits the times into those below the query and those not below it |
| Whisker.WhiskerIndex | src/utils/event_detection.py:38-39 | the whisker index lies in `[0, len(whisker_velocity_time)]` |
| Whisker.Trapz | src/utils/event_detection.py:42-43 | `np.trapz`: the sum over neighbouring samples of the time step times the mean of the two values, 0 for fewer than two samples |
| Whisker.TrapzNonNegative | src/utils/event_detection.py:42-43 | the trapezoid integral of non-negative values over increasing times is non-negative |
| Whisker.TrapzConstant | src/utils/event_detection.py:42-43 | the integral of a constant c is c times the time span |
| Whisker.Divide | src/utils/event_detection.py:44 | float division is finite exactly for a nonzero divisor; dividing by zero gives +inf for a positive, −inf for a negative and NaN for a zero dividend |
| Whisker.ExceedsMeaning | src/utils/event_detection.py:44-47 | `a / b > bound` means `a > bound · b` for positive b, `a < bound · b` for negative b, and `a > 0` for a zero b |
| Whisker.DivideScale | src/utils/event_detection.py:44 | scaling dividend and divisor by the same positive factor leaves the quotient unchanged, inf and NaN included |
| Whisker.SliceScale | src/utils/event_detection.py:40-43 | slicing with numpy's rules commutes with rescaling the velocity |
| Whisker.TrapzScale | src/utils/event_detection.py:42-43 | the trapezoid integral is linear: rescaling the values by c rescales the integral by c |
| Whisker.RatioScale | src/utils/event_detection.py:42-44 | the quotient of two integrals is unchanged when both value lists are rescaled by the same positive factor |
| Whisker.WindowRatioScale | src/utils/event_detection.py:40-44 | the ratio around any whisker index, wrapped and clipped windows included, is unchanged when the velocity is rescaled by a positive factor |
| Whisker.IntegralRatio | src/utils/event_detection.py:37-44 | the ratio of one onset: the float quotient of the waking integral over the baseline integral of the velocity windows around the onset's whisker index |
| Whisker.IntegralRatioScale | src/utils/event_detection.py:37-44 | the ratio of an onset does not depend on the unit of the whisker velocity |
| Whisker.CalculateIntegralData | src/utils/event_detection.py:36-45 | one ratio per onset, in onset order, each the waking integral over the baseline integral around its whisker index |
| Whisker.KeepExceeding | src/utils/event_detection.py:47 | the ordered sub-list of the onsets whose ratio exceeds the bound: all of them and only them, exactly as many as there are ratios above the bound |
| Whisker.KeepExceedingAppend | src/utils/event_detection.py:47 | filtering two stretches of onsets back to back gives the kept onsets of the first followed by those of the second |
| Whisker.KeepExceedingExtremes | src/utils/event_detection.py:47 | every onset survives when every ratio exceeds the bound, none when no ratio does |
| Whisker.FilterWakingUpEvents | src/utils/event_detection.py:36-47 | the method returns the onsets whose ratio is above 1.5 |
| Whisker.WakingUpEventsSpec | src/utils/event_detection.py:36-47 | the waking-up onsets are a sub-list of the onsets containing every onset whose ratio is above 1.5 and only such onsets, exactly as many as there are ratios above 1.5 |
| Whisker.WakingUpEventsScale | src/utils/event_detection.py:36-47 | rescaling the whisker velocity by any positive factor leaves the waking-up onsets unchanged |
| Pipeline.PupilMask | src/utils/event_detection_tmp.py:20-26 | the boolean mask has one entry per sample of the unpadded trace |
| Pipeline.PupilMaskOf | src/utils/event_detection_tmp.py:23-26 | the accumulation mask of the detector's labels, compared with 0.5, is the boolean mask of the trace |
| Pipeline.PupilBlocks | src/utils/event_detection.py:23-24 | the blocks of the boolean mask after closing the gaps of up to `10 · rate` samples |
| Pipeline.DetectPupilEvents | src/utils/event_detection_tmp.py:20-29 | detector with padding 5, `pre = bsline_length · rate`, `ev = event_length · rate`, threshold 3 and step 1, then the mask, `> 0.5`, gaps of up to `10 · rate` closed, and the blocks |
| Pipeline.FinalBlocks | src/utils/event_detection.py:26-28 | the blocks that cross the midline and whose range exceeds 0.5, in block order |
| Pipeline.FinalEvents | src/utils/event_detection.py:30-34 | the best onset of each final block that has one, in block order |
| Pipeline.DetectedEvents | src/utils/event_detection.py:36-47 | the final onsets whose integral ratio is above 1.5, in onset order |
| Pipeline.DetectEvents | src/utils/event_detection.py:8-49 | the method returns the waking-up onsets of the final blocks |
| Pipeline.DetectEventsStages | src/utils/event_detection.py:23-47 | final blocks ⊑ crossing blocks ⊑ blocks; the blocks and the final blocks are ordered by start and do not overlap; at most one onset per final block, in order and inside it; waking-up onsets ⊑ onsets, never more of them; the onsets and the waking-up onsets increase strictly |
| Pipeline.NetNoFlags | src/utils/event_detection.py:13-21 | with no flagged step the accumulation mask is zero everywhere |
| Pipeline.ConstantTraceMask | src/utils/event_detection.py:12-23 | a constant trace gives an all-False boolean mask |
| Pipeline.AllFalseNoBlocks | src/utils/event_detection.py:23-24 | an all-False mask longer than the gap tolerance gives no block |
| Pipeline.ConstantTraceNoBlocks | src/utils/event_detection.py:10-24 | a constant trace longer than `10 · rate` samples yields no candidate block |
| Pipeline.DetectedEventsVelocityScale | src/utils/event_detection.py:8-49 | rescaling the whisker velocity by a positive factor leaves the onsets `detect_events` returns unchanged |
| Pipeline.ConstantTraceNoEvents | src/utils/event_detection.py:8-49 | a constant trace of any length gives no final block and no waking-up onset, whatever the whisker data |

## Left out

- src/utils/processing.py: event windowing, percentile exclusion, confidence intervals, plotting and CSV export. These are float statistics and I/O.
- src/utils/data_processing.py, scripts/run_individual.py, scripts/run_batch.py and src/data/data_loader.py are not part of this model. They are orchestration, path handling, logging and CSV loading.
- Float preprocessing in src/utils/utilities.py (`normalize_series`, `normalize_mean_std`, `moving_average`, `detect_and_interpolate_sudden_changes`, `calculate_derivative`, `change_shape`, `find_folders_with_csv`) is not modelled. The trace, its times, the whisker velocity and its times are inputs.
- `calculate_normalized_whisker_velocity` (src/utils/event_detection_tmp.py:49-50) is float preprocessing. Its result is an input, which matches the inline `detect_events` signature.
- Refiner.PossibleEvents: the scan sizes `int(window / mean(diff(time)))` (src/utils/utilities.py:140-145) are not derived from the time axis. Each block's sizes are given as `sizesOf(block)` with positive baseline, event and step sizes. So `time` does not appear in the model of `find_best_events`.
- The standard deviation's square root is abstracted. `np.std` is a function parameter.
- Floating-point rounding is not modelled: all arithmetic is exact over the reals. `Whisker.Divide` does not model signed zeros or infinite and NaN operands, because its operands are finite reals.
- Pipeline.Window: window lengths and sampling rates are positive integers, so `pre_event_window` and `event_window` are at least one sample.
- Pipeline.DetectEvents requires a non-empty trace (indexing `pupil_diameter[0]` for padding fails otherwise). It also requires the pupil times to be as long as the trace, and the whisker velocity as long as its time axis. The caller of the inline version passes the velocity with the time axis shortened by one sample to match it (`whisker_time[:-1]`, src/utils/data_processing.py:64-65).
- Whisker.CalculateIntegralData: the whisker step of src/utils/event_detection_tmp.py is not modelled. That version computes the velocity itself from the whisker angle (line 13), which gives one value fewer than there are whisker times, and then passes the full `whisker_time` (line 16). A window reaching the end of the velocity then slices a velocity stretch one sample shorter than its time stretch, where `np.trapz` broadcasts or raises. The model requires the velocity and its times to have equal length, as in the inline version.
- The `print_result` / `plot_result` flags of `find_best_events` and all plotting are left out. They only print and plot, and do not change the returned index.
- `np.trapz(...).mean()` is the integral itself, because the integral of a 1-D slice is a scalar.
- SuddenChange.StepLabels: gives label 0 at step positions where the windows do not fit. The detector never visits these positions, and LabelsClassify shows it.
- Runs.ConsecutiveBlocksShape: the last block is stated to be separated from the earlier blocks only when it ends before the end of the mask. On an arbitrary mask, a last block reaching the end has its start moved back and can overlap earlier blocks (Runs.LastBlockMayOverlap). This cannot happen in the detector, which closes the gaps of at most `10·rate` samples first (Runs.FilledBlocksSeparated).
- BlockFilter.FilterFinalBlocks requires every block's stretch to be non-empty, so the ValueError `np.max` raises on an empty stretch is not modelled. The midline filter's output always meets this requirement (BlockFilter.CrossMidlineBlocksNonEmpty).
