# NIDAS streaming algorithms, verified

NIDAS records, merges, calibrates and summarises time-tagged sensor samples. Most of
its hard code is streaming code that must agree with a much simpler offline
definition. This project models that code in Dafny and proves the agreement, for all
inputs and all runs:

- **Merge and its verifier** (`Samples`, `Merge`, `MergeProgram`, `MergeVerify`):
  `nidsmerge` reads N loosely ordered inputs window by window through a sorted set.
  For inputs of bounded disorder the output file *is* the offline merge. For any
  inputs at all, forced tags or not, every accepted sample is accounted for. `merge_verify` calls a
  sample missing exactly when it is missing. The two programs composed report nothing.
- **Calibration files** (`CalFiles`, `CalFileTheory`, `CalFileRecords`,
  `CalFileReader`, `A2D`): a
  stateful reader of files with nested includes refines the recursive lookup of the
  record in effect at a time, and delivers exactly the records of the file with its
  includes written out. The A/D converter built on it holds the last matching
  record, whichever way the queries are spaced.
- **Rolling statistics** (`Counters`, `Statistics`): counters updated as samples
  arrive equal counters rebuilt by replay, over every interleaving, with the exact
  condition under which they do not; and the law of the sliding window.
- **Spline** (`Spline`): tridiagonal elimination over the reals gives the one
  interpolating spline, and never divides by zero.
- **Asynchronous posting** (`Influx`): two threads and two buffers as a state
  machine; no races, and everything posted exactly once.
- **Byte streams** (`Nmea`, `Crc`, `SingPacket`, `SingTally`, `SingReceiver`, `Sing`,
  `Rserial`): framing in bounded buffers is independent of chunking, up to a sharp bound on the
  length of a message; the table-driven
  checksum is long division; a packet stream survives any chunking; a separator
  matcher without backtracking finds every separator if and only if the
  separator cannot slip against itself.

Code that works by changing things is modelled by classes and by methods with loops,
each proved against a specification function; the theorems are about those
functions. Automatic induction is switched off throughout, so a proof by induction
shows where it recurs. Times and counts are unbounded integers, with the 64-bit limits `MIN_TIME`
and `MAX_TIME` as the "not set" values; 32-bit truncation is written out where it
matters (`Counters.Int32`, `SingPacket.ToUnsigned`, the bit vectors of `Crc` and
`Statistics.HashBits`).

`dafny verify dfyconfig.toml` checks everything.

## Behaviour worth knowing

- A channel number out of range is not stored by `setGain`, but with a positive gain
  it still changes the number of channels in use, and the converter's invariant is
  lost (`A2D.A2DConverter.SetGain`).
- A statistics period that starts at time zero is taken for one that has not
  started. The next sample starts it again without a replay. The counters then
  disagree with the queue exactly if a queued sample precedes the new period or lies
  between its old and new end (`Statistics.AgreesMoved`), and they do so until the next
  advance. `Statistics.EpochIsNoStart` is such a run.
- `readCalFile` fills with NaN only the first channel that a short record matches but
  does not cover. Later ones keep their old coefficients. The model follows the code.
- `readCF` on an empty top-level file delivers an empty record at the largest time
  before it reports the end of the file (`CalFiles.EmptyFileRead`).
- `tee_i2c` frames messages of up to half its buffer whatever the calls. One byte more,
  and how the stream is cut decides whether the message passes or is lost
  (`Nmea.LongerMessagesCanBeLost`).
- `rserial` does not find every separator: `aab` is missed in `aaab`
  (`Rserial.MissedSeparator`); `Rserial.FindsLeftmostIff` says for which separators
  that can happen.
- Packet number 0 of `sing` is never counted as missing, because the number last seen
  starts at 0 (`SingReceiver.Describes`).
- A `sing` header that announces more data than the buffer holds, or fewer than -23
  bytes, leads to operations that C++ does not define. Both are the outcome
  `Undefined`; everything up to there is covered.

## Model

| member | source | states |
|---|---|---|
| Samples.LessTrichotomy | src/nidas/core/SortedSampleSet.h:80-100 | the comparator is a strict total order: two samples compare equal only if time, id, length and data all agree |
| Samples.LessTransitive | src/nidas/core/SortedSampleSet.h:80-100 | the comparator is transitive |
| Samples.MemLessAtFirstDifference | src/nidas/core/SortedSampleSet.h:92-94 | blocks of bytes compare at their first difference |
| Samples.LessIsLexicographic | src/nidas/core/SortedSampleSet.h:85-99 | the order is by time, then id, then length, then bytes |
| Samples.InsertIsSetInsertion | src/nidas/apps/nidsmerge.cc:922-934 | insertion keeps the set strictly sorted and adds exactly the new sample, or nothing if an equal one is there |
| Samples.LowerBoundSplitsByTime | src/nidas/apps/nidsmerge.cc:530-543 | searching with a dummy sample splits the set exactly into earlier than the time and not earlier |
| Merge.LedgerExtend | src/nidas/apps/nidsmerge.cc:862-934 | recording one more accepted sample keeps conservation, the reasons for duplicates, last times and, with forcing, strictly increasing tags moved by one microsecond |
| Merge.DuplicatesSnoc | src/nidas/apps/nidsmerge.cc:922-934 | a submitted sample is recorded as a duplicate if and only if an equal one was then in the sorter |
| Merge.NonIncrSnoc | src/nidas/apps/nidsmerge.cc:879-915 | every sample in the non-increasing set, and every one discarded by it, has its like submitted earlier with a later tag |
| Merge.CaughtUp | src/nidas/apps/nidsmerge.cc:801-817 | once every open input has reached the fill time, bounded disorder leaves nothing unread before the window |
| Merge.OrderedFlush | src/nidas/apps/nidsmerge.cc:567-593 | a flush keeps the whole output strictly sorted and moves the boundary between written and held to the flush time |
| Merge.LedgerFlush | src/nidas/apps/nidsmerge.cc:574-593 | a flush moves samples to written or clipped, loses none, and clips exactly those at or past the end time |
| Merge.AccountedStart | src/nidas/apps/nidsmerge.cc:937-944 | when the first window fixes the start time, it is the earliest tag and nothing read so far precedes it |
| Merge.NothingInvented | src/nidas/apps/nidsmerge.cc:817-935 | whatever is written, clipped or held was read from an input; only its tag may differ, only later, only with forcing |
| Merge.NothingLost | src/nidas/apps/nidsmerge.cc:817-935 | every accepted sample is among the written, clipped and held ones, as it was read or, with forcing, with a later tag |
| Merge.TagGrowth | src/nidas/apps/nidsmerge.cc:885-891 | a forced tag is never further past the latest time read than there are samples before it |
| Merge.OutputIsWanted | src/nidas/apps/nidsmerge.cc:969-977 | with everything wanted read and the sorter empty, the written samples are exactly the wanted ones |
| Merge.MergeIsUnique | src/nidas/apps/nidsmerge.cc:785-977 | the offline merge determines the output, sample for sample |
| Merge.GapShrinks | src/nidas/apps/nidsmerge.cc:785-789 | while no input is read, the distance of the waiting inputs to the window shrinks, so the loops end even behind a far-future tag |
| MergeProgram.NidsMerge.constructor | src/nidas/apps/nidsmerge.cc:646-656 | inputs start unread, or at their end if the header could not be read; the invariant holds |
| MergeProgram.NidsMerge.Submit | src/nidas/apps/nidsmerge.cc:864-934 | the new tag, the fate of the sample, and the new sorter, non-increasing set and last times |
| MergeProgram.NidsMerge.ReadSample | src/nidas/apps/nidsmerge.cc:817-935 | one read keeps the run's invariant, sets the latest time of the input exactly, lowers the fill time only while the start is unknown, and uses up work |
| MergeProgram.NidsMerge.ReadItem | src/nidas/apps/nidsmerge.cc:830-935 | the same for a sample that is there |
| MergeProgram.NidsMerge.FillInput | src/nidas/apps/nidsmerge.cc:807-935 | afterwards the input is at its end or has reached the fill time, something was read unless it already had, and only the last sample read may be past the fill time |
| MergeProgram.NidsMerge.FillInputs | src/nidas/apps/nidsmerge.cc:803-936 | afterwards that holds of every input, for the final fill time |
| MergeProgram.NidsMerge.FlushSorter | src/nidas/apps/nidsmerge.cc:567-609 | writes the samples before the time, clipped at the end time, keeps the others, and reports the last tag written |
| MergeProgram.NidsMerge.AgeOffNonIncr | src/nidas/apps/nidsmerge.cc:663-683 | exactly the samples before the time leave the non-increasing set |
| MergeProgram.NidsMerge.ReadWindow | src/nidas/apps/nidsmerge.cc:801-944 | a window is filled, no further than its fill time, and the start time, if unknown, becomes the earliest tag |
| MergeProgram.NidsMerge.FlushWindow | src/nidas/apps/nidsmerge.cc:961-967 | exactly the samples before the window are written or clipped and leave the sorter, exactly those leave the non-increasing set, and all invariants are kept |
| MergeProgram.NidsMerge.Window | src/nidas/apps/nidsmerge.cc:791-968 | one turn of the main loop keeps all invariants and makes progress |
| MergeProgram.NidsMerge.Finish | src/nidas/apps/nidsmerge.cc:969-977 | after the last flush nothing below the largest time is held, in any run; in an ordered run the output is the offline merge |
| MergeProgram.NidsMerge.Run | src/nidas/apps/nidsmerge.cc:757-977 | the run terminates; on any inputs, forced or disordered, everything is read that the end time calls for, each inserted sample is in the end written or clipped exactly once and none is held, each duplicate equals a sample then in the sorter, each sample discarded as non-increasing had its like submitted with a later tag, and forced tags strictly increase per input and id, each moved one microsecond past an earlier tag; with disorder within the read-ahead and no forcing the output is the offline merge of all matched samples in [start, end), the start derived if not given |
| MergeProgram.NidsMerge.ForcedTagsBelow | src/nidas/apps/nidsmerge.cc:885-891 | no forced tag reaches the largest time unless more samples were accepted than the read-ahead has microseconds |
| MergeVerify.WindowIsExact | src/nidas/apps/merge_verify.cc:401-437 | within a window, being in the held set and being in the merge stream are the same |
| MergeVerify.ReadMerge | src/nidas/apps/merge_verify.cc:400-416 | reads the merge stream up to the end of the window, keeps what the window needs, and counts the duplicates |
| MergeVerify.CheckInput | src/nidas/apps/merge_verify.cc:426-463 | judges every sample of an input up to the first one past the window |
| MergeVerify.CheckedInput | src/nidas/apps/merge_verify.cc:430-441 | the verdicts are sound, and with bounded disorder no sample from the first window on is called backward |
| MergeVerify.TimedInput | src/nidas/apps/merge_verify.cc:426-463 | each sample is judged in the first window that reaches past it and past all before it |
| MergeVerify.BackwardIff | src/nidas/apps/merge_verify.cc:432-435 | with bounded disorder exactly the samples more than the read-ahead before the start are called backward |
| MergeVerify.HoldsTrim | src/nidas/apps/merge_verify.cc:467-477 | dropping what precedes the window keeps all that later windows need |
| MergeVerify.CheckInputs | src/nidas/apps/merge_verify.cc:424-464 | every input is checked up to the end of the window, and ended inputs are counted once |
| MergeVerify.Verify | src/nidas/apps/merge_verify.cc:397-478 | every verdict is sound: missing only if absent from the merge stream, present only if there; exactly the samples are judged whose window starts at or before the end time, and those are called backward that are older than the window before theirs |
| MergeVerify.MergedIsPresent | src/nidas/apps/merge_verify.cc:430-441 | against the merge of its own inputs, a sample within the merged period is always judged present |
| MergeVerify.MergeThenVerify | src/nidas/apps/merge_verify.cc:397-478 | merging inputs of bounded disorder and verifying the result reports nothing within the period |
| CalFiles.ReadCFWellFormed | src/nidas/core/CalFile.cc:536-602 | reading never leaves a file or its include order, and terminates by include depth, then lines left |
| CalFiles.EmptyFileRead | src/nidas/core/CalFile.cc:551-601 | an empty file delivers an empty record at the largest time, and only then its end |
| CalFileReader.CalFile.ReadLineTime | src/nidas/core/CalFile.cc:417-430 | the next line and its time, or the end of the file with the next time out of reach |
| CalFileReader.CalFile.SearchTime | src/nidas/core/CalFile.cc:351-389 | the scan of the file and the return to the line it remembered |
| CalFileReader.CalFile.Open | src/nidas/core/CalFile.cc:775-793 | the included file is open at the directive's time, with the time after the directive noted |
| CalFileReader.CalFile.ReadRecord | src/nidas/core/CalFile.cc:536-602 | the object with its chain of included readers does what the specification of `readCF` says, at every depth |
| CalFileReader.CalFile.ReadIncluded | src/nidas/core/CalFile.cc:482-530 | the part that delegates to the included reader, with times clipped to the directive's |
| CalFileReader.CalFile.ReadOwn | src/nidas/core/CalFile.cc:524-602 | the part that closes a finished include and goes on with the file's own lines |
| CalFileTheory.SearchFinds | src/nidas/core/CalFile.cc:364-379 | the search ends on the first of the latest lines at or before the time that share a time |
| CalFileTheory.AnnouncedBeforeAhead | src/nidas/core/CalFile.cc:516-520 | the announced next time never exceeds the time of the next record |
| CalFileTheory.LastBeforeAhead | src/nidas/core/CalFile.cc:505-520 | the next record is never earlier than the last one delivered |
| CalFileTheory.IncludedRecord | src/nidas/core/CalFile.cc:505-522 | an included record is delivered at a time between its directive's and that of the parent's following line, both included |
| CalFileTheory.ReadDelivers | src/nidas/core/CalFile.cc:482-602 | a read from a reader with a record due delivers it in time order, announces no later time than it keeps, and keeps the invariant at every depth |
| CalFileTheory.LastIsInEffect | src/nidas/core/CalFile.h:115-122 | between the last record and the next announced time, the last record is the recursive lookup's answer |
| CalFileTheory.WeightDrops | src/nidas/core/CalFile.cc:536-602 | every successful read uses up a finite weight, so reading ends whatever the files hold |
| CalFileTheory.DrainInSteps | src/nidas/core/A2DConverter.cc:292-297 | reading up to one time and then up to a later one is reading up to the later one |
| CalFileTheory.DrainFindsRecordInEffect | src/nidas/core/A2DConverter.cc:292-297 | reading up to a time delivers records in time order, none later, and the last is the one in effect |
| CalFileTheory.StreamingIsLookup | src/nidas/core/CalFile.h:115-122 | for every non-decreasing sequence of query times, the last record read is the recursive lookup's answer |
| CalFileRecords.ReadsNext | src/nidas/core/CalFile.cc:482-602 | one read, at any depth of includes, delivers the first of the records remaining and leaves the others |
| CalFileRecords.LateChild | src/nidas/core/CalFile.cc:505-530 | an included file that announces no time before the parent's next line has no record left before it, so none is lost when it is closed |
| CalFileRecords.DrainIsUpTo | src/nidas/core/A2DConverter.cc:292-297 | reading up to a time delivers exactly the remaining records up to then |
| CalFileRecords.DrainIsExpansion | src/nidas/core/CalFile.h:115-122 | a file read from its beginning delivers, in order and once each, exactly its records with every directive replaced by the included records from the latest group at its time up to the next line |
| A2D.A2DConverter.constructor | src/nidas/core/A2DConverter.cc:39-49 | no channel in use; every polynomial is the identity |
| A2D.A2DConverter.SetGain | src/nidas/core/A2DConverter.cc:90-95 | the gain and channel count after the call, and exactly when the invariant survives |
| A2D.ToIntTruncates | src/nidas/core/A2DConverter.cc:301-302 | conversion of a field truncates towards zero |
| A2D.MatchesGainAndPolarity | src/nidas/core/A2DConverter.cc:301-307 | a record is for a channel with a gain if its first field is that gain and its second that polarity, negative or NaN fitting any |
| A2D.SliceFields | src/nidas/core/A2DConverter.cc:308-310 | coefficient j of channel i is field 2 + ncoefs * i + j |
| A2D.ChannelsInIs | src/nidas/core/A2DConverter.cc:293-300 | how many channels a record has coefficients for |
| A2D.ShortRecordStops | src/nidas/core/A2DConverter.cc:311-320 | the first channel matched but not covered gets NaNs, and no later channel changes |
| A2D.A2DConverter.TakeRecord | src/nidas/core/A2DConverter.cc:298-322 | the coefficients after one record, with wildcards and the short-record break |
| A2D.A2DConverter.ReadCalFile | src/nidas/core/A2DConverter.cc:285-324 | the reader and the coefficients after all records due, and the failure that ended the loop, if any |
| A2D.LastMatchIsHeld | src/nidas/core/A2DConverter.cc:304-310 | with full-length records each channel holds the coefficients of the last delivered record that matches it, or what it held before |
| A2D.CalibrateInSteps | src/nidas/core/A2DConverter.cc:285-324 | calibrating for one time and then a later one is calibrating for the later one |
| A2D.PolynomialShift | src/nidas/core/A2DConverter.cc:276-279 | the recurrence that links one evaluation step to the polynomial |
| A2D.Convert | src/nidas/core/A2DConverter.cc:271-283 | the loop evaluates the polynomial, and passes counts on when there are no coefficients |
| Counters.AccumulateData | src/nidas/apps/data_stats.cc:667-719 | the loop over the values computes the specified sums, NaN counts and kept values |
| Counters.AddColumns | src/nidas/apps/data_stats.cc:702-718 | the loop over the values adds each to the sum, the NaN count and the kept values of its variable |
| Counters.FoldMeaning | src/nidas/apps/data_stats.cc:630-664 | a folded counter holds the count, first and last times, bytes, least and greatest sizes and gaps of its stream |
| Counters.GapIsNearest | src/nidas/apps/data_stats.cc:643 | the gap is the nearest millisecond, unless a sample is over half a millisecond earlier than the one before; then by how much it is off |
| Counters.FoldColumns | src/nidas/apps/data_stats.cc:695-718 | per variable, the sum without NaNs, the number of NaNs and the kept values of its column |
| Counters.FoldText | src/nidas/apps/data_stats.cc:673-690 | the kept times are those of the stream and the kept raw message is its latest |
| Counters.MessageIs | src/nidas/apps/data_stats.cc:681-688 | the message is the text without one NUL at its end |
| Statistics.HashIdIdempotent | src/nidas/apps/data_stats.cc:1481-1501 | hashing an id twice is hashing it once |
| Statistics.HashIdSeparates | src/nidas/apps/data_stats.cc:1485-1500 | two ids share a counter if and only if they are the same or both are motes' and agree in the bits considered |
| Statistics.MoteBits | src/nidas/apps/data_stats.cc:1485-1493 | bit 15 marks a mote; bits 0 and 1 and, with a single mote, bits 8 to 11 are not considered |
| Statistics.OrdinaryIdsApart | src/nidas/apps/data_stats.cc:1485-1500 | ids that are not motes' never share a counter |
| Statistics.RoundIsNearest | src/nidas/util/UTime.cc:684-694 | the rounded time is a multiple of the interval, at most half of one away, and the later one halfway |
| Statistics.AgreesArrival | src/nidas/apps/data_stats.cc:1692-1704 | queueing and accumulating an arrival keeps every counter equal to the fold of its queued samples |
| Statistics.AgreesNewCounter | src/nidas/apps/data_stats.cc:1518-1534 | a new counter changes no agreement |
| Statistics.AgreesMoved | src/nidas/apps/data_stats.cc:1687-1691 | counters that agree with the queue for one period agree with it for another if and only if no queued sample precedes the new one or changes sides at its end |
| Statistics.ApartArrival | src/nidas/apps/data_stats.cc:1692-1704 | further arrivals do not mend a disagreement |
| Statistics.DataStats.StaleIsDisagreement | src/nidas/apps/data_stats.cc:1653-1711 | the stale mark is set if and only if a counter is not what a replay would give |
| Statistics.DataStats.CreateCounters | src/nidas/apps/data_stats.cc:1537-1612 | counters for the sensors' ids, leaving existing ones alone |
| Statistics.DataStats.SetStart | src/nidas/apps/data_stats.cc:2063-2079 | the rounded start and the first end |
| Statistics.DataStats.StartIsRounded | src/nidas/apps/data_stats.cc:2063-2071 | the start is the nearest multiple of the rounding, or as set when there is none |
| Statistics.DataStats.FirstWindow | src/nidas/apps/data_stats.cc:2072-2079 | a period set to start is the first of the sliding windows |
| Statistics.DataStats.Receive | src/nidas/apps/data_stats.cc:1653-1711 | queue, counter, period and alarm after an arrival; from agreement, counters and queue agree afterwards if and only if the period did not start at zero or moving it changes sides for no queued sample |
| Statistics.DataStats.RestartStats | src/nidas/apps/data_stats.cc:1836-1877 | exactly the samples before the start leave the queue, counters are the fold of the rest, and the earliest time is found |
| Statistics.DataStats.AdvanceStats | src/nidas/apps/data_stats.cc:2097-2170 | the next period in each of its cases, a real-time reset to the earliest queued sample or to now exactly when that or the clock has passed the end; the queue with only what no later window can hold removed, and agreement restored; a reset loses no sample unless the start is rounded |
| Statistics.DataStats.Run | src/nidas/apps/data_stats.cc:1653-1711 | every interleaving of arrivals, advances and real-time resets keeps counters and queue in agreement if all starts are after time zero, and exactly when not stale if none is before it; and the period stays on the course of the sliding window |
| Statistics.EpochIsNoStart | src/nidas/apps/data_stats.cc:1687-1691 | two samples, the first at time zero, after which a counter differs from its replay |
| Statistics.WindowLaw | src/nidas/apps/data_stats.cc:2120-2128 | after k advances the end is the first end plus k updates and the start is the later of the first start and the end less the period |
| Statistics.WindowsOnlyMoveOn | src/nidas/apps/data_stats.cc:2120-2128 | no later window starts earlier, so what was dropped is in none of them |
| Statistics.NothingDroppedTooEarly | src/nidas/apps/data_stats.cc:1846-1855 | what a restart drops from the queue changes no later window, for any counter |
| Statistics.WindowsCoverEachTime | src/nidas/apps/data_stats.cc:2120-2128 | when the update divides the period, each time from the start on lies in exactly period/update consecutive windows |
| Spline.FactorInRange | src/nidas/core/AdaptiveDespiker.cc:144-147 | every factor of the elimination lies in (-1, 0], so no divisor vanishes |
| Spline.RowSolved | src/nidas/core/AdaptiveDespiker.cc:144-166 | back-substitution into a decomposed row gives the row of the tridiagonal system |
| Spline.RowIsSmooth | src/nidas/core/AdaptiveDespiker.cc:144-151 | a row of the system holds if and only if the slopes of the two pieces agree at the knot |
| Spline.SolverIsCorrect | src/nidas/core/AdaptiveDespiker.cc:134-166 | elimination and back-substitution together give a spline |
| Spline.NextRow | src/nidas/core/AdaptiveDespiker.cc:145-150 | one step of the decomposition, with its factor in range |
| Spline.Eliminate | src/nidas/core/AdaptiveDespiker.cc:140-151 | the decomposition loop on the two arrays |
| Spline.LastValue | src/nidas/core/AdaptiveDespiker.cc:153-163 | the upper boundary condition, natural or clamped |
| Spline.BackSubstitute | src/nidas/core/AdaptiveDespiker.cc:165-166 | the back-substitution loop in place |
| Spline.ComputeSpline | src/nidas/core/AdaptiveDespiker.cc:126-169 | for n at least 2 and increasing knots the result satisfies continuity at every interior knot and both boundary conditions |
| Spline.SplineIsUnique | src/nidas/core/AdaptiveDespiker.cc:116-123 | there is only one such vector of second derivatives |
| Spline.CubicIsTaylor | src/nidas/core/AdaptiveDespiker.cc:199-203 | the evaluated cubic has the slope and second derivative at its left knot that the equations speak of |
| Spline.TaylorAtRightEnd | src/nidas/core/AdaptiveDespiker.cc:199-203 | and those at its right knot |
| Spline.Evaluate | src/nidas/core/AdaptiveDespiker.cc:199-205 | the cubic of an interval at a point, with the knots' values at the knots |
| Spline.Interpolate | src/nidas/core/AdaptiveDespiker.cc:177-206 | the bisection brackets the argument, the only error is two equal knots, and each knot's value is reproduced |
| Influx.NextInv | src/nidas/apps/data_influxdb.cc:377-478 | every step of either thread keeps the invariant |
| Influx.RunInv | src/nidas/apps/data_influxdb.cc:377-478 | it holds in every state of every run |
| Influx.OnlyTouchedIsWritten | src/nidas/apps/data_influxdb.cc:377-450 | a step leaves every shared object outside its footprint as it was |
| Influx.OnlyTouchedIsRead | src/nidas/apps/data_influxdb.cc:377-450 | a step does not depend on any shared object outside its footprint |
| Influx.NoRace | src/nidas/apps/data_influxdb.cc:430-442 | the two threads never have steps ready whose footprints share an object, the result buffer included |
| Influx.StepsCommute | src/nidas/apps/data_influxdb.cc:430-442 | in every reachable state two such steps can be taken in either order, with the same result |
| Influx.OnePostAtATime | src/nidas/apps/data_influxdb.cc:415-433 | a post is launched only when none is in flight, and with the last reply cleared |
| Influx.ExactlyOnce | src/nidas/apps/data_influxdb.cc:391-450 | until an error, posted, in flight and active together are everything added, once and in order; and what is posted is always a prefix of it |
| Influx.NothingAfterError | src/nidas/apps/data_influxdb.cc:396-403 | after an error nothing more is posted |
| Influx.ErrorIsNoticed | src/nidas/apps/data_influxdb.cc:428-433 | once a post has failed or been answered with an error, nothing more is posted |
| Influx.ErrorHasCause | src/nidas/apps/data_influxdb.cc:483-533 | the error state is entered only because of such a post |
| Influx.FlushReports | src/nidas/apps/data_influxdb.cc:467-478 | a flush throws if and only if some post has gone wrong |
| Influx.ErrorDiscards | src/nidas/apps/data_influxdb.cc:396-403 | in the error state a further send drops what was added since |
| Influx.NoDeadlock | src/nidas/apps/data_influxdb.cc:417-422 | in every state the caller may call or a step can be taken, whatever the server answers |
| Influx.CallsReturn | src/nidas/apps/data_influxdb.cc:391-478 | every step but a new call lowers a bound, so adding and flushing return |
| Influx.PostsOnTime | src/nidas/apps/data_influxdb.cc:383-388 | between calls fewer measurements wait than the count |
| Influx.FlushDrains | src/nidas/apps/data_influxdb.cc:467-478 | a flush that does not fail leaves both buffers empty and everything posted |
| Influx.CharBuffer.constructor | src/nidas/apps/data_influxdb.cc:87-94 | an empty string |
| Influx.CharBuffer.GetSpace | src/nidas/apps/data_influxdb.cc:121-136 | the contents are unchanged and there is room, with a terminator, behind them |
| Influx.CharBuffer.Append | src/nidas/apps/data_influxdb.cc:377-383 | the data is appended |
| Influx.CharBuffer.Empty | src/nidas/apps/data_influxdb.cc:138-144 | whether there are no contents, which it leaves alone |
| Nmea.ScanIsFraming | src/nidas/apps/tee_i2c.cc:696-711 | searching for '$' and newline finds the same messages as a machine that goes byte by byte |
| Nmea.ScanContinues | src/nidas/apps/tee_i2c.cc:686-711 | scanning what was kept and new text is framing the new text from the message in progress |
| Nmea.ScanStaysTidy | src/nidas/apps/tee_i2c.cc:696-708 | less than a quarter of a buffer is ever kept before a message in progress |
| Nmea.LongPending | src/nidas/apps/tee_i2c.cc:656-682 | text is given up only if the stream has a message longer than half the buffer |
| Nmea.LateMessageSurvives | src/nidas/apps/tee_i2c.cc:664-675 | on overflow a message that starts late enough goes on as the message in progress |
| Nmea.NewlineCompletes | src/nidas/apps/tee_i2c.cc:706-711 | once its newline arrives, a message in progress is the next one found |
| Nmea.TeeI2C.LastDollar | src/nidas/apps/tee_i2c.cc:664-666 | the last '$' of the pending text, if there is one |
| Nmea.TeeI2C.MakeRoom | src/nidas/apps/tee_i2c.cc:656-684 | for every state there is then room for the portion and a terminator; what is kept is all of the text, the text from its last '$' on, or nothing |
| Nmea.TeeI2C.Extract | src/nidas/apps/tee_i2c.cc:697-801 | takes the complete messages off the buffer and passes on those accepted |
| Nmea.TeeI2C.WritePortion | src/nidas/apps/tee_i2c.cc:649-806 | one portion keeps the pointers in bounds and the framing invariant, whatever the bytes, and text is lost if and only if the portion does not fit behind what is pending |
| Nmea.TeeI2C.WriteFilteredOutput | src/nidas/apps/tee_i2c.cc:640-807 | for input without NUL, as long as nothing was lost, the messages are the framing of all bytes received; nothing is lost while messages are at most half the buffer |
| Nmea.Feed | src/nidas/apps/tee_i2c.cc:640-807 | over any sequence of calls the messages passed on are the accepted ones of the joined input, for messages of at most half the buffer |
| Nmea.ChunkingDoesNotMatter | src/nidas/apps/tee_i2c.cc:640-807 | two ways of cutting the same such stream pass on the same messages |
| Nmea.LongerMessagesCanBeLost | src/nidas/apps/tee_i2c.cc:656-682 | the bound is sharp: two ways of cutting one stream with a message one byte longer, one that passes it and one that loses it |
| Crc.TableIs | src/nidas/apps/sing.cc:238-292 | each of the 256 entries is eight shifts of its index by the generator |
| Crc.RegisterDivides | src/nidas/apps/sing.cc:294-309 | a 32-bit register fed bit by bit computes the remainder of long division on bit strings |
| Crc.DirectIsDivision | src/nidas/apps/sing.cc:294-309 | feeding message bits at the high end is dividing the message followed by 32 zeros |
| Crc.TableStepIsOctet | src/nidas/apps/sing.cc:300-304 | one table step is eight bit steps |
| Crc.Cksum | src/nidas/apps/sing.cc:294-309 | the checksum is the complement of the remainder of message and length octets, least significant first, times x to the 32nd, by generator 0x04C11DB7 |
| Crc.ComputeCksum | src/nidas/apps/sing.cc:294-309 | the two loops compute it for every byte string |
| Crc.ChecksumIsUnique | src/nidas/apps/sing.cc:294-309 | no other word satisfies that definition |
| Crc.LengthOctetsValue | src/nidas/apps/sing.cc:298-304 | the octets have the length as their value, least significant first, with no needless one |
| SingPacket.HeaderLength | src/nidas/apps/sing.cc:72-91 | a header whose fields fit their widths has 23 bytes |
| SingPacket.HeaderLayout | src/nidas/apps/sing.cc:72-89 | where the number, the time and the size are in a header |
| SingPacket.DigitsValue | src/nidas/apps/sing.cc:410 | decimal digits have the number as their value, most significant first, with none leading in vain |
| SingPacket.HexValueOf | src/nidas/apps/sing.cc:414 | so have hexadecimal digits |
| SingPacket.HeaderIsRead | src/nidas/apps/sing.cc:522-523 | a printed header is read back by the conversions, whatever follows it |
| SingPacket.CheckIsRead | src/nidas/apps/sing.cc:563-565 | a printed checksum is read back, whatever follows it |
| SingTally.MissRecounts | src/nidas/apps/sing.cc:529-538 | counting a packet as missing leaves the counters equal to a recount of the rings |
| SingTally.AcceptRecounts | src/nidas/apps/sing.cc:571-579 | so does accepting one |
| SingTally.MissAllHolds | src/nidas/apps/sing.cc:529-538 | numbers passed over leave each ring holding, by number, the sizes of the last packets |
| SingTally.AcceptHolds | src/nidas/apps/sing.cc:571-579 | so does the packet that follows |
| SingReceiver.ScanRecounts | src/nidas/apps/sing.cc:512-605 | whatever the bytes, scanning leaves the counters equal to a recount |
| SingReceiver.ScanGenuine | src/nidas/apps/sing.cc:553-600 | whatever the bytes, the good packets are disjoint segments of the stream, in order, each ending in its own POSIX checksum and ETX, and the bytes echoed are theirs |
| SingReceiver.WrongCheckIsBad | src/nidas/apps/sing.cc:561-599 | a packet with a wrong check is not accepted or echoed, counts as bad, and scanning goes on behind the first ETX |
| SingReceiver.OneBad | src/nidas/apps/sing.cc:527-540 | unless its header passes over numbers, it is the only one counted |
| SingReceiver.PrintedCheckOk | src/nidas/apps/sing.cc:408-414 | a printed packet passes the receiver's check |
| SingReceiver.TrackStep | src/nidas/apps/sing.cc:518-601 | on a stream of printed packets each turn of the scan waits for lack of bytes, delivers the next packet, or ends on the last |
| SingReceiver.TrackScan | src/nidas/apps/sing.cc:512-605 | so does the whole scan of whatever part has come |
| SingReceiver.AfterGood | src/nidas/apps/sing.cc:566-590 | the packets delivered are the packets sent, once each in order, and the bytes echoed are the bytes sent |
| SingReceiver.AfterDescribes | src/nidas/apps/sing.cc:527-540 | with increasing numbers the rings hold the sizes of the last 10 and 100 numbers, and the numbers from 1 on that did not arrive are the bad ones |
| SingReceiver.CleanStream | src/nidas/apps/sing.cc:618-625 | numbered from 0 without gaps: nothing bad, and all of the last 10 and 100 counted good, before and after the end packet |
| Sing.Receiver.constructor | src/nidas/apps/sing.cc:432-451 | an empty buffer and zero totals |
| Sing.Receiver.CountMissing | src/nidas/apps/sing.cc:529-538 | the loop over the numbers passed over |
| Sing.Receiver.ReadHeader | src/nidas/apps/sing.cc:527-541 | the fields and totals after a header |
| Sing.Receiver.SkipJunk | src/nidas/apps/sing.cc:595-597 | the read position is behind the first ETX, or at the end |
| Sing.Receiver.TestPacket | src/nidas/apps/sing.cc:561-565 | whether the packet at the front ends in its own checksum |
| Sing.Receiver.AcceptPacket | src/nidas/apps/sing.cc:566-593 | totals, log and echo after a good packet |
| Sing.Receiver.RejectPacket | src/nidas/apps/sing.cc:595-599 | one more bad packet, and resynchronization |
| Sing.Receiver.TurnBody | src/nidas/apps/sing.cc:553-599 | the part of a turn behind a header does what the specification says |
| Sing.Receiver.Turn | src/nidas/apps/sing.cc:518-601 | one turn of the scanning loop does what the specification says |
| Sing.Receiver.ScanBuffer | src/nidas/apps/sing.cc:512-605 | the scan, and the move of the rest to the front with room behind it |
| Sing.Receiver.Run | src/nidas/apps/sing.cc:469-507 | for reads of any sizes: on any bytes there is room for every read, the counters stay exact, and only checked segments of the stream are accepted and echoed; a stream of printed packets is delivered whole, ended exactly by the end packet |
| Rserial.FeedAllKeepsBytes | src/nidas/apps/rserial.cc:611-631 | printed bytes and the matched prefix are together the bytes consumed, whatever the separator |
| Rserial.FindsLeftmostIff | src/nidas/apps/rserial.cc:611-631 | line breaks come at the leftmost separators of every text if and only if no shift of the separator against itself agrees up to a byte and then differs |
| Rserial.LinesAtSeparators | src/nidas/apps/rserial.cc:623-630 | every line ends in a separator, or every line but the first begins with one |
| Rserial.FreshFirstByte | src/nidas/apps/rserial.cc:611-631 | a separator whose first byte does not come again is such a one |
| Rserial.MissedSeparator | src/nidas/apps/rserial.cc:611-631 | the separator aab is missed in the text aaab |
| Rserial.ConsumeFeeds | src/nidas/apps/rserial.cc:597-632 | NULs skipped between messages apart, what is read goes through the matcher |
| Rserial.OnlyNulsSkipped | src/nidas/apps/rserial.cc:599 | with null skipping a NUL between messages leaves no trace, and no other byte is skipped |
| Rserial.NoByteLost | src/nidas/apps/rserial.cc:597-632 | with no NUL skipping, printed bytes and held prefix are exactly what was read |
| Rserial.ConsumeConcat | src/nidas/apps/rserial.cc:597-632 | how the bytes are divided into reads makes no difference |
| Rserial.RemoteSerial.constructor | src/nidas/apps/rserial.cc:556-568 | NULs are skipped if and only if messages end in a separator that ends a line |
| Rserial.RemoteSerial.MatchByte | src/nidas/apps/rserial.cc:611-631 | one byte against the separator |
| Rserial.RemoteSerial.Take | src/nidas/apps/rserial.cc:597-632 | the bytes of one read; without a separator they are printed as they are |

## Left out

- Merge: interruption by a signal, the printed window and total statistics, the count of dropped samples, log messages, output file lengths.
- Merge: 64-bit wrap-around; matched tags are taken to lie far enough below the largest time for the read-ahead to be added.
- Samples: the data of a sample is bytes and its length their number, as for the raw samples these programs read.
- MergeVerify: counters and printed reports; the verdict on each sample is modelled instead.
- CalFiles: time strings, time zones, regular expressions, comments, path search and mutexes; a line is its parsed time and fields or directive.
- CalFiles: the theorems on lookup assume what `CalFile.h` documents: no empty file, lines in time order, and an included file with a record at or before the directive; without that, early records are delivered. Termination and refinement hold without it.
- A2D: the linear converter, a special case with two coefficients; float rounding in the polynomial.
- Counters: rates and report formatting; the escaping of raw messages; rounding of sums.
- Statistics: the id that `SampleCounter::receive` rewrites, the ordered list of counters, the overall start time, and report output.
- Statistics.DataStats.CreateCounters: a raw sensor listed twice gets one new counter instead of two in succession, which is the same counter.
- Statistics.DataStats.Run: a period that starts at zero, has been moved over queued samples and still starts at zero can be moved once more, which takes an earlier start before 1970; if the counters then disagree with the queue although every count is right, nothing is said of further arrivals until the next advance.
- Statistics.WindowLaw: stated for an update no longer than the period; a longer update skips times by design.
- Spline: rounding; `despike` and its statistics.
- Influx: the echo and synchronous modes, curl and JSON, which are success or failure of a post.
- Nmea: the checksum and field rules of a message are one predicate; logging and the output devices.
- Nmea: framing of input with NUL bytes, after which C string searches stop early; only the buffer bounds are stated for it.
- Sing: a receiver with a sender of its own, which does not echo; the echo modelled is that of one without.
- Sing: the clock and the rates computed from it, reports, the sender's own buffer, modem lines, and buffers grown for oversized headers.
- SingPacket.ScanHeader: numbers beyond 64 bits, whose conversion the C standard leaves undefined, wrap like the others.
- SingPacket.ScanHeader: conversions that fail half way leave fields set in the program; no later step reads them.
- Rserial: the formats in which a byte is printed, sockets and polling.
- XML configuration, device and socket code, command lines, and the Python build tools.
