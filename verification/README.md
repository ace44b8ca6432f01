# Verified model of the BMS monitor

The monitor polls a battery management system over a serial line, buffers the decoded samples, commits them to three
SQLite tables, and serves the series to a dashboard. This project models that path in Dafny and proves what each part
keeps, over every input, every run and every reachable state.

| file | what it models |
|---|---|
| `Wrappers.dfy`, `Sample.dfy` | option and result types; the decoded sample, its plausible ranges, the error kinds |
| `Hex.dfy`, `Frame.dfy` | ASCII-hex text, the checksum, the LENGTH field, request building, response parsing |
| `Analog.dfy` | the cursor decoder of the analog payload, its layout at absolute offsets, the device's encoder |
| `Client.dfy` | reading up to EOI, cleaning, one exchange, the two-attempt poll |
| `Tables.dfy`, `Store.dfy`, `Runs.dfy` | the tables and their keys, Add, Flush and Prune, and every run of them |
| `Sorting.dfy`, `Series.dfy`, `Reader.dfy` | ordered queries, columns and bucket averages, Range, Latest, sample age |
| `Serving.dfy` | what an answer means in plain terms: which series, path, moments and rows |
| `ReaderLaws.dfy`, `Coherence.dfy` | the bucket grid, conservation, reads interleaved with commits, raw against bucketed |
| `Charts.dfy`, `ChartLaws.dfy` | full load and live append of the charts, and when following the ticks equals reloading |
| `ChartValues.dfy` | what the charts hold in plain terms, after a load, a failed load and a tick |
| `Imbalance.dfy` | what downsampling over sixteen separate cell queries does to the charted delta |
| `SplitReads.dfy`, `Misleading.dfy`, `SplitLaws.dfy` | cell queries that see two moments of a run, and exactly when the delta overstates |
| `PollLoop.dfy`, `EndToEnd.dfy` | the loop and its history, wire to charts |
| `Freshness.dfy`, `Retention.dfy` | the loop on a clock against the health check, with prunes at any moment and with one a day |

How the outside world enters. The serial port is an arbitrary script: what each setup call does, and what every read
that starts before the deadline returns. A database fault is a parameter of each transaction (when it begins, at any
statement, at the commit). The clock is an integer in milliseconds. Every query of one read call gets its own
snapshot of the committed tables, so the writer may commit between any two of them; rows that tie under an ORDER BY
come in any order. SQL `AVG` followed by `math.Round` is the exact rational mean rounded half away from zero. State of charge and of
health, whole numbers by construction, are integers. Byte values and ASCII text are integers in 0..255.

Each imperative routine of the source is a method with its loops, proved against a specification function or
predicate; the lemmas are about those specifications.

Results where the code and what is said of it differ:

- `rangeBuckets` = 5000 is a target, not a limit, although reader_test.go asserts at most 5000 positions for one
  window. The largest result over a window has exactly as many positions as its grid has buckets
  (`ReaderLaws.AtMostIff`), and a run whose tables fill it exists (`ReaderLaws.FullGrid`). So all results stay within
  5000 positions if and only if the window is shorter than 5000 ms (`ReaderLaws.TargetKeptIff`); 10000 positions are
  never exceeded, and reached by a window of 9999 ms (`ReaderLaws.LargestResult`). The same holds of whole `Range` calls
  that leave the path to the count (`ReaderLaws.RangeTargetKeptIff`).
- A single replaced digit of a verified frame can go unnoticed in the three low length digits and nowhere else
  (`Frame.UnnoticedIff`), there under every header (`Frame.LengthDigitUndetected`). The length check nibble that would
  help is never checked, and sees only the low nibble of the count.
- With nothing failing, health can report "stale" in configurations that are accepted. It never does, with one prune a
  day as the loop has them, if and only if flushes are at least as frequent as polls and every day is kept: the last
  sample surely stored before the k-th prune is not older than the retention (`Retention.NeverStaleDailyIff`, and
  `Retention.LoopNeverStaleDailyIff` for the loop's transitions). That is a finite check (`Retention.KeepsDailyFinite`).
  If both periods divide the day, retention has to be one poll interval, or two if the periods are equal
  (`Retention.PeriodsDivideDay`). Retention of a poll and a flush interval is always enough
  (`Retention.EnoughKeepsDaily`), and needed only if prunes could come at any moment (`Freshness.NeverStaleIff`,
  `Retention.LessThanEnough`). `Freshness.DailyPruneEmpties` is a configuration that fails.
- The delta of a bucket can overstate the imbalance of its samples. Every cell is averaged by a query of its own, and a
  flush or a prune may come between two of them. For queries on both sides of any two moments of a run, the delta is
  honest for one of the moments, for all plausible cells, if and only if the bucket holds the same samples at both or
  none at one of them (`SplitLaws.AlwaysHonestIff`). For a flush alone it is honest for the later moment if and only if
  the bucket has samples on one side of the flush only, or the cells cannot differ by 2 mV
  (`SplitLaws.NeverOverstatedIff`; `SplitLaws.BothSided` is the run that goes wrong). It stays honest in every run in
  which nothing is committed to the bucket and no prune reaches it between the queries
  (`Imbalance.QuietNotOverstated`).
- Two buffered samples with one timestamp violate a primary key, and no later flush can succeed
  (`Runs.ClashBlocksForever`). A payload with a cell count of 0 decodes, and such samples can repeat a timestamp in the
  keyless samples table: two polls at one moment of a clock that was set back do so (`EndToEnd.CelllessPollsRepeat`).
- The live append equals a reload only when each flush brought exactly one sample, with cells, whose spread over all
  cells is that of the sixteen charted ones (`ChartLaws.AppendEqualsReload` for one flush, `ChartLaws.LiveEqualsReload`
  for any number of them).

`dafny verify dfyconfig.toml` checks the whole project.

## Model

| member | source | states |
|---|---|---|
| Frame.ComputeChecksum | internal/bms/frame.go:33-40 | the accumulating loop computes the complement of the ASCII sum as four digits |
| Frame.ChecksumCancelsSum | internal/bms/frame.go:28-40 | the four digits are the only ones that cancel the text's ASCII sum modulo 2^16 |
| Frame.LengthNibbleSeesLowNibbleOnly | internal/bms/frame.go:42-50 | the length check nibble tells two counts apart iff they differ modulo 16 |
| Frame.DecodeLength | internal/bms/frame.go:46-50 | the low 12 bits of an encoded LENGTH give the count back |
| Frame.CommandIsFrame | internal/bms/frame.go:56-62 | a command is SOI, a well-formed frame with the address byte as INFO, and EOI, for any address |
| Frame.KnownRequest | internal/bms/frame.go:64-70 | a test vector: the request for address 0 is the reference's byte string |
| Frame.CutFrame | internal/bms/frame.go:95-162 | a framed text cut anywhere gives a framing error before the frame's end, also with a nonzero RTN, and the same result after it |
| Frame.TrailingTextIgnored | internal/bms/frame.go:126-134 | text after a frame leaves the parse result unchanged |
| Frame.ParseEncoded | internal/bms/frame.go:95-162 | every frame the device can send parses to its fields with the checksum verified, or to the device error if RTN is nonzero |
| Frame.ParseBody | internal/bms/frame.go:131-162 | with any four checksum digits a frame parses to its fields and whole payload, the mismatch only flagged, or to the device error |
| Frame.ParseOutcome | internal/bms/frame.go:95-162 | for every text, in plain terms: framing error without a whole frame, device error for a nonzero code, else every field and payload byte and whether the checksum cancels the sum |
| Frame.ReencodeParsed | internal/bms/frame.go:95-162 | a verified frame with a consistent length nibble re-encodes to exactly the consumed prefix |
| Frame.VerifiedIffEncoded | internal/bms/frame.go:95-162 | the clean texts that verify with a consistent length nibble are exactly those starting with a sendable frame |
| Frame.SingleDigitDetected | internal/bms/frame.go:142-149 | one replaced digit anywhere but in the three low length digits never verifies again |
| Frame.LengthDigitUndetected | internal/bms/frame.go:121-149 | for every header and each of the three low length digits, a well-formed response that one changed digit there turns into another verifying one |
| Frame.UnnoticedIff | internal/bms/frame.go:121-149 | over all verified clean frames, a replaced digit at a position can verify again iff it is one of the three low length digits |
| Frame.RewrittenInfo | internal/bms/frame.go:142-149 | a rewritten INFO always parses, to the same fields and the bytes now written, and verifies iff the ASCII sum moved by a multiple of 2^16 |
| Frame.ManyDigitsDetected | internal/bms/frame.go:142-149 | up to 2978 replaced INFO digits go unnoticed iff the ASCII sum is unchanged |
| Frame.ManyDigitsBoundIsTight | internal/bms/frame.go:142-149 | 2979 replaced digits can move the sum and still verify |
| Analog.ReadCells | internal/bms/parse.go:62-70 | the cell loop reads exactly the counted cells, or reports truncation |
| Analog.ReadTemps | internal/bms/parse.go:73-96 | the probe loop is the layout of its slots, see DecodedTemps, or reports truncation |
| Analog.CheckPlausible | internal/bms/parse.go:135-160 | core voltages out of range reject the sample, secondary values out of range become 0 |
| Analog.ParseAnalog | internal/bms/parse.go:40-161 | the cursor decoder agrees on every byte sequence with the layout read at absolute offsets, with no read out of range |
| Analog.AcceptedIff | internal/bms/parse.go:43-146 | the exact acceptance condition in plain arithmetic, and the only two errors |
| Analog.RejectedIff | internal/bms/parse.go:43-80 | which rejected payloads are framing errors, in plain arithmetic; all others are implausible |
| Analog.DecodedBytes | internal/bms/parse.go:53-158 | which bytes each field of an accepted payload comes from, with sign, factors and the fields that may be missing |
| Analog.DecodedTemps | internal/bms/parse.go:73-96 | the temperatures are exactly the slots between -50.0 and 150.0 degrees, in order, each with its value and literal label; the others are left out |
| Analog.DecodedIsPlausible | internal/bms/parse.go:135-158 | every accepted payload gives a plausible sample with distinct probes; its current is never nulled |
| Analog.AnalogRoundTrip | internal/bms/parse.go:40-161 | decoding an encoded sample gives the sample, whatever bytes follow |
| Analog.DecodedIsEncodable | internal/bms/parse.go:40-161 | every decoded sample, dropped probes included, is one the device could encode |
| Analog.DecoderImage | internal/bms/parse.go:40-161 | the decoder's results are exactly the encodable samples |
| Analog.TailIgnored | internal/bms/parse.go:113-133 | bytes past the tail group never matter |
| Client.ReadUntilEOI | internal/bms/client.go:171-192 | the read loop is a function of the stream and of whether a read failed, see SilentAttempt and AnsweredAttempt |
| Client.CleanHexPayload | internal/bms/client.go:206-222 | the cleaner keeps the upper-cased hex digits after the first SOI |
| Client.CleanedIffSpelled | internal/bms/client.go:203-222 | the cleaner recovers a text iff the body's hex digits, in either case and with anything in between, have its digits' values in order |
| Client.SpellsItself | internal/bms/client.go:203-222 | a clean text is recovered from itself |
| Client.SpellsInAnyCase | internal/bms/client.go:203-222 | the case of letters changes nothing that is recovered |
| Client.SpellsThroughJunk | internal/bms/client.go:203-222 | bytes that are no hex digits change nothing, wherever they are inserted |
| Client.Exchange | internal/bms/client.go:149-164 | a failed setup call is a port error without bytes; otherwise the read and, on success, its cleaned text |
| Client.Try | internal/bms/client.go:95-114 | one attempt: exchange, frame, payload, each failure passed on as its error |
| Client.Poll | internal/bms/client.go:82-118 | the retry loop returns the first success stamped with its moment, else the last attempt's error, with that attempt's bytes |
| Client.RechunkingInvisible | internal/bms/client.go:171-192 | any cutting of bytes into reads, empty ones included, gives the result of a single read of them, whatever reads follow |
| Client.WireRoundTrip | internal/bms/client.go:149-222 | whatever the chunking, noise, letter case, interleaved junk, checksum digits and trailing bytes, an attempt returns exactly the encoded sample, verified iff the checksum digits are right |
| Client.PlainRoundTrip | internal/bms/client.go:149-222 | the plain instance: SOI, the frame as encoded and EOI give the sample, in any chunks and with any bytes after |
| Client.WithoutSOI | internal/bms/client.go:203-212 | a reply without SOI counts from its first byte |
| Client.SilentAttempt | internal/bms/client.go:171-192 | without EOI an attempt is a timeout if no read fails and a port error if one does, with all bytes kept |
| Client.SilentChunks | internal/bms/client.go:171-192 | the same for any chunks followed by silence, or by a driver error and anything after it |
| Client.AnsweredAttempt | internal/bms/client.go:171-192 | with an EOI the bytes before the first one are received, and neither a timeout nor a port error comes of it |
| Client.PortErrorIff | internal/bms/client.go:149-192 | an attempt is a port error iff a setup call fails, or a read does before any EOI |
| Client.DeviceError | internal/bms/frame.go:140-144 | a delivered frame with a nonzero return code is the device error |
| Client.GarbledReply | internal/bms/frame.go:95-138 | a delivered text without a whole frame is a framing error |
| Client.RejectedPayload | internal/bms/client.go:95-114 | a whole frame with a rejected payload gives the decoder's error |
| Client.SecondErrorReported | internal/bms/client.go:90-118 | when both attempts fail the poll reports the second one's error |
| Client.PollRoundTrip | internal/bms/client.go:90-117 | a poll returns that sample on the first attempt, and on the second after any failed first |
| Client.PolledIsPlausible | internal/bms/client.go:90-117 | a poll yields plausible samples only, whatever the port delivers |
| Tables.PruneFanOut | internal/store/retention.go:34-46 | one cutoff applied to each table separately keeps or drops whole samples |
| Tables.KeysIffClashFree | internal/store/schema.go:35-46 | the two primary keys accept a log iff no two samples clash and no sample repeats a probe |
| Tables.LowerCased | internal/store/writer.go:78-84 | a stored probe name has its capitals lowered and nothing else changed |
| Store.InsertAll | internal/store/writer.go:72-84 | row-by-row inserts succeed iff the whole block keeps the key and no statement fails |
| Store.Store.Add | internal/store/writer.go:14-16 | appends to the buffer and touches no table |
| Store.Store.Flush | internal/store/writer.go:29-93 | commits every row of every buffered sample and empties the buffer, or changes nothing; succeeds iff no fault hits and the keys hold |
| Store.Store.Prune | internal/store/retention.go:20-52 | deletes rows strictly below the cutoff from all three tables or from none; the count is the drop in total rows; 0 days keeps all |
| Runs.TablesHoldLog | internal/store/writer.go:63-91 | in every run the tables are exactly the rows of the committed, unpruned samples, and keyed |
| Runs.Conservation | internal/store/writer.go:14-93 | in every run added = stored + pruned + buffered, as multisets |
| Runs.NothingReordered | internal/store/writer.go:14-93 | without pruning, stored followed by buffered is the added sequence |
| Runs.CellsAreOneSamples | internal/store/writer.go:72-76 | the cell rows at a timestamp are exactly one stored sample's cells, indexed 0 up, and that sample's row exists |
| Runs.TempsReferToSamples | internal/store/writer.go:78-84 | each temperature row belongs to a stored sample whose row exists |
| Runs.StoredTimestampsUnique | internal/store/schema.go:24-40 | if every sample has a cell, timestamps are unique in the keyless samples table |
| Runs.CelllessTimestampsRepeat | internal/store/schema.go:24-40 | without that condition the run that adds two plausible cell-less samples of one moment stores both |
| Runs.FlushCommitsIff | internal/store/writer.go:63-91 | a flush commits iff no fault hits and the buffer clashes neither with itself nor with the stored samples |
| Runs.FlushOutcome | internal/store/writer.go:29-93 | a flush that fails at its start, at one of its statements or at the commit, or that clashes, changes nothing; any other commits every row and empties the buffer |
| Runs.PruneOutcome | internal/store/retention.go:20-52 | a prune that fails or has no retention changes nothing; any other keeps exactly the samples from now less days of 86,400,000 ms on, in order, and the buffer |
| Runs.FaultlessFlushCommits | internal/store/writer.go:63-91 | with distinct timestamps and probes only the database can fail a flush |
| Runs.ClashBlocksForever | internal/store/writer.go:87-91 | two clashing samples in the buffer block every later flush; all later samples stay in memory |
| Reader.WantFields | internal/store/reader.go:114-129 | the field loop resolves the requested series, see FieldsServed |
| Serving.FieldsServed | internal/store/reader.go:114-129 | a call serves each of the three series iff its field is named or none is |
| Serving.PathServed | internal/store/reader.go:139-208 | raw if asked or with at most 5000 counted rows: all moments of the window, or the most recent 50000 and truncated if more are counted; else bucketed and not truncated |
| Serving.RawValues | internal/store/reader.go:210-297 | each raw entry is a value its own snapshot stores at that timestamp, at its last position, and null otherwise |
| Serving.EntryServed | internal/store/reader.go:302-412 | each bucketed entry is the mean, rounded half away from zero, of exactly the rows within the width around its timestamp, or null |
| Serving.RowIsServed | internal/store/reader.go:305-387 | every row of a served series has a position within half a width, with a value |
| Serving.NoEmptyPosition | internal/store/reader.go:376-387 | every position has a value in some served series |
| Reader.SelectTimestamps | internal/store/reader.go:161-208 | the axis is all timestamps ascending, or the most recent 50000 re-sorted |
| Reader.RangeRaw | internal/store/reader.go:158-297 | each requested column is aligned to the axis and holds, at the last position of each timestamp, a value its snapshot stores there, null otherwise |
| Reader.RangeBucketed | internal/store/reader.go:302-412 | one position per bucket populated by a requested series, ascending; every entry is the rounded mean of exactly that bucket's rows or null |
| Reader.Range | internal/store/reader.go:139-153 | the count picks the path: raw if asked or at most 5000 rows, bucketed otherwise |
| Reader.Latest | internal/store/reader.go:50-99 | the newest row with the cells in index order and the temperatures in probe order at its timestamp |
| Serving.LatestFound | internal/store/reader.go:50-70 | not found, with zero timestamp and empty lists, iff the table is empty; else a row with the greatest timestamp |
| Serving.WordOrder | internal/store/reader.go:85-99 | probes are ordered as words, by prefix and first differing character |
| Reader.LastSampleAgeMS | internal/store/reader.go:417-427 | the age of the newest timestamp, or none on an empty database |
| Series.RoundMeanNearest | internal/store/reader.go:333-364 | a rounded mean is the nearest integer, a tie going away from zero |
| Series.MeanWithinData | internal/store/reader.go:333-364 | a rounded average stays between the least and greatest value averaged |
| ReaderLaws.BucketIndexBound | internal/store/reader.go:305-309 | bucket indices are at most 9999, and at most 5000 for windows of 25,000,000 ms or more |
| ReaderLaws.DownsampleSize | internal/store/reader.go:305-387 | at most 10000 positions, at most 5001 for long windows, timestamps strictly ascending |
| ReaderLaws.DownsampleUnique | internal/store/reader.go:302-412 | the declarative downsample of given tables is one result only, so the bucketed path is determined by it |
| ReaderLaws.DownsampleExists | internal/store/reader.go:302-412 | any snapshots have a declarative downsample |
| ReaderLaws.FullGrid | internal/store/reader.go:305-387 | for every window some run stores as many plausible samples as the grid has buckets, so that every result has a position for each |
| ReaderLaws.AtMostIff | internal/store/reader.go:305-387 | n positions suffice for all results over a window iff its grid has at most n buckets |
| ReaderLaws.LargestResult | internal/store/reader.go:305-387 | no result has more than 10000 positions, and some result over a 9999 ms window has as many |
| ReaderLaws.TargetKeptIff | internal/store/reader.go:22-23 | all results over a window have at most 5000 positions iff it is shorter than 5000 ms |
| ReaderLaws.RangeAtMostIff | internal/store/reader.go:139-153 | from 5000 on, n positions suffice for all `Range` calls over unchanging tables iff the grid has at most n buckets: the run that fills it is bucketed |
| ReaderLaws.RangeTargetKeptIff | internal/store/reader.go:22-23 | all such calls have at most 5000 positions iff the window is shorter than 5000 ms, never more than 10000, and 10000 at 9999 ms |
| ReaderLaws.GridFitsInt64 | internal/store/reader.go:305-321 | no intermediate value of the grid arithmetic overflows for windows below 2^62 |
| ReaderLaws.RowInOneBucket | internal/store/reader.go:305-321 | every row of the window is in exactly one bucket, at most half a width, rounded down, from the bucket's timestamp |
| ReaderLaws.DownsampleConserves | internal/store/reader.go:317-373 | the count-weighted sum of emitted averages is within half the row count of the true sum, for each series |
| ReaderLaws.AveragesWithinData | internal/store/reader.go:317-373 | every emitted average is bounded by the window's values |
| Coherence.RawReadsCohere | internal/store/reader.go:158-297 | with commits between the three queries, arrays stay aligned to a strictly ascending axis and each column shows the one sample's value, or null once it was pruned |
| Coherence.LatestIsWhole | internal/store/reader.go:50-99 | with commits between the queries, Latest reports all cells of the newest sample or none, and likewise its temperatures |
| Coherence.RawEqualsBucketed | internal/store/reader.go:158-412 | below 10000 ms, with unique timestamps and a pack series, the two paths return the same result |
| Charts.DeltaPoint | internal/web/assets/app.js:364-372 | the min/max pass gives the spread of the non-null cells at a position, or null |
| Charts.RangeToCharts | internal/web/assets/app.js:352-383 | absent series become nulls, the delta is the spread at each position, the three charts share one axis |
| Charts.Dashboard.LoadCharts | internal/web/assets/app.js:388-433 | replaces all chart data, a failed fetch by empty charts, and resets the watermark |
| Charts.Dashboard.AppendLive | internal/web/assets/app.js:111-141 | appends one aligned point iff the window is live, charts exist, and the sample has cells and is newer |
| Charts.Dashboard.SetRange | internal/web/assets/app.js:168-187 | a live range starts a reload and lets ticks be appended; the custom one stops the ticks and leaves the charts until its window is applied |
| Charts.ChartsStayInStep | internal/web/assets/app.js:111-433 | over every run of loads, ticks and range changes the axes are equal and strictly ascending, series aligned, the last point the watermark |
| ChartValues.LoadedPoint | internal/web/assets/app.js:352-383 | each loaded point: second, served values or null, and max less min of the cells there |
| ChartValues.Loaded | internal/web/assets/app.js:388-433 | a load sets charts and watermark; a failed one leaves charts without points and watermark 0 |
| ChartValues.TickOutcome | internal/web/assets/app.js:111-141 | when a tick does nothing, and exactly which point it adds to each chart otherwise |
| ChartLaws.RawEntries | internal/web/assets/app.js:352-383 | a raw result shows at each position the values of the one sample with that timestamp |
| ChartLaws.ReloadWithOneMore | internal/web/assets/app.js:352-383 | reloading with one more sample extends each array by that sample's point and changes no old entry |
| ChartLaws.AppendEqualsReload | internal/web/assets/app.js:111-141 | the live append gives exactly the reloaded dashboard iff one sample was added, it has cells, and its spread is that of the charted cells |
| ChartLaws.LiveEqualsReload | internal/web/assets/app.js:111-433 | after any number of flushes, each followed by a tick, the dashboard equals a reload iff every flush brought one such sample |
| Imbalance.CellBucket | internal/store/reader.go:347-364 | a cell's bucket has one reading of each of the bucket's samples with that cell, and their sum |
| Imbalance.ImbalanceNotOverstated | internal/web/assets/app.js:362-373 | where the sixteen cell queries agree on a bucket of one pack's samples, the charted delta is at most the mean per-sample delta plus 1 mV |
| Imbalance.QuietNotOverstated | internal/store/reader.go:347-373 | so in every run, for queries at any moments, if between them no flush commits to the bucket and no prune reaches it |
| SplitLaws.BothSided | internal/store/reader.go:347-373 | for any moments with some of the bucket on both sides of a flush between two cell queries, and any range of cells 2 mV wide, a run whose charted delta overstates |
| SplitLaws.NeverOverstatedIff | internal/store/reader.go:347-373 | a flush between two cell queries never makes the delta overstate iff the bucket has samples on one side of it only, or cells cannot differ by 2 mV |
| SplitLaws.AnyMoves | internal/store/writer.go:63-91 | whatever a run does between two moments, the later log is the earlier one without what lies below one cutoff, followed by new commits |
| SplitLaws.AlwaysHonestIff | internal/store/reader.go:347-373 | with flushes, prunes or both between the queries, the delta is honest for one of the two moments, for all plausible cells, iff the bucket holds the same samples at both or none at one |
| SplitLaws.TwoViewsMislead | internal/store/reader.go:347-373 | otherwise some run charts a delta that overstates the imbalance of both moments |
| PollLoop.Monitor.Attempt | cmd/monitor/serve.go:248-281 | one attempt: reopen if down, poll, count or reset failures, drop the handle on a port error only |
| PollLoop.FailedPoll | cmd/monitor/serve.go:263-281 | a poll failed twice is counted; the handle is closed and dropped iff at the second attempt a setup call failed, or a read did before any EOI |
| PollLoop.SilentPoll | cmd/monitor/serve.go:263-281 | a silent second attempt keeps the handle, a driver error or failed setup call drops it |
| PollLoop.OtherPolls | cmd/monitor/serve.go:248-269 | a successful poll keeps the handle, clears the count and buffers the sample; a failed reopen is only counted |
| PollLoop.Monitor.RunLoop | cmd/monitor/serve.go:283-306 | the select loop, over any order of events, is the fold of the transitions, with the wait each attempt sets |
| PollLoop.Monitor.Shutdown | cmd/monitor/serve.go:156-178 | final flush, then the live handle is closed; see NothingLostAtShutdown and FailedShutdown |
| EndToEnd.NothingLostAtShutdown | cmd/monitor/serve.go:168-172 | after a fault-free stop the buffer is empty, the tables hold stored then buffered samples, and the polled samples are those and the pruned ones |
| EndToEnd.FailedShutdown | cmd/monitor/serve.go:168-176 | a failed final flush leaves the store as it was; the handle is closed all the same |
| PollLoop.LoopHistory | cmd/monitor/serve.go:218-307 | in every run the counter is the trailing failure run, the port is down iff the last attempt dropped it, handles are closed in order, samples added are the successes |
| PollLoop.EveryHandleClosedOnce | cmd/monitor/serve.go:154-178 | after shutdown every handle ever opened was closed exactly once |
| PollLoop.FailureRunWaits | cmd/monitor/serve.go:184-198 | the total wait over a run of n straight failures, for every n |
| Freshness.AgeBound | internal/store/reader.go:417-427 | from the first flush on, under any tick order and with pruning, the newest stored sample is at most I + F old |
| Freshness.WorstAge | cmd/monitor/serve.go:283-305 | for all I and F some legal timing without prunes shows the age I + F |
| Freshness.NeverStaleIff | internal/web/api.go:112-134 | were prunes to come at any moment at all, health would never be stale iff F <= I and retention is off or at least I + F |
| Freshness.DailyPruneEmpties | cmd/monitor/serve.go:224-294 | with I, F and retention of one day each, a daily prune empties the tables and health is stale though F <= I |
| Freshness.LoopFollowsClock | cmd/monitor/serve.go:218-307 | the loop that sees the events of a legal timing has the clock's store, counts no failure, and waits until the clock's next poll |
| Retention.NeverStaleDailyIff | cmd/monitor/serve.go:224-295 | with the 24 h retention ticker in turn with polls and flushes, health never reports stale, for any order of ticks due together, iff F <= I and every day is kept |
| Retention.LoopNeverStaleDailyIff | internal/web/api.go:112-134 | the same condition decides it for the loop, over everything its port may deliver at those polls |
| Retention.DailyHealthy | internal/store/reader.go:417-427 | under that condition health is ok at every moment from the first flush on |
| Retention.EmptiedDay | internal/store/retention.go:20-52 | a day that is not kept: some timing in which its prune empties the tables |
| Retention.KeepsDailyFinite | cmd/monitor/serve.go:224-295 | every day is kept iff the first F + I * F ones are |
| Retention.PeriodsDivideDay | cmd/monitor/serve.go:224-295 | if both periods divide the day, every day is kept iff retention is at least I, or 2 I when F = I |
| Retention.EnoughKeepsDaily | internal/config/config.go:182 | retention of at least I + F keeps every day, whatever the periods |
| Retention.LessThanEnough | internal/config/config.go:182 | an accepted configuration that keeps every day with less than that |
| EndToEnd.StoredIsPlausible | cmd/monitor/serve.go:261-269 | every stored value is plausible in every reachable state, whatever the port delivered |
| EndToEnd.LoopFlushCommits | internal/store/writer.go:63-91 | with distinct poll timestamps no polled sample is ever rejected by a key |
| EndToEnd.ServedIsPlausible | internal/store/reader.go:139-412 | every cell and pack value Range returns, raw or averaged, from any moments of a run, is plausible, and the delta is in 0..4000 |
| EndToEnd.StaysStored | internal/store/retention.go:34-46 | a stored sample stays stored over any later events of the loop until a prune reaches it |
| EndToEnd.WireToChart | internal/bms/client.go:82-118 | after any history of the loop, a sample the pack encoded, polled over any noise, chunking and checksum digits and then flushed, appears in the raw charts at its moment with exactly its cells, pack values and delta, over any later events until a prune reaches it |
| EndToEnd.CelllessPollsRepeat | internal/bms/parse.go:58-70 | two polls that deliver a cell-less payload at one moment, then a flush, store its timestamp twice |

## Left out

- The wake-up ping before a poll and the bus flush between attempts: their replies and failures are discarded by the source.
- Freshness.NeverStaleIff: lets prunes come at any moment; Retention.NeverStaleDailyIff is the result for the loop's own ticker, whose prune at startup finds the tables of a run empty.
- Serial port configuration, real clocks and sleeps: the port is a script of outcomes, a moment is an integer.
- SQLite itself (WAL, pragmas, connections): a transaction is one atomic step that may fail, a query is what its SQL declares.
- IEEE floating point: averages are exact rationals, chart seconds are reals.
- `strings.ToLower` beyond ASCII: probe labels come from the decoder and are ASCII.
- 64-bit overflow outside the bucket grid: checksum totals and `retention_days` in milliseconds stay far below it.
- `max_batch`: validated by the configuration, but nothing in the modelled code flushes when the buffer reaches it.
- Failing queries and row scans of the reader: each returns an error and no data.
- HTTP routing, JSON, DOM and chart drawing, configuration, logging and its error categories: plain case splits.
- ChartLaws.LiveEqualsReload: compares with a reload of the same window; the range buttons move theirs with the clock.
- Restarts of the process: a run starts with empty tables and an empty buffer; a prune at startup is one of its events.
- Store.Store: the tables are sequences replaced at commit; the row storage behind them is SQLite's.
