# ErrorLogger table maintenance, in Dafny

This project models the two loggers of the ErrorLogger repository and proves
properties of the model. Both loggers keep their history in an ordered table of
rows and rewrite the table's file after every pass or call whose retention
scan completes.

- **The queued logger** (`UnhandledExceptionLogger.Logger`) works in two halves.
  - The front door gates each entry by severity and puts the accepted ones on a FIFO queue.
  - A writer task guarded by the `_isWriting` flag runs passes. A pass drains the queue into the table, runs the retention scan when both limits are set, writes the file (a failure is swallowed), and clears the flag. The task goes round again while the queue is not empty.
- **The synchronous logger** (`ErrorLogger.Logger`) handles each exception in one call. It appends a row, runs the retention scan when at least one limit is set, and writes the file.

The retention scan walks from the last row toward row 0. It keeps a running
UTF-8 byte total and stops at the first row, from the end, that is older than
`now - HistoryDuration`, or where the total in whole kilobytes exceeds
`MaxLogSize_KB`. `TruncateLog` then removes that row and every older one.

The model has these modules:

| module | what it holds |
|---|---|
| `Severities` | The severity enum and its order. |
| `TimeFormat` | The clock, and the text written into the Timestamp column with its parse. |
| `Utf8` | The byte size of a row. |
| `LogTable` | The table: a class with `columns`, `rows` and the image last written to its file. It also holds `TruncateLog`. |
| `Retention` | The scan, given as a specification function `ScanBelow` and as the imperative backward loop `FindBoundary`, with the lemmas about what survives. |
| `LogEntries` | The queued entry value and the exception data both loggers read. |
| `UnhandledExceptionLogger` | The queued logger, as a class with its thresholds, limits, queue, flag and table. |
| `ErrorLogger` | The synchronous logger, as a class. |

The model is sequential. Each method is one atomic step, and the steps a
concurrent program would interleave are inputs:

- The clock is a `now` parameter. The synchronous logger reads it twice, so its new row carries a separate `stamp` reading.
- Whether a file write succeeds is a `writeOk` parameter.
- What other producers enqueue while a pass writes is passed in, pass by pass, as `WriteLog`'s `schedule`.

Some behaviour is deliberately kept as the source has it:

- **The queued logger's guard uses `&&`.** Its retention scan runs only when both `HistoryDuration` and `MaxLogSize_KB` are set. So a logger given only one of the two limits never truncates anything; `OneLimitAloneIsIgnored` and `Pass`'s last postcondition state this. The synchronous logger's guard uses `||`. A scan with neither limit never stops anyway, so that guard changes nothing.
- **A pass that finds the queue empty still does the rest of its work.** It runs retention and rewrites the file; `Pass` states this.
- **With a duration set, the scan reads the timestamp of every row it passes, down to the row where it stops.** A row whose Timestamp cell cannot be read there makes the scan throw.
  - In the queued logger this ends the writer task. The `finally` block clears the flag, and the file is not written.
  - In the synchronous logger the exception reaches the caller, after the row was appended and before the write.
  - `WrittenRowsNeverFail` shows that, in this model, only rows loaded from an existing file can cause this. The lemma rests on the model's timestamp round trip (`TimeFormat.RoundTrip`). The source writes the stamp with the current culture (`ToString(TimeFormat)`) and parses it with `CultureInfo.InvariantCulture`, so whether its own rows always parse back depends on `TimeFormat` and the culture, neither of which is part of this model.

## Model

| member | source | states |
|---|---|---|
| Severities.Ordinal | UnhandledExceptionLogger/Logger_Logtypes.cs:8-24 | Each severity's underlying integer is below 3. |
| Severities.ExactlyThree | UnhandledExceptionLogger/Logger_Logtypes.cs:8-24 | There are exactly three severities, and ordinals 0, 1, 2 identify Info, Warning, Critical. |
| Severities.DeclarationOrder | UnhandledExceptionLogger/Logger_Logtypes.cs:13-23 | `>=` on severities is a total order in which Info < Warning < Critical. |
| Severities.ExtremeThresholds | UnhandledExceptionLogger/Logger.cs:111 | With threshold Info every severity passes the gate. With threshold Critical only Critical passes. |
| Severities.NameInjective | UnhandledExceptionLogger/Logger_AppendRecord.cs:67 | The severity names written into the Severity column tell the severities apart. |
| TimeFormat.Format | UnhandledExceptionLogger/Logger_AppendRecord.cs:67 | The Timestamp text is never empty and consists of digits only. |
| TimeFormat.ParseDigits | UnhandledExceptionLogger/Logger_AppendRecord.cs:77 | Reading a numeral succeeds exactly when every character is a digit. |
| TimeFormat.Parse | UnhandledExceptionLogger/Logger_AppendRecord.cs:77 | Parsing a cell succeeds exactly when it is a non-empty run of digits. Any other text is the parse exception. |
| TimeFormat.RoundTrip | UnhandledExceptionLogger/Logger_AppendRecord.cs:67-77 | Parsing the text written for time `t` gives `t` back. |
| TimeFormat.FormatInjective | UnhandledExceptionLogger/Logger_AppendRecord.cs:67 | Different times are written as different texts. |
| Utf8.CharBytes | UnhandledExceptionLogger/Logger_AppendRecord.cs:86 | A character takes 1 to 4 UTF-8 bytes, and exactly 1 when it is ASCII. |
| Utf8.ByteCount | UnhandledExceptionLogger/Logger_AppendRecord.cs:86 | A string's UTF-8 length is between its length and 4 times its length. |
| Utf8.RowSizeOfCells | UnhandledExceptionLogger/Logger_AppendRecord.cs:86 | A row's size is the bytes of its cells plus one byte per space between neighbouring cells. |
| LogTable.Table.constructor | UnhandledExceptionLogger/Logger.cs:36 | A new table has no columns, no rows and no file. |
| LogTable.Table.LoadFromFile | UnhandledExceptionLogger/Logger.cs:74-77 | Loading a file makes the table's header and rows those of the file, and records that image as the file's content. |
| LogTable.Table.SetColumnNames | UnhandledExceptionLogger/Logger.cs:80 | The header becomes exactly the given names. |
| LogTable.Table.AppendRecord | UnhandledExceptionLogger/Logger_AppendRecord.cs:67 | The new record becomes the last row, and the earlier rows stay as they were. |
| LogTable.Table.RemoveRecord | UnhandledExceptionLogger/Logger.cs:101 | Only the row at the index goes, and later rows move up one place. |
| LogTable.Table.WriteTableToFile | UnhandledExceptionLogger/Logger_AppendRecord.cs:97 | A successful write makes the file hold the current header and rows. A failed write leaves the file as it was. |
| LogTable.TruncateLog | UnhandledExceptionLogger/Logger.cs:97-103 | Removing rows `i` down to 0 leaves exactly the old rows after `i`, in their order, so the table shrinks by `i + 1`. Every index is in range when it is removed. The ErrorLogger copy at ErrorLogger/Logger.cs:78-84 is the same loop. |
| Retention.ScanBelow | UnhandledExceptionLogger/Logger_AppendRecord.cs:72-90 | The scan's boundary row is readable and either stale or the start of an oversize tail. A failed scan names a row whose timestamp cannot be read. |
| Retention.FindBoundary | UnhandledExceptionLogger/Logger_AppendRecord.cs:72-90 | The backward `for` loop with its `logSize` accumulator returns exactly the specified scan of the table. |
| Retention.ScanNoBoundary | UnhandledExceptionLogger/Logger_AppendRecord.cs:72-90 | The scan finds nothing if and only if no row ends it. |
| Retention.ScanIsLastStop | UnhandledExceptionLogger/Logger_AppendRecord.cs:72-90 | The scan stops at `i` if and only if row `i` ends it and no later row does. This holds in both directions, for a truncation and for a failed read. |
| Retention.SurvivorsAreFresh | UnhandledExceptionLogger/Logger_AppendRecord.cs:75-83 | With a duration, every row kept after a completed scan is at least as new as `now - HistoryDuration`. |
| Retention.SurvivorsFitSize | UnhandledExceptionLogger/Logger_AppendRecord.cs:85-89 | With a non-negative size limit, the rows kept after a completed scan total at most `MaxLogSize_KB` whole kilobytes. |
| Retention.RetentionIdempotent | UnhandledExceptionLogger/Logger_AppendRecord.cs:72-90 | A second scan at the same time over what the first kept removes nothing. |
| Retention.NoLimitsNoBoundary | ErrorLogger/Logger.cs:104-128 | With neither limit set the scan never stops. |
| Retention.WrittenRowsNeverFail | UnhandledExceptionLogger/Logger_AppendRecord.cs:67-77 | Under the model's timestamp round trip, a scan can fail only on a row the logger did not write itself. |
| Retention.StaleBoundaryEvictsOnlyStale | UnhandledExceptionLogger/Logger_AppendRecord.cs:75-83 | In a table ordered by time, a truncation at a stale row removes only stale rows. |
| LogEntries.NewLogEntry | UnhandledExceptionLogger/LogQueueObject.cs:16-23 | The constructor stores severity, title, message, stack trace and time unchanged. The stack trace is absent unless one is given. |
| UnhandledExceptionLogger.RoutingIndependent | UnhandledExceptionLogger/Logger.cs:109-119 | The file decision and the debug decision are independent. All four combinations occur. |
| UnhandledExceptionLogger.DefaultRouting | UnhandledExceptionLogger/Logger.cs:18-22 | With the default levels, a default-severity message goes nowhere and a default-severity exception goes to both the file and the debug sink. |
| UnhandledExceptionLogger.EntryRowReadsBack | UnhandledExceptionLogger/Logger_AppendRecord.cs:67 | A drained entry becomes a 5-cell row. The scan reads the entry's own time back from it, and the other cells are the severity name, title, message and stack trace (or ""). |
| UnhandledExceptionLogger.EntryRows | UnhandledExceptionLogger/Logger_AppendRecord.cs:64-68 | Draining a queue gives one row per entry. |
| UnhandledExceptionLogger.EntryRowsAt | UnhandledExceptionLogger/Logger_AppendRecord.cs:64-68 | Row `k` of a drain is the row of queue entry `k` (FIFO order). |
| UnhandledExceptionLogger.EntryRowsAppend | UnhandledExceptionLogger/Logger_AppendRecord.cs:64-68 | Draining two runs of entries in turn gives both runs' rows, in order. |
| UnhandledExceptionLogger.OneLimitAloneIsIgnored | UnhandledExceptionLogger/Logger_AppendRecord.cs:70 | With only one of the two limits set, the queued logger's retention does not run. |
| UnhandledExceptionLogger.Logger.constructor | UnhandledExceptionLogger/Logger.cs:56-92 | The thresholds and limits are stored. The queue is empty and the flag is clear. The table is the existing file, or else exactly the 5 headers and no rows. |
| UnhandledExceptionLogger.Logger.AppendRecordToLog | UnhandledExceptionLogger/Logger_AppendRecord.cs:37-47 | The new entry, timed `now` when no time is given, joins the tail of the queue. The entries already queued are unchanged. |
| UnhandledExceptionLogger.Logger.LogException | UnhandledExceptionLogger/Logger.cs:109-119 | Exactly one entry is enqueued (the type name as title, with message and stack trace) iff the severity reaches `LogLevel`; otherwise the queue is unchanged. "Printed" holds iff the severity reaches `DebugOutLevel`. |
| UnhandledExceptionLogger.Logger.LogMessage | UnhandledExceptionLogger/Logger.cs:126-136 | Exactly one entry without a stack trace is enqueued iff the severity reaches `LogLevel`; otherwise the queue is unchanged. "Printed" holds iff the severity reaches `DebugOutLevel`. |
| UnhandledExceptionLogger.Logger.BeginPass | UnhandledExceptionLogger/Logger_AppendRecord.cs:56-60 | The pass goes ahead iff the flag was clear. Afterwards the flag is set. |
| UnhandledExceptionLogger.Logger.DrainQueue | UnhandledExceptionLogger/Logger_AppendRecord.cs:64-68 | The queue ends empty, and the table is the old table followed by the queued entries' rows in FIFO order. |
| UnhandledExceptionLogger.Logger.ApplyRetention | UnhandledExceptionLogger/Logger_AppendRecord.cs:70-91 | Retention runs only with both limits set. The rows become what the scan keeps, and nothing is removed when the scan fails. |
| UnhandledExceptionLogger.Logger.Pass | UnhandledExceptionLogger/Logger_AppendRecord.cs:56-113 | A pass that finds the flag set changes nothing. Otherwise the table becomes what retention keeps of the old rows followed by the drained rows, and the flag ends clear in every case. The file is rewritten with that table iff the scan completed and the write succeeded; a failed scan leaves the file alone. With retention off nothing is removed. |
| UnhandledExceptionLogger.Logger.Step | UnhandledExceptionLogger/Logger_AppendRecord.cs:56-113 | After a pass, the rows and the still-queued entries are a trailing part of what was there before followed by the entries that arrived. With retention off they are all of it. The header is unchanged. A completed pass whose write succeeds leaves the file holding the table; a failed write or a failed scan leaves the file as it was. |
| UnhandledExceptionLogger.Logger.WriteLog | UnhandledExceptionLogger/Logger_AppendRecord.cs:52-121 | A task that meets another pass changes nothing. Otherwise the flag ends clear, and the task stops early only when the queue is empty or a scan threw. The rows plus the queue are a trailing part, in order, of the old rows followed by every entry queued or arriving. With retention off they are exactly that: no entry is lost or duplicated. The header is unchanged, and when the last pass's write succeeded the file holds the table the task leaves. |
| UnhandledExceptionLogger.StepAccounting | UnhandledExceptionLogger/Logger_AppendRecord.cs:115-117 | Taking another pass keeps the rows-plus-queue a trailing part of the running total, and exactly equal to it with retention off. |
| UnhandledExceptionLogger.BacklogRowsInOrder | UnhandledExceptionLogger/Logger_AppendRecord.cs:115-117 | The running total over several passes is the old rows followed by the rows of every entry queued or arriving, in arrival order. |
| UnhandledExceptionLogger.PassAccount | UnhandledExceptionLogger/Logger_AppendRecord.cs:80-88 | Truncation keeps a trailing part of the rows it scanned, and nothing queued behind them is touched. |
| ErrorLogger.ExceptionRowReadsBack | ErrorLogger/Logger.cs:94-102 | The appended row has one cell per column: the scan reads the stamp back from it, then the type name, message and stack trace (or ""). |
| ErrorLogger.Logger.constructor | ErrorLogger/Logger.cs:45-73 | The limits are stored. The table is the existing file, or else exactly the 4 headers and no rows. |
| ErrorLogger.Logger.LogException | ErrorLogger/Logger.cs:89-139 | The row is stamped with one clock reading (:97) and the cutoff is taken from another (:112). The table becomes what the scan keeps of the old rows followed by one new row. A scan that throws leaves the file alone and reports the row. Otherwise the file holds the new table iff the write succeeded, and a failure is swallowed. With neither limit set nothing is removed. |
| ErrorLogger.NewestRowSurvives | ErrorLogger/Logger.cs:104-128 | The row just logged is kept, as the last row, when its stamp is no older than the cutoff `now - HistoryDuration` and the row alone fits the size limit. |
| ErrorLogger.NewRowBeforeCutoffEmptiesLog | ErrorLogger/Logger.cs:97-116 | When the new row's stamp is already older than the cutoff, the scan stops at the new row and the call leaves the table empty. With a zero duration this happens as soon as the clock has reached a later second than the stamp. |
| ErrorLogger.ExpiredHistoryIsDropped | ErrorLogger/Logger.cs:107-116 | When the newest old row is older than the cutoff and the new row is not, only the new row remains. |

## Left out

- Concurrency is not modelled: `Task.Run`, `ConfigureAwait`, the `lock` blocks and `volatile`. Each method is one atomic step, and `_isWriting` is a plain field.
- UnhandledExceptionLogger.Logger.WriteLog: the task is followed for at most `|schedule|` passes. Entries other producers enqueue during a pass are placed after its drain. In the source, an entry that lands during the drain loop is drained by the same pass.
- UnhandledExceptionLogger.Logger.AppendRecordToLog: the `Thread.Sleep` wait while more than 10000 entries are queued is the precondition `|queue| <= 10000`. The `Task.Run(WriteLog)` it starts is a separate, later call of `WriteLog`.
- File and directory I/O is not modelled. The QuickCsv table library is not part of this model, so `Table` stands for it:
  - `LoadFromFile` receives the parsed file.
  - `WriteTableToFile` replaces the recorded file image, or fails as `writeOk` says.
  - `Directory.CreateDirectory` and `FileInfo` are not modelled.
- The `AppDomain.CurrentDomain.UnhandledException` hook is host registration and is not modelled.
- `WriteDebug` and its `Debug.WriteLine` text are not modelled. Only the decision whether to print is: the `printed` result. The warning printed on a failed write is not modelled.
- TimeFormat.Format: `TimeFormat` is not part of this model, so the clock counts whole seconds and the timestamp text is the decimal numeral. The synchronous logger's culture-dependent `DateTime.ToString()`/`DateTime.Parse` pair is modelled with the same format and parse.
- Retention.FindBoundary: the scan's clock is read once per scan. The source reads `DateTime.Now` again for every row it checks. The ErrorLogger row's stamp is a separate reading, `stamp`.
- ErrorLogger.NewestRowSurvives: the time is whole seconds, so the loss of fractional seconds in `DateTime.Now.ToString()` is not modelled as such. It appears only as a `stamp` older than `now`. When the duration is zero or under about a second, that is enough to make the source drop the row it just logged, and `NewRowBeforeCutoffEmptiesLog` states this case.
- Retention.RowTime: a record without a cell 0 counts as an unreadable timestamp, since what QuickCsv's `GetCell` does then is not part of this model.
- ErrorLogger.ExceptionRow: a null stack trace is stored as "", since how QuickCsv stores a null cell is not part of this model.
- Retention.FindBoundary: several overflows and range errors are not modelled: a `long` overflow of `logSize`, and the `DateTime`/`TimeSpan` range exceptions of `now - HistoryDuration`. Integers are unbounded here.
- Unhandled exceptions are not propagated as such. An exception thrown out of a scan is the result `PassFaulted` or `ParseFailed`.
