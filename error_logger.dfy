/** The synchronous logger (`ErrorLogger.Logger`).

    `LogException` does all its work under one lock: it appends a row for
    the exception, runs the retention scan when AT LEAST ONE limit is set,
    truncates at the boundary the scan found, and writes the table to its
    file, swallowing a failed write. An unreadable timestamp makes the scan
    throw; the exception reaches the caller after the append and before the
    write. */
module ErrorLogger {
  import opened Wrappers
  import opened TimeFormat
  import opened Utf8
  import opened LogTable
  import opened Retention
  import opened LogEntries

  /** Header row of a table created without an existing file. */
  const ColumnNames: seq<string> := ["Timestamp", "Exception Type", "Message", "Stack Trace"]

  /** The four cells `LogException` appends: the clock reading `stamp`, the
      exception's type name, its message and its stack trace (stored as ""
      when there is none). */
  function ExceptionRow(ex: Exception, stamp: Time): Row {
    [Format(stamp), ex.typeName, ex.message, ex.stackTrace.GetOr("")]
  }

  /** The appended row gives back its own time to the scan and holds the
      exception's data in the order of the column names. */
  lemma ExceptionRowReadsBack(ex: Exception, stamp: Time)
    ensures |ExceptionRow(ex, stamp)| == |ColumnNames|
    ensures RowTime(ExceptionRow(ex, stamp)) == Some(stamp)
    ensures ExceptionRow(ex, stamp)[1..] == [ex.typeName, ex.message, ex.stackTrace.GetOr("")]
  {
    RoundTrip(stamp);
  }

  /** How a call ended: the row was logged (with the scan's result and
      whether the file was written), or the scan threw at a row whose
      timestamp could not be read. */
  datatype LogOutcome = Logged(boundary: Scan, written: bool) | ParseFailed(index: nat)

  class Logger {
    var historyDuration: Option<int>
    var maxLogSizeKB: Option<int>
    /** `Log`, the table. */
    const log: Table

    /** The retention limits the logger was configured with. */
    function CurrentLimits(): Limits
      reads this`historyDuration, this`maxLogSizeKB
    {
      Limits(historyDuration, maxLogSizeKB)
    }

    /** `new Logger(filePath, historyDuration, maxLogSize_KB)`. `existing` is
        the content of the log file when it exists; otherwise the table starts
        with the four column names. */
    constructor (existing: Option<Image>, historyDuration: Option<int> := None,
                 maxLogSizeKB: Option<int> := None)
      ensures this.historyDuration == historyDuration && this.maxLogSizeKB == maxLogSizeKB
      ensures fresh(log)
      ensures existing.Some? ==> log.Snapshot() == existing.value && log.persisted == existing
      ensures existing.None? ==> log.columns == ColumnNames && log.rows == [] && log.persisted == None
    {
      var table := new Table();
      if existing.Some? {
        table.LoadFromFile(existing.value);
      } else {
        table.SetColumnNames(ColumnNames);
      }
      log := table;
      this.historyDuration := historyDuration;
      this.maxLogSizeKB := maxLogSizeKB;
    }

    /** `LogException(ex)`. The clock is read twice: `stamp` is the reading
        written into the new row (to whole seconds, as `ToString()` keeps
        it) and `now` the later reading the age cutoff is taken from.
        `writeOk` says whether the file write succeeds. The table afterwards
        holds what the retention scan keeps of the old rows followed by the
        new one; the
        guard `HistoryDuration != null || MaxLogSize_KB != null` changes
        nothing, since with neither limit the scan never stops. The file is
        rewritten with the new table iff the scan completed and the write
        succeeded. */
    method LogException(ex: Exception, stamp: Time, now: Time, writeOk: bool) returns (o: LogOutcome)
      modifies log`rows, log`persisted
      ensures log.columns == old(log.columns)
      ensures var appended := old(log.rows) + [ExceptionRow(ex, stamp)];
              var s := ScanRows(appended, CurrentLimits(), now);
              log.rows == Kept(appended, s) &&
              (s.BadTimestamp? ==> o == ParseFailed(s.index) && log.persisted == old(log.persisted)) &&
              (!s.BadTimestamp? ==>
                 o == Logged(s, writeOk) &&
                 log.persisted == if writeOk then Some(Image(log.columns, log.rows)) else old(log.persisted))
      ensures historyDuration.None? && maxLogSizeKB.None? ==>
        o == Logged(NoBoundary, writeOk) && log.rows == old(log.rows) + [ExceptionRow(ex, stamp)]
    {
      log.AppendRecord(ExceptionRow(ex, stamp));
      var s := NoBoundary;
      if historyDuration.Some? || maxLogSizeKB.Some? {
        s := FindBoundary(log, CurrentLimits(), now);
        if s.BadTimestamp? {
          return ParseFailed(s.index);
        }
        if s.Boundary? {
          TruncateLog(log, s.index);
        }
      } else {
        NoLimitsNoBoundary(log.rows, now);
      }
      var written := log.WriteTableToFile(writeOk);
      o := Logged(s, written);
    }
  }

  /** The row just logged survives its own scan, as the last row, when its
      stamp is not older than the cutoff `now - HistoryDuration` and the row
      alone fits the size limit: the scan reads it, finds it fresh and small
      enough, and so stops, if at all, at an older row. */
  lemma {:induction false} NewestRowSurvives(rows: seq<Row>, ex: Exception, stamp: Time, lim: Limits, now: Time)
    requires lim.historyDuration.Some? ==> stamp >= now - lim.historyDuration.value
    requires lim.maxLogSizeKB.Some? ==> RowSize(ExceptionRow(ex, stamp)) / 1024 <= lim.maxLogSizeKB.value
    ensures var appended := rows + [ExceptionRow(ex, stamp)];
            var s := ScanRows(appended, lim, now);
            !s.BadTimestamp? ==> |Kept(appended, s)| > 0 && Kept(appended, s)[|Kept(appended, s)| - 1] == ExceptionRow(ex, stamp)
  {
    var row := ExceptionRow(ex, stamp);
    var appended := rows + [row];
    var n := |appended|;
    ExceptionRowReadsBack(ex, stamp);
    assert appended[n - 1] == row;
    assert appended[n - 1..] == [row];
    assert SuffixSize([row]) == RowSize(row) by {
      assert [row][1..] == [];
    }
    assert !Stops(appended, n - 1, lim, now);
    assert ScanRows(appended, lim, now) == ScanBelow(appended, n - 1, lim, now);
  }

  /** When the newest old row is older than `now - d` and the new one is
      not, a call with duration `d` (and a size limit the new row fits, if
      any) leaves just the new row: the scan passes the new row and stops at
      the old one before it. A log kept for one hour therefore drops an
      entry logged more than an hour ago at the next call. */
  lemma {:induction false} ExpiredHistoryIsDropped(rows: seq<Row>, ex: Exception, stamp: Time, lim: Limits, now: Time)
    requires |rows| > 0
    requires lim.historyDuration.Some? && stamp >= now - lim.historyDuration.value
    requires lim.maxLogSizeKB.Some? ==> RowSize(ExceptionRow(ex, stamp)) / 1024 <= lim.maxLogSizeKB.value
    requires RowTime(rows[|rows| - 1]).Some?
    requires RowTime(rows[|rows| - 1]).value < now - lim.historyDuration.value
    ensures var appended := rows + [ExceptionRow(ex, stamp)];
            Kept(appended, ScanRows(appended, lim, now)) == [ExceptionRow(ex, stamp)]
  {
    var row := ExceptionRow(ex, stamp);
    var appended := rows + [row];
    var n := |appended|;
    ExceptionRowReadsBack(ex, stamp);
    assert appended[n - 1] == row;
    assert appended[n - 2] == rows[|rows| - 1];
    assert appended[n - 1..] == [row];
    assert SuffixSize([row]) == RowSize(row) by {
      assert [row][1..] == [];
    }
    assert !Stops(appended, n - 1, lim, now);
    assert Readable(appended[n - 2], lim) && Triggers(appended, n - 2, lim, now);
    assert ScanBelow(appended, n - 1, lim, now) == Boundary(n - 2);
    assert ScanRows(appended, lim, now) == ScanBelow(appended, n - 1, lim, now);
  }

  /** The other side of `NewestRowSurvives`: when the stamp written into the
      new row is already older than the cutoff, the scan stops at the new
      row itself and the call empties the table. With `HistoryDuration` zero
      this happens whenever the clock has moved on to a later second between
      the two readings. */
  lemma NewRowBeforeCutoffEmptiesLog(rows: seq<Row>, ex: Exception, stamp: Time, lim: Limits, now: Time)
    requires lim.historyDuration.Some? && stamp < now - lim.historyDuration.value
    ensures var appended := rows + [ExceptionRow(ex, stamp)];
            ScanRows(appended, lim, now) == Boundary(|rows|) &&
            Kept(appended, ScanRows(appended, lim, now)) == []
  {
    ExceptionRowReadsBack(ex, stamp);
    var appended := rows + [ExceptionRow(ex, stamp)];
    assert appended[|rows|] == ExceptionRow(ex, stamp);
  }
}
