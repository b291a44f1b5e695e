/** The queued logger (`UnhandledExceptionLogger.Logger`, a partial class over
    Logger.cs, Logger_AppendRecord.cs and Logger_Logtypes.cs).

    Producers filter by severity and enqueue a `LogEntry`; a writer pass,
    guarded by the `_isWriting` flag, drains the queue into the table in FIFO
    order, runs the retention scan when BOTH limits are set, writes the table
    to its file (a failure is swallowed), clears the flag, and goes round
    again while the queue is not empty.

    The model is sequential: each method is one atomic step, and an
    environment interleaves them. The background task that
    `AppendRecordToLog` starts is a later call of `WriteLog`. */
module UnhandledExceptionLogger {
  import opened Wrappers
  import opened Severities
  import opened TimeFormat
  import opened LogTable
  import opened Retention
  import opened LogEntries

  /** Queue length above which `AppendRecordToLog` waits before enqueuing. */
  const HighWaterMark: nat := 10000

  /** Header row of a table created without an existing file. */
  const ColumnNames: seq<string> := ["Timestamp", "Severity", "Exception Type", "Message", "Stack Trace"]

  const DefaultLogLevel: Severity := Critical
  const DefaultDebugOutLevel: Severity := Warning
  const DefaultExceptionSeverity: Severity := Critical
  const DefaultMessageSeverity: Severity := Info

  /** Where the front door sends an entry: to the file pipeline, to the
      debug sink, both or neither. */
  datatype Routing = Routing(toFile: bool, toDebug: bool)

  function Route(severity: Severity, logLevel: Severity, debugOutLevel: Severity): Routing {
    Routing(AtLeast(severity, logLevel), AtLeast(severity, debugOutLevel))
  }

  /** The two decisions are independent: every combination happens. */
  lemma RoutingIndependent(toFile: bool, toDebug: bool)
    ensures exists s, l, d :: Route(s, l, d) == Routing(toFile, toDebug)
  {
    var (s, l, d) :=
      if toFile && toDebug then (Critical, Critical, Critical)
      else if toFile then (Warning, Warning, Critical)
      else if toDebug then (Warning, Critical, Warning)
      else (Info, Critical, Critical);
    assert Route(s, l, d) == Routing(toFile, toDebug);
  }

  /** With the default thresholds, a message at its default severity goes
      nowhere, and an exception at its default severity goes to both. */
  lemma DefaultRouting()
    ensures Route(DefaultMessageSeverity, DefaultLogLevel, DefaultDebugOutLevel) == Routing(false, false)
    ensures Route(DefaultExceptionSeverity, DefaultLogLevel, DefaultDebugOutLevel) == Routing(true, true)
  {
  }

  /** The five cells a drained entry becomes:
      `[time, severity name, title, message, stackTrace ?? ""]`. */
  function EntryRow(e: LogEntry): Row {
    [Format(e.time), Name(e.severity), e.title, e.message, e.stackTrace.GetOr("")]
  }

  /** A drained row gives back the entry's time to the retention scan, and
      holds the entry's severity name, title, message and stack trace. */
  lemma EntryRowReadsBack(e: LogEntry)
    ensures |EntryRow(e)| == 5
    ensures RowTime(EntryRow(e)) == Some(e.time)
    ensures EntryRow(e)[1..] == [Name(e.severity), e.title, e.message, e.stackTrace.GetOr("")]
  {
    RoundTrip(e.time);
  }

  /** The rows of a run of entries, in the same order. */
  function EntryRows(q: seq<LogEntry>): (rows: seq<Row>)
    ensures |rows| == |q|
  {
    if |q| == 0 then [] else [EntryRow(q[0])] + EntryRows(q[1..])
  }

  /** Row `k` of the drained rows is entry `k` of the queue: FIFO order. */
  lemma {:induction false} EntryRowsAt(q: seq<LogEntry>, k: nat)
    requires k < |q|
    ensures EntryRows(q)[k] == EntryRow(q[k])
  {
    if k > 0 {
      EntryRowsAt(q[1..], k - 1);
    }
  }

  /** Draining two runs of entries one after the other gives the rows of
      both runs, in order. */
  lemma {:induction false} EntryRowsAppend(a: seq<LogEntry>, b: seq<LogEntry>)
    ensures EntryRows(a + b) == EntryRows(a) + EntryRows(b)
  {
    assert |EntryRows(a + b)| == |EntryRows(a) + EntryRows(b)|;
    forall k | 0 <= k < |a + b|
      ensures EntryRows(a + b)[k] == (EntryRows(a) + EntryRows(b))[k]
    {
      EntryRowsAt(a + b, k);
      if k < |a| {
        EntryRowsAt(a, k);
      } else {
        EntryRowsAt(b, k - |a|);
      }
    }
  }

  /** The queued version runs the retention scan only when BOTH limits are
      set (`HistoryDuration is not null && MaxLogSize_KB is not null`). */
  predicate RetentionEnabled(lim: Limits) {
    lim.historyDuration.Some? && lim.maxLogSizeKB.Some?
  }

  /** The scan result of a pass over the merged rows. */
  function PassScan(merged: seq<Row>, lim: Limits, now: Time): Scan {
    if RetentionEnabled(lim) then ScanRows(merged, lim, now) else NoBoundary
  }

  /** Consequently one limit alone never truncates anything. */
  lemma OneLimitAloneIsIgnored(d: int, m: int)
    ensures !RetentionEnabled(Limits(Some(d), None))
    ensures !RetentionEnabled(Limits(None, Some(m)))
  {
  }

  lemma AppendAssociative<T>(a: seq<T>, b: seq<T>, c: seq<T>)
    ensures a + b + c == a + (b + c)
  {
  }

  lemma AppendNothing<T>(a: seq<T>, b: seq<T>)
    requires b == []
    ensures a + b == a
  {
  }

  /** `a` is a trailing part of `b`. */
  ghost predicate IsSuffix<T>(a: seq<T>, b: seq<T>) {
    |a| <= |b| && a == b[|b| - |a|..]
  }

  lemma SuffixAppend<T>(a: seq<T>, b: seq<T>, c: seq<T>)
    requires IsSuffix(a, b)
    ensures IsSuffix(a + c, b + c)
  {
    assert (b + c)[|b + c| - |a + c|..] == b[|b| - |a|..] + c;
  }

  lemma SuffixTransitive<T>(a: seq<T>, b: seq<T>, c: seq<T>)
    requires IsSuffix(a, b) && IsSuffix(b, c)
    ensures IsSuffix(a, c)
  {
    assert c[|c| - |a|..] == c[|c| - |b|..][|b| - |a|..];
  }

  /** What the environment does during one writer pass: the clock reading,
      whether the file write succeeds, and the entries other producers
      enqueue while the pass is writing. */
  datatype PassEnv = PassEnv(now: Time, writeOk: bool, arrivals: seq<LogEntry>)

  /** One pass: found another pass active, ended in the exception of an
      unreadable timestamp at a row, or completed (with its scan result and
      whether the file was written). */
  datatype PassOutcome = Skipped | PassFaulted(index: nat) | Completed(scan: Scan, written: bool)

  /** How the writer task ended: at its first guard, by an exception in pass
      number `passes`, or normally after `passes` passes. */
  datatype WriteLogResult = Busy | Failed(passes: nat, index: nat) | Finished(passes: nat)

  class Logger {
    /** Minimum severity written to the file. */
    var logLevel: Severity
    /** Minimum severity written to the debug sink. */
    var debugOutLevel: Severity
    var historyDuration: Option<int>
    var maxLogSizeKB: Option<int>
    /** `LogHistory`. */
    const history: Table
    /** `_loggingQueue`, head first. */
    var queue: seq<LogEntry>
    /** `_isWriting`: a writer pass is active. */
    var isWriting: bool

    /** The rows the table holds followed by the rows its queue will become. */
    ghost function Account(): seq<Row>
      reads this`queue, history`rows
    {
      history.rows + EntryRows(queue)
    }

    /** The retention limits the logger was configured with. */
    function CurrentLimits(): Limits
      reads this`historyDuration, this`maxLogSizeKB
    {
      Limits(historyDuration, maxLogSizeKB)
    }

    /** `new Logger(filePath, historyDuration, maxLogSize_KB, logLevel,
        debugOutLevel)`. `existing` is the content of the log file when it
        exists; otherwise the table starts with the five column names. */
    constructor (existing: Option<Image>, historyDuration: Option<int> := None,
                 maxLogSizeKB: Option<int> := None, logLevel: Severity := DefaultLogLevel,
                 debugOutLevel: Severity := DefaultDebugOutLevel)
      ensures this.logLevel == logLevel && this.debugOutLevel == debugOutLevel
      ensures this.historyDuration == historyDuration && this.maxLogSizeKB == maxLogSizeKB
      ensures fresh(history) && queue == [] && !isWriting
      ensures existing.Some? ==> history.Snapshot() == existing.value && history.persisted == existing
      ensures existing.None? ==> history.columns == ColumnNames && history.rows == [] && history.persisted == None
    {
      this.logLevel := logLevel;
      this.debugOutLevel := debugOutLevel;
      var table := new Table();
      if existing.Some? {
        table.LoadFromFile(existing.value);
      } else {
        table.SetColumnNames(ColumnNames);
      }
      history := table;
      this.historyDuration := historyDuration;
      this.maxLogSizeKB := maxLogSizeKB;
      queue := [];
      isWriting := false;
    }

    /** `AppendRecordToLog`: the new entry goes to the tail of the queue, with
        the time defaulting to `now`; the entries already queued stay as they
        are. The wait while the queue is above the high-water mark is over
        before the enqueue. */
    method AppendRecordToLog(now: Time, severity: Severity, title: string, message: string,
                             stackTrace: Option<string> := None, time: Option<Time> := None)
      requires |queue| <= HighWaterMark
      modifies this`queue
      ensures queue == old(queue) + [NewLogEntry(severity, title, message, time.GetOr(now), stackTrace)]
    {
      var t := time.GetOr(now);
      queue := queue + [NewLogEntry(severity, title, message, t, stackTrace)];
    }

    /** `Log(ex, exceptionSeverity = Critical)`: enqueues an entry titled with
        the exception's type name, carrying its message and stack trace, iff
        the severity reaches `LogLevel`; `printed` tells whether it reached
        `DebugOutLevel`. */
    method LogException(now: Time, ex: Exception, exceptionSeverity: Severity := DefaultExceptionSeverity)
      returns (printed: bool)
      requires AtLeast(exceptionSeverity, logLevel) ==> |queue| <= HighWaterMark
      modifies this`queue
      ensures printed == Route(exceptionSeverity, logLevel, debugOutLevel).toDebug
      ensures queue == old(queue) +
        if Route(exceptionSeverity, logLevel, debugOutLevel).toFile
        then [LogEntry(exceptionSeverity, ex.typeName, ex.message, ex.stackTrace, now)]
        else []
    {
      if AtLeast(exceptionSeverity, logLevel) {
        AppendRecordToLog(now, exceptionSeverity, ex.typeName, ex.message, stackTrace := ex.stackTrace);
      }
      printed := AtLeast(exceptionSeverity, debugOutLevel);
    }

    /** `Log(title, message, exceptionSeverity = Info)`: the same gate, for an
        entry without a stack trace. */
    method LogMessage(now: Time, title: string, message: string,
                      exceptionSeverity: Severity := DefaultMessageSeverity)
      returns (printed: bool)
      requires AtLeast(exceptionSeverity, logLevel) ==> |queue| <= HighWaterMark
      modifies this`queue
      ensures printed == Route(exceptionSeverity, logLevel, debugOutLevel).toDebug
      ensures queue == old(queue) +
        if Route(exceptionSeverity, logLevel, debugOutLevel).toFile
        then [LogEntry(exceptionSeverity, title, message, None, now)]
        else []
    {
      if AtLeast(exceptionSeverity, logLevel) {
        AppendRecordToLog(now, exceptionSeverity, title, message);
      }
      printed := AtLeast(exceptionSeverity, debugOutLevel);
    }

    /** The locked test-and-set at the top of a pass. */
    method BeginPass() returns (acquired: bool)
      modifies this`isWriting
      ensures acquired == !old(isWriting)
      ensures isWriting
    {
      if isWriting {
        return false;
      }
      isWriting := true;
      acquired := true;
    }

    /** The `TryDequeue` loop: every queued entry, head first, becomes a row
        at the end of the table. */
    method DrainQueue()
      modifies this`queue, history`rows
      ensures queue == []
      ensures history.rows == old(history.rows) + EntryRows(old(queue))
    {
      ghost var drained: seq<LogEntry> := [];
      while queue != []
        invariant old(queue) == drained + queue
        invariant history.rows == old(history.rows) + EntryRows(drained)
        decreases |queue|
      {
        var logEntry := queue[0];
        queue := queue[1..];
        history.AppendRecord(EntryRow(logEntry));
        EntryRowsAppend(drained, [logEntry]);
        drained := drained + [logEntry];
      }
      assert drained == old(queue);
    }

    /** The retention step of a pass, which runs only when both limits are
        set: the scan of the merged rows, then `TruncateLog` at the boundary
        it found. On an unreadable timestamp the scan ends in an exception and
        nothing is removed. */
    method ApplyRetention(now: Time) returns (s: Scan)
      modifies history`rows
      ensures s == PassScan(old(history.rows), CurrentLimits(), now)
      ensures history.rows == Kept(old(history.rows), s)
    {
      s := NoBoundary;
      if historyDuration.Some? && maxLogSizeKB.Some? {
        s := FindBoundary(history, CurrentLimits(), now);
        if s.Boundary? {
          TruncateLog(history, s.index);
        }
      }
    }

    /** One iteration of `WriteLog`'s outer loop, with `env` saying what the
        environment does meanwhile. If another pass holds the flag nothing is
        touched. Otherwise the queue is drained into the table, the retention
        step runs, the table is written (a failed write is swallowed and
        leaves the file as it was), and the flag is cleared in every case,
        also when an unreadable timestamp ends the pass with an exception
        before the write. Entries that producers enqueue while the table is
        being written wait in the queue. */
    method Pass(env: PassEnv) returns (o: PassOutcome)
      modifies this`queue, this`isWriting, history`rows, history`persisted
      ensures history.columns == old(history.columns)
      ensures old(isWriting) ==>
        o == Skipped && isWriting && queue == old(queue) &&
        history.rows == old(history.rows) && history.persisted == old(history.persisted)
      ensures !old(isWriting) ==>
        var merged := old(history.rows) + EntryRows(old(queue));
        !isWriting && (o.PassFaulted? || o.Completed?) &&
        var s := if o.PassFaulted? then BadTimestamp(o.index) else o.scan;
        s == PassScan(merged, CurrentLimits(), env.now) && history.rows == Kept(merged, s)
      ensures o.PassFaulted? ==> queue == [] && history.persisted == old(history.persisted)
      ensures o.Completed? ==>
        !o.scan.BadTimestamp? && o.written == env.writeOk && queue == env.arrivals &&
        history.persisted == if env.writeOk then Some(Image(history.columns, history.rows)) else old(history.persisted)
      ensures !old(isWriting) && !RetentionEnabled(CurrentLimits()) ==> o == Completed(NoBoundary, env.writeOk)
    {
      var acquired := BeginPass();
      if !acquired {
        return Skipped;
      }
      ghost var merged := history.rows + EntryRows(queue);
      DrainQueue();
      assert history.rows == merged;
      var s := ApplyRetention(env.now);
      assert history.rows == Kept(merged, s);
      if s.BadTimestamp? {
        isWriting := false;
        return PassFaulted(s.index);
      }
      var written := history.WriteTableToFile(env.writeOk);
      queue := queue + env.arrivals;
      isWriting := false;
      o := Completed(s, written);
    }

    /** A pass as the writer task accounts for it: it either finds another
        pass active and changes nothing, or clears the flag having turned the
        table's rows and queue into a trailing part of what they were
        followed by the entries now queued (all of it with retention off).
        The header never changes, and a completed pass leaves the file as
        `Pass` says. */
    method Step(env: PassEnv) returns (o: PassOutcome)
      modifies this`queue, this`isWriting, history`rows, history`persisted
      ensures old(isWriting) ==>
        o == Skipped && isWriting && queue == old(queue) &&
        history.rows == old(history.rows) && history.persisted == old(history.persisted)
      ensures !old(isWriting) ==> !isWriting && (o.PassFaulted? || o.Completed?)
      ensures history.columns == old(history.columns)
      ensures o.PassFaulted? ==> queue == [] && history.persisted == old(history.persisted)
      ensures o.Completed? ==> queue == env.arrivals && o.written == env.writeOk
      ensures o.Completed? && env.writeOk ==> history.persisted == Some(history.Snapshot())
      ensures o.Completed? && !env.writeOk ==> history.persisted == old(history.persisted)
      ensures !old(isWriting) ==>
        IsSuffix(Account(), old(Account()) + EntryRows(queue)) &&
        (!RetentionEnabled(CurrentLimits()) ==> Account() == old(Account()) + EntryRows(queue))
    {
      ghost var before := history.rows + EntryRows(queue);
      o := Pass(env);
      if !o.Skipped? {
        PassAccount(before, if o.PassFaulted? then BadTimestamp(o.index) else o.scan, EntryRows(queue));
      }
    }

    /** `WriteLog`, the writer task: passes run while the queue is non-empty
        after a pass; `schedule[k]` is what the environment does during pass
        `k`, and the task is followed for at most `|schedule|` passes.
        Whatever happens, the rows and the still-queued entries are a
        trailing part of everything that was in the table or the queue or
        arrived meanwhile, in order: retention only takes rows from the old
        end. With retention off they are exactly all of it: no entry is lost,
        none is duplicated. A task that finds another pass active changes
        nothing; one that started a pass leaves the flag clear. The header is
        never touched, and when the last pass wrote the file successfully the
        file holds the table as the task leaves it. */
    method WriteLog(schedule: seq<PassEnv>) returns (r: WriteLogResult)
      requires |schedule| > 0
      modifies this`queue, this`isWriting, history`rows, history`persisted
      ensures history.columns == old(history.columns)
      ensures r.Busy? <==> old(isWriting)
      ensures r.Busy? ==>
        isWriting && queue == old(queue) &&
        history.rows == old(history.rows) && history.persisted == old(history.persisted)
      ensures !r.Busy? ==> !isWriting
      ensures r.Finished? ==> 1 <= r.passes <= |schedule| && (r.passes < |schedule| ==> queue == [])
      ensures r.Failed? ==> r.passes < |schedule| && queue == []
      ensures r.Finished? && schedule[r.passes - 1].writeOk ==> history.persisted == Some(history.Snapshot())
      ensures !r.Busy? ==>
        r.passes <= |schedule| &&
        var all := BacklogRows(old(history.rows), old(queue), schedule, r.passes);
        IsSuffix(Account(), all) && (!RetentionEnabled(CurrentLimits()) ==> Account() == all)
    {
      var k := 0;
      ghost var total := Account();
      assert IsSuffix(Account(), total);
      while k < |schedule|
        invariant 0 <= k <= |schedule|
        invariant k == 0 ==>
          isWriting == old(isWriting) && queue == old(queue) &&
          history.rows == old(history.rows) && history.persisted == old(history.persisted)
        invariant history.columns == old(history.columns)
        invariant k > 0 ==> !isWriting && !old(isWriting)
        invariant k > 0 && schedule[k - 1].writeOk ==> history.persisted == Some(history.Snapshot())
        invariant total == BacklogRows(old(history.rows), old(queue), schedule, k)
        invariant IsSuffix(Account(), total)
        invariant !RetentionEnabled(CurrentLimits()) ==> Account() == total
        decreases |schedule| - k
      {
        ghost var before := Account();
        var o := Step(schedule[k]);
        if o.Skipped? {
          return Busy;
        }
        StepAccounting(Account(), before, total, EntryRows(queue), !RetentionEnabled(CurrentLimits()));
        if o.PassFaulted? {
          AppendNothing(total, EntryRows(queue));
          return Failed(k, o.index);
        }
        total := total + EntryRows(queue);
        k := k + 1;
        if queue == [] {
          break;
        }
      }
      assert IsSuffix(Account(), BacklogRows(old(history.rows), old(queue), schedule, k));
      r := Finished(k);
    }
  }

  /** Everything queued for a writer task by the end of pass `k`: the queue it
      started with, then what arrived during each pass, in order. */
  function Backlog(q0: seq<LogEntry>, schedule: seq<PassEnv>, k: nat): seq<LogEntry>
    requires k <= |schedule|
  {
    if k == 0 then q0 else Backlog(q0, schedule, k - 1) + schedule[k - 1].arrivals
  }

  /** One pass left rows and a queue that are a trailing part of its input
      followed by its arrivals (all of it with retention off); so the running
      account of a writer task stays a trailing part of its backlog. */
  lemma StepAccounting<T>(after: seq<T>, before: seq<T>, total: seq<T>, tail: seq<T>, exact: bool)
    requires IsSuffix(before, total) && IsSuffix(after, before + tail)
    requires exact ==> before == total && after == before + tail
    ensures IsSuffix(after, total + tail)
    ensures exact ==> after == total + tail
  {
    SuffixAppend(before, total, tail);
    SuffixTransitive(after, before + tail, total + tail);
  }

  /** The rows a writer task is accountable for by the end of pass `k`: the
      table's rows, then the rows of the queue it started with, then those of
      each pass's arrivals. */
  function BacklogRows(start: seq<Row>, q0: seq<LogEntry>, schedule: seq<PassEnv>, k: nat): seq<Row>
    requires k <= |schedule|
  {
    if k == 0 then start + EntryRows(q0)
    else BacklogRows(start, q0, schedule, k - 1) + EntryRows(schedule[k - 1].arrivals)
  }

  /** Those rows are the table's rows followed by the rows of the whole
      backlog, in arrival order. */
  lemma {:induction false} BacklogRowsInOrder(start: seq<Row>, q0: seq<LogEntry>, schedule: seq<PassEnv>, k: nat)
    requires k <= |schedule|
    ensures BacklogRows(start, q0, schedule, k) == start + EntryRows(Backlog(q0, schedule, k))
  {
    if k > 0 {
      var earlier, arrived := Backlog(q0, schedule, k - 1), schedule[k - 1].arrivals;
      BacklogRowsInOrder(start, q0, schedule, k - 1);
      EntryRowsAppend(earlier, arrived);
      AppendAssociative(start, EntryRows(earlier), EntryRows(arrived));
    }
  }

  /** A pass keeps a trailing part of the rows it merged, all of them when
      its scan found no boundary; rows that follow them (the entries queued
      meanwhile) stay behind them. */
  lemma PassAccount(merged: seq<Row>, s: Scan, tail: seq<Row>)
    requires s.Boundary? ==> s.index < |merged|
    ensures IsSuffix(Kept(merged, s) + tail, merged + tail)
    ensures s.NoBoundary? ==> Kept(merged, s) == merged
  {
    SuffixAppend(Kept(merged, s), merged, tail);
  }
}
