/** `LogEntry`, the value that waits in the logging queue, and the exception
    data the loggers read (`GetType().Name`, `Message`, `StackTrace`). */
module LogEntries {
  import opened Wrappers
  import opened Severities
  import opened TimeFormat

  /** One log record. Its properties have private setters and the struct has
      no other members, so a value never changes after construction: a
      datatype value. */
  datatype LogEntry = LogEntry(
    severity: Severity,
    title: string,
    message: string,
    stackTrace: Option<string>,
    time: Time)

  /** `new LogEntry(severity, title, message, time, stackTrace = null)`: every
      argument is stored unchanged in the matching property, the stack trace
      is absent unless given, and the time is the one supplied. */
  function NewLogEntry(severity: Severity, title: string, message: string, time: Time,
                       stackTrace: Option<string> := None): (e: LogEntry)
    ensures e.severity == severity && e.title == title && e.message == message
    ensures e.stackTrace == stackTrace && e.time == time
  {
    LogEntry(severity, title, message, stackTrace, time)
  }

  /** What a logger reads from an exception: the name of its runtime type,
      its message, and its stack trace (null for one that was never thrown). */
  datatype Exception = Exception(typeName: string, message: string, stackTrace: Option<string>)
}
