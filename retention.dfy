/** The retention scan both loggers run after new rows reach the table.

    It walks from the last row toward row 0 keeping a running byte total of
    rows `i..end`, and stops at the first `i` (from the end) where
    - the limits include a history duration and row `i`'s timestamp cannot be
      read (`ParseExact` throws; the scan ends with that exception), or
    - row `i` is older than `now - HistoryDuration`, or
    - the limits include a size and `total / 1024 > MaxLogSize_KB`;
    in the last two cases rows `0..i` are then truncated. At most one
    truncation happens per scan. */
module Retention {
  import opened Wrappers
  import opened TimeFormat
  import opened Utf8
  import opened LogTable

  /** `HistoryDuration` (a `TimeSpan?`, in seconds, possibly negative) and
      `MaxLogSize_KB` (a `long?`). */
  datatype Limits = Limits(historyDuration: Option<int>, maxLogSizeKB: Option<int>)

  /** Where a scan stopped: nowhere, at a row to truncate through, or at a
      row whose timestamp could not be read. */
  datatype Scan = NoBoundary | Boundary(index: nat) | BadTimestamp(index: nat)

  /** The time in a row's Timestamp cell (column 0), if it can be read. */
  function RowTime(row: Row): Option<Time> {
    if |row| == 0 then None else Parse(row[0])
  }

  /** Total byte size of a run of rows. */
  function SuffixSize(rows: seq<Row>): nat {
    if |rows| == 0 then 0 else RowSize(rows[0]) + SuffixSize(rows[1..])
  }

  /** The age check can read this row (it is only attempted with a duration). */
  predicate Readable(row: Row, lim: Limits) {
    lim.historyDuration.None? || RowTime(row).Some?
  }

  /** The row is older than `now - HistoryDuration`. */
  predicate Stale(row: Row, lim: Limits, now: Time) {
    lim.historyDuration.Some? && RowTime(row).Some? &&
    RowTime(row).value < now - lim.historyDuration.value
  }

  /** Rows `j..end` together exceed the size limit, in whole kilobytes. */
  predicate Oversize(rows: seq<Row>, j: nat, lim: Limits)
    requires j <= |rows|
  {
    lim.maxLogSizeKB.Some? && SuffixSize(rows[j..]) / 1024 > lim.maxLogSizeKB.value
  }

  /** Row `j` is a truncation boundary. */
  predicate Triggers(rows: seq<Row>, j: nat, lim: Limits, now: Time)
    requires j < |rows|
  {
    Stale(rows[j], lim, now) || Oversize(rows, j, lim)
  }

  /** The scan ends at row `j`, one way or the other. */
  predicate Stops(rows: seq<Row>, j: nat, lim: Limits, now: Time)
    requires j < |rows|
  {
    !Readable(rows[j], lim) || Triggers(rows, j, lim, now)
  }

  /** No row in `lo..n` ends the scan. */
  predicate NoStopIn(rows: seq<Row>, lo: nat, n: nat, lim: Limits, now: Time)
    requires n <= |rows|
  {
    forall j :: lo <= j < n ==> !Stops(rows, j, lim, now)
  }

  /** The scan over rows `n-1` down to `0`, checking each row in the source's
      order: the timestamp is read, then its age, then the size total. */
  function ScanBelow(rows: seq<Row>, n: nat, lim: Limits, now: Time): (s: Scan)
    requires n <= |rows|
    ensures s.Boundary? ==> s.index < n && Readable(rows[s.index], lim) && Triggers(rows, s.index, lim, now)
    ensures s.BadTimestamp? ==> s.index < n && !Readable(rows[s.index], lim)
    decreases n
  {
    if n == 0 then NoBoundary
    else if !Readable(rows[n - 1], lim) then BadTimestamp(n - 1)
    else if Triggers(rows, n - 1, lim, now) then Boundary(n - 1)
    else ScanBelow(rows, n - 1, lim, now)
  }

  /** The scan over the whole table. */
  function ScanRows(rows: seq<Row>, lim: Limits, now: Time): Scan {
    ScanBelow(rows, |rows|, lim, now)
  }

  /** The rows left after truncating at the scan's boundary; a scan that
      found no boundary, or ended in a bad timestamp, truncates nothing. */
  function Kept(rows: seq<Row>, s: Scan): seq<Row>
    requires s.Boundary? ==> s.index < |rows|
  {
    if s.Boundary? then rows[s.index + 1..] else rows
  }

  lemma SuffixSizeStep(rows: seq<Row>, j: nat)
    requires j < |rows|
    ensures SuffixSize(rows[j..]) == RowSize(rows[j]) + SuffixSize(rows[j + 1..])
  {
    assert rows[j..][1..] == rows[j + 1..];
  }

  /** The scan finds nothing exactly when no row ends it. */
  lemma {:induction false} ScanNoBoundary(rows: seq<Row>, n: nat, lim: Limits, now: Time)
    requires n <= |rows|
    ensures ScanBelow(rows, n, lim, now) == NoBoundary <==> NoStopIn(rows, 0, n, lim, now)
    decreases n
  {
    if n > 0 {
      ScanNoBoundary(rows, n - 1, lim, now);
      if Stops(rows, n - 1, lim, now) {
        assert !NoStopIn(rows, 0, n, lim, now);
      } else {
        assert NoStopIn(rows, 0, n, lim, now) <==> NoStopIn(rows, 0, n - 1, lim, now);
      }
    }
  }

  /** The scan stops at the LARGEST row that ends it: it truncates at `i`
      exactly when row `i` is readable and a boundary and no later row ends
      the scan, and it fails at `i` exactly when row `i` cannot be read and
      no later row ends the scan. */
  lemma {:induction false} ScanIsLastStop(rows: seq<Row>, n: nat, lim: Limits, now: Time, i: nat)
    requires i < n <= |rows|
    ensures ScanBelow(rows, n, lim, now) == Boundary(i) <==>
              Readable(rows[i], lim) && Triggers(rows, i, lim, now) && NoStopIn(rows, i + 1, n, lim, now)
    ensures ScanBelow(rows, n, lim, now) == BadTimestamp(i) <==>
              !Readable(rows[i], lim) && NoStopIn(rows, i + 1, n, lim, now)
    decreases n
  {
    if n > i + 1 {
      if !Stops(rows, n - 1, lim, now) {
        ScanIsLastStop(rows, n - 1, lim, now, i);
      } else {
        assert !NoStopIn(rows, i + 1, n, lim, now);
      }
    }
  }

  /** The read-only scan the source runs: a backward `for` loop with a
      `logSize` accumulator that stops at the first boundary or unreadable
      timestamp. (The source calls `TruncateLog(i)` and breaks at that point;
      here the boundary is returned and the caller truncates.) */
  method FindBoundary(t: Table, lim: Limits, now: Time) returns (s: Scan)
    ensures s == ScanRows(t.rows, lim, now)
  {
    var logSize: nat := 0;
    var i: int := t.Length() - 1;
    while i >= 0
      invariant -1 <= i < |t.rows|
      invariant logSize == if lim.maxLogSizeKB.Some? then SuffixSize(t.rows[i + 1..]) else 0
      invariant ScanRows(t.rows, lim, now) == ScanBelow(t.rows, i + 1, lim, now)
    {
      if lim.historyDuration.Some? {
        var cell := t.GetCell(i, 0);
        var logTime := if cell.Some? then Parse(cell.value) else None;
        if logTime.None? {
          return BadTimestamp(i);
        }
        if logTime.value < now - lim.historyDuration.value {
          return Boundary(i);
        }
      }
      if lim.maxLogSizeKB.None? {
        i := i - 1;
        continue;
      }
      SuffixSizeStep(t.rows, i);
      logSize := logSize + RowSize(t.GetRecord(i));
      if !(logSize / 1024 > lim.maxLogSizeKB.value) {
        i := i - 1;
        continue;
      }
      return Boundary(i);
    }
    s := NoBoundary;
  }

  /** Retention by age: after a scan that did not fail, every surviving row is
      at least as new as `now - HistoryDuration`. */
  lemma SurvivorsAreFresh(rows: seq<Row>, lim: Limits, now: Time)
    requires lim.historyDuration.Some?
    requires !ScanRows(rows, lim, now).BadTimestamp?
    ensures var kept := Kept(rows, ScanRows(rows, lim, now));
            forall k :: 0 <= k < |kept| ==>
              RowTime(kept[k]).Some? && RowTime(kept[k]).value >= now - lim.historyDuration.value
  {
    var s := ScanRows(rows, lim, now);
    var off := if s.Boundary? then s.index + 1 else 0;
    if s.Boundary? {
      ScanIsLastStop(rows, |rows|, lim, now, s.index);
    } else {
      ScanNoBoundary(rows, |rows|, lim, now);
    }
    var kept := Kept(rows, s);
    forall k | 0 <= k < |kept|
      ensures RowTime(kept[k]).Some? && RowTime(kept[k]).value >= now - lim.historyDuration.value
    {
      assert kept[k] == rows[off + k];
      assert !Stops(rows, off + k, lim, now);
    }
  }

  /** Retention by size: after a scan that did not fail, the surviving rows
      together are at most `MaxLogSize_KB` whole kilobytes. (A negative limit
      can be met by no table, not even an empty one.) */
  lemma SurvivorsFitSize(rows: seq<Row>, lim: Limits, now: Time)
    requires lim.maxLogSizeKB.Some? && lim.maxLogSizeKB.value >= 0
    requires !ScanRows(rows, lim, now).BadTimestamp?
    ensures SuffixSize(Kept(rows, ScanRows(rows, lim, now))) / 1024 <= lim.maxLogSizeKB.value
  {
    var s := ScanRows(rows, lim, now);
    if s.Boundary? {
      ScanIsLastStop(rows, |rows|, lim, now, s.index);
      if s.index + 1 < |rows| {
        assert !Stops(rows, s.index + 1, lim, now);
      }
    } else {
      ScanNoBoundary(rows, |rows|, lim, now);
      if |rows| > 0 {
        assert !Stops(rows, 0, lim, now);
        assert rows[0..] == rows;
      }
    }
  }

  /** A second scan at the same clock reading over what the first one kept
      finds nothing more to truncate. */
  lemma RetentionIdempotent(rows: seq<Row>, lim: Limits, now: Time)
    requires !ScanRows(rows, lim, now).BadTimestamp?
    ensures ScanRows(Kept(rows, ScanRows(rows, lim, now)), lim, now) == NoBoundary
  {
    var s := ScanRows(rows, lim, now);
    var off := if s.Boundary? then s.index + 1 else 0;
    if s.Boundary? {
      ScanIsLastStop(rows, |rows|, lim, now, s.index);
    } else {
      ScanNoBoundary(rows, |rows|, lim, now);
    }
    var kept := Kept(rows, s);
    assert kept == rows[off..];
    forall j | 0 <= j < |kept|
      ensures !Stops(kept, j, lim, now)
    {
      assert kept[j] == rows[off + j];
      assert kept[j..] == rows[off + j..];
      assert !Stops(rows, off + j, lim, now);
    }
    ScanNoBoundary(kept, |kept|, lim, now);
  }

  /** With neither limit set, no row ends the scan. */
  lemma NoLimitsNoBoundary(rows: seq<Row>, now: Time)
    ensures ScanRows(rows, Limits(None, None), now) == NoBoundary
  {
    ScanNoBoundary(rows, |rows|, Limits(None, None), now);
  }

  /** A row whose Timestamp cell the logger itself wrote is always readable,
      so a scan can only fail on a row that came from an existing file. */
  lemma WrittenRowsNeverFail(rows: seq<Row>, from: nat, lim: Limits, now: Time)
    requires from <= |rows|
    requires forall k :: from <= k < |rows| ==> |rows[k]| > 0 && rows[k][0] == Format(ParseOrZero(rows[k][0]))
    ensures ScanRows(rows, lim, now).BadTimestamp? ==> ScanRows(rows, lim, now).index < from
  {
    var s := ScanRows(rows, lim, now);
    if s.BadTimestamp? && s.index >= from {
      RoundTrip(ParseOrZero(rows[s.index][0]));
      assert false;
    }
  }

  /** The time a cell denotes, or 0 when it has none. */
  function ParseOrZero(text: string): Time {
    Parse(text).GetOr(0)
  }

  /** Times in the table never decrease from row to row (every row has one). */
  predicate Chronological(rows: seq<Row>) {
    forall a, b :: 0 <= a < b < |rows| ==>
      RowTime(rows[a]).Some? && RowTime(rows[b]).Some? && RowTime(rows[a]).value <= RowTime(rows[b]).value
  }

  /** In a chronological table, when the boundary row is stale every row the
      truncation removes is stale too: the age check evicts only old rows. */
  lemma StaleBoundaryEvictsOnlyStale(rows: seq<Row>, lim: Limits, now: Time)
    requires Chronological(rows)
    requires ScanRows(rows, lim, now).Boundary?
    requires Stale(rows[ScanRows(rows, lim, now).index], lim, now)
    ensures forall k :: 0 <= k <= ScanRows(rows, lim, now).index ==> Stale(rows[k], lim, now)
  {
  }
}
