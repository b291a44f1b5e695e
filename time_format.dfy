/** The clock and the textual timestamp of the Timestamp column.

    The logger writes `time.ToString(TimeFormat)` into column 0 and reads it
    back with `DateTime.ParseExact(cell, TimeFormat, ...)` during the
    retention scan. `TimeFormat` is not part of this model, so the clock is
    a count of whole seconds and the text is its decimal numeral. What the
    retention scan relies on is kept: parsing what was formatted gives the
    same time back, and text that is not a timestamp is rejected. */
module TimeFormat {
  import opened Wrappers

  /** A reading of the clock, in whole seconds. */
  type Time = nat

  predicate IsDigit(c: char) {
    '0' <= c <= '9'
  }

  function DigitChar(d: nat): (c: char)
    requires d < 10
    ensures IsDigit(c)
  {
    ('0' as int + d) as char
  }

  function DigitValue(c: char): (d: nat)
    requires IsDigit(c)
    ensures d < 10
  {
    c as int - '0' as int
  }

  /** The text written into the Timestamp column for time `t`. */
  function Format(t: Time): (s: string)
    ensures |s| > 0
    ensures forall i :: 0 <= i < |s| ==> IsDigit(s[i])
    decreases t
  {
    if t < 10 then [DigitChar(t)] else Format(t / 10) + [DigitChar(t % 10)]
  }

  /** Reads a numeral that is not empty; `None` when any character is not a digit. */
  function ParseDigits(s: string): (r: Option<Time>)
    requires |s| > 0
    ensures r.Some? <==> forall i :: 0 <= i < |s| ==> IsDigit(s[i])
    decreases |s|
  {
    var last := s[|s| - 1];
    if !IsDigit(last) then None
    else if |s| == 1 then Some(DigitValue(last))
    else
      var prefix := s[..|s| - 1];
      assert forall i :: 0 <= i < |prefix| ==> prefix[i] == s[i];
      match ParseDigits(prefix)
      case None => None
      case Some(v) => Some(v * 10 + DigitValue(last))
  }

  /** The parse of a Timestamp cell: `None` models the FormatException that
      `ParseExact` throws on text that is not a timestamp. */
  function Parse(s: string): (r: Option<Time>)
    ensures r.Some? <==> |s| > 0 && forall i :: 0 <= i < |s| ==> IsDigit(s[i])
  {
    if |s| == 0 then None else ParseDigits(s)
  }

  lemma DigitRoundTrip(d: nat)
    requires d < 10
    ensures DigitValue(DigitChar(d)) == d
  {
  }

  /** Formatting and parsing are inverse: the time read back from a row the
      logger wrote is the time it wrote. */
  lemma {:induction false} RoundTrip(t: Time)
    ensures Parse(Format(t)) == Some(t)
  {
    if t < 10 {
      DigitRoundTrip(t);
    } else {
      var s := Format(t);
      RoundTrip(t / 10);
      DigitRoundTrip(t % 10);
      assert s[..|s| - 1] == Format(t / 10);
      assert s[|s| - 1] == DigitChar(t % 10);
    }
  }

  /** Two different times never share a timestamp text. */
  lemma FormatInjective(a: Time, b: Time)
    ensures Format(a) == Format(b) ==> a == b
  {
    RoundTrip(a);
    RoundTrip(b);
  }
}
