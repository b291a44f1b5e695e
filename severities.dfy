/** The `Logger.Severity` enum. C# compares enum values by their underlying
    integer, which is their declaration order: Info = 0, Warning = 1,
    Critical = 2. */
module Severities {

  datatype Severity = Info | Warning | Critical

  /** The underlying integer of the enum member. */
  function Ordinal(s: Severity): (n: nat)
    ensures n < 3
  {
    match s
    case Info => 0
    case Warning => 1
    case Critical => 2
  }

  /** `s >= threshold`, the comparison every severity gate uses. */
  predicate AtLeast(s: Severity, threshold: Severity) {
    Ordinal(s) >= Ordinal(threshold)
  }

  /** `Severity.ToString()`: the member's name. */
  function Name(s: Severity): string {
    match s
    case Info => "Info"
    case Warning => "Warning"
    case Critical => "Critical"
  }

  /** There are exactly three severities, with three distinct ordinals. */
  lemma ExactlyThree(s: Severity)
    ensures s == Info || s == Warning || s == Critical
    ensures Ordinal(s) == 0 <==> s == Info
    ensures Ordinal(s) == 1 <==> s == Warning
    ensures Ordinal(s) == 2 <==> s == Critical
  {
  }

  /** Declaration order is a strict chain Info < Warning < Critical, and
      `AtLeast` is a total order on it. */
  lemma DeclarationOrder(a: Severity, b: Severity, c: Severity)
    ensures !AtLeast(Info, Warning) && !AtLeast(Warning, Critical)
    ensures AtLeast(a, a)
    ensures AtLeast(a, b) || AtLeast(b, a)
    ensures AtLeast(a, b) && AtLeast(b, a) ==> a == b
    ensures AtLeast(a, b) && AtLeast(b, c) ==> AtLeast(a, c)
  {
  }

  /** With threshold Info every severity passes; with threshold Critical only
      Critical does. */
  lemma ExtremeThresholds(s: Severity)
    ensures AtLeast(s, Info)
    ensures AtLeast(s, Critical) <==> s == Critical
  {
  }

  /** The names written into the Severity column tell the severities apart. */
  lemma NameInjective(a: Severity, b: Severity)
    ensures Name(a) == Name(b) ==> a == b
  {
  }
}
