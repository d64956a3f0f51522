/** `formatTimeAgo` of main.ts: the age of a history entry in the largest unit
    whose threshold the elapsed whole seconds strictly exceed. */
module TimeAgo {
  import opened Decimal

  datatype Unit = Years | Months | Days | Hours | Minutes | Seconds

  /** Seconds per unit; a month is 30 days and a year 365 days. Each unit's
      size is also the threshold that must be strictly exceeded to use it. */
  function UnitSeconds(u: Unit): nat {
    match u
    case Years => 31536000
    case Months => 2592000
    case Days => 86400
    case Hours => 3600
    case Minutes => 60
    case Seconds => 1
  }

  /** Larger units have larger ranks. */
  function Rank(u: Unit): nat {
    match u
    case Years => 5
    case Months => 4
    case Days => 3
    case Hours => 2
    case Minutes => 1
    case Seconds => 0
  }

  function Suffix(u: Unit): string {
    match u
    case Years => "y ago"
    case Months => "mo ago"
    case Days => "d ago"
    case Hours => "h ago"
    case Minutes => "m ago"
    case Seconds => "s ago"
  }

  datatype Age = Age(count: int, unit: Unit)

  /** `Math.floor(elapsedMs / 1000)`. Dafny's division by a positive divisor
      is the floor, for a negative elapsed time (a clock set back) too. */
  function ElapsedSeconds(elapsedMs: int): (s: int)
    ensures 1000 * s <= elapsedMs < 1000 * s + 1000
  {
    elapsedMs / 1000
  }

  /** The if-chain of `formatTimeAgo`, given `Date.now() - date.getTime()`. */
  function Classify(elapsedMs: int): (a: Age)
  {
    var s := ElapsedSeconds(elapsedMs);
    if s > 31536000 then Age(s / 31536000, Years)
    else if s > 2592000 then Age(s / 2592000, Months)
    else if s > 86400 then Age(s / 86400, Days)
    else if s > 3600 then Age(s / 3600, Hours)
    else if s > 60 then Age(s / 60, Minutes)
    else Age(s, Seconds)
  }

  /** `formatTimeAgo(date)` as the text the history page shows. */
  function FormatTimeAgo(elapsedMs: int): string {
    var a := Classify(elapsedMs);
    IntToString(a.count) + Suffix(a.unit)
  }

  /** The chosen unit is the largest whose threshold is strictly exceeded
      (seconds when none is), and the count is the number of whole units in
      the elapsed seconds; outside seconds that count is at least 1. */
  lemma ClassifyPicksLargestUnit(elapsedMs: int)
    ensures var s, a := ElapsedSeconds(elapsedMs), Classify(elapsedMs);
      && (a.unit != Seconds ==> s > UnitSeconds(a.unit) && a.count >= 1)
      && (a.unit == Seconds ==> s <= UnitSeconds(Minutes))
      && (forall u :: Rank(u) > Rank(a.unit) ==> s <= UnitSeconds(u))
      && UnitSeconds(a.unit) * a.count <= s < UnitSeconds(a.unit) * (a.count + 1)
  {
    var s, a := ElapsedSeconds(elapsedMs), Classify(elapsedMs);
    if s > 60 {
      WholeUnits(s, UnitSeconds(a.unit));
    }
    forall u | Rank(u) > Rank(a.unit) ensures s <= UnitSeconds(u) {
      match u
      case Years =>
      case Months =>
      case Days =>
      case Hours =>
      case Minutes =>
      case Seconds =>
    }
  }

  /** Floor division counts whole units: at least one when the unit fits. */
  lemma WholeUnits(s: int, k: nat)
    requires 0 < k < s
    ensures k * (s / k) <= s < k * (s / k + 1) && s / k >= 1
  {
  }

  /** The number of seconds is shown only up to 60; 61 seconds is a minute. */
  lemma SecondsToMinutesBoundary()
    ensures FormatTimeAgo(60000) == "60s ago"
    ensures FormatTimeAgo(60999) == "60s ago"
    ensures FormatTimeAgo(61000) == "1m ago"
  {
    assert Classify(60000) == Age(60, Seconds);
    assert Classify(60999) == Age(60, Seconds);
    assert Classify(61000) == Age(1, Minutes);
    assert IntToString(60) == "60" by {
      assert NatToString(6) == "6";
    }
    assert IntToString(1) == "1";
  }

  /** Exactly a unit's size still shows in the next smaller unit. */
  lemma ThresholdsAreStrict()
    ensures Classify(3600000) == Age(60, Minutes)
    ensures Classify(86400000) == Age(24, Hours)
    ensures Classify(31536000000) == Age(12, Months)
  {
  }

  /** A negative elapsed time shows as negative seconds. */
  lemma NegativeElapsed()
    ensures FormatTimeAgo(-1) == "-1s ago"
  {
  }

  /** The shown text starts with the count in decimal, which reads back. */
  lemma FormatTimeAgoShowsCount(elapsedMs: int)
    ensures var a, t := Classify(elapsedMs), FormatTimeAgo(elapsedMs);
      && |t| > |IntToString(a.count)|
      && ParseInt(t[..|IntToString(a.count)|]) == a.count
      && t[|IntToString(a.count)|..] == Suffix(a.unit)
  {
    var a, t := Classify(elapsedMs), FormatTimeAgo(elapsedMs);
    var c := IntToString(a.count);
    assert t[..|c|] == c;
    IntToStringRoundTrip(a.count);
  }
}
