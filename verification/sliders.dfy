/** How a slider takes up work: which range of positions it acquires, and what it checks before it
    touches any of them. */
module Sliders {
  /** A range of positions to work on. */
  datatype PositionRange = PositionRange(begin: nat, end: nat)

  datatype Policy = AllAvailable | Bounded(maximum: nat)

  datatype EntryStatus = ProgressMismatch | UpstreamRegression | InvalidRange | Empty | Works

  /** At most `maximum` of the available positions. */
  function BoundedEnd(current: nat, available: nat, maximum: nat): (end: nat)
    ensures current <= available ==> current <= end <= available && end - current <= maximum
    ensures current <= available ==> end == available || end - current == maximum
  {
    if available <= current then current
    else if available - current < maximum then available
    else current + maximum
  }

  function AcquiredRange(policy: Policy, current: nat, available: nat): PositionRange {
    match policy
    case AllAvailable => PositionRange(current, available)
    case Bounded(maximum) => PositionRange(current, BoundedEnd(current, available, maximum))
  }

  /** The checks on entry: `own` is the published frontier of the slider at `current`. */
  function EntryStatusOf(own: nat, current: nat, available: nat, range: PositionRange): EntryStatus {
    if own != current then ProgressMismatch
    else if available < current then UpstreamRegression
    else if range.begin != current || range.end < range.begin || range.end > available then InvalidRange
    else if range.begin == range.end then Empty
    else Works
  }

  /** With either policy, only the two frontiers decide: a range is never invalid. */
  lemma EntryIsDecided(policy: Policy, own: nat, current: nat, available: nat)
    ensures var range := AcquiredRange(policy, current, available);
            var status := EntryStatusOf(own, current, available, range);
            && status != InvalidRange
            && (status == ProgressMismatch <==> own != current)
            && (status == UpstreamRegression <==> own == current && available < current)
            && (status == Works ==> current < range.end <= available)
  {
  }
}
