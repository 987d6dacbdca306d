/**
 * The recency test applied to every comment (`is_recent`). Timestamps are
 * whole microseconds since the Unix epoch in UTC, the resolution of Python's
 * `datetime`/`timedelta`; parsing the tracker's date string and reading the
 * clock are left to the caller, which passes `now` in.
 */
module Recency {
  type Timestamp = int

  const MicrosPerSecond: int := 1_000_000
  /** `timedelta(weeks=2)` in microseconds. */
  const TwoWeeks: int := 14 * 24 * 60 * 60 * MicrosPerSecond

  /** A comment is recent when at most two weeks separate it from `now`. */
  predicate IsRecent(created: Timestamp, now: Timestamp) {
    now - created <= TwoWeeks
  }

  /** Recency is a lower bound on the creation time: the window is
      `[now - TwoWeeks, +infinity)`. */
  lemma RecentWindow(created: Timestamp, now: Timestamp)
    ensures IsRecent(created, now) <==> created >= now - TwoWeeks
  {
  }

  /** The boundary is inclusive: exactly two weeks old is recent, one
      microsecond more is not. */
  lemma BoundaryIsInclusive(now: Timestamp)
    ensures IsRecent(now - TwoWeeks, now)
    ensures !IsRecent(now - TwoWeeks - 1, now)
  {
  }

  /** A timestamp later than `now` (clock skew) still counts as recent. */
  lemma FutureIsRecent(created: Timestamp, now: Timestamp)
    requires created >= now
    ensures IsRecent(created, now)
  {
  }

  /** A later comment is recent whenever an earlier one is. */
  lemma RecencyIsMonotone(earlier: Timestamp, later: Timestamp, now: Timestamp)
    requires earlier <= later && IsRecent(earlier, now)
    ensures IsRecent(later, now)
  {
  }
}
