/**
 * com.exasol.bucketfs.monitor.TimestampState: a monitor state that accepts every later
 * state. Instants are integer nanoseconds since the epoch.
 */
module TimestampState {

  const NANOS_PER_MICRO := 1000

  /** A TimestampState holds the earliest instant it accepts. */
  datatype TimestampState = TimestampState(time: int) {

    /** getTime() */
    function GetTime(): int { time }

    /** accepts(other): another timestamp is accepted iff it is not before this one. */
    function Accepts(other: State): (ok: bool)
      ensures ok <==> other.Timestamp? && other.ts.GetTime() >= GetTime()
    {
      match other
      case Timestamp(ts) => !(ts.time < time)
      case OtherState(_) => false
    }
  }

  /**
   * BucketFsMonitor.State: a timestamp, or a state of some other implementation, told
   * apart by its representation.
   */
  datatype State = Timestamp(ts: TimestampState) | OtherState(representation: string)

  /**
   * lowResolution(time): Instant.truncatedTo(MICROS). An Instant keeps a non-negative
   * nanosecond-of-second, so truncation rounds down, also before the epoch.
   */
  function LowResolution(time: int): (s: TimestampState)
    ensures s.GetTime() % NANOS_PER_MICRO == 0
    ensures s.GetTime() <= time < s.GetTime() + NANOS_PER_MICRO
  {
    TimestampState(time - time % NANOS_PER_MICRO)
  }

  /** Truncation picks the one whole microsecond at or below the instant. */
  lemma LowResolutionUnique(time: int, t: int)
    requires t % NANOS_PER_MICRO == 0 && t <= time < t + NANOS_PER_MICRO
    ensures LowResolution(time).GetTime() == t
  {
    var u := LowResolution(time).GetTime();
    assert (t - u) % NANOS_PER_MICRO == 0 && -NANOS_PER_MICRO < t - u < NANOS_PER_MICRO;
  }

  /** Truncating twice is truncating once. */
  lemma LowResolutionIdempotent(time: int)
    ensures LowResolution(LowResolution(time).GetTime()) == LowResolution(time)
  {
  }

  /** Truncation keeps the order of instants. */
  lemma LowResolutionMonotone(t1: int, t2: int)
    requires t1 <= t2
    ensures LowResolution(t1).GetTime() <= LowResolution(t2).GetTime()
  {
  }

  /** Every state accepts itself. */
  lemma AcceptsReflexive(s: TimestampState)
    ensures s.Accepts(Timestamp(s))
  {
  }

  /** Acceptance is transitive. */
  lemma AcceptsTransitive(a: TimestampState, b: TimestampState, c: TimestampState)
    requires a.Accepts(Timestamp(b)) && b.Accepts(Timestamp(c))
    ensures a.Accepts(Timestamp(c))
  {
  }

  /** Of two timestamps at least one accepts the other; both do only when they are equal. */
  lemma AcceptsTotal(a: TimestampState, b: TimestampState)
    ensures a.Accepts(Timestamp(b)) || b.Accepts(Timestamp(a))
    ensures a.Accepts(Timestamp(b)) && b.Accepts(Timestamp(a)) <==> a == b
  {
  }

  /** A state taken before an operation accepts the low-resolution state of every later instant. */
  lemma LowResolutionAcceptsLater(before: int, later: int)
    requires before <= later
    ensures LowResolution(before).Accepts(Timestamp(LowResolution(later)))
  {
    LowResolutionMonotone(before, later);
  }

  /**
   * The unit test's instants: an instant on a whole microsecond, plus 200 ns, truncates
   * back to it; it accepts itself and the state one microsecond later, but not the state
   * one microsecond earlier.
   */
  lemma UnitTestInstants(instant: int)
    requires instant % NANOS_PER_MICRO == 0
    ensures LowResolution(instant + 200).GetTime() == instant
    ensures var testee := LowResolution(instant + 200);
      testee.Accepts(Timestamp(testee))
      && !testee.Accepts(Timestamp(LowResolution(instant - 1000)))
      && testee.Accepts(Timestamp(LowResolution(instant + 1000)))
  {
    LowResolutionUnique(instant + 200, instant);
    LowResolutionUnique(instant - 1000, instant - 1000);
    LowResolutionUnique(instant + 1000, instant + 1000);
  }
}
