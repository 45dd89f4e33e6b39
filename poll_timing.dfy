/**
 * Clock arithmetic of the poll handlers. Clock readings are integers in
 * milliseconds; durations (`timer`) are in seconds.
 */
module PollTiming {

  /**
   * Whole seconds since the poll started: `Math.floor((now - startedAt) / 1000)`.
   * Dafny's `/` with a positive divisor rounds down, as `Math.floor` does,
   * also for a negative difference.
   */
  function ElapsedSeconds(startedAt: int, now: int): (e: int)
    ensures e * 1000 <= now - startedAt < e * 1000 + 1000
  {
    (now - startedAt) / 1000
  }

  /** `timer - floor(elapsed)` before any clamping (what join_room compares with 0). */
  function RawRemaining(timer: int, startedAt: int, now: int): int {
    timer - ElapsedSeconds(startedAt, now)
  }

  /**
   * The raw remaining time is positive exactly while fewer than `timer`
   * seconds' worth of milliseconds have passed, and never exceeds the timer
   * once the poll has started.
   */
  lemma RawRemainingPositive(timer: int, startedAt: int, now: int)
    ensures RawRemaining(timer, startedAt, now) > 0 <==> now - startedAt < timer * 1000
    ensures startedAt <= now ==> RawRemaining(timer, startedAt, now) <= timer
  {
    var e := ElapsedSeconds(startedAt, now);
    if e < timer {
      assert e * 1000 + 1000 <= timer * 1000;
    } else {
      assert e * 1000 >= timer * 1000;
    }
    if startedAt <= now {
      assert e >= 0;
    }
  }

  /** `remainingTime` of sync_state: the raw remaining time clamped at 0, i.e. its maximum with 0. */
  function SyncRemaining(timer: int, startedAt: int, now: int): (r: nat)
    ensures r >= RawRemaining(timer, startedAt, now)
    ensures r == 0 || r == RawRemaining(timer, startedAt, now)
  {
    var remaining := RawRemaining(timer, startedAt, now);
    if remaining > 0 then remaining else 0
  }

  /** At the moment the poll starts, a non-negative timer is reported whole. */
  lemma SyncRemainingAtStart(timer: nat, startedAt: int)
    ensures SyncRemaining(timer, startedAt, startedAt) == timer
  {
    assert ElapsedSeconds(startedAt, startedAt) == 0;
  }

  /** The whole-second count never decreases as the clock advances. */
  lemma ElapsedMonotonic(startedAt: int, now: int, later: int)
    requires now <= later
    ensures ElapsedSeconds(startedAt, now) <= ElapsedSeconds(startedAt, later)
  {
    var e, e' := ElapsedSeconds(startedAt, now), ElapsedSeconds(startedAt, later);
    assert e * 1000 < e' * 1000 + 1000;
  }

  /** The reported remaining time never grows as the clock advances. */
  lemma SyncRemainingNonIncreasing(timer: int, startedAt: int, now: int, later: int)
    requires now <= later
    ensures SyncRemaining(timer, startedAt, later) <= SyncRemaining(timer, startedAt, now)
  {
    ElapsedMonotonic(startedAt, now, later);
  }

  /**
   * join_room resynchronises exactly when sync_state would report a positive
   * remaining time, and then both report the same number.
   */
  lemma JoinAgreesWithSync(timer: int, startedAt: int, now: int)
    ensures RawRemaining(timer, startedAt, now) > 0 <==> SyncRemaining(timer, startedAt, now) > 0
    ensures RawRemaining(timer, startedAt, now) > 0 ==> RawRemaining(timer, startedAt, now) == SyncRemaining(timer, startedAt, now)
  {
  }

  /** 12 seconds into a 30-second poll a late joiner is told 18 seconds remain. */
  lemma LateJoinerExample()
    ensures RawRemaining(30, 0, 12000) == 18 && SyncRemaining(30, 0, 12000) == 18
  {
  }

  /** The largest delay Node.js timers accept, 2^31 - 1 ms. */
  const MaxTimeoutDelay: int := 2147483647

  /**
   * The delay `setTimeout(cb, timer * 1000)` waits for: Node.js replaces a
   * delay below 1 ms or above 2^31 - 1 ms by 1 ms.
   */
  function TimeoutDelay(timer: int): (d: int)
    ensures 1 <= d <= MaxTimeoutDelay
  {
    if 1 <= timer * 1000 <= MaxTimeoutDelay then timer * 1000 else 1
  }

  /** The longest poll, in whole seconds, whose timer waits its full length: 2147483 s, about 24.8 days. */
  const MaxTimerSeconds: int := MaxTimeoutDelay / 1000

  /**
   * In seconds: a timer of 1 to 2147483 s waits exactly that long; a timer
   * of 0 s or less, or longer than 2147483 s, ends the poll after 1 ms.
   */
  lemma TimeoutDelayInSeconds(timer: int)
    ensures 1 <= timer <= MaxTimerSeconds ==> TimeoutDelay(timer) == timer * 1000
    ensures timer <= 0 || timer > MaxTimerSeconds ==> TimeoutDelay(timer) == 1
  {
    assert MaxTimerSeconds == 2147483;
    if timer > MaxTimerSeconds {
      assert timer * 1000 >= 2147484000;
    }
  }
}
