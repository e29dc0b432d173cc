/** The throttle in front of the exchange-rate updater process: at most
    one spawn attempt per five minutes. */
module Throttle {
  import opened Wrappers

  /** Five minutes, in seconds. */
  const Interval: real := 300.0

  /** Whether a call at time now, with the last check at last, gets past
      the throttle. */
  predicate Due(last: real, now: real)
  {
    !(now - last < Interval)
  }

  /** The last check time after one call: moved to now by an attempt. */
  function After(last: real, now: real): (r: real)
    ensures Due(last, now) ==> r == now && r >= last + Interval
    ensures !Due(last, now) ==> r == last
  {
    if Due(last, now) then now else last
  }

  /** The last check time after calls at the given times, in order. */
  function LastAfter(last: real, times: seq<real>): real
  {
    if times == [] then last
    else After(LastAfter(last, times[..|times| - 1]), times[|times| - 1])
  }

  /** Whether the j-th of the calls makes a spawn attempt. */
  predicate AttemptAt(last: real, times: seq<real>, j: nat)
    requires j < |times|
  {
    Due(LastAfter(last, times[..j]), times[j])
  }

  /** After an attempt, the last check time never falls below it: each
      later move goes forward by at least the interval. */
  lemma {:induction false} CheckNotBefore(last: real, times: seq<real>, j: nat, n: nat)
    requires j < n <= |times|
    requires AttemptAt(last, times, j)
    ensures LastAfter(last, times[..n]) >= times[j]
    decreases n
  {
    assert times[..n][..n - 1] == times[..n - 1];
    if n == j + 1 {
      assert LastAfter(last, times[..n]) == After(LastAfter(last, times[..j]), times[j]);
    } else {
      CheckNotBefore(last, times, j, n - 1);
    }
  }

  /** Any two spawn attempts are at least five minutes apart, whatever the
      clock does in between. */
  lemma AttemptsSpaced(last: real, times: seq<real>, j: nat, k: nat)
    requires j < k < |times|
    requires AttemptAt(last, times, j) && AttemptAt(last, times, k)
    ensures times[k] - times[j] >= Interval
  {
    CheckNotBefore(last, times, j, k);
  }

  /** From the initial check time 0, two calls a second apart and a third
      six minutes after the second: the first attempts, the second is
      throttled, the third attempts again. */
  lemma QuickCallsThenGap(t: real)
    requires t >= Interval
    ensures AttemptAt(0.0, [t, t + 1.0, t + 361.0], 0)
    ensures !AttemptAt(0.0, [t, t + 1.0, t + 361.0], 1)
    ensures AttemptAt(0.0, [t, t + 1.0, t + 361.0], 2)
  {
    var times := [t, t + 1.0, t + 361.0];
    assert times[..0] == [];
    assert times[..1] == [t];
    assert times[..2] == [t, t + 1.0];
    assert [t, t + 1.0][..1] == [t];
  }

  /** _last_exchangerate_update_check, and spawn_exchangerates_updater. */
  class UpdaterThrottle {
    var lastCheck: real

    constructor ()
      ensures lastCheck == 0.0
    {
      lastCheck := 0.0;
    }

    /** A call within the interval returns 0 untouched. Otherwise the
        check time moves to now whatever happens, and the result is the
        spawned pid, or None when spawning failed (the error is logged). */
    method SpawnUpdater(now: real, spawn: Outcome<int>) returns (attempted: bool, pid: Option<int>)
      modifies this
      ensures attempted == Due(old(lastCheck), now)
      ensures lastCheck == After(old(lastCheck), now)
      ensures pid == if !attempted then Some(0) else if spawn.Returned? then Some(spawn.value) else None
    {
      if now - lastCheck < Interval {
        return false, Some(0);
      }
      attempted := true;
      pid := if spawn.Returned? then Some(spawn.value) else None;
      lastCheck := now;
    }
  }
}
