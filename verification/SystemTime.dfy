/** The timers of the operating system, as `system_time.c` creates, arms and deletes them. */
module SystemTime {
  datatype TimeSpec = TimeSpec(sec: int, nsec: int)

  /** What a timer is armed with: its first expiry and its period. */
  datatype Armed = Armed(value: TimeSpec, interval: TimeSpec)

  datatype Mode = Periodic | OneShot

  const DISARMED := Armed(TimeSpec(0, 0), TimeSpec(0, 0))
  const NANOSECONDS_IN_A_MILLISECOND := 1_000_000

  /** The split of a time in milliseconds. */
  function Split(timeInMilliSec: nat): TimeSpec {
    TimeSpec(timeInMilliSec / 1000, timeInMilliSec % 1000 * NANOSECONDS_IN_A_MILLISECOND)
  }

  function Arming(timeInMilliSec: nat, mode: Mode): Armed {
    Armed(Split(timeInMilliSec), if mode.Periodic? then Split(timeInMilliSec) else TimeSpec(0, 0))
  }

  /** The split loses nothing, and the nanoseconds are less than a second. */
  lemma SplitIsExact(timeInMilliSec: nat)
    ensures (var t := Split(timeInMilliSec);
             && t.sec * 1_000_000_000 + t.nsec == timeInMilliSec * 1_000_000
             && 0 <= t.nsec < 1_000_000_000)
  {
    assert timeInMilliSec == timeInMilliSec / 1000 * 1000 + timeInMilliSec % 1000;
  }

  /** Whole seconds are armed as whole seconds. */
  lemma SecondsSplit(seconds: nat)
    ensures Split(seconds * 1000) == TimeSpec(seconds, 0)
  {
  }

  /** The live timers, and an identifier that was never given out. */
  datatype Table = Table(live: map<nat, Armed>, nextId: nat) {
    predicate Valid() {
      forall id | id in live :: id < nextId
    }
  }

  /** What adding a timer does to the table. A timer that is created and then cannot be armed stays alive. */
  function Added(t: Table, timeInMilliSec: nat, mode: Mode, created: bool, set': bool): Table {
    if !created then t
    else Table(t.live[t.nextId := if set' then Arming(timeInMilliSec, mode) else DISARMED], t.nextId + 1)
  }

  class Timers {
    var live: map<nat, Armed>
    var nextId: nat

    ghost predicate Valid()
      reads this
    {
      Contents().Valid()
    }

    ghost function Contents(): Table
      reads this
    {
      Table(live, nextId)
    }

    constructor ()
      ensures Valid() && live == map[]
    {
      live, nextId := map[], 0;
    }

    /** `system_timer_set`; `set'` is whether the system call succeeds. */
    method Set(timerId: nat, timeInMilliSec: nat, mode: Mode, set': bool) returns (success: bool)
      requires Valid() && timerId in live
      modifies this
      ensures Valid() && nextId == old(nextId) && success == set'
      ensures live == if set' then old(live)[timerId := Arming(timeInMilliSec, mode)] else old(live)
    {
      var sec := timeInMilliSec / 1000;
      var nsec := timeInMilliSec % 1000 * NANOSECONDS_IN_A_MILLISECOND;
      var value, interval := TimeSpec(sec, nsec), TimeSpec(0, 0);
      if mode == Periodic {
        interval := TimeSpec(sec, nsec);
      }
      if set' {
        live := live[timerId := Armed(value, interval)];
      }
      success := set';
    }

    /** `system_timer_add`; `timerId` is written only if the timer is created. */
    method Add(timerId: nat, timeInMilliSec: nat, mode: Mode, created: bool, set': bool)
      returns (success: bool, timerId': nat)
      requires Valid()
      modifies this
      ensures Valid() && Contents() == Added(old(Contents()), timeInMilliSec, mode, created, set')
      ensures success == (created && set')
      ensures timerId' == if created then old(nextId) else timerId
    {
      timerId' := timerId;
      success := false;
      if created {
        timerId' := nextId;
        live, nextId := live[nextId := DISARMED], nextId + 1;
        success := Set(timerId', timeInMilliSec, mode, set');
      }
    }

    /** `system_timer_delete`. */
    method Delete(timerId: nat, deleted: bool) returns (success: bool)
      requires Valid()
      modifies this
      ensures Valid() && nextId == old(nextId) && success == deleted
      ensures live == if deleted then old(live) - {timerId} else old(live)
    {
      if deleted {
        live := live - {timerId};
      }
      success := deleted;
    }
  }
}
