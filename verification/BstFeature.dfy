/**
 The timer of the asynchronous reports, driven by configuration messages: when it runs, how many timers
 are alive, and with which period.
 */
module BstFeature {
  import opened Wrappers
  import opened SystemTime

  const MAX_INTERVAL := 600

  /** A collection interval in seconds, as the message parser admits it. */
  type Interval = s: nat | s <= MAX_INTERVAL

  /** The parser's check of an interval. */
  function Admitted(seconds: int): Option<Interval> {
    if 0 <= seconds <= MAX_INTERVAL then Some(seconds) else None
  }

  /** Intervals up to ten minutes are admitted, and no others. */
  lemma AdmittedIff(seconds: int)
    ensures Admitted(seconds).Some? <==> 0 <= seconds <= 600
    ensures Admitted(seconds).Some? ==> Admitted(seconds).value == seconds
  {
  }

  const TIME_CONVERSION_FACTOR := 1000

  /** The two parameters of a configuration message that touch the timer; one that is absent has its mask bit clear. */
  datatype Message = Message(collectionInterval: Option<Interval>, sendAsyncReports: Option<bool>)

  /** What the system calls answer, if they are made. */
  datatype Calls = Calls(deleted: bool, created: bool, set': bool)

  datatype Feature = Feature(
    collectionInterval: Interval,
    sendAsyncReports: bool,
    inUse: bool,
    timer: nat,
    table: Table)

  /** `bst_periodic_collection_timer_delete` on values. */
  function TimerDeleted(f: Feature, calls: Calls): Feature {
    if f.inUse && calls.deleted then f.(inUse := false, table := f.table.(live := f.table.live - {f.timer})) else f
  }

  /** `bst_periodic_collection_timer_add` on values. */
  function TimerAdded(f: Feature, calls: Calls): Feature {
    var g := TimerDeleted(f, calls);
    g.(inUse := g.inUse || (calls.created && calls.set'),
       timer := if calls.created then g.table.nextId else g.timer,
       table := Added(g.table, g.collectionInterval * TIME_CONVERSION_FACTOR, Periodic, calls.created, calls.set'))
  }

  /** The message changes the interval. */
  predicate Changes(f: Feature, m: Message) {
    m.collectionInterval.Some? && m.collectionInterval.value != f.collectionInterval
  }

  /** The message has the timer added anew. */
  predicate Adds(f: Feature, m: Message) {
    m.sendAsyncReports == Some(true) && (!f.sendAsyncReports || Changes(f, m))
  }

  function Configured(f: Feature, m: Message): Feature {
    f.(collectionInterval := if m.collectionInterval.Some? then m.collectionInterval.value else f.collectionInterval,
       sendAsyncReports := if m.sendAsyncReports.Some? then m.sendAsyncReports.value else f.sendAsyncReports)
  }

  function Next(f: Feature, m: Message, calls: Calls): Feature {
    var g := Configured(f, m);
    if Adds(f, m) then TimerAdded(g, calls)
    else if m.sendAsyncReports == Some(false) then TimerDeleted(g, calls)
    else g
  }

  /** Whatever the system calls answer, interval and flag are those of the message where it carries them. */
  lemma MessageIsStored(f: Feature, m: Message, calls: Calls)
    ensures (var g := Next(f, m, calls);
             && (m.collectionInterval.Some? ==> g.collectionInterval == m.collectionInterval.value)
             && (m.collectionInterval.None? ==> g.collectionInterval == f.collectionInterval)
             && (m.sendAsyncReports.Some? ==> g.sendAsyncReports == m.sendAsyncReports.value)
             && (m.sendAsyncReports.None? ==> g.sendAsyncReports == f.sendAsyncReports))
  {
  }

  /**
   The timer is touched exactly when it has to be: a message that changes nothing, or one without the asynchronous
   bit, makes no system call, one that asks for no reports only deletes a timer in use, and any other deletes it and
   creates one.
   */
  lemma TimerIsTouchedIff(f: Feature, m: Message, calls: Calls)
    ensures (var g := Next(f, m, calls);
             var changes := m.collectionInterval.Some? && m.collectionInterval.value != f.collectionInterval;
             if m.sendAsyncReports == Some(true) && (changes || !f.sendAsyncReports) then
               g.table.nextId == f.table.nextId + if calls.created then 1 else 0
             else
               && g.timer == f.timer && g.table.nextId == f.table.nextId
               && g.table.live == if m.sendAsyncReports == Some(false) && f.inUse && calls.deleted
                                  then f.table.live - {f.timer} else f.table.live)
  {
  }

  class FeatureUnit {
    var collectionInterval: Interval
    var sendAsyncReports: bool
    var inUse: bool
    var timer: nat
    const timers: Timers

    ghost predicate Valid()
      reads this, timers
    {
      timers.Valid()
    }

    ghost function State(): Feature
      reads this, timers
    {
      Feature(collectionInterval, sendAsyncReports, inUse, timer, timers.Contents())
    }

    constructor (interval: Interval)
      ensures Valid() && fresh(timers) && State() == Start(interval, timers.nextId)
    {
      collectionInterval, sendAsyncReports, inUse, timer := interval, false, false, 0;
      timers := new Timers();
    }

    method TimerDelete(calls: Calls)
      requires Valid()
      modifies this`inUse, timers
      ensures Valid() && State() == TimerDeleted(old(State()), calls)
    {
      if inUse {
        var success := timers.Delete(timer, calls.deleted);
        if success {
          inUse := false;
        }
      }
    }

    method TimerAdd(calls: Calls)
      requires Valid()
      modifies this`inUse, this`timer, timers
      ensures Valid() && State() == TimerAdded(old(State()), calls)
    {
      if inUse {
        TimerDelete(calls);
      }
      var success;
      success, timer :=
        timers.Add(timer, collectionInterval * TIME_CONVERSION_FACTOR, Periodic, calls.created, calls.set');
      if success {
        inUse := true;
      }
    }

    /** The part of `bst_config_feature_set` that deals with the interval and the asynchronous reports. */
    method ConfigFeatureSet(m: Message, calls: Calls)
      requires Valid()
      modifies this, timers
      ensures Valid() && State() == Next(old(State()), m, calls)
    {
      var timerUpdateReqd := false;
      if m.collectionInterval.Some? && collectionInterval != m.collectionInterval.value {
        collectionInterval := m.collectionInterval.value;
        timerUpdateReqd := true;
      }
      if m.sendAsyncReports.Some? {
        if m.sendAsyncReports.value {
          if !sendAsyncReports {
            sendAsyncReports := true;
            timerUpdateReqd := true;
          }
          if timerUpdateReqd {
            TimerAdd(calls);
          }
        } else {
          sendAsyncReports := false;
          TimerDelete(calls);
        }
      }
    }
  }

  // ---------------------------------------------------------------- one live timer, exactly when reports are sent

  /** The timer is in use exactly when reports are to be sent, and is then the only live one. */
  predicate Consistent(f: Feature) {
    && f.table.Valid()
    && (f.inUse <==> f.sendAsyncReports)
    && f.table.live.Keys == if f.inUse then {f.timer} else {}
  }

  /** The calls that the message makes go well, or fail in the one way that leaves the old timer in place. */
  predicate CallsGoWell(f: Feature, m: Message, calls: Calls) {
    if Adds(f, m) then
      || (calls.created && calls.set' && (f.inUse ==> calls.deleted))
      || (f.inUse && !calls.deleted && !calls.created)
    else m.sendAsyncReports == Some(false) && f.inUse ==> calls.deleted
  }

  lemma ConsistentIffCallsGoWell(f: Feature, m: Message, calls: Calls)
    requires Consistent(f)
    ensures Consistent(Next(f, m, calls)) <==> CallsGoWell(f, m, calls)
  {
    var g := Next(f, m, calls);
    assert f.inUse ==> f.table.live.Keys - {f.timer} == {};
    if Adds(f, m) && calls.created {
      assert g.timer == f.table.nextId && g.timer in g.table.live;
      if f.inUse && !calls.deleted {
        assert f.timer in g.table.live && f.timer != g.timer;
      }
    }
  }

  const ALL_WELL := Calls(true, true, true)

  /** The armed period is the configured interval, in whole seconds. */
  predicate PeriodMatches(f: Feature) {
    f.inUse && f.timer in f.table.live ==>
      var t := TimeSpec(f.collectionInterval, 0);
      f.table.live[f.timer] == Armed(t, t)
  }

  /** The timer, if there is one, is armed with `interval` whole seconds. */
  predicate ArmedWith(f: Feature, interval: Interval) {
    f.inUse && f.timer in f.table.live ==>
      var t := TimeSpec(interval, 0);
      f.table.live[f.timer] == Armed(t, t)
  }

  /**
   With successful calls, the period is right after a message exactly if the message turns reports off, arms the
   timer anew, or leaves one that is armed with the interval then configured.
   */
  lemma PeriodAfterMessage(f: Feature, m: Message)
    requires Consistent(f)
    ensures PeriodMatches(Next(f, m, ALL_WELL))
       <==> m.sendAsyncReports == Some(false) || Adds(f, m) || ArmedWith(f, Configured(f, m).collectionInterval)
  {
    SecondsSplit(Configured(f, m).collectionInterval);
    ConsistentIffCallsGoWell(f, m, ALL_WELL);
    assert f.inUse ==> f.timer in f.table.live.Keys;
  }

  /** From a right period, the exact condition under which one message leaves it right. */
  predicate CarriesBit(f: Feature, m: Message) {
    Changes(f, m) && f.sendAsyncReports ==> m.sendAsyncReports.Some?
  }

  lemma PeriodMatchesIff(f: Feature, m: Message)
    requires Consistent(f) && PeriodMatches(f)
    ensures PeriodMatches(Next(f, m, ALL_WELL)) <==> CarriesBit(f, m)
  {
    PeriodAfterMessage(f, m);
    assert f.inUse ==> f.timer in f.table.live.Keys;
    hide Next;
  }

  function Run(f: Feature, ms: seq<Message>): Feature {
    if ms == [] then f else Next(Run(f, ms[..|ms| - 1]), ms[|ms| - 1], ALL_WELL)
  }

  /** Over every run with successful calls there is one timer when reports are sent, and none otherwise. */
  lemma {:induction false} RunIsConsistent(f: Feature, ms: seq<Message>)
    requires Consistent(f)
    ensures Consistent(Run(f, ms))
  {
    hide Next, Consistent;
    if ms != [] {
      RunIsConsistent(f, ms[..|ms| - 1]);
      ConsistentIffCallsGoWell(Run(f, ms[..|ms| - 1]), ms[|ms| - 1], ALL_WELL);
    }
  }

  lemma RunNext(f: Feature, ms: seq<Message>, k: nat)
    requires k < |ms|
    ensures Run(f, ms[..k + 1]) == Next(Run(f, ms[..k]), ms[k], ALL_WELL)
  {
    hide Next;
    assert ms[..k + 1][..k] == ms[..k];
  }

  /** Every message that changes the interval of a running timer carries the asynchronous bit. */
  predicate AllCarryBit(f: Feature, ms: seq<Message>) {
    forall k | 0 <= k < |ms| :: CarriesBit(Run(f, ms[..k]), ms[k])
  }

  lemma {:induction false} RunMatches(f: Feature, ms: seq<Message>)
    requires Consistent(f) && PeriodMatches(f) && AllCarryBit(f, ms)
    ensures PeriodMatches(Run(f, ms))
  {
    hide Next, Consistent, PeriodMatches, CarriesBit;
    if ms != [] {
      var n := |ms| - 1;
      forall k | 0 <= k < n ensures CarriesBit(Run(f, ms[..n][..k]), ms[..n][k]) {
        assert ms[..n][..k] == ms[..k];
      }
      RunMatches(f, ms[..n]);
      RunIsConsistent(f, ms[..n]);
      PeriodMatchesIff(Run(f, ms[..n]), ms[n]);
    }
  }

  /** The period is right all along a run if and only if every message that has to carries the bit. */
  lemma RunMatchesIff(f: Feature, ms: seq<Message>)
    requires Consistent(f) && PeriodMatches(f)
    ensures (forall k | 0 <= k <= |ms| :: PeriodMatches(Run(f, ms[..k]))) <==> AllCarryBit(f, ms)
  {
    hide Next, Consistent, PeriodMatches, CarriesBit, Run;
    if AllCarryBit(f, ms) {
      forall k | 0 <= k <= |ms| ensures PeriodMatches(Run(f, ms[..k])) {
        forall j | 0 <= j < k ensures CarriesBit(Run(f, ms[..k][..j]), ms[..k][j]) {
          assert ms[..k][..j] == ms[..j];
        }
        RunMatches(f, ms[..k]);
      }
    }
    if forall k | 0 <= k <= |ms| :: PeriodMatches(Run(f, ms[..k])) {
      forall k | 0 <= k < |ms| ensures CarriesBit(Run(f, ms[..k]), ms[k]) {
        RunIsConsistent(f, ms[..k]);
        RunNext(f, ms, k);
        PeriodMatchesIff(Run(f, ms[..k]), ms[k]);
        assert PeriodMatches(Run(f, ms[..k + 1]));
      }
    }
  }

  /** The state that the constructor makes: no reports, no timer. */
  function Start(interval: Interval, nextId: nat): Feature {
    Feature(interval, false, false, 0, Table(map[], nextId))
  }

  lemma StartMatches(interval: Interval, nextId: nat)
    ensures Consistent(Start(interval, nextId)) && PeriodMatches(Start(interval, nextId))
  {
  }

  /** From the initial state: one live timer exactly when reports are sent, its period right on the same condition. */
  lemma RunFromStart(interval: Interval, nextId: nat, ms: seq<Message>)
    ensures Consistent(Run(Start(interval, nextId), ms))
    ensures AllCarryBit(Start(interval, nextId), ms) ==> PeriodMatches(Run(Start(interval, nextId), ms))
  {
    StartMatches(interval, nextId);
    hide *;
    RunIsConsistent(Start(interval, nextId), ms);
    if AllCarryBit(Start(interval, nextId), ms) {
      RunMatches(Start(interval, nextId), ms);
    }
  }

  /** The message parser lets no message through that lacks one of the two parameters. */
  predicate Complete(m: Message) {
    m.collectionInterval.Some? && m.sendAsyncReports.Some?
  }

  /** So over every run of messages that come through the parser the period is right. */
  lemma RunOfParsedMessages(interval: Interval, nextId: nat, ms: seq<Message>)
    requires forall k | 0 <= k < |ms| :: Complete(ms[k])
    ensures Consistent(Run(Start(interval, nextId), ms)) && PeriodMatches(Run(Start(interval, nextId), ms))
    ensures ms != [] ==>
              (var f, last := Run(Start(interval, nextId), ms), ms[|ms| - 1];
               && last == Message(Some(f.collectionInterval), Some(f.sendAsyncReports))
               && f.table.live == if f.sendAsyncReports then map[f.timer := EverySeconds(f.collectionInterval)]
                                  else map[])
  {
    RunFromStart(interval, nextId, ms);
    if ms != [] {
      MessageIsStored(Run(Start(interval, nextId), ms[..|ms| - 1]), ms[|ms| - 1], ALL_WELL);
      LiveTimers(Run(Start(interval, nextId), ms));
    }
    hide Start, Consistent, PeriodMatches, Next;
  }

  /** A timer that expires every `seconds` seconds. */
  function EverySeconds(seconds: nat): Armed {
    Armed(TimeSpec(seconds, 0), TimeSpec(seconds, 0))
  }

  lemma LiveTimers(f: Feature)
    requires Consistent(f) && PeriodMatches(f)
    ensures f.table.live == if f.sendAsyncReports then map[f.timer := EverySeconds(f.collectionInterval)] else map[]
  {
    assert f.inUse ==> f.timer in f.table.live.Keys;
    forall id | id in f.table.live ensures f.inUse && id == f.timer {
      assert id in f.table.live.Keys;
    }
  }

  /** Interval 0 is admitted. The timer is then alive and disarmed: reports are on, and none is ever sent. */
  lemma ZeroIntervalNeverFires(f: Feature)
    requires Consistent(f) && PeriodMatches(f) && f.sendAsyncReports
    ensures f.timer in f.table.live && (f.table.live[f.timer] == DISARMED <==> f.collectionInterval == 0)
  {
    assert f.timer in f.table.live.Keys;
  }

  /**
   `bst_config_feature_set` itself does not need both parameters, and a caller that bypassed the parser could leave
   one out. Then a changed interval without the asynchronous bit is stored but not armed, and asking again for the
   same interval with the bit set does not arm it either, however often.
   */
  lemma {:induction false} StalePeriodStays(f: Feature, interval: Interval, n: nat)
    requires Consistent(f) && PeriodMatches(f) && f.sendAsyncReports && interval != f.collectionInterval
    ensures (var changed := Next(f, Message(Some(interval), None), ALL_WELL);
             var g := Run(changed, Repeated(Message(Some(interval), Some(true)), n));
             && !PeriodMatches(g)
             && g == f.(collectionInterval := interval))
  {
    assert f.timer in f.table.live.Keys;
    hide Repeated;
    var again := Message(Some(interval), Some(true));
    if n == 0 {
      NoneRepeated(again);
    } else {
      RepeatedInit(again, n);
      StalePeriodStays(f, interval, n - 1);
    }
  }
}
