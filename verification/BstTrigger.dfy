/**
 The trigger rate limiter: a counter for every kind of trigger, a bound on how many reports are posted for
 each kind in a window, and the timer that ends a window by clearing the counters.
 */
module BstTrigger {
  import opened Wrappers

  // ---------------------------------------------------------------- trigger indices

  datatype Row = Row(index: nat, realm: string, counter: string)

  const ID_DEVICE := 0
  const ID_MAX := 13

  const REALM_INDEX_MAP := [
    Row(0, "device", "data"),
    Row(1, "ingress-service-pool", "um-share-buffer-count"),
    Row(2, "ingress-port-service-pool", "um-share-buffer-count"),
    Row(3, "ingress-port-priority-group", "um-share-buffer-count"),
    Row(4, "ingress-port-priority-group", "um-headroom-buffer-count"),
    Row(5, "egress-service-pool", "um-share-buffer-count"),
    Row(6, "egress-service-pool", "mc-share-buffer-count"),
    Row(7, "egress-uc-queue", "uc-buffer-count"),
    Row(8, "egress-mc-queue", "mc-buffer-count"),
    Row(9, "egress-port-service-pool", "uc-share-buffer-count"),
    Row(10, "egress-port-service-pool", "um-share-buffer-count"),
    Row(11, "egress-rqe-queue", "rqe-buffer-count"),
    Row(12, "egress-uc-queue-group", "uc-buffer-count")]

  /** The trigger kinds have the indices 0 to 12, each once. */
  lemma IndicesAreRows(k: nat)
    requires k < ID_MAX
    ensures |REALM_INDEX_MAP| == ID_MAX && REALM_INDEX_MAP[k].index == k
  {
  }

  /** Row `k` is for this realm and counter. */
  predicate RowIs(k: nat, realm: string, counter: string)
    requires k < |REALM_INDEX_MAP|
  {
    REALM_INDEX_MAP[k].realm == realm && REALM_INDEX_MAP[k].counter == counter
  }

  /** The first row at or after `k` for this realm and counter. */
  function IndexFrom(realm: string, counter: string, k: nat): (r: Option<nat>)
    requires k <= |REALM_INDEX_MAP|
    ensures r.Some? ==> r.value < ID_MAX && RowIs(r.value, realm, counter)
    ensures r.None? ==> forall i | k <= i < |REALM_INDEX_MAP| :: !RowIs(i, realm, counter)
    decreases |REALM_INDEX_MAP| - k
  {
    if k == |REALM_INDEX_MAP| then None
    else if RowIs(k, realm, counter) then Some(k)
    else IndexFrom(realm, counter, k + 1)
  }

  function IndexOf(realm: string, counter: string): Option<nat> {
    IndexFrom(realm, counter, 0)
  }

  /** `bst_trigger_index_get`. */
  method TriggerIndexGet(realm: string, counter: string) returns (found: bool, val: nat)
    ensures found <==> IndexOf(realm, counter).Some?
    ensures found ==> val == IndexOf(realm, counter).value
    ensures val < ID_MAX && (!found ==> val == 0)
  {
    val := 0;
    for i := 0 to ID_MAX
      invariant IndexOf(realm, counter) == IndexFrom(realm, counter, i)
    {
      IndicesAreRows(i);
      if realm == REALM_INDEX_MAP[i].realm && counter == REALM_INDEX_MAP[i].counter {
        val := REALM_INDEX_MAP[i].index;
        return true, val;
      }
    }
    found := false;
  }

  /** Lengths and a few characters tell the rows apart. */
  function Signature(realm: string, counter: string): (int, int, bool, bool) {
    (|realm|, |counter|, |realm| > 7 && realm[7] == 'u', |counter| > 1 && counter[1] == 'm')
  }

  lemma RowSignatures(k: nat)
    requires k < ID_MAX
    ensures Signature(REALM_INDEX_MAP[k].realm, REALM_INDEX_MAP[k].counter)
         == [(6, 4, false, false), (20, 21, false, true), (25, 21, false, true), (27, 21, false, true),
             (27, 24, false, true), (19, 21, false, true), (19, 21, false, false), (15, 15, true, false),
             (15, 15, false, false), (24, 21, false, false), (24, 21, false, true), (16, 16, false, false),
             (21, 15, true, false)][k]
  {
  }

  /** The kinds of triggers, by realm and counter. */
  predicate Kind(k: nat, realm: string, counter: string) {
    match k
    case 0 => realm == "device" && counter == "data"
    case 1 => realm == "ingress-service-pool" && counter == "um-share-buffer-count"
    case 2 => realm == "ingress-port-service-pool" && counter == "um-share-buffer-count"
    case 3 => realm == "ingress-port-priority-group" && counter == "um-share-buffer-count"
    case 4 => realm == "ingress-port-priority-group" && counter == "um-headroom-buffer-count"
    case 5 => realm == "egress-service-pool" && counter == "um-share-buffer-count"
    case 6 => realm == "egress-service-pool" && counter == "mc-share-buffer-count"
    case 7 => realm == "egress-uc-queue" && counter == "uc-buffer-count"
    case 8 => realm == "egress-mc-queue" && counter == "mc-buffer-count"
    case 9 => realm == "egress-port-service-pool" && counter == "uc-share-buffer-count"
    case 10 => realm == "egress-port-service-pool" && counter == "um-share-buffer-count"
    case 11 => realm == "egress-rqe-queue" && counter == "rqe-buffer-count"
    case 12 => realm == "egress-uc-queue-group" && counter == "uc-buffer-count"
    case _ => false
  }

  /** A trigger has index `k` if and only if it is of that kind, so every kind has a counter of its own. */
  lemma IndexIsKind(realm: string, counter: string, k: nat)
    ensures IndexOf(realm, counter) == Some(k) <==> Kind(k, realm, counter)
  {
    if k < ID_MAX {
      IndexOfRow(k);
      RowIsKind(k, realm, counter);
    }
    hide Kind, IndexFrom;
    if IndexOf(realm, counter) == Some(k) {
      assert RowIs(k, realm, counter);
    }
    if k >= ID_MAX {
      NoKind(k, realm, counter);
    }
  }

  lemma NoKind(k: nat, realm: string, counter: string)
    requires k >= 13
    ensures !Kind(k, realm, counter)
  {
  }

  lemma RowIsKind(k: nat, realm: string, counter: string)
    requires k < ID_MAX
    ensures RowIs(k, realm, counter) <==> Kind(k, realm, counter)
  {
  }

  /** Every kind of trigger has a counter of its own. */
  lemma IndexOfRow(k: nat)
    requires k < ID_MAX
    ensures IndexOf(REALM_INDEX_MAP[k].realm, REALM_INDEX_MAP[k].counter) == Some(k)
  {
    var realm, counter := REALM_INDEX_MAP[k].realm, REALM_INDEX_MAP[k].counter;
    var found := IndexOf(realm, counter);
    assert RowIs(k, realm, counter);
    RowSignatures(k);
    if found.Some? {
      RowSignatures(found.value);
    }
  }

  // ---------------------------------------------------------------- the limiter

  /** The counters, the configured bound, and whether the window timer is in use. */
  datatype Limiter = Limiter(count: seq<nat>, maxTriggers: nat, inUse: bool) {
    predicate Valid() {
      |count| == ID_MAX
    }
  }

  /** Results of calls that the limiter does not control are part of the event. */
  datatype Event =
    | Trigger(realm: string, counter: string, sent: bool, timerAdded: bool)
    | ClearCount(timerDeleted: bool)
    | SetMaxTriggers(max: nat)

  /** Unrecognised triggers are counted under index 0. */
  function IndexCounted(ev: Event): (index: nat)
    requires ev.Trigger?
    ensures index < ID_MAX
  {
    match IndexOf(ev.realm, ev.counter) case Some(i) => i case None => ID_DEVICE
  }

  predicate Recognised(ev: Event)
    requires ev.Trigger?
  {
    IndexOf(ev.realm, ev.counter).Some?
  }

  /** The bound lets the trigger through. */
  predicate Allowed(l: Limiter, ev: Event)
    requires l.Valid() && ev.Trigger?
  {
    Recognised(ev) && (l.maxTriggers == 0 || l.count[IndexCounted(ev)] < l.maxTriggers)
  }

  /** A report is posted for the trigger. */
  predicate Posts(l: Limiter, ev: Event)
    requires l.Valid()
  {
    ev.Trigger? && Allowed(l, ev) && ev.sent
  }

  function Next(l: Limiter, ev: Event): (l': Limiter)
    requires l.Valid()
    ensures l'.Valid()
  {
    match ev
    case Trigger(_, _, sent, timerAdded) =>
      var index := IndexCounted(ev);
      if Allowed(l, ev) && !sent then l
      else
        l.(count := l.count[index := l.count[index] + 1],
           inUse := l.inUse || (Allowed(l, ev) && l.count[index] == 0 && l.maxTriggers != 0 && timerAdded))
    case ClearCount(timerDeleted) =>
      l.(count := Zeros(), inUse := l.inUse && !(AllZero(l.count) && timerDeleted))
    case SetMaxTriggers(max) => l.(maxTriggers := max)
  }

  /**
   What a trigger does: it is posted if it is of a known kind, below a bound that is not 0, and can be sent; it is
   counted under its own index unless sending failed, suppressed triggers too; no other counter and not the bound
   changes; and the timer is started, if it does not run, by the first posted trigger of an index under a bound.
   */
  lemma TriggerIsCounted(l: Limiter, ev: Event)
    requires l.Valid() && ev.Trigger?
    ensures (var l', found := Next(l, ev), IndexOf(ev.realm, ev.counter);
             var k := if found.Some? then found.value else 0;
             var tried := found.Some? && (l.maxTriggers == 0 || l.count[k] < l.maxTriggers);
             && (Posts(l, ev) <==> tried && ev.sent)
             && l'.count[k] == l.count[k] + (if tried && !ev.sent then 0 else 1)
             && (forall i | 0 <= i < ID_MAX && i != k :: l'.count[i] == l.count[i])
             && l'.maxTriggers == l.maxTriggers
             && (l'.inUse <==> || l.inUse
                               || (tried && ev.sent && l.count[k] == 0 && l.maxTriggers != 0 && ev.timerAdded)))
  {
    hide IndexOf;
  }

  /** What the other events do. */
  lemma ClearForgets(l: Limiter, timerDeleted: bool, max: nat)
    requires l.Valid()
    ensures (var l' := Next(l, ClearCount(timerDeleted));
             && |l'.count| == 13 && (forall i | 0 <= i < 13 :: l'.count[i] == 0)
             && l'.maxTriggers == l.maxTriggers
             && (l'.inUse <==> l.inUse && (!timerDeleted || exists i :: 0 <= i < 13 && l.count[i] != 0)))
    ensures Next(l, SetMaxTriggers(max)) == Limiter(l.count, max, l.inUse)
  {
  }

  function Zeros(): (z: seq<nat>)
    ensures |z| == ID_MAX && AllZero(z)
  {
    seq(ID_MAX, _ => 0)
  }

  predicate AllZero(count: seq<nat>) {
    forall i | 0 <= i < |count| :: count[i] == 0
  }

  class TriggerUnit {
    var count: array<nat>
    var maxTriggers: nat
    var inUse: bool

    ghost predicate Valid()
      reads this
    {
      count.Length == ID_MAX
    }

    ghost function State(): (l: Limiter)
      requires Valid()
      reads this, count
      ensures l.Valid()
    {
      Limiter(count[..], maxTriggers, inUse)
    }

    constructor (max: nat)
      ensures Valid() && State() == Start(max)
    {
      count := new nat[ID_MAX](_ => 0);
      maxTriggers := max;
      inUse := false;
      new;
      assert count[..] == Zeros();
    }

    /** `bst_trigger_timer_add`: a timer that runs is left alone. */
    method TimerAdd(timerAdded: bool)
      requires Valid()
      modifies this`inUse
      ensures inUse == (old(inUse) || timerAdded)
    {
      if !inUse {
        if timerAdded {
          inUse := true;
        }
      }
    }

    /** `bst_trigger_timer_delete`. */
    method TimerDelete(timerDeleted: bool)
      requires Valid()
      modifies this`inUse
      ensures inUse == (old(inUse) && !timerDeleted)
    {
      if inUse {
        if timerDeleted {
          inUse := false;
        }
      }
    }

    /** `bst_process_trigger`. */
    method ProcessTrigger(realm: string, counter: string, sent: bool, timerAdded: bool) returns (posted: bool)
      requires Valid()
      modifies this`inUse, count
      ensures Valid() && State() == Next(old(State()), Trigger(realm, counter, sent, timerAdded))
      ensures posted <==> Posts(old(State()), Trigger(realm, counter, sent, timerAdded))
    {
      hide IndexOf;
      posted := false;
      var sendTrigger, index := TriggerIndexGet(realm, counter);
      var bstMaxTriggers := 0;
      if sendTrigger {
        bstMaxTriggers := maxTriggers;
        if count[index] >= bstMaxTriggers && 0 != bstMaxTriggers {
          sendTrigger := false;
        }
      }
      if sendTrigger {
        if !sent {
          return;
        }
        posted := true;
        if 0 == count[index] && 0 != bstMaxTriggers {
          TimerAdd(timerAdded);
        }
      }
      count[index] := count[index] + 1;
    }

    /** The counter and timer part of `bst_clear_trigger_count`. */
    method ClearTriggerCount(timerDeleted: bool)
      requires Valid()
      modifies this`inUse, count
      ensures Valid() && State() == Next(old(State()), ClearCount(timerDeleted))
    {
      var clearTimer := true;
      for i := 0 to ID_MAX
        invariant clearTimer
        invariant forall k | 0 <= k < i :: count[k] == 0
      {
        if 0 != count[i] {
          clearTimer := false;
          break;
        }
      }
      ghost var before := State();
      assert clearTimer <==> AllZero(before.count);
      forall i | 0 <= i < ID_MAX {
        count[i] := 0;
      }
      assert count[..] == Zeros();
      if clearTimer {
        TimerDelete(timerDeleted);
      }
    }
  }

  // ---------------------------------------------------------------- rate-limit safety

  /** The limiter together with how many reports were posted for each index since the last clear. */
  datatype Window = Window(limiter: Limiter, posted: seq<nat>) {
    predicate Valid() {
      limiter.Valid() && |posted| == ID_MAX
    }
  }

  function NextWindow(w: Window, ev: Event): (w': Window)
    requires w.Valid()
    ensures w'.Valid()
  {
    Window(
      Next(w.limiter, ev),
      if ev.ClearCount? then Zeros()
      else if Posts(w.limiter, ev) then w.posted[IndexCounted(ev) := w.posted[IndexCounted(ev)] + 1]
      else w.posted)
  }

  function RunWindow(w: Window, evs: seq<Event>): (w': Window)
    requires w.Valid()
    ensures w'.Valid()
  {
    if evs == [] then w else NextWindow(RunWindow(w, evs[..|evs| - 1]), evs[|evs| - 1])
  }

  function Min(a: nat, b: nat): nat {
    if a < b then a else b
  }

  /** No index is over the bound, and an index other than 0 is served as often as the bound allows. */
  predicate Limited(w: Window)
    requires w.Valid()
  {
    forall i | 0 <= i < ID_MAX ::
      && w.posted[i] <= Min(w.limiter.count[i], w.limiter.maxTriggers)
      && (i != ID_DEVICE ==> w.posted[i] == Min(w.limiter.count[i], w.limiter.maxTriggers))
  }

  lemma StepIsLimited(w: Window, ev: Event)
    requires w.Valid() && Limited(w) && w.limiter.maxTriggers > 0 && !ev.SetMaxTriggers?
    ensures Limited(NextWindow(w, ev))
  {
    hide IndexOf;
  }

  /** Over every run with a fixed positive bound. */
  lemma {:induction false} RunIsLimited(w: Window, evs: seq<Event>)
    requires w.Valid() && Limited(w) && w.limiter.maxTriggers > 0
    requires forall k | 0 <= k < |evs| :: !evs[k].SetMaxTriggers?
    ensures Limited(RunWindow(w, evs)) && RunWindow(w, evs).limiter.maxTriggers == w.limiter.maxTriggers
  {
    hide Limited, Next;
    if evs != [] {
      var init, last := evs[..|evs| - 1], evs[|evs| - 1];
      assert forall k | 0 <= k < |init| :: init[k] == evs[k];
      RunIsLimited(w, init);
      StepIsLimited(RunWindow(w, init), last);
      BoundIsKept(RunWindow(w, init).limiter, last);
    }
  }

  lemma BoundIsKept(l: Limiter, ev: Event)
    requires l.Valid() && !ev.SetMaxTriggers?
    ensures Next(l, ev).maxTriggers == l.maxTriggers
  {
  }

  /** The state that the constructor makes: nothing counted, no timer. */
  function Start(max: nat): (l: Limiter)
    ensures l.Valid()
  {
    Limiter(Zeros(), max, false)
  }

  lemma StartIsLimited(max: nat)
    ensures Limited(Window(Start(max), Zeros())) && Pending(Start(max))
  {
  }

  /** From the initial state. */
  lemma RunFromStartIsLimited(max: nat, evs: seq<Event>)
    requires max > 0 && forall k | 0 <= k < |evs| :: !evs[k].SetMaxTriggers?
    ensures Limited(RunWindow(Window(Start(max), Zeros()), evs))
  {
    StartIsLimited(max);
    assert Window(Start(max), Zeros()).limiter.maxTriggers == max;
    hide *;
    RunIsLimited(Window(Start(max), Zeros()), evs);
  }

  /** How many triggers of a run are recognised and reach the report queue, by index. */
  function Deliverable(evs: seq<Event>, index: nat): nat {
    if evs == [] then 0
    else
      var last := evs[|evs| - 1];
      Deliverable(evs[..|evs| - 1], index)
      + (if last.Trigger? && Recognised(last) && last.sent && IndexCounted(last) == index then 1 else 0)
  }

  /** Without a bound, every recognised trigger that can be sent is posted. */
  lemma {:induction false} UnboundedPostsAll(w: Window, evs: seq<Event>, index: nat)
    requires w.Valid() && w.limiter.maxTriggers == 0 && index < ID_MAX
    requires forall k | 0 <= k < |evs| :: evs[k].Trigger?
    ensures RunWindow(w, evs).limiter.maxTriggers == 0
    ensures RunWindow(w, evs).posted[index] == w.posted[index] + Deliverable(evs, index)
  {
    hide IndexOf;
    if evs != [] {
      var init := evs[..|evs| - 1];
      assert forall k | 0 <= k < |init| :: init[k] == evs[k];
      UnboundedPostsAll(w, init, index);
    }
  }

  // ---------------------------------------------------------------- the window timer

  /** If anything has been counted, the timer that will clear it is running. */
  predicate Pending(l: Limiter)
    requires l.Valid()
  {
    !AllZero(l.count) ==> l.inUse
  }

  /** The bound holds back the triggers of this index. */
  predicate Suppressed(l: Limiter, index: nat)
    requires l.Valid() && index < ID_MAX
  {
    l.maxTriggers != 0 && l.count[index] >= l.maxTriggers
  }

  /** With `Pending`, no index stays suppressed without a clear to come. */
  lemma SuppressedIsTimed(l: Limiter, index: nat)
    requires l.Valid() && index < ID_MAX && Pending(l) && Suppressed(l, index)
    ensures l.inUse
  {
    assert l.count[index] != 0;
  }

  /** What an event must be like for the timer to be pending afterwards. */
  predicate Timed(l: Limiter, ev: Event)
    requires l.Valid()
  {
    ev.Trigger? ==> l.inUse || (Recognised(ev) && (!ev.sent || (l.maxTriggers != 0 && ev.timerAdded)))
  }

  /** The exact condition under which one event keeps the timer pending. */
  lemma PendingIffTimed(l: Limiter, ev: Event)
    requires l.Valid() && Pending(l)
    ensures Pending(Next(l, ev)) <==> Timed(l, ev)
  {
    hide IndexOf;
    if ev.Trigger? {
      var index := IndexCounted(ev);
      assert !l.inUse ==> l.count[index] == 0;
      assert Next(l, ev).count == l.count || Next(l, ev).count[index] == l.count[index] + 1;
    }
  }

  /** In the promised setting every event is one that keeps the timer pending. */
  predicate WellBehaved(ev: Event) {
    match ev
    case Trigger(_, _, _, timerAdded) => Recognised(ev) && timerAdded
    case ClearCount(_) => true
    case SetMaxTriggers(_) => false
  }

  function RunLimiter(l: Limiter, evs: seq<Event>): (l': Limiter)
    requires l.Valid()
    ensures l'.Valid()
  {
    if evs == [] then l else Next(RunLimiter(l, evs[..|evs| - 1]), evs[|evs| - 1])
  }

  /** Every event of the run is one that keeps the timer pending. */
  predicate AllTimed(l: Limiter, evs: seq<Event>)
    requires l.Valid()
  {
    forall k | 0 <= k < |evs| :: Timed(RunLimiter(l, evs[..k]), evs[k])
  }

  lemma {:induction false} RunOfTimed(l: Limiter, evs: seq<Event>)
    requires l.Valid() && Pending(l) && AllTimed(l, evs)
    ensures Pending(RunLimiter(l, evs))
  {
    hide Next, Pending, Timed;
    if evs != [] {
      var n := |evs| - 1;
      forall k | 0 <= k < n ensures Timed(RunLimiter(l, evs[..n][..k]), evs[..n][k]) {
        assert evs[..n][..k] == evs[..k];
      }
      RunOfTimed(l, evs[..n]);
      PendingIffTimed(RunLimiter(l, evs[..n]), evs[n]);
    }
  }

  lemma RunLimiterNext(l: Limiter, evs: seq<Event>, k: nat)
    requires l.Valid() && k < |evs|
    ensures RunLimiter(l, evs[..k + 1]) == Next(RunLimiter(l, evs[..k]), evs[k])
  {
    hide Next;
    assert evs[..k + 1][..k] == evs[..k];
  }

  /** The timer is pending all along a run if and only if every event keeps it so: whatever is configured or fails. */
  lemma RunIsPendingIff(l: Limiter, evs: seq<Event>)
    requires l.Valid() && Pending(l)
    ensures (forall k | 0 <= k <= |evs| :: Pending(RunLimiter(l, evs[..k]))) <==> AllTimed(l, evs)
  {
    hide Next, Pending, Timed, RunLimiter;
    if AllTimed(l, evs) {
      forall k | 0 <= k <= |evs| ensures Pending(RunLimiter(l, evs[..k])) {
        forall j | 0 <= j < k ensures Timed(RunLimiter(l, evs[..k][..j]), evs[..k][j]) {
          assert evs[..k][..j] == evs[..j];
        }
        RunOfTimed(l, evs[..k]);
      }
    }
    if forall k | 0 <= k <= |evs| :: Pending(RunLimiter(l, evs[..k])) {
      forall k | 0 <= k < |evs| ensures Timed(RunLimiter(l, evs[..k]), evs[k]) {
        RunLimiterNext(l, evs, k);
        PendingIffTimed(RunLimiter(l, evs[..k]), evs[k]);
        assert Pending(RunLimiter(l, evs[..k + 1]));
      }
    }
  }

  /** With a fixed positive bound, recognised triggers and successful timer calls, over every run. */
  lemma {:induction false} RunIsPending(l: Limiter, evs: seq<Event>)
    requires l.Valid() && Pending(l) && l.maxTriggers > 0
    requires forall k | 0 <= k < |evs| :: WellBehaved(evs[k])
    ensures Pending(RunLimiter(l, evs)) && RunLimiter(l, evs).maxTriggers == l.maxTriggers
  {
    hide Next, Pending;
    if evs != [] {
      var init, last := evs[..|evs| - 1], evs[|evs| - 1];
      assert forall k | 0 <= k < |init| :: init[k] == evs[k];
      RunIsPending(l, init);
      PendingIffTimed(RunLimiter(l, init), last);
      BoundIsKept(RunLimiter(l, init), last);
    }
  }

  /** A clear that finds nothing counted turns the timer off; one that finds something keeps it for another window. */
  lemma ClearTurnsTimerOff(l: Limiter)
    requires l.Valid()
    ensures var l' := Next(l, ClearCount(true)); AllZero(l'.count) && (l'.inUse <==> l.inUse && !AllZero(l.count))
  {
  }

  /** The event starts the timer. */
  predicate StartsTimer(l: Limiter, ev: Event)
    requires l.Valid()
  {
    ev.Trigger? && Posts(l, ev) && l.count[IndexCounted(ev)] == 0 && l.maxTriggers != 0 && ev.timerAdded
  }

  /** The timer comes into use exactly when an event starts it. */
  lemma TimerStartsIff(l: Limiter, ev: Event)
    requires l.Valid() && !l.inUse
    ensures Next(l, ev).inUse <==> StartsTimer(l, ev)
  {
    hide IndexOf;
  }

  /** Only triggers, since clears come from a running timer, and none that starts it. */
  predicate Untimed(l: Limiter, evs: seq<Event>)
    requires l.Valid()
  {
    evs == [] ||
    (var n := |evs| - 1;
     Untimed(l, evs[..n]) && evs[n].Trigger? && !StartsTimer(RunLimiter(l, evs[..n]), evs[n]))
  }

  /** A suppressed index of a limiter without a timer stays so over every run in which no event starts the timer. */
  lemma {:induction false} StuckStaysStuck(l: Limiter, index: nat, evs: seq<Event>)
    requires l.Valid() && index < ID_MAX && !l.inUse && Suppressed(l, index) && Untimed(l, evs)
    ensures !RunLimiter(l, evs).inUse && Suppressed(RunLimiter(l, evs), index)
  {
    hide IndexOf;
    if evs != [] {
      var init, last := evs[..|evs| - 1], evs[|evs| - 1];
      StuckStaysStuck(l, index, init);
      TimerStartsIff(RunLimiter(l, init), last);
    }
  }

  /** No trigger of a suppressed index is posted. */
  lemma SuppressedPostsNothing(l: Limiter, ev: Event)
    requires l.Valid() && ev.Trigger? && Recognised(ev)
    ensures Suppressed(l, IndexCounted(ev)) <==> !Allowed(l, ev)
  {
    hide IndexOf;
  }

  /**
   Unrecognised triggers break the window: as many of them as the bound allows, before anything else, suppress the
   device trigger, and no timer is running to lift that. It lasts until a trigger of another index starts the timer.
   */
  lemma UnrecognisedTriggerSticks(max: nat, bad: Event, evs: seq<Event>)
    requires max > 0 && bad.Trigger? && !Recognised(bad)
    requires Untimed(RunLimiter(Start(max), Repeated(bad, max)), evs)
    ensures (var l := RunLimiter(RunLimiter(Start(max), Repeated(bad, max)), evs);
             && !l.inUse
             && Suppressed(l, ID_DEVICE)
             && forall ev: Event | ev.Trigger? && Recognised(ev) && IndexCounted(ev) == ID_DEVICE :: !Allowed(l, ev))
  {
    UnrecognisedCounts(max, bad, max);
    hide IndexOf, Untimed;
    StuckStaysStuck(RunLimiter(Start(max), Repeated(bad, max)), ID_DEVICE, evs);
    hide Allowed, Suppressed, Recognised, IndexCounted, RunLimiter;
    var l := RunLimiter(RunLimiter(Start(max), Repeated(bad, max)), evs);
    forall ev: Event | ev.Trigger? && Recognised(ev) && IndexCounted(ev) == ID_DEVICE ensures !Allowed(l, ev) {
      SuppressedPostsNothing(l, ev);
    }
  }

  lemma {:induction false} UnrecognisedCounts(max: nat, bad: Event, n: nat)
    requires bad.Trigger? && !Recognised(bad)
    ensures (var l := RunLimiter(Start(max), Repeated(bad, n));
             && l.maxTriggers == max
             && !l.inUse
             && l.count[ID_DEVICE] == n)
  {
    hide IndexOf, Repeated;
    if n == 0 {
      NoneRepeated(bad);
    } else {
      RepeatedInit(bad, n);
      UnrecognisedCounts(max, bad, n - 1);
    }
  }

  /** So does raising the bound from 0, since without a bound triggers are counted but no timer is started. */
  lemma RaisedBoundSticks(max: nat, ev: Event, evs: seq<Event>)
    requires max > 0 && ev.Trigger? && Recognised(ev) && ev.sent
    requires Untimed(Next(RunLimiter(Start(0), Repeated(ev, max)), SetMaxTriggers(max)), evs)
    ensures (var l := RunLimiter(Next(RunLimiter(Start(0), Repeated(ev, max)), SetMaxTriggers(max)), evs);
             !l.inUse && Suppressed(l, IndexCounted(ev)) && !Allowed(l, ev))
  {
    UnboundedCounts(ev, max);
    hide IndexOf, Untimed;
    StuckStaysStuck(Next(RunLimiter(Start(0), Repeated(ev, max)), SetMaxTriggers(max)), IndexCounted(ev), evs);
    hide Allowed, Suppressed, Recognised, IndexCounted, RunLimiter, Next;
    SuppressedPostsNothing(
      RunLimiter(Next(RunLimiter(Start(0), Repeated(ev, max)), SetMaxTriggers(max)), evs), ev);
  }

  lemma {:induction false} UnboundedCounts(ev: Event, n: nat)
    requires ev.Trigger? && Recognised(ev) && ev.sent
    ensures (var l := RunLimiter(Start(0), Repeated(ev, n));
             && l.maxTriggers == 0
             && !l.inUse
             && l.count[IndexCounted(ev)] == n)
  {
    hide IndexOf, Repeated;
    if n == 0 {
      NoneRepeated(ev);
    } else {
      RepeatedInit(ev, n);
      UnboundedCounts(ev, n - 1);
    }
  }
}
