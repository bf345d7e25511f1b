/**
 The pool of REST sessions, shared by the server thread, which allocates a session for a request, and the
 application threads, which answer and free it. The steps of all threads interleave freely.
 */
module RestSession {
  import opened Wrappers

  const MAX_SESSIONS := 5

  datatype Slot = Slot(inUse: bool, connectionFd: int)

  /** A session after `memset`. */
  const CLEARED := Slot(false, 0)

  // ---------------------------------------------------------------- the pool

  /** The first free slot at or after `i`. */
  function FirstFree(slots: seq<Slot>, i: nat): (r: Option<nat>)
    requires i <= |slots|
    ensures r.Some? ==> i <= r.value < |slots| && !slots[r.value].inUse && forall k | i <= k < r.value :: slots[k].inUse
    ensures r.None? <==> forall k | i <= k < |slots| :: slots[k].inUse
    decreases |slots| - i
  {
    if i == |slots| then None else if !slots[i].inUse then Some(i) else FirstFree(slots, i + 1)
  }

  class Pool {
    const sessions: array<Slot>

    ghost predicate Valid() {
      sessions.Length == MAX_SESSIONS
    }

    ghost function Contents(): seq<Slot>
      reads sessions
    {
      sessions[..]
    }

    /** `rest_sessions_init`. */
    constructor ()
      ensures Valid() && fresh(sessions)
      ensures Contents() == seq(MAX_SESSIONS, _ => CLEARED) && |Contents()| == 5
    {
      sessions := new Slot[MAX_SESSIONS](_ => CLEARED);
      new;
      assert sessions[..] == seq(MAX_SESSIONS, _ => CLEARED);
    }

    /** `rest_allocate_session`: the slot is cleared, and not yet marked. */
    method Allocate() returns (sessionId: Option<nat>)
      requires Valid()
      modifies sessions
      ensures sessionId == FirstFree(old(Contents()), 0)
      ensures Contents() == if sessionId.None? then old(Contents()) else old(Contents())[sessionId.value := CLEARED]
    {
      ghost var before := sessions[..];
      for i := 0 to MAX_SESSIONS
        invariant sessions[..] == before && FirstFree(before, 0) == FirstFree(before, i)
      {
        if !sessions[i].inUse {
          sessions[i] := CLEARED;
          return Some(i);
        }
      }
      return None;
    }
  }

  // ---------------------------------------------------------------- threads

  datatype Phase = Queued | Taken | Answered | Closed

  /** A posted message, from the queue to the thread that answers it; `slot` is its cookie. */
  datatype Job = Job(slot: nat, request: nat, phase: Phase)

  /** Where the server thread is. Requests are numbered only to be told apart here. */
  datatype Server =
    | Idle
    | Scanning(fd: int, request: nat, i: nat)
    | Reading(fd: int, request: nat, slot: nat)
    | Parsing(fd: int, request: nat, slot: nat)
    | Marked(fd: int, request: nat, slot: nat)
    | Refusing(fd: int, request: nat, slot: nat)
    | Releasing(slot: nat)
    | Posted

  /** `open` says which request's connection an open descriptor is. */
  datatype State = State(
    slots: seq<Slot>,
    open: map<int, nat>,
    server: Server,
    jobs: seq<Job>,
    answered: multiset<nat>,
    nextRequest: nat)

  datatype Event =
    | Accept(fd: int)
    | Scan
    | ReadFails
    | ReadEnds
    | Mark
    | Refuse(sent: bool)
    | CloseRefused
    | Release
    | Post
    | Return
    | Take(job: nat)
    | Answer(job: nat, sent: bool)
    | Close(job: nat)
    | Free(job: nat)
    | Drop(job: nat)

  predicate Enabled(s: State, e: Event) {
    match e
    case Accept(fd) => s.server.Idle? && fd !in s.open
    case Scan => s.server.Scanning? && s.server.i < |s.slots|
    case ReadFails => s.server.Reading?
    case ReadEnds => s.server.Reading? && s.server.slot < |s.slots|
    case Mark => s.server.Parsing? && s.server.slot < |s.slots|
    case Refuse(_) => s.server.Parsing? || s.server.Marked?
    case CloseRefused => s.server.Refusing?
    case Release => s.server.Releasing? && s.server.slot < |s.slots|
    case Post => s.server.Marked?
    case Return => s.server.Posted?
    case Take(k) => k < |s.jobs| && s.jobs[k].phase == Queued
    case Answer(k, _) => k < |s.jobs| && s.jobs[k].phase == Taken && s.jobs[k].slot < |s.slots|
    case Close(k) =>
      && k < |s.jobs| && (s.jobs[k].phase == Taken || s.jobs[k].phase == Answered) && s.jobs[k].slot < |s.slots|
    case Free(k) => k < |s.jobs| && s.jobs[k].phase == Closed && s.jobs[k].slot < |s.slots|
    case Drop(k) => k < |s.jobs| && s.jobs[k].phase == Taken
  }

  /** Who gets what is written to a descriptor. */
  function Receiver(s: State, fd: int): multiset<nat> {
    if fd in s.open then multiset{s.open[fd]} else multiset{}
  }

  function JobFd(s: State, k: nat): int
    requires k < |s.jobs| && s.jobs[k].slot < |s.slots|
  {
    s.slots[s.jobs[k].slot].connectionFd
  }

  function Without<T>(s: seq<T>, k: nat): seq<T>
    requires k < |s|
  {
    s[..k] + s[k + 1..]
  }

  function Next(s: State, e: Event): State
    requires Enabled(s, e)
  {
    match e
    case Accept(fd) =>
      s.(server := Scanning(fd, s.nextRequest, 0), open := s.open[fd := s.nextRequest],
         nextRequest := s.nextRequest + 1)
    case Scan =>
      var v := s.server;
      if !s.slots[v.i].inUse then s.(slots := s.slots[v.i := CLEARED], server := Reading(v.fd, v.request, v.i))
      else if v.i + 1 == MAX_SESSIONS then s.(server := Idle)
      else s.(server := Scanning(v.fd, v.request, v.i + 1))
    case ReadFails => s.(server := Idle, open := s.open - {s.server.fd})
    case ReadEnds =>
      var v := s.server;
      s.(slots := s.slots[v.slot := s.slots[v.slot].(connectionFd := v.fd)], server := Parsing(v.fd, v.request, v.slot))
    case Mark =>
      var v := s.server;
      s.(slots := s.slots[v.slot := s.slots[v.slot].(inUse := true)], server := Marked(v.fd, v.request, v.slot))
    case Refuse(sent) =>
      var v := s.server;
      s.(answered := if sent then s.answered + Receiver(s, v.fd) else s.answered,
         server := Refusing(v.fd, v.request, v.slot))
    case CloseRefused => s.(server := Releasing(s.server.slot), open := s.open - {s.server.fd})
    case Release =>
      s.(slots := s.slots[s.server.slot := s.slots[s.server.slot].(inUse := false)], server := Idle)
    case Post => s.(jobs := s.jobs + [Job(s.server.slot, s.server.request, Queued)], server := Posted)
    case Return => s.(server := Idle)
    case Take(k) => s.(jobs := s.jobs[k := s.jobs[k].(phase := Taken)])
    case Answer(k, sent) =>
      s.(answered := if sent then s.answered + Receiver(s, JobFd(s, k)) else s.answered,
         jobs := s.jobs[k := s.jobs[k].(phase := Answered)])
    case Close(k) => s.(open := s.open - {JobFd(s, k)}, jobs := s.jobs[k := s.jobs[k].(phase := Closed)])
    case Free(k) =>
      var slot := s.jobs[k].slot;
      s.(slots := s.slots[slot := s.slots[slot].(inUse := false)], jobs := Without(s.jobs, k))
    case Drop(k) => s.(jobs := Without(s.jobs, k))
  }

  const START := State(seq(MAX_SESSIONS, _ => CLEARED), map[], Idle, [], multiset{}, 0)

  // ---------------------------------------------------------------- ownership

  /** The slot that the server thread is working on. */
  function ServerSlot(v: Server): Option<nat> {
    match v
    case Reading(_, _, slot) => Some(slot)
    case Parsing(_, _, slot) => Some(slot)
    case Marked(_, _, slot) => Some(slot)
    case Refusing(_, _, slot) => Some(slot)
    case Releasing(slot) => Some(slot)
    case _ => None
  }

  predicate HasRequest(v: Server) {
    v.Scanning? || v.Reading? || v.Parsing? || v.Marked? || v.Refusing?
  }

  /** Descriptor `fd` is open and is the connection of `request`. */
  predicate Connects(s: State, fd: int, request: nat) {
    fd in s.open && s.open[fd] == request
  }

  /** An outstanding request owns a session in use, which holds the descriptor of its own connection. */
  predicate JobOwns(s: State, j: Job) {
    && j.slot < |s.slots|
    && s.slots[j.slot].inUse
    && j.request < s.nextRequest
    && (j.phase != Closed ==> Connects(s, s.slots[j.slot].connectionFd, j.request))
    && (j.phase == Queued || j.phase == Taken ==> s.answered[j.request] == 0)
  }

  predicate ServerOwns(s: State) {
    var v := s.server;
    && (v.Scanning? ==> v.i < MAX_SESSIONS)
    && (HasRequest(v) ==> Connects(s, v.fd, v.request) && v.request < s.nextRequest)
    && (HasRequest(v) && !v.Refusing? ==> s.answered[v.request] == 0)
    && (ServerSlot(v).Some? ==> ServerSlot(v).value < |s.slots|)
    && (v.Reading? || v.Parsing? ==> !s.slots[v.slot].inUse)
    && (v.Parsing? || v.Marked? || v.Refusing? ==> s.slots[v.slot].connectionFd == v.fd)
    && (v.Marked? ==> s.slots[v.slot].inUse)
  }

  /** No two parties own one slot or one request. */
  predicate Disjoint(s: State) {
    && (forall j, k | 0 <= j < k < |s.jobs| ::
          s.jobs[j].slot != s.jobs[k].slot && s.jobs[j].request != s.jobs[k].request)
    && (forall k | 0 <= k < |s.jobs| ::
          && (ServerSlot(s.server) != Some(s.jobs[k].slot))
          && (HasRequest(s.server) ==> s.jobs[k].request != s.server.request))
  }

  ghost predicate RequestsKnown(s: State) {
    && (forall f | f in s.open :: s.open[f] < s.nextRequest)
    && (forall f, g | f in s.open && g in s.open && f != g :: s.open[f] != s.open[g])
    && (forall q: nat :: s.answered[q] <= 1 && (q >= s.nextRequest ==> s.answered[q] == 0))
  }

  ghost predicate Inv(s: State) {
    && |s.slots| == MAX_SESSIONS
    && (forall k | 0 <= k < |s.jobs| :: JobOwns(s, s.jobs[k]))
    && ServerOwns(s)
    && Disjoint(s)
    && RequestsKnown(s)
  }

  lemma StartInv()
    ensures Inv(START) && |START.slots| == 5
  {
  }

  lemma AcceptInv(s: State, e: Event)
    requires Inv(s) && Enabled(s, e) && (e.Accept?)
    ensures Inv(Next(s, e))
  {
  }

  lemma ScanInv(s: State, e: Event)
    requires Inv(s) && Enabled(s, e) && (e.Scan?)
    ensures Inv(Next(s, e))
  {
  }

  lemma ReadInv(s: State, e: Event)
    requires Inv(s) && Enabled(s, e) && (e.ReadFails? || e.ReadEnds?)
    ensures Inv(Next(s, e))
  {
  }

  lemma MarkInv(s: State, e: Event)
    requires Inv(s) && Enabled(s, e) && (e.Mark? || e.Return? || e.Release?)
    ensures Inv(Next(s, e))
  {
  }

  lemma RefuseInv(s: State, e: Event)
    requires Inv(s) && Enabled(s, e) && (e.Refuse? || e.CloseRefused?)
    ensures Inv(Next(s, e))
  {
  }

  lemma PostInv(s: State, e: Event)
    requires Inv(s) && Enabled(s, e) && (e.Post?)
    ensures Inv(Next(s, e))
  {
  }

  lemma TakeInv(s: State, e: Event)
    requires Inv(s) && Enabled(s, e) && (e.Take?)
    ensures Inv(Next(s, e))
  {
  }

  lemma AnswerInv(s: State, e: Event)
    requires Inv(s) && Enabled(s, e) && (e.Answer?)
    ensures Inv(Next(s, e))
  {
  }

  lemma CloseInv(s: State, e: Event)
    requires Inv(s) && Enabled(s, e) && (e.Close?)
    ensures Inv(Next(s, e))
  {
  }

  lemma FreeInv(s: State, e: Event)
    requires Inv(s) && Enabled(s, e) && (e.Free?)
    ensures Inv(Next(s, e))
  {
  }

  lemma DropInv(s: State, e: Event)
    requires Inv(s) && Enabled(s, e) && (e.Drop?)
    ensures Inv(Next(s, e))
  {
  }

  /** Every step of every thread keeps the invariant. */
  lemma StepInv(s: State, e: Event)
    requires Inv(s) && Enabled(s, e)
    ensures Inv(Next(s, e))
  {
    hide *;
    match e
    case Accept(_) => AcceptInv(s, e);
    case Scan => ScanInv(s, e);
    case ReadFails => ReadInv(s, e);
    case ReadEnds => ReadInv(s, e);
    case Mark => MarkInv(s, e);
    case Return => MarkInv(s, e);
    case Release => MarkInv(s, e);
    case Refuse(_) => RefuseInv(s, e);
    case CloseRefused => RefuseInv(s, e);
    case Post => PostInv(s, e);
    case Take(_) => TakeInv(s, e);
    case Answer(_, _) => AnswerInv(s, e);
    case Close(_) => CloseInv(s, e);
    case Free(_) => FreeInv(s, e);
    case Drop(_) => DropInv(s, e);
  }

  // ---------------------------------------------------------------- runs

  /** The events can happen one after the other. */
  predicate Possible(s: State, evs: seq<Event>)
    decreases |evs|
  {
    evs == [] || (Enabled(s, evs[0]) && Possible(Next(s, evs[0]), evs[1..]))
  }

  function Run(s: State, evs: seq<Event>): State
    requires Possible(s, evs)
    decreases |evs|
  {
    if evs == [] then s else Run(Next(s, evs[0]), evs[1..])
  }

  lemma {:induction false} RunInv(s: State, evs: seq<Event>)
    requires Inv(s) && Possible(s, evs)
    ensures Inv(Run(s, evs))
    decreases |evs|
  {
    hide Inv, Next, Enabled;
    if evs != [] {
      StepInv(s, evs[0]);
      RunInv(Next(s, evs[0]), evs[1..]);
    }
  }

  /**
   Whatever the interleaving: every outstanding request owns a session in use that no other request owns and
   that holds the descriptor of its own connection, which no other outstanding request holds either.
   */
  lemma OutstandingRequestsOwnSessions(evs: seq<Event>, j: nat, k: nat)
    requires Possible(START, evs)
    requires (var s := Run(START, evs);
              && j < |s.jobs|
              && k < |s.jobs|
              && j != k
              && s.jobs[j].phase != Closed
              && s.jobs[k].phase != Closed)
    ensures (var s := Run(START, evs);
             && s.jobs[j].slot < |s.slots|
             && s.jobs[k].slot < |s.slots|
             && s.slots[s.jobs[j].slot].inUse
             && Connects(s, JobFd(s, j), s.jobs[j].request)
             && s.jobs[j].slot != s.jobs[k].slot
             && s.jobs[j].request != s.jobs[k].request
             && JobFd(s, j) != JobFd(s, k))
  {
    StartInv();
    RunInv(START, evs);
    hide Run, Possible;
    var s := Run(START, evs);
    assert JobOwns(s, s.jobs[j]) && JobOwns(s, s.jobs[k]);
    assert Disjoint(s);
  }

  /** No request is answered twice, whoever answers. */
  lemma NoRequestAnsweredTwice(evs: seq<Event>, request: nat)
    requires Possible(START, evs)
    ensures Run(START, evs).answered[request] <= 1
  {
    StartInv();
    RunInv(START, evs);
    hide Run, Possible, ServerOwns, JobOwns, Disjoint;
  }

  /** The slot that a scan takes belongs to no outstanding request, although it is marked only later. */
  lemma ScanTakesNobodysSlot(s: State, k: nat)
    requires Inv(s) && Enabled(s, Scan) && Next(s, Scan).server.Reading? && k < |s.jobs|
    ensures s.jobs[k].slot != Next(s, Scan).server.slot
  {
    hide ServerOwns, RequestsKnown, Disjoint;
    assert JobOwns(s, s.jobs[k]);
  }

  /** An answer reaches the connection of the request it is for. */
  lemma AnswerGoesHome(s: State, k: nat)
    requires Inv(s) && Enabled(s, Answer(k, true))
    ensures Next(s, Answer(k, true)).answered == s.answered + multiset{s.jobs[k].request}
  {
    hide ServerOwns, RequestsKnown, Disjoint;
    assert JobOwns(s, s.jobs[k]);
  }

  /** A refusal reaches the connection of the request it is for. */
  lemma RefusalGoesHome(s: State)
    requires Inv(s) && Enabled(s, Refuse(true))
    ensures Next(s, Refuse(true)).answered == s.answered + multiset{s.server.request}
  {
    hide JobOwns, RequestsKnown, Disjoint;
  }

  // ---------------------------------------------------------------- a scan that is not interrupted

  /** The rest of a scan, with no other thread in between. */
  function ScanToEnd(s: State): State
    requires s.server.Scanning? && s.server.i < MAX_SESSIONS == |s.slots|
    decreases MAX_SESSIONS - s.server.i
  {
    var s' := Next(s, Scan);
    if s'.server.Scanning? then ScanToEnd(s') else s'
  }

  /** Undisturbed, the scan steps do what `Pool.Allocate` does. */
  lemma {:induction false} ScanIsAllocate(s: State)
    requires s.server.Scanning? && s.server.i < MAX_SESSIONS == |s.slots|
    ensures (var r, s' := FirstFree(s.slots, s.server.i), ScanToEnd(s);
             if r.None? then s' == s.(server := Idle)
             else s' == s.(slots := s.slots[r.value := CLEARED],
                           server := Reading(s.server.fd, s.server.request, r.value)))
    decreases MAX_SESSIONS - s.server.i
  {
    var s' := Next(s, Scan);
    if s'.server.Scanning? {
      ScanIsAllocate(s');
    } else {
      assert FirstFree(s.slots, MAX_SESSIONS).None?;
    }
  }

  // ---------------------------------------------------------------- a dropped message

  /** The slot is in use and nobody owns it. */
  predicate Leaked(s: State, id: nat) {
    && id < |s.slots| && s.slots[id].inUse
    && ServerSlot(s.server) != Some(id)
    && forall k | 0 <= k < |s.jobs| :: s.jobs[k].slot != id
  }

  lemma DropLeaks(s: State, k: nat)
    requires Inv(s) && Enabled(s, Drop(k))
    ensures Leaked(Next(s, Drop(k)), s.jobs[k].slot)
  {
    hide RequestsKnown;
    assert JobOwns(s, s.jobs[k]);
  }

  lemma LeakStays(s: State, e: Event, id: nat)
    requires Inv(s) && Enabled(s, e) && Leaked(s, id)
    ensures Leaked(Next(s, e), id) && Next(s, e).slots[id] == s.slots[id]
  {
    hide RequestsKnown, JobOwns;
  }

  /** The event takes the message of slot `id` and never answers it. */
  predicate Drops(s: State, e: Event, id: nat)
    requires Enabled(s, e)
  {
    e.Drop? && s.jobs[e.job].slot == id
  }

  lemma WithoutKeeps<T>(s: seq<T>, k: nat)
    requires k < |s|
    ensures forall j | 0 <= j < |s| && j != k :: s[j] == Without(s, k)[if j < k then j else j - 1]
  {
  }

  lemma NoLeakByAccept(s: State, e: Event, id: nat)
    requires Inv(s) && Enabled(s, e) && (e.Accept? || e.Return?)
    ensures Leaked(Next(s, e), id) ==> Leaked(s, id) || Drops(s, e, id)
  {
    hide RequestsKnown, JobOwns;
  }

  lemma NoLeakByScan(s: State, e: Event, id: nat)
    requires Inv(s) && Enabled(s, e) && (e.Scan?)
    ensures Leaked(Next(s, e), id) ==> Leaked(s, id) || Drops(s, e, id)
  {
    hide RequestsKnown, JobOwns;
  }

  lemma NoLeakByServer(s: State, e: Event, id: nat)
    requires Inv(s) && Enabled(s, e) && (e.ReadFails? || e.ReadEnds? || e.Refuse? || e.CloseRefused?)
    ensures Leaked(Next(s, e), id) ==> Leaked(s, id) || Drops(s, e, id)
  {
    hide RequestsKnown, JobOwns;
  }

  lemma NoLeakByMark(s: State, e: Event, id: nat)
    requires Inv(s) && Enabled(s, e) && (e.Mark? || e.Release?)
    ensures Leaked(Next(s, e), id) ==> Leaked(s, id) || Drops(s, e, id)
  {
    hide RequestsKnown, JobOwns;
  }

  lemma NoLeakByPost(s: State, e: Event, id: nat)
    requires Inv(s) && Enabled(s, e) && (e.Post?)
    ensures Leaked(Next(s, e), id) ==> Leaked(s, id) || Drops(s, e, id)
  {
    hide RequestsKnown, JobOwns;
    var t := Next(s, e);
    assert forall k | 0 <= k < |s.jobs| :: t.jobs[k] == s.jobs[k];
    assert t.jobs[|s.jobs|].slot == s.server.slot;
  }

  lemma NoLeakByJob(s: State, e: Event, id: nat)
    requires Inv(s) && Enabled(s, e) && (e.Take? || e.Answer? || e.Close?)
    ensures Leaked(Next(s, e), id) ==> Leaked(s, id) || Drops(s, e, id)
  {
    hide RequestsKnown, JobOwns;
    var t := Next(s, e);
    assert forall k | 0 <= k < |s.jobs| :: t.jobs[k].slot == s.jobs[k].slot;
  }

  lemma NoLeakByFree(s: State, e: Event, id: nat)
    requires Inv(s) && Enabled(s, e) && (e.Free?)
    ensures Leaked(Next(s, e), id) ==> Leaked(s, id) || Drops(s, e, id)
  {
    WithoutKeeps(s.jobs, e.job);
    assert JobOwns(s, s.jobs[e.job]);
    hide RequestsKnown, JobOwns, Without, ServerOwns;
  }

  lemma NoLeakByDrop(s: State, e: Event, id: nat)
    requires Inv(s) && Enabled(s, e) && (e.Drop?)
    ensures Leaked(Next(s, e), id) ==> Leaked(s, id) || Drops(s, e, id)
  {
    WithoutKeeps(s.jobs, e.job);
    hide RequestsKnown, JobOwns, Without, ServerOwns;
  }

  /** A slot leaks exactly when the message that owns it is dropped. */
  lemma LeakedIff(s: State, e: Event, id: nat)
    requires Inv(s) && Enabled(s, e)
    ensures Leaked(Next(s, e), id) <==> Leaked(s, id) || Drops(s, e, id)
  {
    if Leaked(s, id) {
      LeakStays(s, e, id);
    }
    if Drops(s, e, id) {
      DropLeaks(s, e.job);
    }
    hide *;
    match e
    case Accept(_) => NoLeakByAccept(s, e, id);
    case Return => NoLeakByAccept(s, e, id);
    case Scan => NoLeakByScan(s, e, id);
    case ReadFails => NoLeakByServer(s, e, id);
    case ReadEnds => NoLeakByServer(s, e, id);
    case Refuse(_) => NoLeakByServer(s, e, id);
    case CloseRefused => NoLeakByServer(s, e, id);
    case Mark => NoLeakByMark(s, e, id);
    case Release => NoLeakByMark(s, e, id);
    case Post => NoLeakByPost(s, e, id);
    case Take(_) => NoLeakByJob(s, e, id);
    case Answer(_, _) => NoLeakByJob(s, e, id);
    case Close(_) => NoLeakByJob(s, e, id);
    case Free(_) => NoLeakByFree(s, e, id);
    case Drop(_) => NoLeakByDrop(s, e, id);
  }

  /** Some event of the run drops the message of slot `id`. */
  predicate DropsOnWay(s: State, evs: seq<Event>, id: nat)
    requires Possible(s, evs)
    decreases |evs|
  {
    evs != [] && (Drops(s, evs[0], id) || DropsOnWay(Next(s, evs[0]), evs[1..], id))
  }

  lemma {:induction false} LeakedAfterRun(s: State, evs: seq<Event>, id: nat)
    requires Inv(s) && Possible(s, evs)
    ensures Leaked(Run(s, evs), id) <==> Leaked(s, id) || DropsOnWay(s, evs, id)
    decreases |evs|
  {
    hide Inv, Next, Enabled, Leaked, Drops;
    if evs != [] {
      StepInv(s, evs[0]);
      LeakedIff(s, evs[0], id);
      LeakedAfterRun(Next(s, evs[0]), evs[1..], id);
    }
  }

  /** From the initial state a session is lost if and only if its message was dropped on the way. */
  lemma LeakedIffDropped(evs: seq<Event>, id: nat)
    requires Possible(START, evs)
    ensures Leaked(Run(START, evs), id) <==> DropsOnWay(START, evs, id)
  {
    StartInv();
    assert !Leaked(START, id);
    hide *;
    LeakedAfterRun(START, evs, id);
  }

  /** A session whose message is never answered is lost for good: nothing that can happen frees or reuses it. */
  lemma {:induction false} LeakIsForEver(s: State, evs: seq<Event>, id: nat)
    requires Inv(s) && Possible(s, evs) && Leaked(s, id)
    ensures Leaked(Run(s, evs), id) && Run(s, evs).slots[id] == s.slots[id]
    decreases |evs|
  {
    hide Inv, Next, Enabled, Leaked;
    if evs != [] {
      StepInv(s, evs[0]);
      LeakStays(s, evs[0], id);
      LeakIsForEver(Next(s, evs[0]), evs[1..], id);
    }
  }

  /** Once every session is lost, no request is ever read again. */
  lemma FullPoolServesNobody(s: State, evs: seq<Event>)
    requires Inv(s) && Possible(s, evs) && forall id: nat | id < MAX_SESSIONS :: Leaked(s, id)
    ensures !Run(s, evs).server.Reading?
  {
    RunInv(s, evs);
    hide Run, Possible, JobOwns, RequestsKnown, Disjoint;
    var v := Run(s, evs).server;
    if v.Reading? {
      LeakIsForEver(s, evs, v.slot);
    }
  }

  ghost predicate Reaches(s: State, t: State) {
    exists evs :: Possible(s, evs) && Run(s, evs) == t
  }

  lemma ReachesBefore(s: State, e: Event, t: State)
    requires Enabled(s, e) && Reaches(Next(s, e), t)
    ensures Reaches(s, t)
  {
    hide Enabled, Next;
    var evs :| Possible(Next(s, e), evs) && Run(Next(s, e), evs) == t;
    assert ([e] + evs)[1..] == evs;
    assert Possible(s, [e] + evs) && Run(s, [e] + evs) == t;
  }

  /** `k` requests have come on the descriptors below `k`, and their messages have been dropped. */
  predicate Wasted(s: State, k: nat) {
    && k <= |s.slots| == MAX_SESSIONS && s.server.Idle? && s.jobs == []
    && (forall id: nat | id < MAX_SESSIONS :: s.slots[id].inUse <==> id < k)
    && (forall fd | fd in s.open :: fd < k)
  }

  lemma ReachesBeforeScans(s: State, k: nat, t: State)
    requires s.server.Scanning? && s.server.i <= k < |s.slots| == MAX_SESSIONS
    requires forall id: nat | id <= k :: s.slots[id].inUse <==> id < k
    requires Reaches(s.(slots := s.slots[k := CLEARED], server := Reading(s.server.fd, s.server.request, k)), t)
    ensures Reaches(s, t)
    decreases k - s.server.i
  {
    hide Reaches;
    if s.server.i < k {
      ReachesBeforeScans(Next(s, Scan), k, t);
    }
    ReachesBefore(s, Scan, t);
  }

  /** The state after the request that is being read has been posted, and its message taken and dropped. */
  function AfterLoss(s: State): State
    requires s.server.Reading? && s.server.slot < |s.slots|
  {
    s.(slots := s.slots[s.server.slot := s.slots[s.server.slot].(connectionFd := s.server.fd, inUse := true)],
       server := Idle)
  }

  lemma ReachesBeforeLoss(s: State, t: State)
    requires s.server.Reading? && s.server.slot < |s.slots| && s.jobs == []
    requires Reaches(AfterLoss(s), t)
    ensures Reaches(s, t)
  {
    hide Reaches;
    var parsing := Next(s, ReadEnds);
    var marked := Next(parsing, Mark);
    var posted := Next(marked, Post);
    var returned := Next(posted, Return);
    var taken := Next(returned, Take(0));
    assert Next(taken, Drop(0)) == AfterLoss(s);
    ReachesBefore(taken, Drop(0), t);
    ReachesBefore(returned, Take(0), t);
    ReachesBefore(posted, Return, t);
    ReachesBefore(marked, Post, t);
    ReachesBefore(parsing, Mark, t);
    ReachesBefore(s, ReadEnds, t);
  }

  /** Five dropped messages lose every session. */
  lemma {:induction false} PoolCanBeLost(s: State, k: nat)
    requires Wasted(s, k)
    ensures exists t :: Reaches(s, t) && Wasted(t, MAX_SESSIONS)
    decreases MAX_SESSIONS - k
  {
    hide Reaches;
    if k == MAX_SESSIONS {
      ReachesItself(s);
    } else {
      var accepted := Next(s, Accept(k));
      var reading := accepted.(slots := s.slots[k := CLEARED], server := Reading(k, s.nextRequest, k));
      PoolCanBeLost(AfterLoss(reading), k + 1);
      var t :| Reaches(AfterLoss(reading), t) && Wasted(t, MAX_SESSIONS);
      ReachesBeforeLoss(reading, t);
      ReachesBeforeScans(accepted, k, t);
      ReachesBefore(s, Accept(k), t);
    }
  }

  lemma ReachesItself(s: State)
    ensures Reaches(s, s)
  {
    assert Possible(s, []) && Run(s, []) == s;
  }

  /** The pool can be lost from the initial state, and whatever happens afterwards no request is read. */
  lemma StartCanLosePool()
    ensures exists t ::
              && Reaches(START, t)
              && |t.slots| == 5 && (forall id: nat | id < 5 :: Leaked(t, id))
              && (forall evs | Possible(t, evs) :: !Run(t, evs).server.Reading?)
  {
    hide Reaches;
    PoolCanBeLost(START, 0);
    var t :| Reaches(START, t) && Wasted(t, MAX_SESSIONS);
    StartInv();
    ReachesKeepsInv(START, t);
    hide Inv;
    forall evs | Possible(t, evs) ensures !Run(t, evs).server.Reading? {
      FullPoolServesNobody(t, evs);
    }
  }

  lemma ReachesKeepsInv(s: State, t: State)
    requires Inv(s) && Reaches(s, t)
    ensures Inv(t)
  {
    hide Inv;
    var evs :| Possible(s, evs) && Run(s, evs) == t;
    RunInv(s, evs);
  }

  // ---------------------------------------------------------------- descriptors without an owner

  /** The server thread or an outstanding request will close the descriptor. */
  predicate Owned(s: State, fd: int) {
    || (HasRequest(s.server) && s.server.fd == fd)
    || (exists k :: 0 <= k < |s.jobs| && JobHolds(s, k, fd))
  }

  /** Message `k` has not been answered and closed, and `fd` is its connection. */
  predicate JobHolds(s: State, k: nat, fd: int)
    requires k < |s.jobs|
  {
    s.jobs[k].phase != Closed && s.jobs[k].slot < |s.slots| && JobFd(s, k) == fd
  }

  predicate Orphaned(s: State, fd: int) {
    fd in s.open && !Owned(s, fd)
  }

  /** The event leaves the descriptor open for ever: the scan finds no session for it, or its message is dropped. */
  ghost predicate Strands(s: State, e: Event, fd: int)
    requires Inv(s) && Enabled(s, e)
  {
    || (e.Scan? && s.server.fd == fd && s.slots[s.server.i].inUse && s.server.i + 1 == MAX_SESSIONS)
    || (e.Drop? && JobHolds(s, e.job, fd))
  }

  lemma OrphanedByAccept(s: State, e: Event, fd: int)
    requires Inv(s) && Enabled(s, e) && (e.Accept?)
    ensures Orphaned(Next(s, e), fd) <==> Orphaned(s, fd) || Strands(s, e, fd)
  {
    var t := Next(s, e);
    assert forall k | 0 <= k < |s.jobs| :: JobHolds(t, k, fd) <==> JobHolds(s, k, fd);
  }

  lemma OrphanedByScan(s: State, e: Event, fd: int)
    requires Inv(s) && Enabled(s, e) && (e.Scan?)
    ensures Orphaned(Next(s, e), fd) <==> Orphaned(s, fd) || Strands(s, e, fd)
  {
    var t := Next(s, e);
    assert forall k | 0 <= k < |s.jobs| :: JobHolds(t, k, fd) <==> JobHolds(s, k, fd);
  }

  lemma OrphanedByRead(s: State, e: Event, fd: int)
    requires Inv(s) && Enabled(s, e) && (e.ReadFails? || e.ReadEnds?)
    ensures Orphaned(Next(s, e), fd) <==> Orphaned(s, fd) || Strands(s, e, fd)
  {
    var t := Next(s, e);
    assert forall k | 0 <= k < |s.jobs| :: JobHolds(t, k, fd) <==> JobHolds(s, k, fd);
  }

  lemma OrphanedByMark(s: State, e: Event, fd: int)
    requires Inv(s) && Enabled(s, e) && (e.Mark? || e.Release? || e.Return? || e.Refuse?)
    ensures Orphaned(Next(s, e), fd) <==> Orphaned(s, fd) || Strands(s, e, fd)
  {
    var t := Next(s, e);
    assert forall k | 0 <= k < |s.jobs| :: JobHolds(t, k, fd) <==> JobHolds(s, k, fd);
  }

  lemma OrphanedByCloseRefused(s: State, e: Event, fd: int)
    requires Inv(s) && Enabled(s, e) && (e.CloseRefused?)
    ensures Orphaned(Next(s, e), fd) <==> Orphaned(s, fd) || Strands(s, e, fd)
  {
    var t := Next(s, e);
    assert forall k | 0 <= k < |s.jobs| :: JobHolds(t, k, fd) <==> JobHolds(s, k, fd);
  }

  lemma OrphanedByPost(s: State, e: Event, fd: int)
    requires Inv(s) && Enabled(s, e) && (e.Post?)
    ensures Orphaned(Next(s, e), fd) <==> Orphaned(s, fd) || Strands(s, e, fd)
  {
    var t := Next(s, e);
    assert forall k | 0 <= k < |s.jobs| :: JobHolds(t, k, fd) <==> JobHolds(s, k, fd);
    assert JobHolds(t, |s.jobs|, fd) <==> s.server.fd == fd;
  }

  lemma OrphanedByJob(s: State, e: Event, fd: int)
    requires Inv(s) && Enabled(s, e) && (e.Take? || e.Answer?)
    ensures Orphaned(Next(s, e), fd) <==> Orphaned(s, fd) || Strands(s, e, fd)
  {
    var t := Next(s, e);
    assert forall k | 0 <= k < |s.jobs| :: JobHolds(t, k, fd) <==> JobHolds(s, k, fd);
  }

  lemma OrphanedByClose(s: State, e: Event, fd: int)
    requires Inv(s) && Enabled(s, e) && (e.Close?)
    ensures Orphaned(Next(s, e), fd) <==> Orphaned(s, fd) || Strands(s, e, fd)
  {
    var t := Next(s, e);
    assert forall k | 0 <= k < |s.jobs| && k != e.job :: JobHolds(t, k, fd) <==> JobHolds(s, k, fd);
    assert !JobHolds(t, e.job, fd);
    assert JobOwns(s, s.jobs[e.job]) && JobHolds(s, e.job, JobFd(s, e.job));
    forall k | 0 <= k < |s.jobs| && JobHolds(s, k, fd) && k != e.job ensures fd != JobFd(s, e.job) {
      assert JobOwns(s, s.jobs[k]);
    }
  }

  lemma OrphanedByFree(s: State, e: Event, fd: int)
    requires Inv(s) && Enabled(s, e) && (e.Free?)
    ensures Orphaned(Next(s, e), fd) <==> Orphaned(s, fd) || Strands(s, e, fd)
  {
    WithoutKeeps(s.jobs, e.job);
    var t := Next(s, e);
    assert forall k | 0 <= k < |s.jobs| && k != e.job ::
      JobHolds(s, k, fd) <==> JobHolds(t, if k < e.job then k else k - 1, fd);
    assert forall k | 0 <= k < |t.jobs| :: JobHolds(t, k, fd) <==> JobHolds(s, if k < e.job then k else k + 1, fd);
  }

  lemma OrphanedByDrop(s: State, e: Event, fd: int)
    requires Inv(s) && Enabled(s, e) && (e.Drop?)
    ensures Orphaned(Next(s, e), fd) <==> Orphaned(s, fd) || Strands(s, e, fd)
  {
    WithoutKeeps(s.jobs, e.job);
    var t := Next(s, e);
    assert forall k | 0 <= k < |s.jobs| && k != e.job ::
      JobHolds(s, k, fd) <==> JobHolds(t, if k < e.job then k else k - 1, fd);
    assert forall k | 0 <= k < |t.jobs| :: JobHolds(t, k, fd) <==> JobHolds(s, if k < e.job then k else k + 1, fd);
    assert JobOwns(s, s.jobs[e.job]);
    forall k | 0 <= k < |s.jobs| && JobHolds(s, k, fd) && JobHolds(s, e.job, fd) ensures k == e.job {
      assert JobOwns(s, s.jobs[k]);
    }
  }

  /** A descriptor loses its owner exactly when the pool is full or its message is dropped, and for ever. */
  lemma OrphanedIff(s: State, e: Event, fd: int)
    requires Inv(s) && Enabled(s, e)
    ensures Orphaned(Next(s, e), fd) <==> Orphaned(s, fd) || Strands(s, e, fd)
  {
    hide *;
    match e
    case Accept(_) => OrphanedByAccept(s, e, fd);
    case Scan => OrphanedByScan(s, e, fd);
    case ReadFails => OrphanedByRead(s, e, fd);
    case ReadEnds => OrphanedByRead(s, e, fd);
    case Mark => OrphanedByMark(s, e, fd);
    case Release => OrphanedByMark(s, e, fd);
    case Return => OrphanedByMark(s, e, fd);
    case Refuse(_) => OrphanedByMark(s, e, fd);
    case CloseRefused => OrphanedByCloseRefused(s, e, fd);
    case Post => OrphanedByPost(s, e, fd);
    case Take(_) => OrphanedByJob(s, e, fd);
    case Answer(_, _) => OrphanedByJob(s, e, fd);
    case Close(_) => OrphanedByClose(s, e, fd);
    case Free(_) => OrphanedByFree(s, e, fd);
    case Drop(_) => OrphanedByDrop(s, e, fd);
  }

  /** Some event of the run strands the descriptor. */
  ghost predicate StrandsOnWay(s: State, evs: seq<Event>, fd: int)
    requires Inv(s) && Possible(s, evs)
    decreases |evs|
  {
    evs != [] &&
    (StepInv(s, evs[0]);
     Strands(s, evs[0], fd) || StrandsOnWay(Next(s, evs[0]), evs[1..], fd))
  }

  /** Every open descriptor has an owner who will close it, unless a full pool or a dropped message stranded it. */
  lemma {:induction false} OrphanedAfterRun(s: State, evs: seq<Event>, fd: int)
    requires Inv(s) && Possible(s, evs)
    ensures Orphaned(Run(s, evs), fd) <==> Orphaned(s, fd) || StrandsOnWay(s, evs, fd)
    decreases |evs|
  {
    hide Inv, Next, Enabled, Orphaned, Strands;
    if evs != [] {
      StepInv(s, evs[0]);
      OrphanedIff(s, evs[0], fd);
      OrphanedAfterRun(Next(s, evs[0]), evs[1..], fd);
    }
  }
}
