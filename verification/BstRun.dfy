/**
 Runs of the buffer-statistics application, seen from a collector: the three records go round, each report
 is encoded from them, and the collector reads the text it receives and lays it over what it knows.
 */
module BstRun {
  import opened Wrappers
  import opened Json
  import opened BstData
  import opened BstSelect
  import opened BstText
  import opened BstParse
  import opened BstEncoder
  import opened BstReport
  import opened BstView

  // ---------------------------------------------------------------- records

  /** The contents of the three records. */
  datatype Records = Records(active: Snapshot, backup: Snapshot, current: Snapshot)

  const ZERO_RECORDS := Records(ZERO_SNAPSHOT, ZERO_SNAPSHOT, ZERO_SNAPSHOT)

  /** A collection leaves `left` in the current record, and the records go round. */
  function Collected(rs: Records, left: Snapshot): Records {
    Records(left, rs.active, rs.backup)
  }

  function CollectedAll(rs: Records, lefts: seq<Snapshot>): Records {
    if lefts == [] then rs else Collected(CollectedAll(rs, lefts[..|lefts| - 1]), lefts[|lefts| - 1])
  }

  /** After a number of collections, active and backup hold what the last two left. */
  lemma {:induction false} LastTwoCollections(rs: Records, lefts: seq<Snapshot>)
    ensures (var n := |lefts|;
             var end := CollectedAll(rs, lefts);
             && (n >= 1 ==> end.active == lefts[n - 1])
             && (n >= 2 ==> end.backup == lefts[n - 2])
             && (n >= 3 ==> end.current == lefts[n - 3]))
  {
    if |lefts| > 1 {
      LastTwoCollections(rs, lefts[..|lefts| - 1]);
    }
  }

  // ---------------------------------------------------------------- reports

  /** What stays fixed during a run. */
  datatype Settings = Settings(
    tracked: set<Realm>,
    statUnitsInCells: bool,
    statsInPercentage: bool,
    asic: Capabilities,
    notation: map<int, string>,
    maxBuffers: Snapshot,
    /** The external name of the ASIC, if it has one. */
    asicId: Option<string>)

  datatype Event =
    | Periodic(left: Snapshot, incremental: bool, time: string)
    | Get(left: Snapshot, requested: set<Realm>, time: string)
    | Clear
    /** A collection that this collector gets no report of: a trigger, another client's request, a failure. */
    | Missed(left: Snapshot)

  /** The options of a periodic report or of the answer to a request. */
  function ReportOptions(cfg: Settings, included: set<Realm>, incremental: bool): Options {
    Options(included, cfg.statUnitsInCells, cfg.statsInPercentage, false, false, false,
            TriggerInfo("", "", 0, 0), incremental)
  }

  /** What the encoder is given. Only an incremental periodic report is told the backup record. */
  function ContextOf(cfg: Settings, rs: Records, ev: Event): Context
    requires ev.Periodic? || ev.Get?
  {
    match ev
    case Periodic(_, incremental, _) =>
      Context(if incremental then Some(rs.backup) else None, rs.active,
              ReportOptions(cfg, cfg.tracked, incremental), cfg.asic, cfg.notation, cfg.maxBuffers)
    case Get(_, requested, _) =>
      Context(None, rs.active, ReportOptions(cfg, requested, true), cfg.asic, cfg.notation, cfg.maxBuffers)
  }

  function RecordsAfter(rs: Records, ev: Event): Records {
    match ev
    case Clear => ZERO_RECORDS
    case _ => Collected(rs, ev.left)
  }

  /** The text sent for an event, if its report can be encoded. */
  function Sent(cfg: Settings, rs: Records, ev: Event): Option<string>
    requires cfg.asic.Valid() && (ev.Periodic? || ev.Get?)
  {
    var x := ContextOf(cfg, rs, ev);
    if ReportStatus(x, cfg.asicId).Success? then Some(ReportText(x, Stamp(cfg.asicId.value, ev.time))) else None
  }

  // ---------------------------------------------------------------- the collector

  function ReadText(text: string): Option<seq<RealmReport>> {
    match Parse(text)
    case None => None
    case Some(j) => ReadReport(j)
  }

  /** A text that cannot be read, like one that was never sent, changes nothing. */
  function Received(v: View, text: Option<string>): View {
    if text.None? then v
    else
      match ReadText(text.value)
      case None => v
      case Some(report) => Overlay(v, report)
  }

  datatype State = State(records: Records, view: View)

  /** The answer to a request is read as a complete refresh; a clear empties the view. */
  function Step(cfg: Settings, st: State, ev: Event): State
    requires cfg.asic.Valid()
  {
    var rs := RecordsAfter(st.records, ev);
    match ev
    case Periodic(_, _, _) => State(rs, Received(st.view, Sent(cfg, rs, ev)))
    case Get(_, _, _) => State(rs, Received(map[], Sent(cfg, rs, ev)))
    case Clear => State(rs, map[])
    case Missed(_) => State(rs, st.view)
  }

  function Run(cfg: Settings, st: State, evs: seq<Event>): State
    requires cfg.asic.Valid()
    decreases |evs|
  {
    if evs == [] then st else Run(cfg, Step(cfg, st, evs[0]), evs[1..])
  }

  const START := State(ZERO_RECORDS, map[])

  // ---------------------------------------------------------------- what a run is expected to be

  /** The external names are usable: they need no escaping, every port has one, and no two share one. */
  predicate Usable(cfg: Settings) {
    && cfg.asic.Valid()
    && cfg.asicId.Some? && PlainText(cfg.asicId.value)
    && (forall p | p in cfg.notation :: PlainText(cfg.notation[p]))
    && (forall p: nat | 1 <= p <= cfg.asic.numPorts :: p in cfg.notation)
    && (forall p: nat, q: nat | 1 <= p < q <= cfg.asic.numPorts :: cfg.notation[p] != cfg.notation[q])
  }

  lemma UsableMeans(cfg: Settings)
    requires Usable(cfg)
    ensures cfg.asic.Valid() && cfg.asicId.Some?
  {
  }

  /** Every queue of a snapshot belongs to a port that has a name. */
  predicate QueuesNamed(cfg: Settings, s: Snapshot)
    requires cfg.asic.Valid()
  {
    && (forall i: nat | i < cfg.asic.numMulticastQueues :: s.eMcQ[i].port in cfg.notation)
    && (forall i: nat | i < cfg.asic.numUnicastQueues :: s.eUcQ[i].port in cfg.notation)
  }

  /** The reported values of a cell of a snapshot. */
  function Shown(cfg: Settings, r: Realm, s: Snapshot, port: nat, i: nat): seq<int>
    requires cfg.asic.Valid() && r.InTable(port, i)
  {
    Values(Context(None, s, ReportOptions(cfg, {}, false), cfg.asic, cfg.notation, cfg.maxBuffers), r, s, port, i)
  }

  /** The event is one that keeps the collector up to date about a cell of realm `r`. */
  predicate KeepsUp(cfg: Settings, rs: Records, ev: Event, r: Realm, port: nat, i: nat)
    requires cfg.asic.Valid() && r.InTable(port, i)
  {
    match ev
    case Periodic(left, _, time) => QueuesNamed(cfg, left) && PlainText(time)
    case Get(left, requested, time) => QueuesNamed(cfg, left) && PlainText(time) && r in requested
    case Clear => true
    case Missed(left) => Shown(cfg, r, left, port, i) == Shown(cfg, r, rs.active, port, i)
  }

  predicate AllKeepUp(cfg: Settings, rs: Records, evs: seq<Event>, r: Realm, port: nat, i: nat)
    requires cfg.asic.Valid() && r.InTable(port, i)
    decreases |evs|
  {
    || evs == []
    || (KeepsUp(cfg, rs, evs[0], r, port, i) && AllKeepUp(cfg, RecordsAfter(rs, evs[0]), evs[1..], r, port, i))
  }

  /** The collector's view of a cell is the converted active record. */
  predicate UpToDate(cfg: Settings, st: State, r: Realm, port: nat, i: nat)
    requires cfg.asic.Valid() && r.InTable(port, i)
  {
    var place := if r.PerPort() then PortName(cfg.notation, port) else "";
    Look(st.view, r, place, i) == Shown(cfg, r, st.records.active, port, i)
  }

  // ---------------------------------------------------------------- one step

  lemma ContextFacts(cfg: Settings, rs: Records, ev: Event, r: Realm, port: nat)
    requires Usable(cfg) && (ev.Periodic? || ev.Get?)
    ensures (var x := ContextOf(cfg, rs, ev);
             && x.asic == cfg.asic
             && x.asic.Valid()
             && x.current == rs.active
             && DistinctNames(x)
             && !x.options.reportTrigger
             && Place(x, r, port) == if r.PerPort() then PortName(cfg.notation, port) else "")
    ensures PlainText(ev.time) ==> Plain(ContextOf(cfg, rs, ev), Stamp(cfg.asicId.value, ev.time))
  {
    hide PlainText;
  }

  lemma ShownIsValues(cfg: Settings, rs: Records, ev: Event, r: Realm, s: Snapshot, port: nat, i: nat)
    requires cfg.asic.Valid() && (ev.Periodic? || ev.Get?) && r.InTable(port, i)
    ensures Values(ContextOf(cfg, rs, ev), r, s, port, i) == Shown(cfg, r, s, port, i)
  {
    hide Counters;
    var x := ContextOf(cfg, rs, ev);
    assert x.asic == cfg.asic && x.maxBuffers == cfg.maxBuffers;
    forall j | 0 <= j < r.Printed()
      ensures Values(x, r, s, port, i)[j] == Shown(cfg, r, s, port, i)[j]
    {
    }
  }

  lemma NamedQueuesEncode(cfg: Settings, rs: Records, ev: Event, r: Realm)
    requires Usable(cfg) && (ev.Periodic? || ev.Get?) && QueuesNamed(cfg, rs.active)
    ensures RealmNamed(ContextOf(cfg, rs, ev), r)
  {
    hide PortEmitted, Emitted, PlainText;
  }

  /** A report can be encoded as soon as the ports and the queues have names. */
  lemma ReportIsSent(cfg: Settings, rs: Records, ev: Event)
    requires Usable(cfg) && (ev.Periodic? || ev.Get?) && QueuesNamed(cfg, rs.active)
    ensures Sent(cfg, rs, ev) == Some(ReportText(ContextOf(cfg, rs, ev), Stamp(cfg.asicId.value, ev.time)))
  {
    var x := ContextOf(cfg, rs, ev);
    assert cfg.asic.Valid();
    hide ReportText, RealmNamed, Usable, QueuesNamed;
    forall i | 0 <= i < |INGRESS_ORDER| ensures RealmNamed(x, INGRESS_ORDER[i]) {
      NamedQueuesEncode(cfg, rs, ev, INGRESS_ORDER[i]);
    }
    forall i | 0 <= i < |EGRESS_ORDER| ensures RealmNamed(x, EGRESS_ORDER[i]) {
      NamedQueuesEncode(cfg, rs, ev, EGRESS_ORDER[i]);
    }
    hide INGRESS_ORDER, EGRESS_ORDER;
  }

  /** The collector reads exactly what the encoder selected. */
  lemma TextIsReceived(cfg: Settings, v: View, rs: Records, ev: Event)
    requires Usable(cfg) && (ev.Periodic? || ev.Get?) && QueuesNamed(cfg, rs.active) && PlainText(ev.time)
    ensures Received(v, Sent(cfg, rs, ev)) == Overlay(v, Selected(ContextOf(cfg, rs, ev), REPORT_ORDER))
  {
    hide *;
    UsableMeans(cfg);
    var x, stamp := ContextOf(cfg, rs, ev), Stamp(cfg.asicId.value, ev.time);
    ContextFacts(cfg, rs, ev, Device, 0);
    ReportIsSent(cfg, rs, ev);
    ReportIsWellFormedIff(x, stamp);
    ReportReadsBack(x, stamp);
    ReceivedIsOverlaid(v, ReportText(x, stamp), ReportJson(x, stamp), Selected(x, REPORT_ORDER));
  }

  lemma ReceivedIsOverlaid(v: View, text: string, j: Json, report: seq<RealmReport>)
    requires Parse(text) == Some(j) && ReadReport(j) == Some(report)
    ensures Received(v, Some(text)) == Overlay(v, report)
  {
    hide Parse, ReadReport, Overlay;
  }

  /** A cell that this ASIC has, of a realm that is tracked. */
  predicate TrackedCell(cfg: Settings, r: Realm, port: nat, i: nat) {
    r in cfg.tracked && r.Has(cfg.asic, port, i) && cfg.asic.Valid()
  }

  /** The view after an event that brings a report. */
  lemma StepView(cfg: Settings, st: State, ev: Event)
    requires Usable(cfg) && (ev.Periodic? || ev.Get?) && QueuesNamed(cfg, ev.left) && PlainText(ev.time)
    ensures (var rs := RecordsAfter(st.records, ev);
             var report := Selected(ContextOf(cfg, rs, ev), REPORT_ORDER);
             Step(cfg, st, ev) == State(rs, Overlay(if ev.Get? then map[] else st.view, report)))
  {
    hide Overlay, Selected, Received, Sent;
    TextIsReceived(cfg, if ev.Get? then map[] else st.view, RecordsAfter(st.records, ev), ev);
  }

  /**
   After an incremental periodic report the collector is up to date about a cell if and only if the cell
   has changed since the previous collection or the collector was up to date before.
   */
  lemma IncrementalStepIsExact(cfg: Settings, st: State, left: Snapshot, time: string, r: Realm, port: nat, i: nat)
    requires Usable(cfg) && r.InTable(port, i) && TrackedCell(cfg, r, port, i)
    requires QueuesNamed(cfg, left) && PlainText(time)
    ensures UpToDate(cfg, Step(cfg, st, Periodic(left, true, time)), r, port, i)
       <==> Counters(r, st.records.active, port, i) != Counters(r, left, port, i) || UpToDate(cfg, st, r, port, i)
  {
    var ev := Periodic(left, true, time);
    var rs := RecordsAfter(st.records, ev);
    var x := ContextOf(cfg, rs, ev);
    assert x.asic == cfg.asic && x.current == rs.active == left && x.previous == Some(st.records.active);
    assert r in x.options.included && cfg.asic.Valid();
    hide Overlay, Selected, Look, Counters, Usable, QueuesNamed, Step, Shown, Values, ContextOf;
    StepView(cfg, st, ev);
    ContextFacts(cfg, rs, ev, r, port);
    ShownIsValues(cfg, rs, ev, r, left, port, i);
    ShownIsValues(cfg, rs, ev, r, st.records.active, port, i);
    DeltaIsExact(st.view, x, r, port, i);
  }

  /** A complete periodic report brings the collector up to date, whatever it knew before. */
  lemma CompleteStepResyncs(cfg: Settings, st: State, left: Snapshot, time: string, r: Realm, port: nat, i: nat)
    requires Usable(cfg) && r.InTable(port, i) && TrackedCell(cfg, r, port, i)
    requires QueuesNamed(cfg, left) && PlainText(time)
    ensures UpToDate(cfg, Step(cfg, st, Periodic(left, false, time)), r, port, i)
  {
    var ev := Periodic(left, false, time);
    var rs := RecordsAfter(st.records, ev);
    var x := ContextOf(cfg, rs, ev);
    assert x.asic == cfg.asic && x.current == rs.active == left && x.previous == None;
    assert r in x.options.included && !x.options.sendIncrementalReport && cfg.asic.Valid();
    hide Overlay, Selected, Look, Counters, Usable, QueuesNamed, Step, Shown, Values, ContextOf;
    StepView(cfg, st, ev);
    ContextFacts(cfg, rs, ev, r, port);
    ShownIsValues(cfg, rs, ev, r, left, port, i);
    CompleteReportResyncs(st.view, x, r, port, i);
  }

  /** The answer to a request that covers the realm, read as a refresh, brings the collector up to date. */
  lemma GetStepResyncs(cfg: Settings, st: State, left: Snapshot, requested: set<Realm>, time: string,
                       r: Realm, port: nat, i: nat)
    requires Usable(cfg) && r.InTable(port, i) && TrackedCell(cfg, r, port, i)
    requires QueuesNamed(cfg, left) && PlainText(time) && r in requested
    ensures UpToDate(cfg, Step(cfg, st, Get(left, requested, time)), r, port, i)
  {
    var ev := Get(left, requested, time);
    var rs := RecordsAfter(st.records, ev);
    var x := ContextOf(cfg, rs, ev);
    assert x.asic == cfg.asic && x.current == rs.active == left && x.previous == None;
    assert r in x.options.included && cfg.asic.Valid();
    hide Overlay, Selected, Look, Counters, Usable, QueuesNamed, Step, Shown, Values, ContextOf;
    StepView(cfg, st, ev);
    ContextFacts(cfg, rs, ev, r, port);
    ShownIsValues(cfg, rs, ev, r, left, port, i);
    FullReportRebuilds(x, r, port, i);
  }

  lemma ZeroIsUpToDate(cfg: Settings, st: State, r: Realm, port: nat, i: nat)
    requires cfg.asic.Valid() && r.InTable(port, i) && st.view == map[] && st.records.active == ZERO_SNAPSHOT
    ensures UpToDate(cfg, st, r, port, i)
  {
    ZeroSnapshotCounters(r, port, i);
    hide Counters, Values;
    ZeroShowsZeros(Context(None, ZERO_SNAPSHOT, ReportOptions(cfg, {}, false), cfg.asic, cfg.notation, cfg.maxBuffers),
                   r, ZERO_SNAPSHOT, port, i);
  }

  /** A collection without a report keeps an up-to-date collector so if and only if it shows the same values. */
  lemma MissedStepIsExact(cfg: Settings, st: State, left: Snapshot, r: Realm, port: nat, i: nat)
    requires cfg.asic.Valid() && r.InTable(port, i) && UpToDate(cfg, st, r, port, i)
    ensures UpToDate(cfg, Step(cfg, st, Missed(left)), r, port, i)
       <==> Shown(cfg, r, left, port, i) == Shown(cfg, r, st.records.active, port, i)
  {
    hide Shown, Look;
  }

  lemma StepKeepsUp(cfg: Settings, st: State, ev: Event, r: Realm, port: nat, i: nat)
    requires Usable(cfg) && r.InTable(port, i) && TrackedCell(cfg, r, port, i)
    requires KeepsUp(cfg, st.records, ev, r, port, i) && UpToDate(cfg, st, r, port, i)
    ensures UpToDate(cfg, Step(cfg, st, ev), r, port, i)
    ensures Step(cfg, st, ev).records == RecordsAfter(st.records, ev)
  {
    assert cfg.asic.Valid();
    hide Overlay, Look, Counters, Usable, QueuesNamed, Shown, Received, Sent, TrackedCell;
    match ev
    case Periodic(left, incremental, time) =>
      hide Step, UpToDate;
      if incremental {
        IncrementalStepIsExact(cfg, st, left, time, r, port, i);
      } else {
        CompleteStepResyncs(cfg, st, left, time, r, port, i);
      }
      StepView(cfg, st, ev);
    case Get(left, requested, time) =>
      hide Step, UpToDate;
      GetStepResyncs(cfg, st, left, requested, time, r, port, i);
      StepView(cfg, st, ev);
    case Clear =>
      hide UpToDate;
      ZeroIsUpToDate(cfg, Step(cfg, st, ev), r, port, i);
    case Missed(left) =>
      MissedStepIsExact(cfg, st, left, r, port, i);
  }

  /**
   Folding the reports of any run keeps a collector up to date about a cell, as long as every collection it
   gets no report of leaves that cell alone.
   */
  lemma {:induction false} RunKeepsUp(cfg: Settings, st: State, evs: seq<Event>, r: Realm, port: nat, i: nat)
    requires Usable(cfg) && r.InTable(port, i) && TrackedCell(cfg, r, port, i)
    requires AllKeepUp(cfg, st.records, evs, r, port, i) && UpToDate(cfg, st, r, port, i)
    ensures UpToDate(cfg, Run(cfg, st, evs), r, port, i)
    decreases |evs|
  {
    assert cfg.asic.Valid();
    hide Usable, UpToDate, KeepsUp, Step, TrackedCell;
    if evs != [] {
      StepKeepsUp(cfg, st, evs[0], r, port, i);
      RunKeepsUp(cfg, Step(cfg, st, evs[0]), evs[1..], r, port, i);
    }
  }

  /** The same from the start: the collector knows nothing and the records are zero. */
  lemma CollectorFollows(cfg: Settings, evs: seq<Event>, r: Realm, port: nat, i: nat)
    requires Usable(cfg) && r.InTable(port, i) && TrackedCell(cfg, r, port, i)
    requires AllKeepUp(cfg, ZERO_RECORDS, evs, r, port, i)
    ensures UpToDate(cfg, Run(cfg, START, evs), r, port, i)
  {
    assert cfg.asic.Valid();
    hide UpToDate, AllKeepUp, Run, Usable, TrackedCell;
    ZeroIsUpToDate(cfg, START, r, port, i);
    RunKeepsUp(cfg, START, evs, r, port, i);
  }

  // ---------------------------------------------------------------- a lost update

  /** Nothing but incremental periodic reports, all of which can be sent. */
  predicate Incremental(cfg: Settings, evs: seq<Event>)
    requires cfg.asic.Valid()
  {
    forall k | 0 <= k < |evs| ::
      evs[k].Periodic? && evs[k].incremental && QueuesNamed(cfg, evs[k].left) && PlainText(evs[k].time)
  }

  /** One of the collections finds the cell changed since the one before. */
  predicate SomeChange(active: Snapshot, evs: seq<Event>, r: Realm, port: nat, i: nat)
    requires r.InTable(port, i) && forall k | 0 <= k < |evs| :: !evs[k].Clear?
    decreases |evs|
  {
    evs != [] &&
    (Counters(r, active, port, i) != Counters(r, evs[0].left, port, i) || SomeChange(evs[0].left, evs[1..], r, port, i))
  }

  /** After any run of incremental reports a cell is up to date if and only if it changed on the way or was before. */
  lemma {:induction false} IncrementalRunIsExact(cfg: Settings, st: State, evs: seq<Event>, r: Realm, port: nat, i: nat)
    requires cfg.asic.Valid() && r.InTable(port, i) && Usable(cfg)
    requires TrackedCell(cfg, r, port, i) && Incremental(cfg, evs)
    ensures UpToDate(cfg, Run(cfg, st, evs), r, port, i)
       <==> SomeChange(st.records.active, evs, r, port, i) || UpToDate(cfg, st, r, port, i)
    decreases |evs|
  {
    IncrementalUnfolds(cfg, st, evs, r, port, i);
    hide *;
    if evs != [] {
      IncrementalStepIsExact(cfg, st, evs[0].left, evs[0].time, r, port, i);
      StepRecords(cfg, st, evs[0]);
      IncrementalRunIsExact(cfg, Step(cfg, st, evs[0]), evs[1..], r, port, i);
    }
  }

  lemma IncrementalUnfolds(cfg: Settings, st: State, evs: seq<Event>, r: Realm, port: nat, i: nat)
    requires cfg.asic.Valid() && r.InTable(port, i) && Incremental(cfg, evs)
    ensures forall k | 0 <= k < |evs| :: !evs[k].Clear?
    ensures evs == [] ==> Run(cfg, st, evs) == st && !SomeChange(st.records.active, evs, r, port, i)
    ensures evs != [] ==>
              && Run(cfg, st, evs) == Run(cfg, Step(cfg, st, evs[0]), evs[1..])
              && Incremental(cfg, evs[1..])
              && evs[0] == Periodic(evs[0].left, true, evs[0].time)
              && QueuesNamed(cfg, evs[0].left) && PlainText(evs[0].time)
              && (SomeChange(st.records.active, evs, r, port, i)
                  <==> Counters(r, st.records.active, port, i) != Counters(r, evs[0].left, port, i)
                       || SomeChange(evs[0].left, evs[1..], r, port, i))
  {
    hide Step, QueuesNamed, PlainText, Counters;
  }

  lemma StepRecords(cfg: Settings, st: State, ev: Event)
    requires cfg.asic.Valid()
    ensures Step(cfg, st, ev).records == RecordsAfter(st.records, ev)
    ensures !ev.Clear? ==> Step(cfg, st, ev).records.active == ev.left
  {
    hide Received, Sent;
  }

  /**
   The records go round even when the collector gets no report, so the change that such a collection brings is
   lost: after any run of incremental reports the collector is right again if and only if the cell changed once more.
   */
  lemma MissedChangeIsLost(cfg: Settings, st: State, left: Snapshot, evs: seq<Event>, r: Realm, port: nat, i: nat)
    requires cfg.asic.Valid() && r.InTable(port, i) && Usable(cfg)
    requires TrackedCell(cfg, r, port, i) && Incremental(cfg, evs)
    requires UpToDate(cfg, st, r, port, i)
    requires Shown(cfg, r, left, port, i) != Shown(cfg, r, st.records.active, port, i)
    ensures forall k | 0 <= k < |evs| :: !evs[k].Clear?
    ensures UpToDate(cfg, Run(cfg, Step(cfg, st, Missed(left)), evs), r, port, i) <==> SomeChange(left, evs, r, port, i)
  {
    hide *;
    IncrementalUnfolds(cfg, st, evs, r, port, i);
    MissedStepIsExact(cfg, st, left, r, port, i);
    StepRecords(cfg, st, Missed(left));
    IncrementalRunIsExact(cfg, Step(cfg, st, Missed(left)), evs, r, port, i);
  }

  // ---------------------------------------------------------------- trigger reports

  /**
   What the encoder is given for a trigger: no previous record, and all tracked realms if snapshots are sent on
   triggers, or else only the realm that triggered.
   */
  function TriggerContext(cfg: Settings, active: Snapshot, info: TriggerInfo, sendSnapshot: bool): Context {
    var included :=
      if sendSnapshot then cfg.tracked
      else match RealmOfName(info.realm) case Some(r) => {r} case None => {};
    Context(None, active,
            Options(included, cfg.statUnitsInCells, cfg.statsInPercentage, false, true, sendSnapshot, info, true),
            cfg.asic, cfg.notation, cfg.maxBuffers)
  }

  /**
   The answer to a trigger of a known realm is a JSON text, unless snapshots are sent on triggers and no realm is
   tracked.
   */
  lemma TriggerReportIsWellFormedIff(cfg: Settings, active: Snapshot, info: TriggerInfo, sendSnapshot: bool,
                                     time: string)
    requires Usable(cfg) && PlainText(time) && PlainText(info.realm) && PlainText(info.counter)
    requires RealmOfName(info.realm).Some?
    ensures (var x := TriggerContext(cfg, active, info, sendSnapshot);
             && x.asic.Valid()
             && (Parse(ReportText(x, Stamp(cfg.asicId.value, time))).Some? <==> (sendSnapshot ==> cfg.tracked != {})))
  {
    var x, stamp := TriggerContext(cfg, active, info, sendSnapshot), Stamp(cfg.asicId.value, time);
    var included := x.options.included;
    hide PlainText, ReportText, Parse, RealmOfName, ReportJson;
    assert Plain(x, stamp) && x.asic.Valid() && x.previous.None? && x.options.reportTrigger;
    ReportIsWellFormedIff(x, stamp);
    assert SomethingReported(x) <==> included != {} by {
      if r :| r in included {
        assert r.Device? || !r.Device?;
      }
    }
    assert !sendSnapshot ==> RealmOfName(info.realm).value in included;
  }

  /** The rows of a place: that of the triggered cell, if the place has the cell and the cell is not zero. */
  function TriggeredRows(x: Context, r: Realm, port: nat): seq<Entry>
    requires x.asic.Valid() && r.HasPort(port)
  {
    var i := x.options.triggerInfo.queue;
    if 0 <= i < r.Count(x.asic) && !AllZero(Counters(r, x.current, port, i)) then [EntryAt(x, r, port, i)] else []
  }

  /** What a trigger report without snapshot says of the realm that triggered. */
  function TriggeredRealm(x: Context, r: Realm): RealmReport
    requires x.asic.Valid()
  {
    if r.Device? then DeviceReport(Values(x, r, x.current, 0, 0)[0])
    else if r.PerPort() then PortReport(r, TriggeredPorts(x, r, x.asic.numPorts))
    else FlatReport(r, TriggeredRows(x, r, 0))
  }

  /** Only the triggered cell can be reported. */
  lemma OneCellEmitted(x: Context, r: Realm, port: nat, i: nat)
    requires x.asic.Valid() && r.InTable(port, i) && !r.Device? && TriggerWithoutSnapshot(x)
    ensures Emitted(x, r, port, i)
       <==> i == x.options.triggerInfo.queue && (r.PerPort() ==> port == x.options.triggerInfo.port)
            && !AllZero(Counters(r, x.current, port, i))
  {
    hide Counters, AllZero;
  }

  predicate TriggerWithoutSnapshot(x: Context) {
    x.previous.None? && x.options.reportTrigger && !x.options.sendSnapShotOnTrigger && x.options.sendIncrementalReport
  }

  lemma OneRow(x: Context, r: Realm, port: nat)
    requires x.asic.Valid() && r.HasPort(port) && !r.Device? && TriggerWithoutSnapshot(x)
    ensures Kept(Cells(x, r, port, r.Count(x.asic)))
         == if r.PerPort() && port != x.options.triggerInfo.port then [] else TriggeredRows(x, r, port)
  {
    var cells := Cells(x, r, port, r.Count(x.asic));
    var q := x.options.triggerInfo.queue;
    forall i: nat | i < |cells|
      ensures cells[i].Some? ==> i == q && (r.PerPort() ==> port == x.options.triggerInfo.port)
      ensures cells[i].Some? ==> !AllZero(Counters(r, x.current, port, i)) && cells[i].value == EntryAt(x, r, port, i)
      ensures i == q && (r.PerPort() ==> port == x.options.triggerInfo.port)
              && !AllZero(Counters(r, x.current, port, i)) ==>
                cells[i].Some?
    {
      OneCellEmitted(x, r, port, i);
      assert cells[i] == Cell(x, r, port, i);
      hide Emitted, EntryAt, Counters;
    }
    hide Emitted, EntryAt, Counters, Cells, AllZero, Kept;
    KeptSingle(cells, q);
  }

  /** Of the ports, the one that triggered alone can have a row. */
  lemma PortTriggered(x: Context, r: Realm, port: nat)
    requires x.asic.Valid() && r.PerPort() && TriggerWithoutSnapshot(x) && 1 <= port <= MAX_PORTS
    ensures PortEmitted(x, r, port) <==> port == x.options.triggerInfo.port && TriggeredRows(x, r, port) != []
    ensures PortEmitted(x, r, port) ==>
              PortEntryOf(x, r, port) == PortEntry(PortName(x.notation, port), TriggeredRows(x, r, port))
  {
    OneRow(x, r, port);
    PortEmittedMeans(x, r, port);
    hide PortEmitted, TriggeredRows, TriggerWithoutSnapshot, Cells, Kept, PortName;
  }

  /** What a trigger report says of the ports up to `n`. */
  function TriggeredPorts(x: Context, r: Realm, n: nat): seq<PortEntry>
    requires x.asic.Valid() && r.PerPort() && n <= x.asic.numPorts
  {
    var p := x.options.triggerInfo.port;
    if 1 <= p <= n && TriggeredRows(x, r, p) != []
    then [PortEntry(PortName(x.notation, p), TriggeredRows(x, r, p))] else []
  }

  lemma NoTriggeredPorts(x: Context, r: Realm)
    requires x.asic.Valid() && r.PerPort()
    ensures TriggeredPorts(x, r, 0) == []
  {
  }

  lemma TriggeredPortsStep(x: Context, r: Realm, n: nat)
    requires x.asic.Valid() && r.PerPort() && TriggerWithoutSnapshot(x) && n < x.asic.numPorts
    ensures n + 1 <= MAX_PORTS
    ensures TriggeredPorts(x, r, n + 1)
         == TriggeredPorts(x, r, n) + (if PortEmitted(x, r, n + 1) then [PortEntryOf(x, r, n + 1)] else [])
  {
    PortTriggered(x, r, n + 1);
    hide PortEmitted, PortEntryOf, TriggeredRows, TriggerWithoutSnapshot, PortName;
  }

  lemma {:induction false} OnePort(x: Context, r: Realm, n: nat)
    requires x.asic.Valid() && r.PerPort() && TriggerWithoutSnapshot(x) && n <= x.asic.numPorts
    ensures n <= MAX_PORTS && Kept(PortObjects(x, r, n)) == TriggeredPorts(x, r, n)
  {
    hide *;
    NoPorts(x, r);
    if n == 0 {
      NoTriggeredPorts(x, r);
    } else {
      OnePort(x, r, n - 1);
      PortsStep(x, r, n - 1);
      TriggeredPortsStep(x, r, n - 1);
    }
  }

  lemma OneObject(x: Context, r: Realm)
    requires x.asic.Valid() && TriggerWithoutSnapshot(x)
    ensures ReportOf(x, r) == TriggeredRealm(x, r)
  {
    if r.PerPort() {
      OnePort(x, r, x.asic.numPorts);
    } else if !r.Device? {
      OneRow(x, r, 0);
    }
    hide TriggeredRows, TriggeredPorts, PortObjects, Kept, Cells, Values, TriggerWithoutSnapshot;
  }

  /** Of different realms, a report that includes one has that one's object. */
  lemma {:induction false} OneRealm(x: Context, rs: seq<Realm>, r: Realm)
    requires x.asic.Valid() && x.options.included == {r} && Reported(x, r)
    requires forall a, b | 0 <= a < b < |rs| :: rs[a] != rs[b]
    ensures Selected(x, rs) == if r in rs then [ReportOf(x, r)] else []
  {
    if rs == [] {
      assert Selected(x, rs) == [];
    } else {
      var init, last := rs[..|rs| - 1], rs[|rs| - 1];
      assert rs == init + [last];
      OneRealm(x, init, r);
      SelectedSnoc(x, init, last);
      assert Reported(x, last) <==> last == r;
      hide Selected, ReportOf, Reported;
      assert r in init ==> last != r;
    }
  }

  /** A trigger report without snapshot is one object, of the realm that triggered, with at most the triggered cell. */
  lemma TriggerReportCarriesOneCell(cfg: Settings, active: Snapshot, info: TriggerInfo, r: Realm)
    requires cfg.asic.Valid() && RealmOfName(info.realm) == Some(r)
    ensures TriggerContext(cfg, active, info, false).asic.Valid()
    ensures Selected(TriggerContext(cfg, active, info, false), REPORT_ORDER)
         == [TriggeredRealm(TriggerContext(cfg, active, info, false), r)]
  {
    var x := TriggerContext(cfg, active, info, false);
    assert TriggerWithoutSnapshot(x) && x.options.included == {r} && x.asic.Valid() && Reported(x, r);
    hide *;
    ReportOrderIsDistinct();
    EveryRealmIsOrdered(r);
    OneRealm(x, REPORT_ORDER, r);
    OneObject(x, r);
  }
}
