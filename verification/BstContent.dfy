/**
 What a report says, member by member: header, realms, rows and units, in the words of the configuration, the
 capabilities and the snapshots alone. Nothing here goes through the tables that drive the encoder.
 */
module BstContent {
  import opened Wrappers
  import opened Json
  import opened BstData
  import opened BstSelect
  import opened BstText
  import opened BstParse
  import opened BstView
  import opened BstEncoder
  import opened BstReport
  import opened BstRun

  // ---------------------------------------------------------------- the header

  /** The members that every report starts with. */
  predicate SaysHead(ms: seq<Member>, methodName: string, asicId: string, time: string) {
    && |ms| >= 5
    && ms[0] == Member("jsonrpc", Str("2.0"))
    && ms[1] == Member("method", Str(methodName))
    && ms[2] == Member("asic-id", Str(asicId))
    && ms[3] == Member("version", Str("2"))
    && ms[4] == Member("time-stamp", Str(time))
  }

  /** The header of a report that is not a trigger report. */
  lemma HeaderSays(x: Context, stamp: Stamp)
    requires !x.options.reportTrigger
    ensures (var ms := FieldMembers(HeadFields(x, stamp));
             && |ms| == 5
             && SaysHead(ms, if x.options.reportThreshold then "get-bst-thresholds" else "get-bst-report",
                         stamp.asicId, stamp.time))
  {
    VersionIsTwo();
    hide IntText;
  }

  lemma VersionIsTwo()
    ensures IntText(JSON_VERSION) == "2"
  {
  }

  /** The members that locate a trigger, by the name of its realm; none for a name that is no realm's. */
  function TriggerPlace(realm: string, port: string, queue: int): Option<seq<Member>> {
    match realm
    case "device" => Some([])
    case "ingress-service-pool" => Some([Member("service-pool", Num(queue))])
    case "ingress-port-service-pool" => Some([Member("port", Str(port)), Member("service-pool", Num(queue))])
    case "ingress-port-priority-group" => Some([Member("port", Str(port)), Member("priority-group", Num(queue))])
    case "egress-port-service-pool" => Some([Member("port", Str(port)), Member("service-pool", Num(queue))])
    case "egress-service-pool" => Some([Member("service-pool", Num(queue))])
    case "egress-uc-queue" => Some([Member("queue", Num(queue))])
    case "egress-uc-queue-group" => Some([Member("queue-group", Num(queue))])
    case "egress-mc-queue" => Some([Member("queue", Num(queue))])
    case "egress-cpu-queue" => Some([Member("queue", Num(queue))])
    case "egress-rqe-queue" => Some([Member("queue", Num(queue))])
    case _ => None
  }

  /** The realms by their names. */
  predicate Names(r: Realm, name: string) {
    match r
    case Device => name == "device"
    case IngressPortPriorityGroup => name == "ingress-port-priority-group"
    case IngressPortServicePool => name == "ingress-port-service-pool"
    case IngressServicePool => name == "ingress-service-pool"
    case EgressCpuQueue => name == "egress-cpu-queue"
    case EgressMcQueue => name == "egress-mc-queue"
    case EgressPortServicePool => name == "egress-port-service-pool"
    case EgressRqeQueue => name == "egress-rqe-queue"
    case EgressServicePool => name == "egress-service-pool"
    case EgressUcQueue => name == "egress-uc-queue"
    case EgressUcQueueGroup => name == "egress-uc-queue-group"
  }

  /** A name is read as exactly the realm that it names. */
  lemma NamesAreRead(r: Realm, name: string)
    ensures RealmOfName(name) == Some(r) <==> Names(r, name)
  {
    RealmOfNameInverts(r);
    assert Names(r, r.Name());
    if RealmOfName(name) == Some(r) {
      RealmOfNameMeans(name);
    }
  }

  lemma RealmOfNameMeans(name: string)
    ensures RealmOfName(name).Some? ==> RealmOfName(name).value.Name() == name
  {
  }

  /** The name of a realm that is located by a port. */
  predicate NamesPortRealm(realm: string) {
    || realm == "ingress-port-service-pool"
    || realm == "ingress-port-priority-group"
    || realm == "egress-port-service-pool"
  }

  /** The external name of the port in a trigger, if it has one. */
  function TriggerPort(x: Context): string {
    var port := x.options.triggerInfo.port;
    if port in x.notation then x.notation[port] else ""
  }

  lemma PlaceOfTrigger(x: Context, r: Realm)
    requires Names(r, x.options.triggerInfo.realm)
    ensures (var info := x.options.triggerInfo;
             Some(FieldMembers(TriggerFields(x, r))[2..]) == TriggerPlace(info.realm, TriggerPort(x), info.queue))
    ensures |TriggerFields(x, r)| >= 2
    ensures FieldMembers(TriggerFields(x, r))[..2]
         == [Member("realm", Str(x.options.triggerInfo.realm)), Member("counter", Str(x.options.triggerInfo.counter))]
    ensures "port" in Indices(r) <==> NamesPortRealm(x.options.triggerInfo.realm)
  {
    var indices, ms := Indices(r), FieldMembers(TriggerFields(x, r));
    assert |indices| == 0 ==> ms[2..] == [];
    assert |indices| == 1 ==> ms[2..] == [Member(indices[0], IndexField(x, indices[0]).value)];
    assert |indices| == 2 ==>
        ms[2..] == [Member(indices[0], IndexField(x, indices[0]).value),
                    Member(indices[1], IndexField(x, indices[1]).value)];
    PortIsIndex(r, x.options.triggerInfo.realm);
  }

  lemma PortIsIndex(r: Realm, realm: string)
    requires Names(r, realm)
    ensures "port" in Indices(r) <==> NamesPortRealm(realm)
    ensures |Indices(r)| <= 2
    ensures forall i | 0 <= i < |Indices(r)| :: Indices(r)[i] == "port" <==> NamesPortRealm(realm) && i == 0
  {
    if r.PerPort() {
      assert Indices(r)[0] == "port";
    }
  }

  lemma FieldMembersConcat(a: seq<Field>, b: seq<Field>)
    ensures FieldMembers(a + b) == FieldMembers(a) + FieldMembers(b)
  {
  }

  /** The header of a trigger report names realm, counter and place of the trigger. */
  lemma TriggerHeaderSays(x: Context, stamp: Stamp)
    requires x.options.reportTrigger
    ensures (var info, ms := x.options.triggerInfo, FieldMembers(HeadFields(x, stamp));
             && |ms| >= 5
             && SaysHead(ms, "trigger-report", stamp.asicId, stamp.time)
             && (TriggerPlace(info.realm, TriggerPort(x), info.queue).Some? ==>
                   ms[5..] == [Member("realm", Str(info.realm)), Member("counter", Str(info.counter))]
                              + TriggerPlace(info.realm, TriggerPort(x), info.queue).value))
  {
    var info := x.options.triggerInfo;
    var common := CommonFields("trigger-report", stamp);
    VersionIsTwo();
    assert SaysHead(FieldMembers(common), "trigger-report", stamp.asicId, stamp.time);
    match RealmOfName(info.realm)
    case None =>
      PlaceIsKnown(info.realm, TriggerPort(x), info.queue);
      assert HeadFields(x, stamp) == common;
    case Some(r) =>
      NamesAreRead(r, info.realm);
      PlaceOfTrigger(x, r);
      FieldMembersConcat(common, TriggerFields(x, r));
      hide TriggerFields, TriggerPlace, TriggerPort;
      assert HeadFields(x, stamp) == common + TriggerFields(x, r);
      var ms := FieldMembers(TriggerFields(x, r));
      assert ms == ms[..2] + ms[2..];
  }

  lemma PlaceIsKnown(realm: string, port: string, queue: int)
    ensures TriggerPlace(realm, port, queue).Some? <==> RealmOfName(realm).Some?
  {
    forall r: Realm {
      NamesAreRead(r, realm);
    }
    hide RealmOfName;
    if TriggerPlace(realm, port, queue).Some? {
      assert exists r: Realm :: Names(r, realm) by {
        PlaceIsNamed(realm, port, queue);
      }
    }
    if RealmOfName(realm).Some? {
      assert Names(RealmOfName(realm).value, realm);
    }
  }

  lemma PlaceIsNamed(realm: string, port: string, queue: int)
    requires TriggerPlace(realm, port, queue).Some?
    ensures exists r: Realm :: Names(r, realm)
  {
    var r :=
      match realm
      case "device" => Device
      case "ingress-service-pool" => IngressServicePool
      case "ingress-port-service-pool" => IngressPortServicePool
      case "ingress-port-priority-group" => IngressPortPriorityGroup
      case "egress-port-service-pool" => EgressPortServicePool
      case "egress-service-pool" => EgressServicePool
      case "egress-uc-queue" => EgressUcQueue
      case "egress-uc-queue-group" => EgressUcQueueGroup
      case "egress-mc-queue" => EgressMcQueue
      case "egress-cpu-queue" => EgressCpuQueue
      case _ => EgressRqeQueue;
    assert Names(r, realm);
  }

  // ---------------------------------------------------------------- the unit

  /** `n` is a buffer count of `v` in the unit that the configuration asks for. */
  predicate InUnit(cfg: Settings, v: uint64, maxBuf: uint64, n: int) {
    if cfg.statsInPercentage then
      if maxBuf == 0 then n == 0
      else
        var product := 100 * v % 0x1_0000_0000_0000_0000;
        2 * maxBuf * n <= 2 * product + maxBuf < 2 * maxBuf * (n + 1)
    else if cfg.statUnitsInCells then cfg.asic.cellToByteConv * n <= v < cfg.asic.cellToByteConv * (n + 1)
    else n == v
  }

  /** Reports and answers are in the configured unit. */
  lemma ReportIsInUnit(cfg: Settings, rs: Records, ev: BstRun.Event, v: uint64, maxBuf: uint64)
    requires cfg.asic.Valid() && (ev.Periodic? || ev.Get?)
    ensures InUnit(cfg, v, maxBuf, Convert(ContextOf(cfg, rs, ev).options, cfg.asic, v, maxBuf))
  {
    UnitMeans(ContextOf(cfg, rs, ev).options, cfg.asic, v, maxBuf);
  }

  /** So are trigger reports. */
  lemma TriggerReportIsInUnit(cfg: Settings, active: Snapshot, info: TriggerInfo, sendSnapshot: bool, v: uint64,
                              maxBuf: uint64)
    requires cfg.asic.Valid()
    ensures InUnit(cfg, v, maxBuf,
                   Convert(TriggerContext(cfg, active, info, sendSnapshot).options, cfg.asic, v, maxBuf))
  {
    UnitMeans(TriggerContext(cfg, active, info, sendSnapshot).options, cfg.asic, v, maxBuf);
  }

  /** The columns that count queue entries, not bytes. */
  predicate CountsEntries(r: Realm, column: nat) {
    || ((r.EgressCpuQueue? || r.EgressMcQueue? || r.EgressRqeQueue?) && column == 1)
    || (r.EgressServicePool? && column == 2)
  }

  /** What an up-to-date collector shows: queue entries as they are, and all else in the configured unit. */
  lemma ShownIsInUnit(cfg: Settings, r: Realm, s: Snapshot, port: nat, i: nat, column: nat)
    requires cfg.asic.Valid() && r.InTable(port, i) && column < r.Printed()
    ensures (var v, n := Counters(r, s, port, i)[column], Shown(cfg, r, s, port, i)[column];
             if CountsEntries(r, column) then n == v
             else InUnit(cfg, v, Counters(r, cfg.maxBuffers, port, i)[column], n))
  {
    var v, m := Counters(r, s, port, i)[column], Counters(r, cfg.maxBuffers, port, i)[column];
    hide Counters;
    var o := ReportOptions(cfg, {}, false);
    UnitMeans(o, cfg.asic, v, m);
    assert Shown(cfg, r, s, port, i)[column] == if r.Converted(column) then Convert(o, cfg.asic, v, m) else v;
    hide Convert;
  }

  // ---------------------------------------------------------------- which cells

  predicate NonZero(c: seq<uint64>) {
    exists j :: 0 <= j < |c| && c[j] != 0
  }

  /**
   A periodic report carries every cell if it is complete, and otherwise those that changed since the collection
   before.
   */
  lemma PeriodicCarriesIff(cfg: Settings, rs: Records, ev: BstRun.Event, r: Realm, port: nat, i: nat)
    requires r.InTable(port, i) && ev.Periodic?
    ensures Emitted(ContextOf(cfg, rs, ev), r, port, i)
       <==> (ev.incremental ==> Counters(r, rs.backup, port, i) != Counters(r, rs.active, port, i))
  {
    hide Counters;
  }

  /** The answer to a request carries the cells that are not zero, and the device counter always. */
  lemma AnswerCarriesIff(cfg: Settings, rs: Records, ev: BstRun.Event, r: Realm, port: nat, i: nat)
    requires r.InTable(port, i) && ev.Get?
    ensures Emitted(ContextOf(cfg, rs, ev), r, port, i) <==> r.Device? || NonZero(Counters(r, rs.active, port, i))
  {
    hide Counters;
  }

  /**
   A trigger report carries the cells that are not zero, of the triggered cell alone unless snapshots are sent on
   triggers, and the device counter always.
   */
  lemma TriggerCarriesIff(cfg: Settings, active: Snapshot, info: TriggerInfo, sendSnapshot: bool, r: Realm, port: nat,
                          i: nat)
    requires r.InTable(port, i)
    ensures Emitted(TriggerContext(cfg, active, info, sendSnapshot), r, port, i)
       <==> || r.Device?
            || (&& NonZero(Counters(r, active, port, i))
                && (sendSnapshot || (i == info.queue && (r.PerPort() ==> port == info.port))))
  {
    hide Counters;
  }

  // ---------------------------------------------------------------- which realms

  function ReportedRealm(x: Context, r: Realm): seq<Realm> {
    if r in x.options.included && (r.Device? && x.previous.Some? ==> x.current.device != x.previous.value.device)
    then [r] else []
  }

  /** The realms asked for, in report order; the device only if its counter is new. */
  function ReportedRealms(x: Context): seq<Realm> {
    ReportedRealm(x, Device)
    + ReportedRealm(x, IngressPortPriorityGroup) + ReportedRealm(x, IngressPortServicePool)
    + ReportedRealm(x, IngressServicePool)
    + ReportedRealm(x, EgressCpuQueue) + ReportedRealm(x, EgressMcQueue) + ReportedRealm(x, EgressPortServicePool)
    + ReportedRealm(x, EgressRqeQueue) + ReportedRealm(x, EgressServicePool) + ReportedRealm(x, EgressUcQueue)
    + ReportedRealm(x, EgressUcQueueGroup)
  }

  /** The objects are those of the realms `rs`. */
  predicate ObjectsOf(objects: seq<RealmReport>, x: Context, rs: seq<Realm>)
    requires x.asic.Valid()
  {
    |objects| == |rs| && forall k | 0 <= k < |rs| :: objects[k] == ReportOf(x, rs[k])
  }

  lemma ObjectsInOrder(x: Context)
    requires x.asic.Valid()
    ensures ObjectsOf(Selected(x, REPORT_ORDER), x, ReportedRealms(x))
  {
    hide *;
    ReportOrderIsDistinct();
    var rs := REPORT_ORDER;
    NothingSelected(x);
    assert rs[..0] == [] && rs[..11] == rs;
    var r1 := NextObject(x, rs, 0, []);
    var r2 := NextObject(x, rs, 1, r1);
    var r3 := NextObject(x, rs, 2, r2);
    var r4 := NextObject(x, rs, 3, r3);
    var r5 := NextObject(x, rs, 4, r4);
    var r6 := NextObject(x, rs, 5, r5);
    var r7 := NextObject(x, rs, 6, r6);
    var r8 := NextObject(x, rs, 7, r7);
    var r9 := NextObject(x, rs, 8, r8);
    var r10 := NextObject(x, rs, 9, r9);
    var r11 := NextObject(x, rs, 10, r10);
    RealmsAre(x);
    assert r1 == ReportedRealm(x, Device);
  }

  lemma RealmsAre(x: Context)
    ensures ReportedRealms(x)
         == ReportedRealm(x, Device)
            + ReportedRealm(x, IngressPortPriorityGroup) + ReportedRealm(x, IngressPortServicePool)
            + ReportedRealm(x, IngressServicePool)
            + ReportedRealm(x, EgressCpuQueue) + ReportedRealm(x, EgressMcQueue)
            + ReportedRealm(x, EgressPortServicePool) + ReportedRealm(x, EgressRqeQueue)
            + ReportedRealm(x, EgressServicePool) + ReportedRealm(x, EgressUcQueue)
            + ReportedRealm(x, EgressUcQueueGroup)
  {
    hide ReportedRealm;
  }

  lemma NothingSelected(x: Context)
    requires x.asic.Valid()
    ensures Selected(x, []) == [] && ObjectsOf([], x, [])
  {
  }

  lemma NextObject(x: Context, rs: seq<Realm>, k: nat, before: seq<Realm>) returns (after: seq<Realm>)
    requires x.asic.Valid() && k < |rs| && ObjectsOf(Selected(x, rs[..k]), x, before)
    ensures after == before + ReportedRealm(x, rs[k]) && ObjectsOf(Selected(x, rs[..k + 1]), x, after)
  {
    hide ReportOf, Selected;
    assert rs[..k + 1] == rs[..k] + [rs[k]];
    SelectedSnoc(x, rs[..k], rs[k]);
    after := before + ReportedRealm(x, rs[k]);
  }

  /** A report is about the active record, and asks for the realms tracked, or requested, or the one that triggered. */
  lemma ReportIsAbout(cfg: Settings, rs: Records, ev: BstRun.Event, info: TriggerInfo, r: Realm)
    ensures ev.Periodic? ==> (r in ContextOf(cfg, rs, ev).options.included <==> r in cfg.tracked)
    ensures ev.Get? ==> (r in ContextOf(cfg, rs, ev).options.included <==> r in ev.requested)
    ensures r in TriggerContext(cfg, rs.active, info, true).options.included <==> r in cfg.tracked
    ensures r in TriggerContext(cfg, rs.active, info, false).options.included <==> Names(r, info.realm)
    ensures forall x: Context |
              || ((ev.Periodic? || ev.Get?) && x == ContextOf(cfg, rs, ev))
              || x == TriggerContext(cfg, rs.active, info, true)
              || x == TriggerContext(cfg, rs.active, info, false) ::
                && x.current == rs.active && x.asic == cfg.asic
                && x.maxBuffers == cfg.maxBuffers && x.notation == cfg.notation
  {
    NamesAreRead(r, info.realm);
    hide RealmOfName, Names;
  }

  // ---------------------------------------------------------------- what an object says

  /** The indices below `n` that are reported, in ascending order. */
  function ReportedIndices(x: Context, r: Realm, port: nat, n: nat): seq<nat>
    requires x.asic.Valid() && r.HasPort(port) && n <= r.Count(x.asic)
  {
    if n == 0 then [] else ReportedIndices(x, r, port, n - 1) + (if Emitted(x, r, port, n - 1) then [n - 1] else [])
  }

  lemma {:induction false} ReportedIndicesAscend(x: Context, r: Realm, port: nat, n: nat)
    requires x.asic.Valid() && r.HasPort(port) && n <= r.Count(x.asic)
    ensures n <= r.MaxCount()
    ensures (var idx := ReportedIndices(x, r, port, n);
             && (forall k | 0 <= k < |idx| :: idx[k] < n && Emitted(x, r, port, idx[k]))
             && (forall k, l | 0 <= k < l < |idx| :: idx[k] < idx[l])
             && (forall i: nat | i < n && Emitted(x, r, port, i) :: i in idx))
  {
    hide Emitted;
    if n > 0 {
      ReportedIndicesAscend(x, r, port, n - 1);
    }
  }

  lemma {:induction false} KeptAreIndices(x: Context, r: Realm, port: nat, n: nat)
    requires x.asic.Valid() && r.HasPort(port) && n <= r.Count(x.asic)
    ensures n <= r.MaxCount() && |Kept(Cells(x, r, port, n))| == |ReportedIndices(x, r, port, n)|
    ensures forall k | 0 <= k < |ReportedIndices(x, r, port, n)| ::
              && ReportedIndices(x, r, port, n)[k] < n
              && Kept(Cells(x, r, port, n))[k] == EntryAt(x, r, port, ReportedIndices(x, r, port, n)[k])
  {
    if n == 0 {
      assert Cells(x, r, port, 0) == [];
    } else {
      KeptAreIndices(x, r, port, n - 1);
      CellsSnoc(x, r, port, n - 1);
      hide Emitted, EntryAt, Cells, Kept;
    }
  }

  /** The items are the printed rows of the reported cells of a flat realm, or of one port. */
  predicate SaysRows(items: seq<Json>, x: Context, r: Realm, port: nat)
    requires x.asic.Valid() && r.HasPort(port) && !r.Device?
  {
    var idx := ReportedIndices(x, r, port, r.Count(x.asic));
    && |items| == |idx|
    && forall k | 0 <= k < |items| :: r.InTable(port, idx[k]) && items[k] == Arr(PrintedRow(x, r, port, idx[k]))
  }

  lemma RowsSay(x: Context, r: Realm, port: nat)
    requires x.asic.Valid() && r.HasPort(port) && !r.Device?
    ensures SaysRows(RowsJson(Kept(Cells(x, r, port, r.Count(x.asic)))), x, r, port)
  {
    hide *;
    var n := r.Count(x.asic);
    var idx, es := ReportedIndices(x, r, port, n), Kept(Cells(x, r, port, n));
    KeptAreIndices(x, r, port, n);
    forall k | 0 <= k < |idx| ensures r.InTable(port, idx[k]) && RowJson(es[k]) == Arr(PrintedRow(x, r, port, idx[k])) {
      IndexInTable(x, r, port, idx[k]);
      RowIsPrinted(x, r, port, idx[k]);
    }
    SaysRowsIf(x, r, port, es);
  }

  lemma IndexInTable(x: Context, r: Realm, port: nat, i: nat)
    requires x.asic.Valid() && r.HasPort(port) && i < r.Count(x.asic)
    ensures r.InTable(port, i)
  {
  }

  lemma SaysRowsIf(x: Context, r: Realm, port: nat, es: seq<Entry>)
    requires x.asic.Valid() && r.HasPort(port) && !r.Device?
    requires (var idx := ReportedIndices(x, r, port, r.Count(x.asic));
              && |es| == |idx|
              && forall k | 0 <= k < |idx| ::
                   r.InTable(port, idx[k]) && RowJson(es[k]) == Arr(PrintedRow(x, r, port, idx[k])))
    ensures SaysRows(RowsJson(es), x, r, port)
  {
    hide RowJson, PrintedRow, ReportedIndices;
  }

  /** An object with a name under a key, and data. */
  predicate SaysObject(j: Json, key: string, name: string, data: Json) {
    j == Obj([Member(key, Str(name)), Member("data", data)])
  }

  /** The object of a port: its external name, if it has one, and its rows. */
  predicate SaysPort(j: Json, x: Context, r: Realm, port: nat)
    requires x.asic.Valid() && r.PerPort() && 1 <= port <= MAX_PORTS
  {
    && j.Obj? && |j.members| == 2 && j.members[0].value.Str? && j.members[1].value.Arr?
    && SaysObject(j, "port", j.members[0].value.s, j.members[1].value)
    && (port in x.notation ==> j.members[0].value.s == x.notation[port])
    && SaysRows(j.members[1].value.items, x, r, port)
  }

  /** The object of a realm: its name, and the device counter, or rows, or the objects of the ports with rows. */
  predicate SaysRealm(j: Json, x: Context, r: Realm)
    requires x.asic.Valid()
  {
    && j.Obj? && |j.members| == 2 && j.members[0].value.Str?
    && SaysObject(j, "realm", j.members[0].value.s, j.members[1].value)
    && Names(r, j.members[0].value.s)
    && var data := j.members[1].value;
    if r.Device? then data == Unit(x, x.current.device, x.maxBuffers.device)
    else if r.PerPort() then
      var ports := ReportedPorts(x, r, x.asic.numPorts);
      && data.Arr? && |data.items| == |ports|
      && forall k | 0 <= k < |ports| :: 1 <= ports[k] <= MAX_PORTS && SaysPort(data.items[k], x, r, ports[k])
    else data.Arr? && SaysRows(data.items, x, r, 0)
  }

  lemma PortSays(x: Context, r: Realm, port: nat)
    requires x.asic.Valid() && r.PerPort() && 1 <= port <= MAX_PORTS
    ensures SaysPort(PortJson(PortEntryOf(x, r, port)), x, r, port)
  {
    RowsSay(x, r, port);
    hide SaysRows, RowsJson, Kept, Cells;
    assert PortCells(x, r, port) == Cells(x, r, port, r.Count(x.asic));
  }

  /** The object that a report has for a realm. */
  lemma RealmSays(x: Context, r: Realm)
    requires x.asic.Valid()
    ensures SaysRealm(RealmJson(ReportOf(x, r)), x, r)
  {
    assert Names(r, r.Name());
    if r.PerPort() {
      PortsSay(x, r);
    } else if !r.Device? {
      RowsSay(x, r, 0);
    }
    hide SaysRows, SaysPort, RowsJson, Kept, Cells, PortObjects, ReportedPorts, PortsJson, Names, Counters;
    if r.Device? {
      DeviceIsPrinted(x);
    }
    hide Convert, Values;
  }

  lemma DeviceIsPrinted(x: Context)
    requires x.asic.Valid()
    ensures Num(Values(x, Device, x.current, 0, 0)[0]) == Unit(x, x.current.device, x.maxBuffers.device)
  {
    hide Convert;
  }

  lemma PortsSay(x: Context, r: Realm)
    requires x.asic.Valid() && r.PerPort()
    ensures x.asic.numPorts <= MAX_PORTS
    ensures (var ports := ReportedPorts(x, r, x.asic.numPorts);
             var items := PortsJson(Kept(PortObjects(x, r, x.asic.numPorts)));
             && |items| == |ports|
             && forall k | 0 <= k < |ports| :: 1 <= ports[k] <= MAX_PORTS && SaysPort(items[k], x, r, ports[k]))
  {
    PortsAreInOrder(x, r, x.asic.numPorts);
    hide SaysPort, PortJson, Kept, PortObjects, ReportedPorts, PortEntryOf;
    var ports := ReportedPorts(x, r, x.asic.numPorts);
    forall k | 0 <= k < |ports|
      ensures 1 <= ports[k] <= MAX_PORTS && SaysPort(PortJson(PortEntryOf(x, r, ports[k])), x, r, ports[k])
    {
      PortSays(x, r, ports[k]);
    }
  }

  // ---------------------------------------------------------------- how many rows

  /** A full report without zero suppression, which has every row. */
  predicate CompleteReport(x: Context) {
    x.previous.None? && !x.options.reportTrigger && !x.options.sendIncrementalReport
  }

  /** How many rows a complete report has for a flat realm. */
  lemma FlatRowCounts(x: Context, r: Realm)
    requires x.asic.Valid() && CompleteReport(x) && !r.Device? && !r.PerPort()
    ensures |ReportOf(x, r).entries|
         == match r
            case EgressCpuQueue => x.asic.numCpuQueues
            case EgressMcQueue => x.asic.numMulticastQueues
            case EgressRqeQueue => x.asic.numRqeQueues
            case EgressUcQueue => x.asic.numUnicastQueues
            case EgressUcQueueGroup => x.asic.numUnicastQueueGroups
            case _ => x.asic.numServicePools
  {
    hide Kept, Cells, EntryAt;
    CompleteReportHasEveryRow(x, r, 0);
  }

  /** How many rows a complete report has for each port of a port realm, which has an object for every port. */
  lemma PortRowCounts(x: Context, r: Realm, port: nat)
    requires x.asic.Valid() && r.PerPort() && 1 <= port <= x.asic.numPorts && CompleteReport(x)
    ensures (var n := match r
                      case IngressPortPriorityGroup => x.asic.numPriorityGroups
                      case _ => x.asic.numServicePools;
             && |Kept(PortCells(x, r, port))| == n
             && (n > 0 ==> port in ReportedPorts(x, r, x.asic.numPorts)))
  {
    CompleteReportHasEveryRow(x, r, port);
    ReportedPortsAscend(x, r, x.asic.numPorts);
    PortEmittedMeans(x, r, port);
    hide Kept, Cells, EntryAt, ReportedPorts, PortEmitted;
  }

  // ---------------------------------------------------------------- a snapshot on a trigger

  /** The two reports carry the same cells in the same units. */
  predicate Alike(x: Context, y: Context) {
    && x == y.(options := x.options)
    && x.options.included == y.options.included
    && x.options.statUnitsInCells == y.options.statUnitsInCells
    && x.options.statsInPercentage == y.options.statsInPercentage
    && x.options.reportThreshold == y.options.reportThreshold
    && x.options.sendIncrementalReport == y.options.sendIncrementalReport
    && (x.options.reportTrigger ==> x.options.sendSnapShotOnTrigger)
    && (y.options.reportTrigger ==> y.options.sendSnapShotOnTrigger)
  }

  lemma AlikeCells(x: Context, y: Context, r: Realm, port: nat, n: nat)
    requires x.asic.Valid() && Alike(x, y) && r.HasPort(port) && n <= r.Count(x.asic)
    ensures Cells(x, r, port, n) == Cells(y, r, port, n)
  {
    hide Counters, Values, PortName, AllZero;
    forall i: nat | i < n ensures Cells(x, r, port, n)[i] == Cells(y, r, port, n)[i] {
      AlikeValues(x, y, r, port, i);
    }
  }

  lemma AlikeValues(x: Context, y: Context, r: Realm, port: nat, i: nat)
    requires x.asic.Valid() && Alike(x, y) && r.InTable(port, i)
    ensures Values(x, r, x.current, port, i) == Values(y, r, y.current, port, i)
  {
    hide Counters;
    forall j | 0 <= j < r.Printed() ensures Values(x, r, x.current, port, i)[j] == Values(y, r, y.current, port, i)[j] {
    }
  }

  lemma {:induction false} AlikePorts(x: Context, y: Context, r: Realm, n: nat)
    requires x.asic.Valid() && Alike(x, y) && r.PerPort() && n <= x.asic.numPorts
    ensures n <= MAX_PORTS && PortObjects(x, r, n) == PortObjects(y, r, n)
  {
    if n == 0 {
      assert PortObjects(x, r, 0) == PortObjects(y, r, 0);
    } else {
      AlikePorts(x, y, r, n - 1);
      PortObjectsSnoc(x, r, n - 1);
      PortObjectsSnoc(y, r, n - 1);
      AlikeCells(x, y, r, n, r.Count(x.asic));
      hide PortObjects, Cells, PortObject, PortName;
    }
  }

  lemma {:induction false} AlikeSelected(x: Context, y: Context, rs: seq<Realm>)
    requires x.asic.Valid() && Alike(x, y)
    ensures Selected(x, rs) == Selected(y, rs)
  {
    if rs == [] {
      NothingSelected(x);
      NothingSelected(y);
    } else {
      var n := |rs| - 1;
      assert rs == rs[..n] + [rs[n]];
      AlikeSelected(x, y, rs[..n]);
      SelectedSnoc(x, rs[..n], rs[n]);
      SelectedSnoc(y, rs[..n], rs[n]);
      AlikeReports(x, y, rs[n]);
      hide Selected, ReportOf, Reported, Alike;
    }
  }

  lemma AlikeReports(x: Context, y: Context, r: Realm)
    requires x.asic.Valid() && Alike(x, y)
    ensures ReportOf(x, r) == ReportOf(y, r) && (Reported(x, r) <==> Reported(y, r))
  {
    if r.PerPort() {
      AlikePorts(x, y, r, x.asic.numPorts);
    } else {
      AlikeCells(x, y, r, 0, r.Count(x.asic));
      AlikeValues(x, y, r, 0, 0);
    }
    hide Kept, Cells, PortObjects, Values, Counters, AllZero;
  }

  /** A snapshot sent on a trigger is what a request for the tracked realms would be answered with. */
  lemma SnapshotIsAnswer(cfg: Settings, rs: Records, info: TriggerInfo, ev: BstRun.Event)
    requires cfg.asic.Valid() && ev.Get? && ev.requested == cfg.tracked
    ensures Selected(TriggerContext(cfg, rs.active, info, true), REPORT_ORDER)
         == Selected(ContextOf(cfg, rs, ev), REPORT_ORDER)
  {
    var x, y := TriggerContext(cfg, rs.active, info, true), ContextOf(cfg, rs, ev);
    assert Alike(x, y) && x.asic == cfg.asic;
    hide *;
    AlikeSelected(x, y, REPORT_ORDER);
  }

  // ---------------------------------------------------------------- reports that cannot be encoded

  /** Every port that the report prints has an external name. */
  ghost predicate PrintedPortsNamed(x: Context)
    requires x.asic.Valid()
  {
    && (forall r: Realm, port: nat, i: nat ::
          r in x.options.included && r.PerPort() && r.Has(x.asic, port, i) && Emitted(x, r, port, i) ==>
            port in x.notation)
    && (EgressMcQueue in x.options.included ==>
          forall i: nat | i < x.asic.numMulticastQueues && Emitted(x, EgressMcQueue, 0, i) ::
            x.current.eMcQ[i].port in x.notation)
    && (EgressUcQueue in x.options.included ==>
          forall i: nat | i < x.asic.numUnicastQueues && Emitted(x, EgressUcQueue, 0, i) ::
            x.current.eUcQ[i].port in x.notation)
  }

  lemma RealmNamedIff(x: Context, r: Realm)
    requires x.asic.Valid()
    ensures RealmNamed(x, r)
       <==> || r !in x.options.included
            || (if r.PerPort() then
                  forall port: nat, i: nat :: r.Has(x.asic, port, i) && Emitted(x, r, port, i) ==> port in x.notation
                else if r.NamesPort() then
                  forall i: nat | i < r.Count(x.asic) && Emitted(x, r, 0, i) :: QueuePort(r, x.current, i) in x.notation
                else true)
  {
    hide Emitted;
  }

  lemma PortsNamedParts(x: Context)
    requires x.asic.Valid()
    ensures PrintedPortsNamed(x) <==> forall r: Realm :: r.Device? || RealmNamed(x, r)
  {
    forall r: Realm {
      RealmNamedIff(x, r);
    }
    hide Emitted, RealmNamed;
    if forall r: Realm :: r.Device? || RealmNamed(x, r) {
      assert RealmNamed(x, EgressMcQueue) && RealmNamed(x, EgressUcQueue);
    }
  }

  lemma AllNamedMeans(x: Context)
    requires x.asic.Valid()
    ensures AllNamed(x, INGRESS_ORDER) && AllNamed(x, EGRESS_ORDER)
       <==> forall r: Realm :: r.Device? || RealmNamed(x, r)
  {
    NoDeviceInGroups();
    forall r: Realm {
      EveryRealmIsOrdered(r);
    }
    hide RealmNamed;
    assert REPORT_ORDER == [Device] + (INGRESS_ORDER + EGRESS_ORDER);
    if AllNamed(x, INGRESS_ORDER) && AllNamed(x, EGRESS_ORDER) {
      forall r: Realm | !r.Device? ensures RealmNamed(x, r) {
        assert r in INGRESS_ORDER || r in EGRESS_ORDER;
      }
    }
  }

  /**
   A report is encoded if and only if the ASIC has a name, a trigger is of a known realm and of a named port if its
   realm has ports, and every port that is printed has a name.
   */
  lemma EncodesIff(x: Context, asicId: Option<string>)
    requires x.asic.Valid()
    ensures (var info := x.options.triggerInfo;
             ReportStatus(x, asicId).Success?
             <==> && asicId.Some?
                  && (x.options.reportTrigger ==>
                        && TriggerPlace(info.realm, "", 0).Some?
                        && (NamesPortRealm(info.realm) ==> info.port in x.notation))
                  && PrintedPortsNamed(x))
    ensures (var info := x.options.triggerInfo;
             ReportStatus(x, asicId).InvalidParameter?
             <==> asicId.Some? && x.options.reportTrigger && TriggerPlace(info.realm, "", 0).None?)
  {
    StatusMeans(x, asicId);
    PortsNamedParts(x);
    AllNamedMeans(x);
    HeadStatusMeans(x);
    hide PrintedPortsNamed, AllNamed, RealmNamed, TriggerPlace, HeadStatus, ReportStatus;
  }

  lemma HeadStatusMeans(x: Context)
    ensures (var info := x.options.triggerInfo;
             HeadStatus(x)
             == if x.options.reportTrigger && TriggerPlace(info.realm, "", 0).None? then Status.InvalidParameter
                else if x.options.reportTrigger && NamesPortRealm(info.realm) && info.port !in x.notation
                then Status.InvalidJson
                else Status.Success)
  {
    var realm := x.options.triggerInfo.realm;
    PlaceIsKnown(realm, "", 0);
    hide TriggerPlace, RealmOfName, Indices;
    if RealmOfName(realm).Some? {
      NamesAreRead(RealmOfName(realm).value, realm);
      PlaceOfTrigger(x, RealmOfName(realm).value);
    }
  }

  // ---------------------------------------------------------------- templates

  /** The texts of the values of a row. */
  function Texts(values: seq<int>): (texts: seq<string>)
    ensures |texts| == |values|
  {
    seq(|values|, j requires 0 <= j < |values| => IntText(values[j]))
  }

  lemma {:induction false} ColumnsOfThree(r: Realm, values: seq<int>)
    requires |values| <= 3
    ensures Columns(r, values, |values|)
         == match |values|
            case 0 => ""
            case 1 => Separator(r, 0) + IntText(values[0])
            case 2 => Separator(r, 0) + IntText(values[0]) + Separator(r, 1) + IntText(values[1])
            case _ => Separator(r, 0) + IntText(values[0]) + Separator(r, 1) + IntText(values[1])
                      + Separator(r, 2) + IntText(values[2])
  {
    hide IntText, Separator;
    assert Columns(r, values, 0) == "";
    if |values| > 0 {
      assert Columns(r, values, 1) == Separator(r, 0) + IntText(values[0]);
    }
    if |values| > 1 {
      assert Columns(r, values, 2) == Columns(r, values, 1) + (Separator(r, 1) + IntText(values[1]));
    }
    if |values| > 2 {
      assert Columns(r, values, 3) == Columns(r, values, 2) + (Separator(r, 2) + IntText(values[2]));
    }
  }

  /** The counters of a row, as the template of its realm prints them. */
  lemma ColumnsAreTemplate(r: Realm, values: seq<int>)
    requires !r.Device? && |values| == r.Printed()
    ensures (var v := Texts(values);
             Columns(r, values, |values|)
             == match r
                case IngressPortPriorityGroup => " , " + v[0] + " , " + v[1]
                case EgressCpuQueue => " , " + v[0] + ", " + v[1]
                case EgressRqeQueue => " , " + v[0] + ", " + v[1]
                case EgressMcQueue => " ,  " + v[0] + ", " + v[1]
                case EgressPortServicePool => " , " + v[0] + " , " + v[1] + " , " + v[2]
                case EgressServicePool => " , " + v[0] + " , " + v[1] + ", " + v[2]
                case _ => " , " + v[0])
  {
    hide IntText, Columns;
    ColumnsOfThree(r, values);
  }

  /** A row, as the template of its realm prints it. */
  lemma RowIsTemplate(r: Realm, e: Entry)
    ensures RowText(r, e)
         == " [  " + IntText(e.index) + (if e.port.Some? then " , \"" + e.port.value + "\"" else "")
            + Columns(r, e.values, |e.values|) + " ] ,"
  {
    hide IntText, Columns;
    if e.port.Some? {
      assert PortColumn(e.port) == " , \"" + e.port.value + "\"";
    }
    ConcatAssociative(" [  " + IntText(e.index) + PortColumn(e.port) + Columns(r, e.values, |e.values|), " ]", " ,");
    assert " ]" + " ," == " ] ,";
  }

  // ---------------------------------------------------------------- whole reports

  /** The objects `items` are those of the realms asked for, in report order, each saying what it has to say. */
  predicate SaysRealms(items: seq<Json>, x: Context)
    requires x.asic.Valid()
  {
    var rs := ReportedRealms(x);
    |items| == |rs| && forall k | 0 <= k < |rs| :: SaysRealm(items[k], x, rs[k])
  }

  lemma RealmsSay(x: Context)
    requires x.asic.Valid()
    ensures SaysRealms(RealmsJson(Selected(x, REPORT_ORDER)), x)
  {
    ObjectsInOrder(x);
    hide Selected, SaysRealm, RealmJson, ReportOf, ReportedRealms;
    var rs := ReportedRealms(x);
    forall k | 0 <= k < |rs| ensures SaysRealm(RealmJson(ReportOf(x, rs[k])), x, rs[k]) {
      RealmSays(x, rs[k]);
    }
  }

  /** The text is one JSON object: the members `head`, and the realms under the key "report". */
  predicate SaysReport(text: string, head: seq<Member>, x: Context)
    requires x.asic.Valid()
  {
    match Parse(text)
    case Some(Obj(ms)) =>
      && |ms| == |head| + 1
      && ms[..|head|] == head
      && ms[|head|].key == "report"
      && ms[|head|].value.Arr?
      && SaysRealms(ms[|head|].value.items, x)
    case _ => false
  }

  lemma ReportSays(x: Context, stamp: Stamp)
    requires x.asic.Valid() && Plain(x, stamp) && (!x.options.reportTrigger || SomethingReported(x))
    ensures SaysReport(ReportText(x, stamp), FieldMembers(HeadFields(x, stamp)), x)
  {
    ReportIsWellFormedIff(x, stamp);
    RealmsSay(x);
    hide Parse, ReportText, SaysRealms, RealmsJson, Selected, FieldMembers, HeadFields, Plain, SomethingReported;
    var head := FieldMembers(HeadFields(x, stamp));
    assert (head + [Member("report", Arr(RealmsJson(Selected(x, REPORT_ORDER))))])[..|head|] == head;
  }

  /** The members that a report or an answer starts with. */
  function ReportHead(asicId: string, time: string): seq<Member> {
    [Member("jsonrpc", Str("2.0")), Member("method", Str("get-bst-report")), Member("asic-id", Str(asicId)),
     Member("version", Str("2")), Member("time-stamp", Str(time))]
  }

  /** What is sent for a report or an answer. */
  lemma SentSays(cfg: Settings, rs: Records, ev: BstRun.Event)
    requires Usable(cfg) && (ev.Periodic? || ev.Get?) && QueuesNamed(cfg, rs.active) && PlainText(ev.time)
    ensures (var x := ContextOf(cfg, rs, ev);
             && x.asic.Valid()
             && Sent(cfg, rs, ev).Some?
             && cfg.asicId.Some?
             && SaysReport(Sent(cfg, rs, ev).value, ReportHead(cfg.asicId.value, ev.time), x))
  {
    hide *;
    UsableMeans(cfg);
    var x, stamp := ContextOf(cfg, rs, ev), Stamp(cfg.asicId.value, ev.time);
    ContextFacts(cfg, rs, ev, Device, 0);
    NoThreshold(cfg, rs, ev);
    ReportIsSent(cfg, rs, ev);
    ReportSays(x, stamp);
    HeaderSays(x, stamp);
    HeadIs(FieldMembers(HeadFields(x, stamp)), cfg.asicId.value, ev.time);
  }

  lemma NoThreshold(cfg: Settings, rs: Records, ev: BstRun.Event)
    requires ev.Periodic? || ev.Get?
    ensures !ContextOf(cfg, rs, ev).options.reportThreshold
  {
  }

  lemma HeadIs(ms: seq<Member>, asicId: string, time: string)
    requires |ms| == 5 && SaysHead(ms, "get-bst-report", asicId, time)
    ensures ms == ReportHead(asicId, time)
  {
  }

  /** The members that a trigger report starts with. */
  function TriggerHead(asicId: string, time: string, info: TriggerInfo, place: seq<Member>): seq<Member> {
    [Member("jsonrpc", Str("2.0")), Member("method", Str("trigger-report")), Member("asic-id", Str(asicId)),
     Member("version", Str("2")), Member("time-stamp", Str(time)),
     Member("realm", Str(info.realm)), Member("counter", Str(info.counter))]
    + place
  }

  /** What is sent for a trigger of a known realm, if it includes a realm at all. */
  lemma TriggerReportSays(cfg: Settings, active: Snapshot, info: TriggerInfo, sendSnapshot: bool, time: string)
    requires Usable(cfg) && PlainText(time) && PlainText(info.realm) && PlainText(info.counter)
    requires TriggerPlace(info.realm, "", 0).Some? && (sendSnapshot ==> cfg.tracked != {})
    ensures (var x := TriggerContext(cfg, active, info, sendSnapshot);
             var place := TriggerPlace(info.realm, TriggerPort(x), info.queue);
             && x.asic.Valid() && cfg.asicId.Some? && place.Some?
             && SaysReport(ReportText(x, Stamp(cfg.asicId.value, time)),
                           TriggerHead(cfg.asicId.value, time, info, place.value), x))
  {
    hide *;
    UsableMeans(cfg);
    var x, stamp := TriggerContext(cfg, active, info, sendSnapshot), Stamp(cfg.asicId.value, time);
    PlaceIsKnown(info.realm, "", 0);
    PlaceIsKnown(info.realm, TriggerPort(x), info.queue);
    TriggerContextFacts(cfg, active, info, sendSnapshot, time);
    ReportSays(x, stamp);
    TriggerHeaderSays(x, stamp);
    TriggerHeadIs(FieldMembers(HeadFields(x, stamp)), cfg.asicId.value, time, info,
                  TriggerPlace(info.realm, TriggerPort(x), info.queue).value);
  }

  lemma TriggerContextFacts(cfg: Settings, active: Snapshot, info: TriggerInfo, sendSnapshot: bool, time: string)
    requires Usable(cfg) && PlainText(time) && PlainText(info.realm) && PlainText(info.counter)
    requires RealmOfName(info.realm).Some? && (sendSnapshot ==> cfg.tracked != {})
    ensures (var x := TriggerContext(cfg, active, info, sendSnapshot);
             && x.asic.Valid() && x.options.reportTrigger && x.options.triggerInfo == info
             && Plain(x, Stamp(cfg.asicId.value, time))
             && SomethingReported(x))
  {
    hide PlainText, RealmOfName;
    var x := TriggerContext(cfg, active, info, sendSnapshot);
    var r :| r in x.options.included;
    assert r.Device? || !r.Device?;
  }

  lemma TriggerHeadIs(ms: seq<Member>, asicId: string, time: string, info: TriggerInfo, place: seq<Member>)
    requires |ms| >= 5 && SaysHead(ms, "trigger-report", asicId, time)
    requires ms[5..] == [Member("realm", Str(info.realm)), Member("counter", Str(info.counter))] + place
    ensures ms == TriggerHead(asicId, time, info, place)
  {
    assert ms == ms[..5] + ms[5..];
    assert ms[..5] == [ms[0], ms[1], ms[2], ms[3], ms[4]];
  }
}
