/**
 Which counters a report carries. The functions here follow the index order of the encoders' loops;
 the lemmas say what a collector that lays the report over what it already knows ends up with.
 */
module BstSelect {
  import opened Wrappers
  import opened BstData

  /** Everything one call of the report encoder reads. `notation` is the external name of each port. */
  datatype Context = Context(
    previous: Option<Snapshot>,
    current: Snapshot,
    options: Options,
    asic: Capabilities,
    notation: map<int, string>,
    maxBuffers: Snapshot)

  /** One printed row. */
  datatype Entry = Entry(index: nat, port: Option<string>, values: seq<int>)
  datatype PortEntry = PortEntry(port: string, entries: seq<Entry>)
  datatype RealmReport =
    | DeviceReport(value: int)
    | FlatReport(realm: Realm, entries: seq<Entry>)
    | PortReport(realm: Realm, ports: seq<PortEntry>)

  // ---------------------------------------------------------------- selection

  /** A trigger report without snapshot carries only the cell that triggered. */
  predicate Filtered(x: Context, r: Realm, port: nat, index: nat) {
    && x.options.reportTrigger
    && !x.options.sendSnapShotOnTrigger
    && (index != x.options.triggerInfo.queue || (r.PerPort() && port != x.options.triggerInfo.port))
  }

  predicate Changed(x: Context, r: Realm, port: nat, index: nat)
    requires x.previous.Some? && r.InTable(port, index)
  {
    Counters(r, x.previous.value, port, index) != Counters(r, x.current, port, index)
  }

  predicate Emitted(x: Context, r: Realm, port: nat, index: nat)
    requires r.InTable(port, index)
  {
    && (r.Device? || !Filtered(x, r, port, index))
    && (match x.previous
        case Some(_) => Changed(x, r, port, index)
        case None =>
          r.Device? || !x.options.sendIncrementalReport || !AllZero(Counters(r, x.current, port, index)))
  }

  /** The external name of a port. */
  function PortName(notation: map<int, string>, port: int): string {
    if port in notation then notation[port] else ""
  }

  /** The printed values of a cell of snapshot `s`, in the unit the options ask for. */
  function Values(x: Context, r: Realm, s: Snapshot, port: nat, index: nat): (v: seq<int>)
    requires x.asic.Valid() && r.InTable(port, index)
    ensures |v| == r.Printed()
  {
    var c, m := Counters(r, s, port, index), Counters(r, x.maxBuffers, port, index);
    seq(r.Printed(), j requires 0 <= j < r.Printed() =>
      if r.Converted(j) then Convert(x.options, x.asic, c[j], m[j]) else c[j])
  }

  function EntryAt(x: Context, r: Realm, port: nat, index: nat): Entry
    requires x.asic.Valid() && r.InTable(port, index)
  {
    Entry(index,
          if r.NamesPort() then Some(PortName(x.notation, QueuePort(r, x.current, index))) else None,
          Values(x, r, x.current, port, index))
  }

  /** The row of one cell, if the report carries it. */
  function Cell(x: Context, r: Realm, port: nat, index: nat): Option<Entry>
    requires x.asic.Valid() && r.InTable(port, index)
  {
    if Emitted(x, r, port, index) then Some(EntryAt(x, r, port, index)) else None
  }

  /** The first `n` cells of a flat realm, or of one port. */
  function Cells(x: Context, r: Realm, port: nat, n: nat): (cells: seq<Option<Entry>>)
    requires x.asic.Valid() && r.HasPort(port) && n <= r.Count(x.asic)
    ensures |cells| == n
  {
    seq(n, i requires 0 <= i < n => Cell(x, r, port, i))
  }

  function PortCells(x: Context, r: Realm, port: nat): seq<Option<Entry>>
    requires x.asic.Valid() && r.PerPort() && 1 <= port <= MAX_PORTS
  {
    Cells(x, r, port, r.Count(x.asic))
  }

  /** A port is reported if one of its cells is. */
  function PortObject(name: string, cells: seq<Option<Entry>>): Option<PortEntry> {
    if Kept(cells) == [] then None else Some(PortEntry(name, Kept(cells)))
  }

  /** The port objects made from the cells of each port, under the ports' names. */
  function Objects(names: seq<string>, table: seq<seq<Option<Entry>>>): (ports: seq<Option<PortEntry>>)
    requires |names| == |table|
    ensures |ports| == |table|
  {
    seq(|table|, p requires 0 <= p < |table| => PortObject(names[p], table[p]))
  }

  /** The names of ports 1 to `n`. */
  function PortNames(x: Context, n: nat): (names: seq<string>)
    ensures |names| == n && forall p | 0 <= p < n :: names[p] == PortName(x.notation, p + 1)
  {
    seq(n, p requires 0 <= p < n => PortName(x.notation, p + 1))
  }

  /** The cells of ports 1 to `n`. */
  function PortTable(x: Context, r: Realm, n: nat): (table: seq<seq<Option<Entry>>>)
    requires x.asic.Valid() && r.PerPort() && n <= MAX_PORTS
    ensures |table| == n
    ensures forall p | 0 <= p < n :: table[p] == PortCells(x, r, p + 1)
  {
    seq(n, p requires 0 <= p < n => PortCells(x, r, p + 1))
  }

  /** The port objects of ports 1 to `n`. */
  function PortObjects(x: Context, r: Realm, n: nat): (ports: seq<Option<PortEntry>>)
    requires x.asic.Valid() && r.PerPort() && n <= MAX_PORTS
    ensures |ports| == n
  {
    Objects(PortNames(x, n), PortTable(x, r, n))
  }

  function ReportOf(x: Context, r: Realm): RealmReport
    requires x.asic.Valid()
  {
    if r.Device? then DeviceReport(Values(x, r, x.current, 0, 0)[0])
    else if r.PerPort() then PortReport(r, Kept(PortObjects(x, r, x.asic.numPorts)))
    else FlatReport(r, Kept(Cells(x, r, 0, r.Count(x.asic))))
  }

  /** The device realm is left out altogether when its counter has not changed. */
  predicate Reported(x: Context, r: Realm) {
    r in x.options.included && (r.Device? ==> Emitted(x, r, 0, 0))
  }

  function RealmObject(x: Context, r: Realm): Option<RealmReport>
    requires x.asic.Valid()
  {
    if Reported(x, r) then Some(ReportOf(x, r)) else None
  }

  /** The realm objects of a report, for the realms `rs` in order. */
  function Selected(x: Context, rs: seq<Realm>): seq<RealmReport>
    requires x.asic.Valid()
  {
    Kept(seq(|rs|, i requires 0 <= i < |rs| => RealmObject(x, rs[i])))
  }

  lemma SelectedSnoc(x: Context, rs: seq<Realm>, r: Realm)
    requires x.asic.Valid()
    ensures Selected(x, rs + [r]) == Selected(x, rs) + (if Reported(x, r) then [ReportOf(x, r)] else [])
  {
    var objects := seq(|rs|, i requires 0 <= i < |rs| => RealmObject(x, rs[i]));
    KeptSnoc(objects, RealmObject(x, r));
    assert objects + [RealmObject(x, r)]
        == seq(|rs + [r]|, i requires 0 <= i < |rs + [r]| => RealmObject(x, (rs + [r])[i]));
  }

  const INGRESS_ORDER := [IngressPortPriorityGroup, IngressPortServicePool, IngressServicePool]
  const EGRESS_ORDER :=
    [EgressCpuQueue, EgressMcQueue, EgressPortServicePool, EgressRqeQueue,
     EgressServicePool, EgressUcQueue, EgressUcQueueGroup]
  const REPORT_ORDER := [Device] + INGRESS_ORDER + EGRESS_ORDER

  // ---------------------------------------------------------------- what the selection contains

  /** Row `i` of a list of cells, when there is one, is for index `i`. */
  predicate Indexed(cells: seq<Option<Entry>>) {
    forall i: nat | i < |cells| && cells[i].Some? :: cells[i].value.index == i
  }

  /** The rows kept are those of the present cells, each once, in ascending order of index. */
  predicate Exact(es: seq<Entry>, cells: seq<Option<Entry>>) {
    && (forall k | 0 <= k < |es| :: es[k].index < |cells| && cells[es[k].index] == Some(es[k]))
    && (forall k, l | 0 <= k < l < |es| :: es[k].index < es[l].index)
    && (forall i | 0 <= i < |cells| && cells[i].Some? :: cells[i].value in es)
  }

  lemma {:induction false} KeptIsExact(cells: seq<Option<Entry>>)
    requires Indexed(cells)
    ensures Exact(Kept(cells), cells)
  {
    if cells != [] {
      var init, last := cells[..|cells| - 1], cells[|cells| - 1];
      assert forall i | 0 <= i < |init| :: init[i] == cells[i];
      KeptIsExact(init);
      ExactSnoc(Kept(init), init, last);
      assert init + [last] == cells;
    }
  }

  lemma ExactSnoc(es: seq<Entry>, cells: seq<Option<Entry>>, last: Option<Entry>)
    requires Exact(es, cells) && (last.Some? ==> last.value.index == |cells|)
    ensures Exact(es + (if last.Some? then [last.value] else []), cells + [last])
  {
    var es', cells' := es + (if last.Some? then [last.value] else []), cells + [last];
    forall k | 0 <= k < |es'| ensures es'[k].index < |cells'| && cells'[es'[k].index] == Some(es'[k]) {
      assert k < |es| ==> es'[k] == es[k];
    }
    forall i | 0 <= i < |cells'| && cells'[i].Some? ensures cells'[i].value in es' {
      if i < |cells| {
        assert cells[i].value in es;
      } else {
        assert es'[|es|] == last.value;
      }
    }
  }

  lemma CellsAreIndexed(x: Context, r: Realm, port: nat, n: nat)
    requires x.asic.Valid() && r.HasPort(port) && n <= r.Count(x.asic)
    ensures Indexed(Cells(x, r, port, n))
  {
  }

  /** Of a flat realm or of one port, the report carries exactly the emitted cells, in ascending order. */
  lemma SelectionIsExact(x: Context, r: Realm, port: nat, n: nat)
    requires x.asic.Valid() && r.HasPort(port) && n <= r.Count(x.asic)
    ensures Exact(Kept(Cells(x, r, port, n)), Cells(x, r, port, n))
    ensures forall i: nat | i < n :: Cells(x, r, port, n)[i].Some? <==> Emitted(x, r, port, i)
  {
    CellsAreIndexed(x, r, port, n);
    KeptIsExact(Cells(x, r, port, n));
  }

  /** Two-pass agreement: a port is reported if and only if one of its cells is. */
  lemma PortHasRows(x: Context, r: Realm, port: nat)
    requires x.asic.Valid() && r.PerPort() && 1 <= port <= x.asic.numPorts
    ensures PortObjects(x, r, x.asic.numPorts)[port - 1].Some?
       <==> exists i: nat :: i < r.Count(x.asic) && Cell(x, r, port, i).Some?
  {
    hide EntryAt, Emitted, PortName, Cell, Kept;
    var cells := PortCells(x, r, port);
    KeptIsEmpty(cells);
    assert forall i: nat | i < r.Count(x.asic) :: cells[i] == Cell(x, r, port, i);
    assert PortObjects(x, r, x.asic.numPorts)[port - 1] == PortObject(PortName(x.notation, port), cells);
  }

  lemma PortObjectsSnoc(x: Context, r: Realm, n: nat)
    requires x.asic.Valid() && r.PerPort() && n < x.asic.numPorts
    ensures PortObjects(x, r, n + 1)
         == PortObjects(x, r, n) + [PortObject(PortName(x.notation, n + 1), PortCells(x, r, n + 1))]
  {
    hide PortCells, PortObject, PortName;
  }

  /** Some cell of the port is to be reported. */
  predicate PortEmitted(x: Context, r: Realm, port: nat)
    requires x.asic.Valid() && r.PerPort() && 1 <= port <= MAX_PORTS
  {
    exists i: nat :: i < r.Count(x.asic) && Emitted(x, r, port, i)
  }

  lemma PortEmittedMeans(x: Context, r: Realm, port: nat)
    requires x.asic.Valid() && r.PerPort() && 1 <= port <= MAX_PORTS
    ensures PortEmitted(x, r, port) <==> Kept(PortCells(x, r, port)) != []
  {
    var cells := PortCells(x, r, port);
    assert forall i: nat | i < r.Count(x.asic) :: cells[i].Some? <==> Emitted(x, r, port, i);
    hide Emitted, PortCells, EntryAt;
    KeptIsEmpty(cells);
  }

  /** The ports among 1 to `n` that have something to report, in ascending order. */
  function ReportedPorts(x: Context, r: Realm, n: nat): seq<nat>
    requires x.asic.Valid() && r.PerPort() && n <= x.asic.numPorts
  {
    if n == 0 then [] else ReportedPorts(x, r, n - 1) + (if PortEmitted(x, r, n) then [n] else [])
  }

  lemma {:induction false} ReportedPortsAscend(x: Context, r: Realm, n: nat)
    requires x.asic.Valid() && r.PerPort() && n <= x.asic.numPorts
    ensures n <= MAX_PORTS
    ensures (var ports := ReportedPorts(x, r, n);
             && (forall k | 0 <= k < |ports| :: 1 <= ports[k] <= n && PortEmitted(x, r, ports[k]))
             && (forall k, l | 0 <= k < l < |ports| :: ports[k] < ports[l])
             && (forall p: nat | 1 <= p <= n && PortEmitted(x, r, p) :: p in ports))
  {
    if n > 0 {
      ReportedPortsAscend(x, r, n - 1);
      hide PortEmitted;
    }
  }

  function PortEntryOf(x: Context, r: Realm, port: nat): PortEntry
    requires x.asic.Valid() && r.PerPort() && 1 <= port <= MAX_PORTS
  {
    PortEntry(PortName(x.notation, port), Kept(PortCells(x, r, port)))
  }

  lemma PortsStep(x: Context, r: Realm, n: nat)
    requires x.asic.Valid() && r.PerPort() && n < x.asic.numPorts
    ensures n + 1 <= MAX_PORTS
    ensures Kept(PortObjects(x, r, n + 1))
         == Kept(PortObjects(x, r, n)) + (if PortEmitted(x, r, n + 1) then [PortEntryOf(x, r, n + 1)] else [])
    ensures ReportedPorts(x, r, n + 1) == ReportedPorts(x, r, n) + (if PortEmitted(x, r, n + 1) then [n + 1] else [])
  {
    PortObjectsSnoc(x, r, n);
    PortEmittedMeans(x, r, n + 1);
    KeptSnoc(PortObjects(x, r, n), PortObject(PortName(x.notation, n + 1), PortCells(x, r, n + 1)));
    hide PortObjects, PortCells, PortEmitted, Kept;
  }

  lemma NoPorts(x: Context, r: Realm)
    requires x.asic.Valid() && r.PerPort()
    ensures x.asic.numPorts <= MAX_PORTS && Kept(PortObjects(x, r, 0)) == [] && ReportedPorts(x, r, 0) == []
  {
  }

  /** A per-port realm has one object for each port with something to report, in ascending order, and no other. */
  lemma {:induction false} PortsAreInOrder(x: Context, r: Realm, n: nat)
    requires x.asic.Valid() && r.PerPort() && n <= x.asic.numPorts
    ensures n <= MAX_PORTS && |Kept(PortObjects(x, r, n))| == |ReportedPorts(x, r, n)|
    ensures forall p: nat | 1 <= p <= n :: p in ReportedPorts(x, r, n) <==> PortEmitted(x, r, p)
    ensures forall k, l | 0 <= k < l < |ReportedPorts(x, r, n)| :: ReportedPorts(x, r, n)[k] < ReportedPorts(x, r, n)[l]
    ensures forall k | 0 <= k < |ReportedPorts(x, r, n)| ::
              && 1 <= ReportedPorts(x, r, n)[k] <= n
              && Kept(PortObjects(x, r, n))[k] == PortEntryOf(x, r, ReportedPorts(x, r, n)[k])
  {
    hide *;
    NoPorts(x, r);
    ReportedPortsAscend(x, r, n);
    if n > 0 {
      PortsAreInOrder(x, r, n - 1);
      PortsStep(x, r, n - 1);
    }
  }

  // ---------------------------------------------------------------- a collector's view

  datatype Key = Key(realm: Realm, port: string, index: nat)

  /** The last values received for each cell; what was never received reads as zero. */
  type View = map<Key, seq<int>>

  function Zeros(n: nat): seq<int> {
    seq(n, _ => 0)
  }

  function Look(v: View, r: Realm, port: string, index: nat): seq<int> {
    var k := Key(r, port, index);
    if k in v then v[k] else Zeros(r.Printed())
  }

  function OverlayEntries(v: View, r: Realm, port: string, es: seq<Entry>): View {
    if es == [] then v
    else
      var last := es[|es| - 1];
      OverlayEntries(v, r, port, es[..|es| - 1])[Key(r, port, last.index) := last.values]
  }

  function OverlayPorts(v: View, r: Realm, ps: seq<PortEntry>): View {
    if ps == [] then v
    else
      var last := ps[|ps| - 1];
      OverlayEntries(OverlayPorts(v, r, ps[..|ps| - 1]), r, last.port, last.entries)
  }

  function OverlayRealm(v: View, rr: RealmReport): View {
    match rr
    case DeviceReport(value) => v[Key(Device, "", 0) := [value]]
    case FlatReport(r, es) => OverlayEntries(v, r, "", es)
    case PortReport(r, ps) => OverlayPorts(v, r, ps)
  }

  function Overlay(v: View, report: seq<RealmReport>): View {
    if report == [] then v
    else OverlayRealm(Overlay(v, report[..|report| - 1]), report[|report| - 1])
  }

  predicate SameAt(w: View, v: View, k: Key) {
    (k in w <==> k in v) && (k in v ==> w[k] == v[k])
  }

  lemma OverlayEntriesSnoc(v: View, r: Realm, place: string, es: seq<Entry>, e: Entry)
    ensures OverlayEntries(v, r, place, es + [e])
         == OverlayEntries(v, r, place, es)[Key(r, place, e.index) := e.values]
  {
    assert (es + [e])[..|es|] == es;
  }

  lemma OverlayPortsSnoc(v: View, r: Realm, ps: seq<PortEntry>, p: PortEntry)
    ensures OverlayPorts(v, r, ps + [p]) == OverlayEntries(OverlayPorts(v, r, ps), r, p.port, p.entries)
  {
    assert (ps + [p])[..|ps|] == ps;
  }

  lemma OverlaySnoc(v: View, report: seq<RealmReport>, rr: RealmReport)
    ensures Overlay(v, report + [rr]) == OverlayRealm(Overlay(v, report), rr)
  {
    assert (report + [rr])[..|report|] == report;
  }

  /** Laying the rows of one place over a view changes exactly the cells that have a row. */
  lemma {:induction false} OverlayEntriesLaw(v: View, r: Realm, place: string, cells: seq<Option<Entry>>, i: nat)
    requires Indexed(cells)
    ensures Look(OverlayEntries(v, r, place, Kept(cells)), r, place, i)
         == if i < |cells| && cells[i].Some? then cells[i].value.values else Look(v, r, place, i)
  {
    if cells != [] {
      var init, last := cells[..|cells| - 1], cells[|cells| - 1];
      assert cells == init + [last];
      OverlayEntriesLaw(v, r, place, init, i);
      KeptSnoc(init, last);
      if last.Some? {
        OverlayEntriesSnoc(v, r, place, Kept(init), last.value);
      } else {
        assert Kept(cells) == Kept(init);
      }
    }
  }

  /** Rows of one place say nothing about another. */
  lemma {:induction false} OverlayEntriesFrame(v: View, r: Realm, place: string, es: seq<Entry>, k: Key)
    requires k.realm != r || k.port != place
    ensures SameAt(OverlayEntries(v, r, place, es), v, k)
  {
    if es != [] {
      OverlayEntriesFrame(v, r, place, es[..|es| - 1], k);
    }
  }

  lemma {:induction false} OverlayPortsFrame(v: View, r: Realm, ps: seq<PortEntry>, k: Key)
    requires k.realm != r
    ensures SameAt(OverlayPorts(v, r, ps), v, k)
  {
    if ps != [] {
      OverlayPortsFrame(v, r, ps[..|ps| - 1], k);
      var last := ps[|ps| - 1];
      OverlayEntriesFrame(OverlayPorts(v, r, ps[..|ps| - 1]), r, last.port, last.entries, k);
    }
  }

  /** Port objects under different names change exactly the cells that have a row. */
  lemma {:induction false} OverlayPortsLaw(
    v: View, r: Realm, names: seq<string>, table: seq<seq<Option<Entry>>>, p: nat, i: nat)
    requires |names| == |table| && (forall q | 0 <= q < |table| :: Indexed(table[q]))
    requires p < |names|
    requires forall q | 0 <= q < |names| && q != p :: names[q] != names[p]
    ensures Look(OverlayPorts(v, r, Kept(Objects(names, table))), r, names[p], i)
         == if i < |table[p]| && table[p][i].Some? then table[p][i].value.values else Look(v, r, names[p], i)
  {
    var n := |table| - 1;
    var w := OverlayPorts(v, r, Kept(Objects(names[..n], table[..n])));
    OverlayPortsStep(v, r, names, table);
    if p == n {
      OverlayOtherPorts(v, r, names[..n], table[..n], Key(r, names[p], i));
      OverlayEntriesLaw(w, r, names[p], table[p], i);
    } else {
      OverlayPortsLaw(v, r, names[..n], table[..n], p, i);
      OverlayEntriesFrame(w, r, names[n], Kept(table[n]), Key(r, names[p], i));
    }
  }

  lemma OverlayPortsStep(v: View, r: Realm, names: seq<string>, table: seq<seq<Option<Entry>>>)
    requires |names| == |table| > 0
    ensures OverlayPorts(v, r, Kept(Objects(names, table)))
         == (var n := |table| - 1;
             OverlayEntries(OverlayPorts(v, r, Kept(Objects(names[..n], table[..n]))), r, names[n], Kept(table[n])))
  {
    var n := |table| - 1;
    var init, last := Objects(names[..n], table[..n]), PortObject(names[n], table[n]);
    assert Objects(names, table) == init + [last];
    KeptSnoc(init, last);
    if last.Some? {
      OverlayPortsSnoc(v, r, Kept(init), last.value);
    } else {
      assert Kept(init + [last]) == Kept(init);
    }
  }

  lemma {:induction false} OverlayOtherPorts(
    v: View, r: Realm, names: seq<string>, table: seq<seq<Option<Entry>>>, k: Key)
    requires |names| == |table| && forall q | 0 <= q < |names| :: names[q] != k.port
    ensures SameAt(OverlayPorts(v, r, Kept(Objects(names, table))), v, k)
  {
    if table != [] {
      var n := |table| - 1;
      OverlayOtherPorts(v, r, names[..n], table[..n], k);
      OverlayPortsStep(v, r, names, table);
      OverlayEntriesFrame(OverlayPorts(v, r, Kept(Objects(names[..n], table[..n]))), r, names[n], Kept(table[n]), k);
    }
  }

  // ---------------------------------------------------------------- what a report does to a view

  /** The name under which a cell of port `port` is reported; realms without ports use the empty name. */
  function Place(x: Context, r: Realm, port: nat): string {
    if r.PerPort() then PortName(x.notation, port) else ""
  }

  /** Different ports have different external names. */
  predicate DistinctNames(x: Context) {
    forall p, q | 1 <= p < q <= x.asic.numPorts :: PortName(x.notation, p) != PortName(x.notation, q)
  }

  lemma PortTableIsIndexed(x: Context, r: Realm, n: nat)
    requires x.asic.Valid() && r.PerPort() && n <= MAX_PORTS
    ensures forall q | 0 <= q < n :: Indexed(PortTable(x, r, n)[q])
  {
    forall q | 0 <= q < n ensures Indexed(PortTable(x, r, n)[q]) {
      CellsAreIndexed(x, r, q + 1, r.Count(x.asic));
    }
  }

  lemma NamesDiffer(x: Context, p: nat)
    requires DistinctNames(x) && p < x.asic.numPorts
    ensures forall q | 0 <= q < x.asic.numPorts && q != p ::
              PortNames(x, x.asic.numPorts)[q] != PortNames(x, x.asic.numPorts)[p]
  {
  }

  lemma PerPortReport(x: Context, r: Realm)
    requires x.asic.Valid() && r.PerPort()
    ensures ReportOf(x, r)
         == PortReport(r, Kept(Objects(PortNames(x, x.asic.numPorts), PortTable(x, r, x.asic.numPorts))))
  {
  }

  lemma OverlayPerPortLaw(v: View, x: Context, r: Realm, port: nat, i: nat)
    requires x.asic.Valid() && DistinctNames(x) && r.PerPort() && r.Has(x.asic, port, i)
    ensures Look(OverlayRealm(v, ReportOf(x, r)), r, PortName(x.notation, port), i)
         == match PortCells(x, r, port)[i] {
              case Some(e) => e.values
              case None => Look(v, r, PortName(x.notation, port), i)
            }
  {
    hide *;
    PerPortCell(x, r, port, i);
    var names, table := PortNames(x, x.asic.numPorts), PortTable(x, r, x.asic.numPorts);
    NamesDiffer(x, port - 1);
    PortTableIsIndexed(x, r, x.asic.numPorts);
    OverlayPortsLaw(v, r, names, table, port - 1, i);
    PerPortReport(x, r);
    OverlayPortReport(v, r, Kept(Objects(names, table)));
  }

  lemma PerPortCell(x: Context, r: Realm, port: nat, i: nat)
    requires x.asic.Valid() && r.PerPort() && r.Has(x.asic, port, i)
    ensures 1 <= port <= x.asic.numPorts <= MAX_PORTS && i < |PortCells(x, r, port)|
  {
    hide Cell;
  }

  lemma OverlayPortReport(v: View, r: Realm, ps: seq<PortEntry>)
    ensures OverlayRealm(v, PortReport(r, ps)) == OverlayPorts(v, r, ps)
  {
  }

  lemma OverlayRealmLaw(v: View, x: Context, r: Realm, port: nat, i: nat)
    requires x.asic.Valid() && DistinctNames(x) && r.Has(x.asic, port, i) && (r.Device? ==> Emitted(x, r, 0, 0))
    ensures Look(OverlayRealm(v, ReportOf(x, r)), r, Place(x, r, port), i)
         == match Cell(x, r, port, i) { case Some(e) => e.values case None => Look(v, r, Place(x, r, port), i) }
  {
    if r.Device? {
      assert [Values(x, r, x.current, 0, 0)[0]] == Values(x, r, x.current, 0, 0);
    } else if r.PerPort() {
      OverlayPerPortLaw(v, x, r, port, i);
    } else {
      var cells := Cells(x, r, 0, r.Count(x.asic));
      CellsAreIndexed(x, r, 0, r.Count(x.asic));
      OverlayEntriesLaw(v, r, "", cells, i);
    }
  }

  lemma OverlayRealmFrame(v: View, rr: RealmReport, k: Key)
    requires k.realm != (if rr.DeviceReport? then Device else rr.realm)
    ensures SameAt(OverlayRealm(v, rr), v, k)
  {
    match rr
    case DeviceReport(_) =>
    case FlatReport(r, es) => OverlayEntriesFrame(v, r, "", es, k);
    case PortReport(r, ps) => OverlayPortsFrame(v, r, ps, k);
  }

  /** A cell after a report of the realms `rs`: the new values if the report carries it, else unchanged. */
  function AfterReport(v: View, x: Context, rs: seq<Realm>, r: Realm, port: nat, i: nat): seq<int>
    requires x.asic.Valid() && r.InTable(port, i)
  {
    if r in rs && r in x.options.included && Emitted(x, r, port, i) then Values(x, r, x.current, port, i)
    else Look(v, r, Place(x, r, port), i)
  }

  /** A report of pairwise different realms changes a cell exactly when it carries it. */
  lemma {:induction false} OverlayLaw(v: View, x: Context, rs: seq<Realm>, r: Realm, port: nat, i: nat)
    requires x.asic.Valid() && DistinctNames(x) && r.Has(x.asic, port, i)
    requires forall a, b | 0 <= a < b < |rs| :: rs[a] != rs[b]
    ensures Look(Overlay(v, Selected(x, rs)), r, Place(x, r, port), i) == AfterReport(v, x, rs, r, port, i)
  {
    if rs != [] {
      var init, last := rs[..|rs| - 1], rs[|rs| - 1];
      assert rs == init + [last];
      OverlayLaw(v, x, init, r, port, i);
      OverlayStep(v, x, init, last, r, port, i);
    }
  }

  lemma OverlayStep(v: View, x: Context, init: seq<Realm>, last: Realm, r: Realm, port: nat, i: nat)
    requires x.asic.Valid() && DistinctNames(x) && r.Has(x.asic, port, i)
    ensures var w, w' := Overlay(v, Selected(x, init)), Overlay(v, Selected(x, init + [last]));
            Look(w', r, Place(x, r, port), i) ==
            if last == r && r in x.options.included && Emitted(x, r, port, i) then Values(x, r, x.current, port, i)
            else Look(w, r, Place(x, r, port), i)
  {
    hide *;
    var head := Selected(x, init);
    SelectedSnoc(x, init, last);
    ReportedMeans(x, r, port, i);
    if Reported(x, last) {
      OverlaySnoc(v, head, ReportOf(x, last));
      if last == r {
        OverlayRealmLaw(Overlay(v, head), x, r, port, i);
        CellValues(x, r, port, i);
      } else {
        ReportRealm(x, last);
        OverlayRealmFrame(Overlay(v, head), ReportOf(x, last), Key(r, Place(x, r, port), i));
        SameLook(Overlay(v, head), OverlayRealm(Overlay(v, head), ReportOf(x, last)), r, Place(x, r, port), i);
      }
    } else {
      assert Selected(x, init + [last]) == head;
    }
  }

  lemma ReportedMeans(x: Context, r: Realm, port: nat, i: nat)
    requires r.Has(x.asic, port, i) && x.asic.Valid()
    ensures r.InTable(port, i)
    ensures Reported(x, r) ==> r in x.options.included && (r.Device? ==> Emitted(x, r, 0, 0))
    ensures !Reported(x, r) ==> !(r in x.options.included && Emitted(x, r, port, i))
  {
    hide Emitted;
  }

  lemma CellValues(x: Context, r: Realm, port: nat, i: nat)
    requires x.asic.Valid() && r.InTable(port, i)
    ensures Cell(x, r, port, i) == if Emitted(x, r, port, i) then Some(EntryAt(x, r, port, i)) else None
    ensures EntryAt(x, r, port, i).values == Values(x, r, x.current, port, i)
  {
    hide Emitted, Values;
  }

  lemma ReportRealm(x: Context, r: Realm)
    requires x.asic.Valid()
    ensures (if ReportOf(x, r).DeviceReport? then Device else ReportOf(x, r).realm) == r
  {
    hide Values, PortObjects, Cells;
  }

  lemma SameLook(v: View, w: View, r: Realm, place: string, i: nat)
    requires SameAt(w, v, Key(r, place, i))
    ensures Look(w, r, place, i) == Look(v, r, place, i)
  {
  }
}
