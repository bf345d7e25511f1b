/**
 The text of a report, template by template, and the JSON value it stands for. `BstEncoder` writes these
 texts; `BstParse` proves that they parse as these values.
 */
module BstText {
  import opened Wrappers
  import opened Json
  import opened BstData
  import opened BstSelect

  // ---------------------------------------------------------------- templates

  /** What a row template has before its `j`-th counter. */
  function Separator(r: Realm, j: nat): string {
    match r
    case EgressCpuQueue => if j == 0 then " , " else ", "
    case EgressRqeQueue => if j == 0 then " , " else ", "
    case EgressMcQueue => if j == 0 then " ,  " else ", "
    case EgressServicePool => if j < 2 then " , " else ", "
    case _ => " , "
  }

  /** The first `n` counters of a row, each with its separator. */
  function Columns(r: Realm, values: seq<int>, n: nat): string
    requires n <= |values|
  {
    if n == 0 then ""
    else Columns(r, values, n - 1) + (Separator(r, n - 1) + IntText(values[n - 1]))
  }

  function PortColumn(port: Option<string>): string {
    match port
    case None => ""
    case Some(name) => " , " + Quoted(name)
  }

  /** A row without the blank and the comma that end its template. */
  function RowCore(r: Realm, e: Entry): string {
    " [  " + IntText(e.index) + PortColumn(e.port) + Columns(r, e.values, |e.values|) + " ]"
  }

  function RowText(r: Realm, e: Entry): string {
    RowCore(r, e) + " ,"
  }

  function RowsText(r: Realm, es: seq<Entry>): string {
    if es == [] then ""
    else RowsText(r, es[..|es| - 1]) + RowText(r, es[|es| - 1])
  }

  /** The start of a realm or port object, up to the bracket of its data. */
  function ObjectHead(key: string, name: string): string {
    " { " + Quoted(key) + ": " + Quoted(name) + ", " + Quoted("data") + ": ["
  }

  /** The last character, a separator, is erased and the object is closed. */
  function Closed(text: string): string
    requires text != ""
  {
    text[..|text| - 1] + "] } ,"
  }

  function PortText(r: Realm, p: PortEntry): string {
    Closed(ObjectHead("port", p.port) + " " + RowsText(r, p.entries))
  }

  function PortsText(r: Realm, ps: seq<PortEntry>): string {
    if ps == [] then ""
    else PortsText(r, ps[..|ps| - 1]) + PortText(r, ps[|ps| - 1])
  }

  function DeviceCore(value: int): string {
    "{ " + Quoted("realm") + " : " + Quoted("device") + ", " + Quoted("data") + " : " + IntText(value) + "}"
  }

  function RealmText(rr: RealmReport): string {
    match rr
    case DeviceReport(value) => DeviceCore(value) + " ,"
    case FlatReport(r, es) => Closed(ObjectHead("realm", r.Name()) + " " + RowsText(r, es))
    case PortReport(r, ps) => Closed(ObjectHead("realm", r.Name()) + " " + PortsText(r, ps))
  }

  function RealmsText(rrs: seq<RealmReport>): string {
    if rrs == [] then ""
    else RealmsText(rrs[..|rrs| - 1]) + RealmText(rrs[|rrs| - 1])
  }

  // ---------------------------------------------------------------- header

  /** A member printed by the header templates: its key, the text after the key, its value. */
  datatype Field = Field(key: string, colon: string, value: Json)

  function FieldText(f: Field): string
    requires f.value.Num? || f.value.Str?
  {
    Quoted(f.key) + f.colon + (if f.value.Num? then IntText(f.value.n) else Quoted(f.value.s)) + ","
  }

  predicate Scalar(fs: seq<Field>) {
    forall i | 0 <= i < |fs| :: fs[i].value.Num? || fs[i].value.Str?
  }

  function FieldsText(fs: seq<Field>): string
    requires Scalar(fs)
  {
    if fs == [] then "" else FieldsText(fs[..|fs| - 1]) + FieldText(fs[|fs| - 1])
  }

  const JSON_VERSION := 2

  /** The realm with a given name, if there is one. */
  function RealmOfName(name: string): Option<Realm> {
    if name == Device.Name() then Some(Device)
    else if name == IngressServicePool.Name() then Some(IngressServicePool)
    else if name == IngressPortServicePool.Name() then Some(IngressPortServicePool)
    else if name == IngressPortPriorityGroup.Name() then Some(IngressPortPriorityGroup)
    else if name == EgressPortServicePool.Name() then Some(EgressPortServicePool)
    else if name == EgressServicePool.Name() then Some(EgressServicePool)
    else if name == EgressUcQueue.Name() then Some(EgressUcQueue)
    else if name == EgressUcQueueGroup.Name() then Some(EgressUcQueueGroup)
    else if name == EgressMcQueue.Name() then Some(EgressMcQueue)
    else if name == EgressCpuQueue.Name() then Some(EgressCpuQueue)
    else if name == EgressRqeQueue.Name() then Some(EgressRqeQueue)
    else None
  }

  /** The names of the indices that locate a trigger of realm `r`. */
  function Indices(r: Realm): seq<string> {
    match r
    case Device => []
    case IngressServicePool => ["service-pool"]
    case IngressPortServicePool => ["port", "service-pool"]
    case IngressPortPriorityGroup => ["port", "priority-group"]
    case EgressPortServicePool => ["port", "service-pool"]
    case EgressServicePool => ["service-pool"]
    case EgressUcQueue => ["queue"]
    case EgressUcQueueGroup => ["queue-group"]
    case EgressMcQueue => ["queue"]
    case EgressCpuQueue => ["queue"]
    case EgressRqeQueue => ["queue"]
  }

  function IndexField(x: Context, index: string): Field {
    if index == "port" then Field("port", " : ", Str(PortName(x.notation, x.options.triggerInfo.port)))
    else Field(index, " : ", Num(x.options.triggerInfo.queue))
  }

  /** The external names that go into the header. */
  datatype Stamp = Stamp(asicId: string, time: string)

  function CommonFields(methodName: string, stamp: Stamp): seq<Field> {
    [Field("jsonrpc", ": ", Str("2.0")),
     Field("method", ": ", Str(methodName)),
     Field("asic-id", ": ", Str(stamp.asicId)),
     Field("version", ": ", Str(IntText(JSON_VERSION))),
     Field("time-stamp", ": ", Str(stamp.time))]
  }

  function TriggerFields(x: Context, r: Realm): seq<Field> {
    [Field("realm", ": ", Str(x.options.triggerInfo.realm)),
     Field("counter", ": ", Str(x.options.triggerInfo.counter))]
    + (if |Indices(r)| > 0 then [IndexField(x, Indices(r)[0])] else [])
    + (if |Indices(r)| > 1 then [IndexField(x, Indices(r)[1])] else [])
  }

  function HeadFields(x: Context, stamp: Stamp): (fs: seq<Field>)
    ensures Scalar(fs)
  {
    if !x.options.reportTrigger then
      CommonFields(if x.options.reportThreshold then "get-bst-thresholds" else "get-bst-report", stamp)
    else
      CommonFields("trigger-report", stamp)
      + (match RealmOfName(x.options.triggerInfo.realm)
         case Some(r) => TriggerFields(x, r)
         case None => [])
  }

  /** The header up to the key of the realm list. */
  function HeadStart(x: Context, stamp: Stamp): string {
    " { " + FieldsText(HeadFields(x, stamp)) + Quoted("report")
  }

  /** The header; only the one of a report that is not a trigger report ends in a spare blank. */
  function HeadText(x: Context, stamp: Stamp): string {
    HeadStart(x, stamp) + (if x.options.reportTrigger then " : [" else ": [ ")
  }

  /** How far the end of the text has moved back when the finaliser starts to write. */
  function Backstep(x: Context): nat {
    if exists r :: r in x.options.included && !r.Device? then 2 else 1
  }

  function BodyText(x: Context): string
    requires x.asic.Valid()
  {
    RealmsText(Selected(x, REPORT_ORDER))
  }

  /** The finished report. */
  function ReportText(x: Context, stamp: Stamp): string
    requires x.asic.Valid()
  {
    var t := HeadText(x, stamp) + BodyText(x);
    t[..|t| - Backstep(x)] + " ] } "
  }

  // ---------------------------------------------------------------- the value a report stands for

  function Nums(values: seq<int>): seq<Json> {
    seq(|values|, j requires 0 <= j < |values| => Num(values[j]))
  }

  function PortItem(port: Option<string>): seq<Json> {
    match port
    case None => []
    case Some(name) => [Str(name)]
  }

  function RowJson(e: Entry): Json {
    Arr([Num(e.index)] + PortItem(e.port) + Nums(e.values))
  }

  function ObjectJson(key: string, name: string, items: seq<Json>): Json {
    Obj([Member(key, Str(name)), Member("data", Arr(items))])
  }

  function RowsJson(es: seq<Entry>): seq<Json> {
    seq(|es|, i requires 0 <= i < |es| => RowJson(es[i]))
  }

  function PortJson(p: PortEntry): Json {
    ObjectJson("port", p.port, RowsJson(p.entries))
  }

  function PortsJson(ps: seq<PortEntry>): seq<Json> {
    seq(|ps|, i requires 0 <= i < |ps| => PortJson(ps[i]))
  }

  function RealmJson(rr: RealmReport): Json {
    match rr
    case DeviceReport(value) => Obj([Member("realm", Str("device")), Member("data", Num(value))])
    case FlatReport(r, es) => ObjectJson("realm", r.Name(), RowsJson(es))
    case PortReport(r, ps) => ObjectJson("realm", r.Name(), PortsJson(ps))
  }

  function RealmsJson(rrs: seq<RealmReport>): seq<Json> {
    seq(|rrs|, i requires 0 <= i < |rrs| => RealmJson(rrs[i]))
  }

  function FieldMembers(fs: seq<Field>): seq<Member> {
    seq(|fs|, i requires 0 <= i < |fs| => Member(fs[i].key, fs[i].value))
  }

  function ReportJson(x: Context, stamp: Stamp): Json
    requires x.asic.Valid()
  {
    Obj(FieldMembers(HeadFields(x, stamp)) + [Member("report", Arr(RealmsJson(Selected(x, REPORT_ORDER))))])
  }

  lemma RealmsTextSnoc(init: seq<RealmReport>, last: RealmReport)
    ensures RealmsText(init + [last]) == RealmsText(init) + RealmText(last)
    ensures RealmsJson(init + [last]) == RealmsJson(init) + [RealmJson(last)]
  {
    assert (init + [last])[..|init|] == init;
  }

  lemma PortsTextSnoc(r: Realm, init: seq<PortEntry>, last: PortEntry)
    ensures PortsText(r, init + [last]) == PortsText(r, init) + PortText(r, last)
    ensures PortsJson(init + [last]) == PortsJson(init) + [PortJson(last)]
  {
    hide PortText, PortJson;
    assert (init + [last])[..|init|] == init;
  }

  // ---------------------------------------------------------------- what the rows say, field by field

  function Unit(x: Context, v: uint64, maxBuf: uint64): Json
    requires x.asic.Valid()
  {
    Num(Convert(x.options, x.asic, v, maxBuf))
  }

  /** The row of each realm, as the arguments of its print statement. */
  function PrintedRow(x: Context, r: Realm, p: nat, i: nat): seq<Json>
    requires x.asic.Valid() && r.InTable(p, i) && !r.Device?
  {
    var s, m := x.current, x.maxBuffers;
    match r
    case IngressPortPriorityGroup =>
      [Num(i), Unit(x, s.iPortPg[p - 1][i].umShareBufferCount, m.iPortPg[p - 1][i].umShareBufferCount),
       Unit(x, s.iPortPg[p - 1][i].umHeadroomBufferCount, m.iPortPg[p - 1][i].umHeadroomBufferCount)]
    case IngressPortServicePool =>
      [Num(i), Unit(x, s.iPortSp[p - 1][i].umShareBufferCount, m.iPortSp[p - 1][i].umShareBufferCount)]
    case IngressServicePool => [Num(i), Unit(x, s.iSp[i].umShareBufferCount, m.iSp[i].umShareBufferCount)]
    case EgressCpuQueue =>
      [Num(i), Unit(x, s.cpqQ[i].cpuBufferCount, m.cpqQ[i].cpuBufferCount), Num(s.cpqQ[i].cpuQueueEntries)]
    case EgressMcQueue =>
      [Num(i), Str(PortName(x.notation, s.eMcQ[i].port)), Unit(x, s.eMcQ[i].mcBufferCount, m.eMcQ[i].mcBufferCount),
       Num(s.eMcQ[i].mcQueueEntries)]
    case EgressPortServicePool =>
      [Num(i), Unit(x, s.ePortSp[p - 1][i].ucShareBufferCount, m.ePortSp[p - 1][i].ucShareBufferCount),
       Unit(x, s.ePortSp[p - 1][i].umShareBufferCount, m.ePortSp[p - 1][i].umShareBufferCount),
       Unit(x, s.ePortSp[p - 1][i].mcShareBufferCount, m.ePortSp[p - 1][i].mcShareBufferCount)]
    case EgressRqeQueue =>
      [Num(i), Unit(x, s.rqeQ[i].rqeBufferCount, m.rqeQ[i].rqeBufferCount), Num(s.rqeQ[i].rqeQueueEntries)]
    case EgressServicePool =>
      [Num(i), Unit(x, s.eSp[i].umShareBufferCount, m.eSp[i].umShareBufferCount),
       Unit(x, s.eSp[i].mcShareBufferCount, m.eSp[i].mcShareBufferCount), Num(s.eSp[i].mcShareQueueEntries)]
    case EgressUcQueue =>
      [Num(i), Str(PortName(x.notation, s.eUcQ[i].port)), Unit(x, s.eUcQ[i].ucBufferCount, m.eUcQ[i].ucBufferCount)]
    case EgressUcQueueGroup => [Num(i), Unit(x, s.eUcQg[i].ucBufferCount, m.eUcQg[i].ucBufferCount)]
  }

  /** The generic row, driven by the tables of `Realm`, is in every realm the row of its print statement. */
  lemma RowIsPrinted(x: Context, r: Realm, p: nat, i: nat)
    requires x.asic.Valid() && r.InTable(p, i) && !r.Device?
    ensures RowJson(EntryAt(x, r, p, i)) == Arr(PrintedRow(x, r, p, i))
  {
    hide Convert;
    var e := EntryAt(x, r, p, i);
    var items := [Num(e.index)] + PortItem(e.port) + Nums(e.values);
    assert |items| == |PrintedRow(x, r, p, i)|;
    assert items == PrintedRow(x, r, p, i);
  }
}
