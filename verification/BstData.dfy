/**
 The data the buffer-statistics application works on: snapshots of the ASIC's buffer counters, the
 ASIC's capabilities, the report options, and the conversion of a counter into the reported unit.
 */
module BstData {
  const UINT64_LIMIT: int := 0x1_0000_0000_0000_0000
  type uint64 = v: int | 0 <= v < UINT64_LIMIT

  // ---------------------------------------------------------------- scalability limits of an ASIC

  const MAX_PORTS := 130
  const MAX_UC_QUEUES := 4096
  const MAX_UC_QUEUE_GROUPS := 128
  const MAX_MC_QUEUES := 1040
  const MAX_SERVICE_POOLS := 4
  const MAX_INGRESS_SERVICE_POOLS := 5
  const MAX_CPU_QUEUES := 8
  const MAX_RQE_QUEUES := 11
  const MAX_PRIORITY_GROUPS := 8

  datatype Capabilities = Capabilities(
    numPorts: nat,
    numUnicastQueues: nat,
    numUnicastQueueGroups: nat,
    numMulticastQueues: nat,
    numServicePools: nat,
    numCpuQueues: nat,
    numRqeQueues: nat,
    numPriorityGroups: nat,
    cellToByteConv: nat)
  {
    /** The counts stay within the arrays of a snapshot, and a cell has a size. */
    predicate Valid() {
      && numPorts <= MAX_PORTS
      && numUnicastQueues <= MAX_UC_QUEUES
      && numUnicastQueueGroups <= MAX_UC_QUEUE_GROUPS
      && numMulticastQueues <= MAX_MC_QUEUES
      && numServicePools <= MAX_SERVICE_POOLS
      && numCpuQueues <= MAX_CPU_QUEUES
      && numRqeQueues <= MAX_RQE_QUEUES
      && numPriorityGroups <= MAX_PRIORITY_GROUPS
      && cellToByteConv > 0
    }
  }

  // ---------------------------------------------------------------- snapshots

  datatype PortPriorityGroup = PortPriorityGroup(umShareBufferCount: uint64, umHeadroomBufferCount: uint64)
  datatype IngressPool = IngressPool(umShareBufferCount: uint64)
  datatype EgressPortPool = EgressPortPool(
    ucShareBufferCount: uint64, umShareBufferCount: uint64, mcShareBufferCount: uint64, mcShareQueueEntries: uint64)
  datatype EgressPool = EgressPool(
    umShareBufferCount: uint64, mcShareBufferCount: uint64, mcShareQueueEntries: uint64)
  datatype UnicastQueue = UnicastQueue(ucBufferCount: uint64, port: uint64)
  datatype UnicastQueueGroup = UnicastQueueGroup(ucBufferCount: uint64)
  datatype MulticastQueue = MulticastQueue(mcBufferCount: uint64, mcQueueEntries: uint64, port: uint64)
  datatype CpuQueue = CpuQueue(cpuBufferCount: uint64, cpuQueueEntries: uint64)
  datatype RqeQueue = RqeQueue(rqeBufferCount: uint64, rqeQueueEntries: uint64)

  datatype SnapshotData = SnapshotData(
    device: uint64,
    iPortPg: seq<seq<PortPriorityGroup>>,
    iPortSp: seq<seq<IngressPool>>,
    iSp: seq<IngressPool>,
    ePortSp: seq<seq<EgressPortPool>>,
    eSp: seq<EgressPool>,
    eUcQ: seq<UnicastQueue>,
    eUcQg: seq<UnicastQueueGroup>,
    eMcQ: seq<MulticastQueue>,
    cpqQ: seq<CpuQueue>,
    rqeQ: seq<RqeQueue>)
  {
    /** Every table has the fixed size of the C array it stands for. */
    predicate Sized() {
      && |iPortPg| == MAX_PORTS && (forall p | 0 <= p < MAX_PORTS :: |iPortPg[p]| == MAX_PRIORITY_GROUPS)
      && |iPortSp| == MAX_PORTS && (forall p | 0 <= p < MAX_PORTS :: |iPortSp[p]| == MAX_INGRESS_SERVICE_POOLS)
      && |iSp| == MAX_INGRESS_SERVICE_POOLS
      && |ePortSp| == MAX_PORTS && (forall p | 0 <= p < MAX_PORTS :: |ePortSp[p]| == MAX_SERVICE_POOLS)
      && |eSp| == MAX_SERVICE_POOLS
      && |eUcQ| == MAX_UC_QUEUES
      && |eUcQg| == MAX_UC_QUEUE_GROUPS
      && |eMcQ| == MAX_MC_QUEUES
      && |cpqQ| == MAX_CPU_QUEUES
      && |rqeQ| == MAX_RQE_QUEUES
    }
  }

  function Filled<T>(n: nat, x: T): (s: seq<T>)
    ensures |s| == n && forall i | 0 <= i < n :: s[i] == x
  {
    seq(n, _ => x)
  }

  /** A record after `memset(.., 0, ..)`. */
  const ZERO_SNAPSHOT := SnapshotData(
    0,
    Filled(MAX_PORTS, Filled(MAX_PRIORITY_GROUPS, PortPriorityGroup(0, 0))),
    Filled(MAX_PORTS, Filled(MAX_INGRESS_SERVICE_POOLS, IngressPool(0))),
    Filled(MAX_INGRESS_SERVICE_POOLS, IngressPool(0)),
    Filled(MAX_PORTS, Filled(MAX_SERVICE_POOLS, EgressPortPool(0, 0, 0, 0))),
    Filled(MAX_SERVICE_POOLS, EgressPool(0, 0, 0)),
    Filled(MAX_UC_QUEUES, UnicastQueue(0, 0)),
    Filled(MAX_UC_QUEUE_GROUPS, UnicastQueueGroup(0)),
    Filled(MAX_MC_QUEUES, MulticastQueue(0, 0, 0)),
    Filled(MAX_CPU_QUEUES, CpuQueue(0, 0)),
    Filled(MAX_RQE_QUEUES, RqeQueue(0, 0)))

  type Snapshot = s: SnapshotData | s.Sized() witness ZERO_SNAPSHOT

  // ---------------------------------------------------------------- realms

  datatype Realm =
    | Device
    | IngressPortPriorityGroup | IngressPortServicePool | IngressServicePool
    | EgressCpuQueue | EgressMcQueue | EgressPortServicePool | EgressRqeQueue
    | EgressServicePool | EgressUcQueue | EgressUcQueueGroup
  {
    /** Realms reported as one object a port. */
    predicate PerPort() {
      IngressPortPriorityGroup? || IngressPortServicePool? || EgressPortServicePool?
    }

    /** Realms whose rows name the port that uses the queue. */
    predicate NamesPort() {
      EgressMcQueue? || EgressUcQueue?
    }

    predicate Ingress() {
      IngressPortPriorityGroup? || IngressPortServicePool? || IngressServicePool?
    }

    predicate Egress() {
      !Device? && !Ingress()
    }

    function Name(): string {
      match this
      case Device => "device"
      case IngressPortPriorityGroup => "ingress-port-priority-group"
      case IngressPortServicePool => "ingress-port-service-pool"
      case IngressServicePool => "ingress-service-pool"
      case EgressCpuQueue => "egress-cpu-queue"
      case EgressMcQueue => "egress-mc-queue"
      case EgressPortServicePool => "egress-port-service-pool"
      case EgressRqeQueue => "egress-rqe-queue"
      case EgressServicePool => "egress-service-pool"
      case EgressUcQueue => "egress-uc-queue"
      case EgressUcQueueGroup => "egress-uc-queue-group"
    }

    /** How many queues, pools or groups the realm has; for a per-port realm, how many each port has. */
    function Count(asic: Capabilities): (n: nat)
      ensures asic.Valid() ==> n <= MaxCount()
    {
      match this
      case Device => 1
      case IngressPortPriorityGroup => asic.numPriorityGroups
      case IngressPortServicePool => asic.numServicePools
      case IngressServicePool => asic.numServicePools
      case EgressCpuQueue => asic.numCpuQueues
      case EgressMcQueue => asic.numMulticastQueues
      case EgressPortServicePool => asic.numServicePools
      case EgressRqeQueue => asic.numRqeQueues
      case EgressServicePool => asic.numServicePools
      case EgressUcQueue => asic.numUnicastQueues
      case EgressUcQueueGroup => asic.numUnicastQueueGroups
    }

    function MaxCount(): nat {
      match this
      case Device => 1
      case IngressPortPriorityGroup => MAX_PRIORITY_GROUPS
      case IngressPortServicePool => MAX_SERVICE_POOLS
      case IngressServicePool => MAX_SERVICE_POOLS
      case EgressCpuQueue => MAX_CPU_QUEUES
      case EgressMcQueue => MAX_MC_QUEUES
      case EgressPortServicePool => MAX_SERVICE_POOLS
      case EgressRqeQueue => MAX_RQE_QUEUES
      case EgressServicePool => MAX_SERVICE_POOLS
      case EgressUcQueue => MAX_UC_QUEUES
      case EgressUcQueueGroup => MAX_UC_QUEUE_GROUPS
    }

    /** Number of counters of one cell that decide whether it is reported. */
    function Width(): nat {
      match this
      case Device => 1
      case IngressPortPriorityGroup => 2
      case IngressPortServicePool => 1
      case IngressServicePool => 1
      case EgressCpuQueue => 2
      case EgressMcQueue => 2
      case EgressPortServicePool => 4
      case EgressRqeQueue => 2
      case EgressServicePool => 3
      case EgressUcQueue => 1
      case EgressUcQueueGroup => 1
    }

    /**
     Number of counters that a row prints, the first ones. The row of an egress port and service pool passes its
     queue entries to a format that has no place for them.
     */
    function Printed(): (n: nat)
      ensures n <= Width()
    {
      if EgressPortServicePool? then 3 else Width()
    }

    /** Buffer counts are converted to the reported unit; queue entries, always last, are not. */
    predicate Converted(column: nat) {
      match this
      case EgressCpuQueue => column < 1
      case EgressMcQueue => column < 1
      case EgressRqeQueue => column < 1
      case EgressServicePool => column < 2
      case EgressPortServicePool => column < 3
      case _ => true
    }

    /** Ports count from 1, and a realm without ports uses 0. */
    predicate HasPort(port: nat) {
      if PerPort() then 1 <= port <= MAX_PORTS else port == 0
    }

    /** A cell that exists in every snapshot. */
    predicate InTable(port: nat, index: nat) {
      index < MaxCount() && HasPort(port)
    }

    /** A cell that this ASIC has. */
    predicate Has(asic: Capabilities, port: nat, index: nat) {
      && index < Count(asic)
      && (if PerPort() then 1 <= port <= asic.numPorts else port == 0)
    }
  }

  /** The counters of one cell, in the order in which a row prints them. */
  function Counters(r: Realm, s: Snapshot, port: nat, index: nat): (c: seq<uint64>)
    requires r.InTable(port, index)
    ensures |c| == r.Width()
  {
    match r
    case Device => [s.device]
    case IngressPortPriorityGroup =>
      var d := s.iPortPg[port - 1][index]; [d.umShareBufferCount, d.umHeadroomBufferCount]
    case IngressPortServicePool => [s.iPortSp[port - 1][index].umShareBufferCount]
    case IngressServicePool => [s.iSp[index].umShareBufferCount]
    case EgressCpuQueue => [s.cpqQ[index].cpuBufferCount, s.cpqQ[index].cpuQueueEntries]
    case EgressMcQueue => [s.eMcQ[index].mcBufferCount, s.eMcQ[index].mcQueueEntries]
    case EgressPortServicePool =>
      var d := s.ePortSp[port - 1][index];
      [d.ucShareBufferCount, d.umShareBufferCount, d.mcShareBufferCount, d.mcShareQueueEntries]
    case EgressRqeQueue => [s.rqeQ[index].rqeBufferCount, s.rqeQ[index].rqeQueueEntries]
    case EgressServicePool =>
      var d := s.eSp[index]; [d.umShareBufferCount, d.mcShareBufferCount, d.mcShareQueueEntries]
    case EgressUcQueue => [s.eUcQ[index].ucBufferCount]
    case EgressUcQueueGroup => [s.eUcQg[index].ucBufferCount]
  }

  /** The port that uses a queue, as recorded in the snapshot. */
  function QueuePort(r: Realm, s: Snapshot, index: nat): int
    requires r.NamesPort() && r.InTable(0, index)
  {
    if r.EgressMcQueue? then s.eMcQ[index].port else s.eUcQ[index].port
  }

  predicate AllZero(c: seq<uint64>) {
    forall j | 0 <= j < |c| :: c[j] == 0
  }

  lemma ZeroSnapshotCounters(r: Realm, port: nat, index: nat)
    requires r.InTable(port, index)
    ensures AllZero(Counters(r, ZERO_SNAPSHOT, port, index))
  {
  }

  // ---------------------------------------------------------------- options

  datatype TriggerInfo = TriggerInfo(realm: string, counter: string, port: int, queue: int)

  /** `included` holds the realms whose include flag is set. */
  datatype Options = Options(
    included: set<Realm>,
    statUnitsInCells: bool,
    statsInPercentage: bool,
    reportThreshold: bool,
    reportTrigger: bool,
    sendSnapShotOnTrigger: bool,
    triggerInfo: TriggerInfo,
    sendIncrementalReport: bool)

  // ---------------------------------------------------------------- unit conversion

  /** Round half up of `num / den`: what `round_int` does to a quotient that is not negative. */
  function RoundHalfUp(num: nat, den: nat): nat
    requires den > 0
  {
    (2 * num + den) / (2 * den)
  }

  /** The multiplication by 100 is done in 64 bits. */
  function Percentage(v: uint64, maxBuf: uint64): nat {
    if maxBuf == 0 then 0 else RoundHalfUp(v * 100 % UINT64_LIMIT, maxBuf)
  }

  function Convert(o: Options, asic: Capabilities, v: uint64, maxBuf: uint64): nat
    requires asic.Valid()
  {
    if !o.reportThreshold && o.statsInPercentage then Percentage(v, maxBuf)
    else if o.statUnitsInCells then v / asic.cellToByteConv
    else v
  }

  /** `bst_json_convert_data`, which rewrites `*value`. */
  method ConvertData(o: Options, asic: Capabilities, value: uint64, maxBufVal: uint64) returns (data: nat)
    requires asic.Valid()
    ensures data == Convert(o, asic, value, maxBufVal)
  {
    data := value;
    if o.reportThreshold {
      if o.statUnitsInCells {
        data := data / asic.cellToByteConv;
      }
    } else if o.statsInPercentage {
      if maxBufVal == 0 {
        data := 0;
      } else {
        data := RoundHalfUp(data * 100 % UINT64_LIMIT, maxBufVal);
      }
    } else if o.statUnitsInCells {
      data := data / asic.cellToByteConv;
    }
  }

  /** What a reported number says about the counter, in each of the units. */
  lemma UnitMeans(o: Options, asic: Capabilities, v: uint64, maxBuf: uint64)
    requires asic.Valid()
    ensures (var n := Convert(o, asic, v, maxBuf);
             if o.statsInPercentage && !o.reportThreshold then
               if maxBuf == 0 then n == 0
               else
                 var product := 100 * v % 0x1_0000_0000_0000_0000;
                 2 * maxBuf * n <= 2 * product + maxBuf < 2 * maxBuf * (n + 1)
             else if o.statUnitsInCells then asic.cellToByteConv * n <= v < asic.cellToByteConv * (n + 1)
             else n == v)
  {
    if o.statsInPercentage && !o.reportThreshold {
      if maxBuf > 0 {
        RoundIsNearest(v * 100 % UINT64_LIMIT, maxBuf);
      }
    } else {
      QuotientMeans(v, asic.cellToByteConv);
    }
  }

  lemma QuotientMeans(a: nat, b: nat)
    requires b > 0
    ensures b * (a / b) <= a < b * (a / b + 1)
  {
    assert a == b * (a / b) + a % b;
  }

  /** The percentage is the nearest integer to the true one, provided 100 times the counter fits 64 bits. */
  lemma PercentageIsNearest(v: uint64, maxBuf: uint64)
    requires maxBuf > 0 && v * 100 < UINT64_LIMIT
    ensures 2 * maxBuf * Percentage(v, maxBuf) <= 2 * (100 * v) + maxBuf < 2 * maxBuf * (Percentage(v, maxBuf) + 1)
  {
    assert v * 100 % UINT64_LIMIT == v * 100;
    RoundIsNearest(v * 100, maxBuf);
  }

  lemma RoundIsNearest(num: nat, den: nat)
    requires den > 0
    ensures 2 * den * RoundHalfUp(num, den) <= 2 * num + den < 2 * den * (RoundHalfUp(num, den) + 1)
  {
    QuotientMeans(2 * num + den, 2 * den);
  }

  /** The largest ASIC that the tables of `asic.h` have room for. */
  lemma LargestAsicIsValid(cellToByteConv: nat)
    requires cellToByteConv > 0
    ensures Capabilities(130, 4096, 128, 1040, 4, 8, 11, 8, cellToByteConv).Valid()
  {
  }

  /** A counter that reads zero is reported as zero in every unit. */
  lemma ZeroConvertsToZero(o: Options, asic: Capabilities, maxBuf: uint64)
    requires asic.Valid()
    ensures Convert(o, asic, 0, maxBuf) == 0
  {
    if maxBuf > 0 {
      SmallQuotient(maxBuf, 2 * maxBuf);
      assert 0 * 100 % UINT64_LIMIT == 0;
    }
    SmallQuotient(0, asic.cellToByteConv);
  }

  lemma SmallQuotient(a: nat, b: nat)
    requires a < b
    ensures a / b == 0
  {
  }
}
