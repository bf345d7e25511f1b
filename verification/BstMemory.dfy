/**
 The pool of report buffers: which buffers are in use, how a buffer is found again from its address, and what is
 left in use by reports that cannot be encoded.
 */
module BstMemory {
  import opened Wrappers

  const MAX_RESPONSE_SLICES := 20
  const MAX_REPORT_SLICES := 4
  const MEMSIZE_RESPONSE := 1024

  datatype Kind = Response | Report

  function Max(kind: Kind): nat {
    if kind.Response? then MAX_RESPONSE_SLICES else MAX_REPORT_SLICES
  }

  datatype Status = Success | OutOfMemory | InvalidParameter | InvalidMemory

  // ---------------------------------------------------------------- addresses

  /** Where the small buffers start, and how long a large one is. The large buffers follow the small ones. */
  datatype Layout = Layout(start: nat, reportSize: nat) {
    predicate Valid() {
      start > 0 && reportSize > 0
    }

    function Size(kind: Kind): nat {
      if kind.Response? then MEMSIZE_RESPONSE else reportSize
    }

    /** The start of the pool of a kind. */
    function Start(kind: Kind): nat {
      if kind.Response? then start else start + MAX_RESPONSE_SLICES * MEMSIZE_RESPONSE
    }

    /** Where buffer `i` starts. */
    function Address(kind: Kind, i: nat): nat {
      Start(kind) + i * Size(kind)
    }

    /** The last address that the pool of a kind accepts. */
    function End(kind: Kind): nat {
      Address(kind, Max(kind) - 1)
    }

    predicate InRange(kind: Kind, buffer: nat) {
      Start(kind) <= buffer <= End(kind)
    }
  }

  /** Small buffers of one KiB each come first, and the large ones follow. */
  lemma BuffersAreAdjacent(l: Layout, i: nat)
    ensures l.Address(Response, i) == l.start + 1024 * i
    ensures l.Address(Report, i) == l.start + 20 * 1024 + l.reportSize * i
  {
  }

  lemma {:induction false} ProductGrows(i: nat, j: nat, size: nat)
    requires i <= j
    ensures i * size <= j * size && (i < j ==> i * size + size <= j * size)
    decreases j
  {
    if i < j {
      ProductGrows(i, j - 1, size);
      assert j * size == (j - 1) * size + size;
    }
  }

  lemma MultipleOf(temp: nat, size: nat, i: nat)
    requires size > 0
    ensures temp == i * size <==> temp % size == 0 && i == temp / size
  {
    var q, r := temp / size, temp % size;
    assert temp == q * size + r;
    if i < q {
      ProductGrows(i, q, size);
    } else if q < i {
      ProductGrows(q, i, size);
    }
  }

  /** The address of a buffer is in the range of its own pool and of no other. */
  lemma AddressInRange(l: Layout, kind: Kind, i: nat)
    requires l.Valid() && i < Max(kind)
    ensures l.InRange(kind, l.Address(kind, i))
    ensures forall other: Kind | other != kind :: !l.InRange(other, l.Address(kind, i))
  {
    ProductGrows(i, Max(kind) - 1, l.Size(kind));
  }

  lemma RangeEndsPool(l: Layout, kind: Kind, i: nat)
    requires l.Valid() && l.InRange(kind, l.Address(kind, i))
    ensures i < Max(kind)
  {
    if Max(kind) <= i {
      ProductGrows(Max(kind) - 1, i, l.Size(kind));
    }
  }

  // ---------------------------------------------------------------- the pool

  /** The first slice at or after `i` that is not in use. */
  function FirstAvailable(slices: seq<bool>, i: nat): (r: Option<nat>)
    requires i <= |slices|
    ensures r.Some? ==> i <= r.value < |slices| && !slices[r.value] && forall k | i <= k < r.value :: slices[k]
    ensures r.None? <==> forall k | i <= k < |slices| :: slices[k]
    decreases |slices| - i
  {
    if i == |slices| then None else if !slices[i] then Some(i) else FirstAvailable(slices, i + 1)
  }

  class Pool {
    const layout: Layout
    const small: array<bool>
    const large: array<bool>

    ghost predicate Valid() {
      layout.Valid() && small != large && small.Length == Max(Response) && large.Length == Max(Report)
    }

    function Slices(kind: Kind): array<bool> {
      if kind.Response? then small else large
    }

    /** Which buffers of a kind are in use. */
    ghost function InUse(kind: Kind): (s: seq<bool>)
      requires Valid()
      reads Slices(kind)
      ensures |s| == Max(kind)
    {
      Slices(kind)[..]
    }

    /** `bstjson_memory_init`. */
    constructor (layout: Layout)
      requires layout.Valid()
      ensures Valid() && fresh(small) && fresh(large) && this.layout == layout
      ensures forall kind: Kind :: InUse(kind) == Repeated(false, Max(kind))
      ensures |InUse(Response)| == 20 && |InUse(Report)| == 4
    {
      this.layout := layout;
      small := new bool[MAX_RESPONSE_SLICES](_ => false);
      large := new bool[MAX_REPORT_SLICES](_ => false);
      new;
      RepeatedIs(false, MAX_RESPONSE_SLICES);
      RepeatedIs(false, MAX_REPORT_SLICES);
      assert small[..] == Repeated(false, MAX_RESPONSE_SLICES);
      assert large[..] == Repeated(false, MAX_REPORT_SLICES);
    }

    /** `bstjson_memory_allocate`; `buffer` is written only on success. */
    method Allocate(kind: Kind) returns (status: Status, buffer: nat)
      requires Valid()
      modifies Slices(kind)
      ensures (var r := FirstAvailable(old(InUse(kind)), 0);
               if r.None? then status == OutOfMemory && InUse(kind) == old(InUse(kind))
               else
                 && status == Success
                 && buffer == layout.Address(kind, r.value)
                 && InUse(kind) == old(InUse(kind))[r.value := true])
    {
      var slices := Slices(kind);
      ghost var before := slices[..];
      buffer := 0;
      for index := 0 to Max(kind)
        invariant slices[..] == before && FirstAvailable(before, 0) == FirstAvailable(before, index)
      {
        if !slices[index] {
          slices[index] := true;
          return Success, layout.Address(kind, index);
        }
      }
      status := OutOfMemory;
    }

    /**
     `bstjson_memory_free`: exactly the start of a buffer is accepted, and that buffer, of that kind, and no other
     is no longer in use.
     */
    method Free(buffer: nat) returns (status: Status)
      requires Valid()
      modifies small, large
      ensures status.Success? <==> exists kind: Kind, i: nat :: i < Max(kind) && buffer == layout.Address(kind, i)
      ensures forall kind: Kind, i: nat | i < Max(kind) && buffer == layout.Address(kind, i) ::
                && InUse(kind) == old(InUse(kind))[i := false]
                && (forall other: Kind | other != kind :: InUse(other) == old(InUse(other)))
      ensures !status.Success? ==> forall kind: Kind :: InUse(kind) == old(InUse(kind))
      ensures status.InvalidParameter? <==> forall kind: Kind :: !layout.InRange(kind, buffer)
    {
      forall kind: Kind, i: nat | i < Max(kind) && buffer == layout.Address(kind, i)
        ensures layout.InRange(kind, buffer) && forall other: Kind | other != kind :: !layout.InRange(other, buffer)
      {
        AddressInRange(layout, kind, i);
      }
      if !layout.InRange(Response, buffer) && !layout.InRange(Report, buffer) {
        return InvalidParameter;
      }
      var kind := if buffer <= layout.End(Response) then Response else Report;
      status := FreeOfKind(kind, buffer);
    }

    /** The part of `bstjson_memory_free` that is written out once for each pool. */
    method FreeOfKind(kind: Kind, buffer: nat) returns (status: Status)
      requires Valid() && layout.InRange(kind, buffer)
      modifies Slices(kind)
      ensures status.Success? <==> exists i: nat :: i < Max(kind) && buffer == layout.Address(kind, i)
      ensures forall i: nat | i < Max(kind) && buffer == layout.Address(kind, i) ::
                InUse(kind) == old(InUse(kind))[i := false]
      ensures !status.Success? ==> status.InvalidMemory? && InUse(kind) == old(InUse(kind))
    {
      var temp := buffer - layout.Start(kind);
      forall i: nat
        ensures buffer == layout.Address(kind, i)
           <==> temp % layout.Size(kind) == 0 && i == temp / layout.Size(kind)
      {
        MultipleOf(temp, layout.Size(kind), i);
      }
      if temp % layout.Size(kind) != 0 {
        return InvalidMemory;
      }
      var index := temp / layout.Size(kind);
      assert buffer == layout.Address(kind, index);
      RangeEndsPool(layout, kind, index);
      Slices(kind)[index] := false;
      status := Success;
    }
  }

  lemma {:induction false} RepeatedIs<T>(x: T, n: nat)
    ensures |Repeated(x, n)| == n && forall i | 0 <= i < n :: Repeated(x, n)[i] == x
  {
    if n > 0 {
      RepeatedIs(x, n - 1);
    }
  }

  // ---------------------------------------------------------------- reports that cannot be encoded

  /**
   What a report leaves of the report buffers in use: the buffer of a report that was encoded is freed after it was
   sent, but the encoder does not hand a buffer out together with an error, so nobody can free it.
   */
  function AfterReport(slices: seq<bool>, encodable: bool): seq<bool> {
    var r := FirstAvailable(slices, 0);
    if r.None? || encodable then slices else slices[r.value := true]
  }

  function AfterReports(slices: seq<bool>, encodable: seq<bool>): seq<bool> {
    if encodable == [] then slices
    else AfterReport(AfterReports(slices, encodable[..|encodable| - 1]), encodable[|encodable| - 1])
  }

  /** How many of the reports cannot be encoded. */
  function Failures(encodable: seq<bool>): nat {
    if encodable == [] then 0
    else Failures(encodable[..|encodable| - 1]) + if encodable[|encodable| - 1] then 0 else 1
  }

  /** The first `n` report buffers are in use, or all if there are no more. */
  predicate FirstInUse(slices: seq<bool>, n: nat) {
    |slices| == MAX_REPORT_SLICES && forall i | 0 <= i < MAX_REPORT_SLICES :: slices[i] <==> i < n
  }

  lemma FirstInUseNext(slices: seq<bool>, n: nat, encodable: bool)
    requires FirstInUse(slices, n)
    ensures FirstAvailable(slices, 0).Some? <==> n < MAX_REPORT_SLICES
    ensures FirstInUse(AfterReport(slices, encodable), if encodable then n else n + 1)
  {
    if n < MAX_REPORT_SLICES {
      assert !slices[n];
    }
  }

  /** After any run of reports as many buffers are in use as reports could not be encoded, up to the whole pool. */
  lemma {:induction false} FailuresKeepBuffers(encodable: seq<bool>)
    ensures FirstInUse(AfterReports(Repeated(false, MAX_REPORT_SLICES), encodable), Failures(encodable))
  {
    if encodable == [] {
      RepeatedIs(false, MAX_REPORT_SLICES);
    } else {
      var n := |encodable| - 1;
      hide AfterReport, FirstInUse, FirstAvailable, Repeated;
      FailuresKeepBuffers(encodable[..n]);
      FirstInUseNext(AfterReports(Repeated(false, MAX_REPORT_SLICES), encodable[..n]), Failures(encodable[..n]),
                     encodable[n]);
    }
  }

  /** So there is a buffer for the next report if and only if fewer than four before it could not be encoded. */
  lemma BufferIsAvailableIff(encodable: seq<bool>)
    ensures |AfterReports(Repeated(false, MAX_REPORT_SLICES), encodable)| == MAX_REPORT_SLICES
    ensures FirstAvailable(AfterReports(Repeated(false, MAX_REPORT_SLICES), encodable), 0).Some?
       <==> Failures(encodable) < 4
  {
    FailuresKeepBuffers(encodable);
    hide AfterReports, Failures, Repeated;
    FirstInUseNext(AfterReports(Repeated(false, MAX_REPORT_SLICES), encodable), Failures(encodable), true);
  }
}
