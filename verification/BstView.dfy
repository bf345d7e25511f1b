/**
 What a collector knows of a switch from the reports alone: one report is exact, and over any run of
 collections and clears a collector that reads every report always holds the active record.
 */
module BstView {
  import opened Wrappers
  import opened BstData
  import opened BstSelect
  import opened BstParse

  // ---------------------------------------------------------------- one report

  /** The realms of a report are pairwise different. */
  lemma ReportOrderIsDistinct()
    ensures REPORT_ORDER
         == [Device, IngressPortPriorityGroup, IngressPortServicePool, IngressServicePool,
             EgressCpuQueue, EgressMcQueue, EgressPortServicePool, EgressRqeQueue,
             EgressServicePool, EgressUcQueue, EgressUcQueueGroup]
    ensures forall a, b | 0 <= a < b < |REPORT_ORDER| :: REPORT_ORDER[a] != REPORT_ORDER[b]
  {
    assert REPORT_ORDER
        == [Device, IngressPortPriorityGroup, IngressPortServicePool, IngressServicePool,
            EgressCpuQueue, EgressMcQueue, EgressPortServicePool, EgressRqeQueue,
            EgressServicePool, EgressUcQueue, EgressUcQueueGroup];
  }

  /** What a view shows for a cell after the report `x` has been laid over `v`. */
  lemma ReportLaw(v: View, x: Context, r: Realm, port: nat, i: nat)
    requires x.asic.Valid() && DistinctNames(x) && r.Has(x.asic, port, i)
    ensures Look(Overlay(v, Selected(x, REPORT_ORDER)), r, Place(x, r, port), i)
         == if r in x.options.included && Emitted(x, r, port, i) then Values(x, r, x.current, port, i)
            else Look(v, r, Place(x, r, port), i)
  {
    hide Overlay, Selected, Look, Emitted;
    ReportOrderIsDistinct();
    OverlayLaw(v, x, REPORT_ORDER, r, port, i);
    EveryRealmIsOrdered(r);
  }

  lemma EqualCountersShowEqual(x: Context, r: Realm, s: Snapshot, t: Snapshot, port: nat, i: nat)
    requires x.asic.Valid() && r.InTable(port, i) && Counters(r, s, port, i) == Counters(r, t, port, i)
    ensures Values(x, r, s, port, i) == Values(x, r, t, port, i)
  {
    hide Counters, Convert;
  }

  /**
   A delta report that is not a trigger report: whoever laid it over any view shows the current value of a cell
   exactly if the cell has changed, or the view already showed that value.
   */
  lemma DeltaIsExact(v: View, x: Context, r: Realm, port: nat, i: nat)
    requires x.asic.Valid() && DistinctNames(x) && r.Has(x.asic, port, i) && r in x.options.included
    requires x.previous.Some? && !x.options.reportTrigger
    ensures Look(Overlay(v, Selected(x, REPORT_ORDER)), r, Place(x, r, port), i) == Values(x, r, x.current, port, i)
       <==> Changed(x, r, port, i) || Look(v, r, Place(x, r, port), i) == Values(x, r, x.previous.value, port, i)
  {
    ReportLaw(v, x, r, port, i);
    hide Overlay, Selected, Look, Counters, Values;
    if !Changed(x, r, port, i) {
      EqualCountersShowEqual(x, r, x.previous.value, x.current, port, i);
    }
  }

  /**
   The rows of a delta report, for a flat realm or one port: the indices whose counters have changed, each once,
   in ascending order.
   */
  lemma DeltaRowsAreTheChanges(x: Context, r: Realm, port: nat)
    requires x.asic.Valid() && r.HasPort(port) && x.previous.Some? && !x.options.reportTrigger
    ensures (var es := Kept(Cells(x, r, port, r.Count(x.asic)));
             forall k, l | 0 <= k < l < |es| :: es[k].index < es[l].index)
    ensures (var es := Kept(Cells(x, r, port, r.Count(x.asic)));
             forall i: nat | i < r.Count(x.asic) ::
               Changed(x, r, port, i) <==> exists k :: 0 <= k < |es| && es[k] == EntryAt(x, r, port, i))
  {
    var n := r.Count(x.asic);
    var cells := Cells(x, r, port, n);
    var es := Kept(cells);
    SelectionIsExact(x, r, port, n);
    forall i: nat | i < n
      ensures Changed(x, r, port, i) <==> exists k :: 0 <= k < |es| && es[k] == EntryAt(x, r, port, i)
    {
      assert cells[i] == Cell(x, r, port, i);
      hide EntryAt, Kept, Cells, Counters;
      EntryIndex(x, r, port, i);
      if Changed(x, r, port, i) {
        assert cells[i].value in es;
      }
    }
  }

  /**
   A delta row prints a changed counter, with one exception: the queue entries of an egress port and service pool
   decide whether the row is sent, but are not printed.
   */
  lemma SilentRowIff(x: Context, r: Realm, port: nat, i: nat)
    requires r.InTable(port, i) && !r.Device? && x.previous.Some? && !x.options.reportTrigger
    ensures (var c, d, n := Counters(r, x.previous.value, port, i), Counters(r, x.current, port, i), r.Printed();
             Emitted(x, r, port, i) && c[..n] == d[..n]
             <==> r.EgressPortServicePool? && c[..3] == d[..3] && c[3] != d[3])
  {
    var c, d, n := Counters(r, x.previous.value, port, i), Counters(r, x.current, port, i), r.Printed();
    hide Counters;
    if n == r.Width() {
      assert c[..n] == c && d[..n] == d;
    } else {
      assert c == c[..3] + [c[3]] && d == d[..3] + [d[3]];
    }
  }

  /** Snapshot `s` with other queue entries for one port and service pool. */
  function WithEntries(s: Snapshot, port: nat, i: nat, entries: uint64): Snapshot
    requires EgressPortServicePool.InTable(port, i)
  {
    var row := s.ePortSp[port - 1];
    s.(ePortSp := s.ePortSp[port - 1 := row[i := row[i].(mcShareQueueEntries := entries)]])
  }

  /** Such rows occur for every snapshot and cell: it is enough that the queue entries change. */
  lemma SilentRowOccurs(x: Context, port: nat, i: nat, entries: uint64)
    requires x.asic.Valid() && EgressPortServicePool.InTable(port, i) && !x.options.reportTrigger
    requires x.previous.Some? && x.current == WithEntries(x.previous.value, port, i, entries)
    requires entries != x.previous.value.ePortSp[port - 1][i].mcShareQueueEntries
    ensures Emitted(x, EgressPortServicePool, port, i)
    ensures Values(x, EgressPortServicePool, x.previous.value, port, i)
         == Values(x, EgressPortServicePool, x.current, port, i)
  {
    var c := Counters(EgressPortServicePool, x.previous.value, port, i);
    var d := Counters(EgressPortServicePool, x.current, port, i);
    assert c[..3] == d[..3] && c[3] != d[3];
    SilentRowIff(x, EgressPortServicePool, port, i);
    hide Counters;
    UnprintedIsInvisible(x, EgressPortServicePool, x.previous.value, x.current, port, i);
  }

  /** Snapshots that agree on what is printed cannot be told apart by their values. */
  lemma UnprintedIsInvisible(x: Context, r: Realm, s: Snapshot, t: Snapshot, port: nat, i: nat)
    requires x.asic.Valid() && r.InTable(port, i)
    requires Counters(r, s, port, i)[..r.Printed()] == Counters(r, t, port, i)[..r.Printed()]
    ensures Values(x, r, s, port, i) == Values(x, r, t, port, i)
  {
    var c, d, n := Counters(r, s, port, i), Counters(r, t, port, i), r.Printed();
    hide Counters, Convert;
    forall j | 0 <= j < n ensures c[j] == d[j] {
      assert c[j] == c[..n][j] && d[j] == d[..n][j];
    }
    assert Values(x, r, s, port, i) == Values(x, r, t, port, i);
  }

  lemma EntryIndex(x: Context, r: Realm, port: nat, i: nat)
    requires x.asic.Valid() && r.InTable(port, i)
    ensures EntryAt(x, r, port, i).index == i
  {
  }

  lemma ZeroShowsZeros(x: Context, r: Realm, s: Snapshot, port: nat, i: nat)
    requires x.asic.Valid() && r.InTable(port, i) && AllZero(Counters(r, s, port, i))
    ensures Values(x, r, s, port, i) == Zeros(r.Printed())
  {
    var c, m := Counters(r, s, port, i), Counters(r, x.maxBuffers, port, i);
    forall j | 0 <= j < r.Printed() ensures Values(x, r, s, port, i)[j] == 0 {
      assert c[j] == 0;
      ZeroConvertsToZero(x.options, x.asic, m[j]);
    }
    hide Counters, Convert;
    assert Values(x, r, s, port, i) == Zeros(r.Printed());
  }

  /**
   A full report shows everything to a collector that starts afresh, whether zeros are suppressed or not; so does a
   trigger report with snapshot.
   */
  lemma FullReportRebuilds(x: Context, r: Realm, port: nat, i: nat)
    requires x.asic.Valid() && DistinctNames(x) && r.Has(x.asic, port, i) && r in x.options.included
    requires x.previous.None? && (x.options.reportTrigger ==> x.options.sendSnapShotOnTrigger)
    ensures Look(Overlay(map[], Selected(x, REPORT_ORDER)), r, Place(x, r, port), i) == Values(x, r, x.current, port, i)
  {
    ReportLaw(map[], x, r, port, i);
    hide Overlay, Selected, Counters, Values;
    if !Emitted(x, r, port, i) {
      ZeroShowsZeros(x, r, x.current, port, i);
    }
  }

  /** With suppression off, a full report shows everything whatever was known before. */
  lemma CompleteReportResyncs(v: View, x: Context, r: Realm, port: nat, i: nat)
    requires x.asic.Valid() && DistinctNames(x) && r.Has(x.asic, port, i) && r in x.options.included
    requires x.previous.None? && !x.options.reportTrigger && !x.options.sendIncrementalReport
    ensures Look(Overlay(v, Selected(x, REPORT_ORDER)), r, Place(x, r, port), i) == Values(x, r, x.current, port, i)
  {
    ReportLaw(v, x, r, port, i);
    hide Overlay, Selected, Look, Counters, Values;
  }

  lemma {:induction false} KeptAll<T>(rows: seq<Option<T>>)
    requires forall i | 0 <= i < |rows| :: rows[i].Some?
    ensures |Kept(rows)| == |rows| && forall i | 0 <= i < |rows| :: Kept(rows)[i] == rows[i].value
  {
    if rows != [] {
      KeptAll(rows[..|rows| - 1]);
    }
  }

  /** With suppression off, every index below the count has exactly one row, in its place. */
  lemma CompleteReportHasEveryRow(x: Context, r: Realm, port: nat)
    requires x.asic.Valid() && r.HasPort(port)
    requires x.previous.None? && !x.options.reportTrigger && !x.options.sendIncrementalReport
    ensures (var es := Kept(Cells(x, r, port, r.Count(x.asic)));
             && |es| == r.Count(x.asic)
             && forall i: nat | i < |es| :: es[i] == EntryAt(x, r, port, i))
  {
    var cells := Cells(x, r, port, r.Count(x.asic));
    forall i: nat | i < |cells| ensures cells[i] == Some(EntryAt(x, r, port, i)) {
      assert cells[i] == Cell(x, r, port, i);
    }
    hide Cells, EntryAt;
    KeptAll(cells);
  }
}
