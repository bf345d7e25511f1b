/**
 The three records of a unit: a collection fills the current record, and the records then go round by
 swapping references. The class is proved against `BstRun`, whose lemmas speak about whole runs.
 */
module BstCollector {
  import opened Wrappers
  import opened BstData
  import opened BstSelect
  import opened BstText
  import opened BstReport
  import opened BstRun
  import BstMemory
  import RestSession

  class Record {
    var data: Snapshot

    constructor ()
      ensures data == ZERO_SNAPSHOT
    {
      data := ZERO_SNAPSHOT;
    }
  }

  class Unit {
    var active: Record
    var backup: Record
    var current: Record

    /** The three references are different records. */
    ghost predicate Valid()
      reads this
    {
      active != backup && backup != current && active != current
    }

    ghost function Repr(): set<Record>
      reads this
    {
      {active, backup, current}
    }

    ghost function Contents(): Records
      reads this, active, backup, current
    {
      Records(active.data, backup.data, current.data)
    }

    /** The initial state of `bst_main`. */
    constructor ()
      ensures Valid() && Contents() == ZERO_RECORDS
      ensures forall r | r in Repr() :: fresh(r)
    {
      active := new Record();
      backup := new Record();
      current := new Record();
    }

    /** The collecting part of `bst_get_report`; `left` is what the ASIC leaves in the zeroed record. */
    method Collect(left: Snapshot)
      requires Valid()
      modifies current
      ensures Contents() == old(Contents()).(current := left)
    {
      current.data := ZERO_SNAPSHOT;
      current.data := left;
    }

    /** `bst_update_data`: no record is copied, none is lost and none is shared. */
    method UpdateData()
      requires Valid()
      modifies this
      ensures Valid() && Repr() == old(Repr())
      ensures active == old(current) && backup == old(active) && current == old(backup)
      ensures Contents() == Records(old(current.data), old(active.data), old(backup.data))
    {
      var temp := backup;
      backup := active;
      active := current;
      current := temp;
    }

    /** The record part of `bst_clear_stats_set`. */
    method ClearStats()
      requires Valid()
      modifies active, backup, current
      ensures Contents() == RecordsAfter(old(Contents()), Clear)
      ensures active.data == ZERO_SNAPSHOT && backup.data == ZERO_SNAPSHOT && current.data == ZERO_SNAPSHOT
    {
      backup.data := ZERO_SNAPSHOT;
      active.data := ZERO_SNAPSHOT;
      current.data := ZERO_SNAPSHOT;
    }

    /**
     A report message, from collection to reply. When the collection fails (`!collected`) the records still go
     round, but the reply is an error. When no buffer is available or the report cannot be encoded there is no reply
     at all, and in the second case the buffer stays in use.
     */
    method HandleReport(cfg: Settings, ev: Event, collected: bool, pool: BstMemory.Pool) returns (reply: Reply)
      requires Valid() && pool.Valid() && cfg.asic.Valid() && (ev.Periodic? || ev.Get?)
      requires cfg.asicId.Some? ==>
                 var x := ContextOf(cfg, Collected(Contents(), ev.left), ev);
                 |UnfinishedText(x, Stamp(cfg.asicId.value, ev.time))| + 6 < pool.layout.reportSize
      modifies this, current, pool.small, pool.large
      ensures Valid() && Repr() == old(Repr())
      ensures Contents() == RecordsAfter(old(Contents()), ev)
      ensures (var slices := old(pool.InUse(BstMemory.Report));
               && IsReply(cfg, Contents(), ev, collected, BstMemory.FirstAvailable(slices, 0).Some?, reply)
               && pool.InUse(BstMemory.Report)
                  == if collected then BstMemory.AfterReport(slices, Sent(cfg, Contents(), ev).Some?) else slices)
      ensures pool.InUse(BstMemory.Response) == old(pool.InUse(BstMemory.Response))
      ensures reply.Report? ==> Holds(reply.json[..], Sent(cfg, Contents(), ev).value)
    {
      hide UnfinishedText, ReportText, ReportStatus;
      Collect(ev.left);
      var rv := collected;
      UpdateData();
      if !rv {
        return ErrorReply;
      }
      var previous := if ev.Periodic? && ev.incremental then Some(backup.data) else None;
      var included := if ev.Periodic? then cfg.tracked else ev.requested;
      var options := ReportOptions(cfg, included, ev.Get? || ev.incremental);
      var x := Context(previous, active.data, options, cfg.asic, cfg.notation, cfg.maxBuffers);
      assert x == ContextOf(cfg, Contents(), ev);
      reply := SendResponse(x, cfg.asicId, ev.time, pool);
    }

    /**
     A trigger message. The status of the collection is overwritten by that of enabling statistics on the ASIC
     again, so a report is sent even of a collection that failed: the reply does not depend on `collected`.
     */
    method HandleTrigger(cfg: Settings, left: Snapshot, info: TriggerInfo, sendSnapshot: bool, collected: bool,
                         enabled: bool, time: string, pool: BstMemory.Pool)
      returns (reply: Reply)
      requires Valid() && pool.Valid() && cfg.asic.Valid()
      requires cfg.asicId.Some? ==>
                 var x := TriggerContext(cfg, left, info, sendSnapshot);
                 |UnfinishedText(x, Stamp(cfg.asicId.value, time))| + 6 < pool.layout.reportSize
      modifies this, current, pool.small, pool.large
      ensures Valid() && Repr() == old(Repr())
      ensures Contents() == RecordsAfter(old(Contents()), Missed(left))
      ensures (var status := ReportStatus(TriggerContext(cfg, left, info, sendSnapshot), cfg.asicId);
               var slices := old(pool.InUse(BstMemory.Report));
               && (if !enabled then reply == ErrorReply
                   else if BstMemory.FirstAvailable(slices, 0).Some? && status.Success? then reply.Report?
                   else reply == NoReply)
               && pool.InUse(BstMemory.Report)
                  == if enabled then BstMemory.AfterReport(slices, status.Success?) else slices)
      ensures pool.InUse(BstMemory.Response) == old(pool.InUse(BstMemory.Response))
      ensures reply.Report? ==>
                var x := TriggerContext(cfg, left, info, sendSnapshot);
                cfg.asicId.Some? && Holds(reply.json[..], ReportText(x, Stamp(cfg.asicId.value, time)))
    {
      hide UnfinishedText, ReportText, ReportStatus, RealmOfName;
      Collect(left);
      var rv := collected;
      rv := enabled;
      UpdateData();
      if !rv {
        return ErrorReply;
      }
      var included := cfg.tracked;
      if !sendSnapshot {
        var r := RealmOfName(info.realm);
        included := if r.Some? then {r.value} else {};
      }
      var units, percent := cfg.statUnitsInCells, cfg.statsInPercentage;
      var options := Options(included, units, percent, false, true, sendSnapshot, info, true);
      var x := Context(None, active.data, options, cfg.asic, cfg.notation, cfg.maxBuffers);
      assert x == TriggerContext(cfg, left, info, sendSnapshot);
      reply := SendResponse(x, cfg.asicId, time, pool);
    }
  }

  // ---------------------------------------------------------------- replies and the sessions that wait for them

  datatype Reply = ErrorReply | Report(json: array<char>) | NoReply

  /** The buffer holds the C string `text`. */
  predicate Holds(json: seq<char>, text: string) {
    text < json && json[|text|] == '\0'
  }

  /**
   `bst_send_response` for a report: it is encoded into a buffer of the pool, sent, and the buffer freed. When no
   buffer is available or the report cannot be encoded there is no reply, and in the second case the buffer stays in
   use.
   */
  method SendResponse(x: Context, asicId: Option<string>, time: string, pool: BstMemory.Pool) returns (reply: Reply)
    requires x.asic.Valid() && pool.Valid()
    requires asicId.Some? ==> |UnfinishedText(x, Stamp(asicId.value, time))| + 6 < pool.layout.reportSize
    modifies pool.small, pool.large
    ensures (var slices := old(pool.InUse(BstMemory.Report));
             var encodable := ReportStatus(x, asicId).Success?;
             && reply != ErrorReply
             && (reply.Report? <==> BstMemory.FirstAvailable(slices, 0).Some? && encodable)
             && pool.InUse(BstMemory.Report) == BstMemory.AfterReport(slices, encodable))
    ensures pool.InUse(BstMemory.Response) == old(pool.InUse(BstMemory.Response))
    ensures reply.Report? ==> asicId.Some? && Holds(reply.json[..], ReportText(x, Stamp(asicId.value, time)))
  {
    hide UnfinishedText, ReportText, ReportStatus;
    var status, json, buffer := EncodeReport(x, asicId, time, pool);
    reply := if status.Success? then Report(json) else NoReply;
    if buffer.Some? {
      var freed := pool.Free(buffer.value);
    }
  }

  /** The kind of reply to a report message, after which the records are `rs`; `available` is a buffer for it. */
  predicate IsReply(cfg: Settings, rs: Records, ev: Event, collected: bool, available: bool, reply: Reply)
    requires cfg.asic.Valid() && (ev.Periodic? || ev.Get?)
  {
    match reply
    case ErrorReply => !collected
    case Report(_) => collected && available && Sent(cfg, rs, ev).Some?
    case NoReply => collected && !(available && Sent(cfg, rs, ev).Some?)
  }

  /** What the reply does to the session that is its cookie: without one the message is dropped. */
  function CookieEvent(reply: Reply, job: nat, sent: bool): RestSession.Event {
    if reply.NoReply? then RestSession.Drop(job) else RestSession.Answer(job, sent)
  }

  /**
   A request for a report loses its session if and only if it is collected and there is no buffer for its report or
   the report cannot be encoded.
   */
  lemma RequestLeaksIff(cfg: Settings, rs: Records, ev: Event, collected: bool, available: bool, reply: Reply,
                        s: RestSession.State, job: nat, sent: bool)
    requires cfg.asic.Valid() && ev.Get? && IsReply(cfg, rs, ev, collected, available, reply)
    requires RestSession.Inv(s) && job < |s.jobs| && s.jobs[job].phase == RestSession.Taken
    ensures RestSession.Enabled(s, CookieEvent(reply, job, sent))
    ensures RestSession.Leaked(RestSession.Next(s, CookieEvent(reply, job, sent)), s.jobs[job].slot)
       <==> collected && !(available && ReportStatus(ContextOf(cfg, rs, ev), cfg.asicId).Success?)
  {
    hide ReportStatus, ReportText, RestSession.Next;
    assert RestSession.JobOwns(s, s.jobs[job]);
    RestSession.LeakedIff(s, CookieEvent(reply, job, sent), s.jobs[job].slot);
  }

  /**
   After any run of reports, periodic ones and those of triggers included, a request loses its session if and only if
   it is collected and four of them, or its own, cannot be encoded.
   */
  lemma RequestAfterReportsLeaksIff(cfg: Settings, rs: Records, ev: Event, collected: bool, reply: Reply,
                                    encodable: seq<bool>, s: RestSession.State, job: nat, sent: bool)
    requires cfg.asic.Valid() && ev.Get?
    requires (var slices := BstMemory.AfterReports(Repeated(false, BstMemory.MAX_REPORT_SLICES), encodable);
              IsReply(cfg, rs, ev, collected, BstMemory.FirstAvailable(slices, 0).Some?, reply))
    requires RestSession.Inv(s) && job < |s.jobs| && s.jobs[job].phase == RestSession.Taken
    ensures RestSession.Enabled(s, CookieEvent(reply, job, sent))
    ensures RestSession.Leaked(RestSession.Next(s, CookieEvent(reply, job, sent)), s.jobs[job].slot)
       <==> && collected
            && (|| BstMemory.Failures(encodable) >= 4
                || !ReportStatus(ContextOf(cfg, rs, ev), cfg.asicId).Success?)
  {
    hide *;
    BstMemory.BufferIsAvailableIff(encodable);
    var slices := BstMemory.AfterReports(Repeated(false, BstMemory.MAX_REPORT_SLICES), encodable);
    RequestLeaksIff(cfg, rs, ev, collected, BstMemory.FirstAvailable(slices, 0).Some?, reply, s, job, sent);
  }

  /** So it never does while a buffer is available and ASIC, ports and queues have names. */
  lemma NamedRequestNeverLeaks(cfg: Settings, rs: Records, ev: Event, collected: bool, reply: Reply)
    requires Usable(cfg) && ev.Get? && QueuesNamed(cfg, rs.active) && IsReply(cfg, rs, ev, collected, true, reply)
    ensures reply != NoReply
  {
    hide Usable, QueuesNamed, Sent;
    ReportIsSent(cfg, rs, ev);
  }
}
