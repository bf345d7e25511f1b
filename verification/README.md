# BroadView agent: model and proofs

This project models the hard core of the BroadView instrumentation agent in Dafny and proves what that core is
meant to keep. `dafny verify dfyconfig.toml` checks all of it.

| files | part of the agent |
|---|---|
| `BstData`, `BstSelect`, `BstText`, `BstParse`, `BstEncoder`, `BstReport` | the buffer-statistics report: which counters it carries, its text, its imperative encoder over one flat buffer, and a reader |
| `BstContent` | what a report says, member by member, in terms of configuration, capabilities and snapshots |
| `BstMemory` | the pool of report buffers, and what reports that cannot be encoded leave of it |
| `BstView`, `BstRun`, `BstCollector` | a collector that follows the reports; the three snapshot records that go round by swapping references |
| `BstTrigger` | the trigger rate limiter and its window timer |
| `BstFeature`, `SystemTime` | the timer of the asynchronous reports, and the operating system's timers |
| `RestSession`, `RestRequest`, `RestSend` | the REST session pool under all interleavings, the in-place request parser, the partial-send loop |
| `ModuleMgr`, `SbRedirect` | the two registries and their lookups |
| `Json`, `Wrappers` | a JSON reader (RFC 8259, sections 2 to 7) and shared facts about sequences |

## How the report is proved

`BstSelect` says which cells a report carries, `BstText` which text that is. The encoder of `BstEncoder` and
`BstReport` moves a cursor through a character array, steps back one character to erase separators, marks pools in
a first pass and prints them in a second; each of its methods is proved to leave exactly that text, or to return
exactly the error that the source returns. `BstParse` proves that the text is one JSON text and that reading it
gives back what was selected. `BstContent` says what that text holds without the tables that drive the encoder: each
header member, realm name, row, unit and count, in the words of the configuration and the snapshots. `BstView` and
`BstRun` then speak of a collector that only ever sees these texts.

## What was found

- A trigger report without any realm object is not JSON: its header ends in a bracket with no spare blank, and the
  finaliser overwrites the bracket. `BstParse.ReportIsWellFormedIff` says exactly when a report is well-formed, and
  `BstRun.TriggerReportIsWellFormedIff` when the agent sends an ill-formed one.
- A row of `egress-port-service-pool` passes four counters to a format with three places. The queue entries decide
  whether the row is sent but are never printed (`BstView.SilentRowIff`, `BstView.UnprintedIsInvisible`).
- The records go round even if a collection fails or its report goes to somebody else, so that change is lost to a
  collector of incremental reports exactly until the cell changes again (`BstRun.MissedChangeIsLost`).
- For a trigger the status of the collection is overwritten by that of enabling statistics again, so a report is sent
  even of a collection that failed (`BstCollector.Unit.HandleTrigger`).
- Unrecognised triggers, or a bound raised from 0, can suppress an index with no timer running to lift that, until
  another index starts the timer (`BstTrigger.UnrecognisedTriggerSticks`, `BstTrigger.RaisedBoundSticks`).
  `BstTrigger.RunIsPendingIff` says which runs are free of this.
- `bst_config_feature_set` stores an interval that comes without the asynchronous bit but does not arm it, and repeating
  it with the bit does not help (`BstFeature.StalePeriodStays`, `BstFeature.RunMatchesIff`). This is latent: the message
  parser always sets both bits, and then the period is always right (`BstFeature.RunOfParsedMessages`).
- An interval of 0 is admitted and disarms the timer: reports are on and none is sent
  (`BstFeature.ZeroIntervalNeverFires`).
- A session is lost for good if and only if its message is dropped (`RestSession.LeakedIffDropped`,
  `RestSession.LeakIsForEver`), which happens to a request for a report exactly if the collection succeeds and no
  buffer is available or the report cannot be encoded (`BstCollector.RequestLeaksIff`). With all five lost no request
  is read again, and that can be reached (`RestSession.StartCanLosePool`).
- A report that cannot be encoded keeps its buffer, since the encoder hands the buffer out on success only. After four
  such reports of whatever kind no report is sent any more, and every further request loses its session
  (`BstMemory.BufferIsAvailableIff`, `BstCollector.RequestAfterReportsLeaksIff`).
- A connection accepted while all sessions are in use is never closed (`RestSession.OrphanedIff`).
- A request with a blank before its method, or with more than one before its URL, is refused
  (`RestRequest.LeadingBlankIsRefused`, `RestRequest.ParsesIffSingleBlank`), except that surplus blanks before a URL
  that holds a twin line end can let it through (`RestRequest.BlanksParseIff`).
- The finaliser of a report takes one from the remaining length for its step back, where every other step back adds
  one; its room is two less than what is left, which cuts nothing off (`BstReport.Finalise`).
- Exactly if the first send of a payload fails, the send loop goes on from the byte before the buffer, and sends that
  byte if a later call accepts one; it still reports failure (`RestSend.Send200WithData`).
- The print-and-advance macro tests for a text as long as the room left, where `snprintf` cuts off any that is longer:
  those pass as success and move the cursor out of the encoder's part (`BstEncoder.CopyAndAdvance`).
- Feature 0 is taken for a duplicate while two entries are free (`ModuleMgr.ZeroIdAcceptedIff`), and a name without a
  handler hides the handler of a later module (`ModuleMgr.NullHandlerHidesIff`, `ModuleMgr.NullHandlerHidesLater`).
- A second entry for all silicon beats a later specific one: the first specific supporter is found exactly unless two
  entries for all silicon stand before it (`SbRedirect.FirstSpecificWinsIff`; `SbRedirect.SecondAllBeatsSpecific` is
  an input).

## Assumptions

- The capability counts are at most the maxima of `asic.h`, and a cell has a nonzero size.
- A report fits its buffer with seven characters to spare. The source does not check this; the size of its buffer is
  the size of a snapshot plus 64 KiB.
- External names, realm and counter strings and time stamps need no escaping in JSON (`BstParse.Plain`), and for the
  collector's results different ports have different names.
- A percentage is an exact rational rounded half up, of the 64-bit product of counter and 100.
- What the ASIC, timers, sockets and message queues answer is a parameter, success or failure. Counters of triggers
  do not wrap around. A collection interval is at most 600 seconds, as the message parser admits it.
- A message handler reports success exactly when it posted one message.
- The buffer of a REST session is followed by zero bytes of the cleared session.
- Reports are encoded and sent one after the other, by one thread. In a run, a report for which there is no buffer
  counts as missed.

Seven flat realm encoders are one method over the tables of `BstData.Realm`, and three port and pool encoders are
another; the C functions differ only in these tables and in the templates of `BstText`. The table of maximum buffers
has the shape of a snapshot. The reader accepts a part of JSON (no escapes, fractions, exponents or literals), so a
text it accepts is a JSON text.

## Model

| member | source | states |
|---|---|---|
| BstData.UnitMeans | src/apps/bst/api/bst_json_encoder.c:552-608 | a reported percentage is the nearest one to the 64-bit product of 100 and the counter over the maximum, a number of cells the whole cells in the counter, and otherwise the counter is reported in bytes; a threshold never as a percentage |
| BstData.PercentageIsNearest | src/apps/bst/api/bst_json_encoder.c:546-548 | the percentage is the nearest integer to the true one whenever 100 times the counter fits 64 bits |
| BstData.ZeroConvertsToZero | src/apps/bst/api/bst_json_encoder.c:566-605 | zero is zero in every unit, so suppressed zeros lose nothing |
| BstData.LargestAsicIsValid | src/public/asic.h:27-39 | an ASIC with the largest counts of the tables is modelled |
| BstSelect.SelectionIsExact | src/apps/bst/api/bst_json_encoder_egress.c:61-96 | the rows of a flat realm or of one port are exactly the cells to report, each once, in ascending order of index |
| BstSelect.PortHasRows | src/apps/bst/api/bst_json_encoder_egress.c:568-660 | a port object exists if and only if one of its pools has a row, in full, delta and trigger modes |
| BstSelect.PortsAreInOrder | src/apps/bst/api/bst_json_encoder_egress.c:559-670 | the port objects of a realm are those of the ports with something to report, each once, in ascending order |
| BstSelect.OverlayLaw | src/apps/bst/api/bst_json_encoder_egress.c:559-670 | laying a report over any view changes a cell to its current values exactly when the report carries it, and no other cell |
| BstText.RowIsPrinted | src/apps/bst/api/bst_json_encoder_egress.c:642-659 | the generic row, driven by tables, is in every realm the row of that realm's print statement, field by field |
| Json.NumbersAreDecimal | src/apps/bst/api/bst_json_encoder_egress.c:90-94 | numbers are printed in decimal |
| BstParse.RowReads | src/apps/bst/api/bst_json_encoder_egress.c:54-94 | every printed row reads as the array of its index, its port if named, and its counters |
| BstParse.ObjectReads | src/apps/bst/api/bst_json_encoder_ingress.c:169-186 | an object whose last separator was erased and which was then closed reads as that object, whether its list is empty or not |
| BstParse.ReportParses | src/apps/bst/api/bst_json_encoder.c:430-534 | every report that is not a trigger report, and every trigger report with a realm object, parses as the report's JSON value |
| BstParse.ReportIsWellFormedIff | src/apps/bst/api/bst_json_encoder.c:452-534 | a report is one JSON text if and only if it is no trigger report, or a collection realm is included, or the device realm is included and its count is new |
| BstParse.MalformedReportExists | src/apps/bst/api/bst_json_encoder.c:477-534 | for every snapshot, a trigger report that includes no realm does not parse |
| BstParse.ReportReadsBack | src/apps/bst/api/bst_json_encoder.c:430-534 | reading the value of a report gives exactly the realms and rows that were selected |
| BstEncoder.CopyAndAdvance | src/apps/bst/api/bst_json_encoder.h:95-107 | the text is written at the cursor; cursor, length and remaining length move by the same amount; out of memory exactly if the text is as long as what is left; a longer text is cut off, passes as success and moves the cursor out of the encoder's part |
| BstEncoder.CloseList | src/apps/bst/api/bst_json_encoder_egress.c:98-105 | the step back erases one separator, and the list is closed in its place |
| BstEncoder.RowsEndInSeparator | src/apps/bst/api/bst_json_encoder_egress.c:98-101 | what a step back of a flat realm erases is the comma of its last row or the blank of its head |
| BstEncoder.PortsEndInSeparator | src/apps/bst/api/bst_json_encoder_egress.c:672-675 | what a step back of a port realm erases is the comma of its last port object or the blank of its head |
| BstEncoder.Includes | src/apps/bst/api/bst_json_encoder_egress.c:64-84 | trigger filter, zero suppression and comparison together decide exactly as the selection says |
| BstEncoder.EncodeFlat | src/apps/bst/api/bst_json_encoder_egress.c:38-110 | the buffer ends up with exactly the realm's text, its length is returned, and an unnamed port is the only other outcome |
| BstEncoder.MarkPort | src/apps/bst/api/bst_json_encoder_egress.c:568-620 | the first pass marks exactly the pools to report, and the port exactly if there is one |
| BstEncoder.EncodePortRows | src/apps/bst/api/bst_json_encoder_egress.c:635-660 | the second pass writes exactly the rows that were marked |
| BstEncoder.EncodePort | src/apps/bst/api/bst_json_encoder_egress.c:568-669 | one port: nothing if no pool is to be reported, else its whole object, or an error exactly if it has no name |
| BstEncoder.EncodePerPort | src/apps/bst/api/bst_json_encoder_ingress.c:38-192 | the buffer ends up with exactly the realm's text, over the nested port and pool loops |
| BstEncoder.AppendRealm | src/apps/bst/api/bst_json_encoder_egress.c:708-721 | one block of a combining function appends the realm's text if it is asked for |
| BstEncoder.GroupTextEnds | src/apps/bst/api/bst_json_encoder_egress.c:815-818 | what a combining function wrote ends in a blank and a comma, so only a comma is trimmed |
| BstEncoder.EncodeIngress | src/apps/bst/api/bst_json_encoder_ingress.c:424-501 | the ingress realms in order, and the last comma left out of the length exactly if no egress realm follows |
| BstEncoder.EncodeEgress | src/apps/bst/api/bst_json_encoder_egress.c:692-823 | the egress realms in order, and the last comma left out of the length |
| BstMemory.Pool.constructor | src/apps/bst/api/bst_json_memory.c:142-177 | no buffer is in use |
| BstMemory.BuffersAreAdjacent | src/apps/bst/api/bst_json_memory.c:64-84 | the twenty small buffers stand one after the other, and the large ones behind them |
| BstMemory.Pool.Allocate | src/apps/bst/api/bst_json_memory.c:195-264 | the first buffer of the size that is not in use, which then is, or out of memory exactly if all are |
| BstMemory.Pool.Free | src/apps/bst/api/bst_json_memory.c:279-374 | succeeds exactly on the start of a buffer, which of all buffers of both sizes alone is then not in use; an invalid parameter exactly outside both pools |
| BstMemory.FailuresKeepBuffers | src/apps/bst/api/bst_json_encoder.c:416-482 | after any run of reports as many report buffers are in use as reports could not be encoded, up to all four |
| BstMemory.BufferIsAvailableIff | src/apps/bst/api/bst_json_encoder.c:416-417 | there is a buffer for the next report if and only if fewer than four before it could not be encoded |
| BstReport.EncodeIndex | src/apps/bst/api/bst_json_encoder.c:311-337 | one index of a trigger header, or an error exactly if it is a port without a name |
| BstReport.EncodeTriggerHead | src/apps/bst/api/bst_json_encoder.c:438-480 | the four pieces of a trigger header make up the header's text; cursor and remaining length still add up to the buffer |
| BstReport.EncodeHead | src/apps/bst/api/bst_json_encoder.c:427-482 | the header's text, or the error of an unknown trigger realm or an unnamed port; cursor and remaining length still add up to the buffer |
| BstReport.EncodeDevice | src/apps/bst/api/bst_json_encoder.c:218-262 | the device realm is written exactly if it is included and its count is new |
| BstReport.EncodeBody | src/apps/bst/api/bst_json_encoder.c:484-523 | device, ingress and egress parts stand one after the other, the cursor is behind them by the trimmed comma, and the remaining length that was carried along adds up with the cursor to the buffer |
| BstReport.FinaliserErasesSeparators | src/apps/bst/api/bst_json_encoder.c:525-532 | the finaliser overwrites only separators if and only if the report is well-formed, and never finds a NUL |
| BstReport.Finalise | src/apps/bst/api/bst_json_encoder.c:525-534 | after the step back and the closing marks the buffer holds the report's text and a NUL; the step back takes one from the remaining length too, so cursor and remaining length add up to two less than the buffer |
| BstReport.EncodeReport | src/apps/bst/api/bst_json_encoder.c:357-544 | the whole encoder: the status of the first failing step, a buffer of the pool included, or a buffer that holds exactly the report's text; a failure after the allocation leaves the buffer in use without handing out its address |
| BstReport.BufferReadsBack | src/apps/bst/api/bst_json_encoder.c:357-544 | the C string in the buffer parses exactly if the report is well-formed, and reads back as exactly what was selected |
| BstContent.HeaderSays | src/apps/bst/api/bst_json_encoder.c:380-434 | the header of a report has exactly its five members: version of the protocol, the method of reports or thresholds, the ASIC's name, version "2" and the time |
| BstContent.TriggerHeaderSays | src/apps/bst/api/bst_json_encoder.c:265-337 | the header of a trigger report adds realm and counter, and, by the name of the realm, the port by its external name and the pool, priority group, queue or queue group |
| BstContent.NamesAreRead | src/apps/bst/api/bst_json_encoder_ingress.c:363 | the eleven realm names, and that each names one realm |
| BstContent.ReportIsInUnit | src/apps/bst/bst_main.c:773-844 | counters of reports and answers are in the unit that the configuration asks for: nearest percentage, whole cells or bytes |
| BstContent.TriggerReportIsInUnit | src/apps/bst/bst_main.c:773-844 | so are those of trigger reports |
| BstContent.ShownIsInUnit | src/apps/bst/bst_main.c:773-844 | what an up-to-date collector shows is the queue entries as they are and all else in the configured unit |
| BstContent.PeriodicCarriesIff | src/apps/bst/bst_main.c:806-829 | a periodic report carries every cell if it is complete, and otherwise exactly those that changed |
| BstContent.AnswerCarriesIff | src/apps/bst/bst_main.c:831-840 | the answer to a request carries exactly the cells with a counter that is not zero, and the device counter |
| BstContent.TriggerCarriesIff | src/apps/bst/api/bst_json_encoder_egress.c:562-600 | a trigger report carries exactly the cells that are not zero, of the triggered one alone unless snapshots are sent, and the device counter |
| BstContent.ReportIsAbout | src/apps/bst/bst_main.c:780-845 | a report is about the active record and asks for the realms tracked, requested, or triggered |
| BstContent.ObjectsInOrder | src/apps/bst/api/bst_json_encoder.c:484-523 | the objects of a report are those of the realms asked for, in the order of the encoder, and the device's only if its counter is new |
| BstContent.RealmSays | src/apps/bst/api/bst_json_encoder_egress.c:38-823 | the object of a realm has its name and the printed rows of exactly the reported cells, ascending, or the objects of the ports with rows under their external names, or the converted device counter |
| BstContent.FlatRowCounts | src/apps/bst/api/bst_json_encoder_egress.c:61-520 | how many rows a complete report has for each flat realm, by the capability that counts it |
| BstContent.PortRowCounts | src/apps/bst/api/bst_json_encoder_ingress.c:72-160 | how many rows a complete report has for each port of a port realm |
| BstContent.SnapshotIsAnswer | src/apps/bst/bst_main.c:790-804 | a snapshot sent on a trigger has exactly the objects of the answer to a request for the tracked realms |
| BstContent.EncodesIff | src/apps/bst/api/bst_json_encoder.c:416-523 | a report is encoded if and only if the ASIC has a name, a trigger's realm is known and its port named, and every printed port is named; only an unknown realm is an invalid parameter |
| BstContent.ColumnsAreTemplate | src/apps/bst/api/bst_json_encoder_egress.c:54-546 | the counters of a row are separated as in the template of its realm |
| BstContent.RowIsTemplate | src/apps/bst/api/bst_json_encoder_egress.c:54-546 | index, quoted port name and counters stand in a row as in its template |
| BstContent.SentSays | src/apps/bst/bst_main.c:649-697 | a sent report or answer is one JSON object of the five header members and the list of its realm objects |
| BstContent.TriggerReportSays | src/apps/bst/bst_main.c:790-804 | a trigger report is one JSON object of the header, realm, counter and place of the trigger and the list of its realm objects |
| BstView.DeltaRowsAreTheChanges | src/apps/bst/api/bst_json_encoder_egress.c:81-94 | in a delta report the rows are the indices whose counters changed, each once, ascending |
| BstView.SilentRowIff | src/apps/bst/api/bst_json_encoder_egress.c:546-659 | a delta row prints a changed counter, except exactly when only the queue entries of an egress port and service pool changed |
| BstView.SilentRowOccurs | src/apps/bst/api/bst_json_encoder_egress.c:546-659 | for every snapshot and cell a change of the queue entries alone sends a row of unchanged values |
| BstView.UnprintedIsInvisible | src/apps/bst/api/bst_json_encoder_egress.c:655-659 | snapshots that agree on the printed counters give the same printed values |
| BstView.DeltaIsExact | src/apps/bst/api/bst_json_encoder_egress.c:559-670 | after a delta over any view a cell is right if and only if it changed or was right before |
| BstView.FullReportRebuilds | src/apps/bst/api/bst_json_encoder_egress.c:62-96 | a full report, or a trigger report with snapshot, read over an empty view gives every included cell, with missing cells as zero |
| BstView.CompleteReportResyncs | src/apps/bst/bst_main.c:820-824 | with suppression off, a full report gives every included cell whatever was known before |
| BstView.CompleteReportHasEveryRow | src/apps/bst/api/bst_json_encoder_egress.c:62-96 | with suppression off, every index below the count has exactly one row, in its place |
| BstRun.LastTwoCollections | src/apps/bst/bst.c:956-970 | after n collections active, backup and current hold what the last three left |
| BstRun.ReportIsSent | src/apps/bst/bst_main.c:649-690 | a report of named ports and queues is encoded and sent |
| BstRun.TextIsReceived | src/apps/bst/bst_main.c:659-690 | reading the bytes that were sent lays exactly the selected rows over the view |
| BstRun.IncrementalStepIsExact | src/apps/bst/bst_main.c:806-829 | after an incremental periodic report a cell is up to date if and only if it changed since the last collection or was up to date before |
| BstRun.CompleteStepResyncs | src/apps/bst/bst_main.c:820-824 | a complete periodic report brings every tracked cell up to date |
| BstRun.MissedStepIsExact | src/apps/bst/bst_main.c:806-811 | a collection without a report leaves an up-to-date collector so if and only if it shows the same values |
| BstRun.GetStepResyncs | src/apps/bst/bst_main.c:831-845 | the answer to a request that covers a realm, read as a refresh, brings its cells up to date |
| BstRun.RunKeepsUp | src/apps/bst/bst_main.c:784-855 | over every run of periodic reports, requests and clears a collector stays up to date about a cell, if collections it gets no report of show the values that it has |
| BstRun.CollectorFollows | src/apps/bst/bst_main.c:1124-1137 | the same from the initial state and an empty view |
| BstRun.IncrementalRunIsExact | src/apps/bst/bst_main.c:806-829 | after any run of incremental reports a cell is up to date if and only if it changed on the way or was up to date before |
| BstRun.MissedChangeIsLost | src/apps/bst/bst_main.c:806-811 | after a change collected without a report for the collector, and any run of incremental reports, the collector is up to date if and only if the cell changed once more |
| BstRun.TriggerReportIsWellFormedIff | src/apps/bst/bst_main.c:790-804 | the report of a known trigger is JSON unless snapshots are sent on triggers and nothing is tracked |
| BstRun.TriggerReportCarriesOneCell | src/apps/bst/api/bst_json_encoder_egress.c:561-580 | without a snapshot, a trigger report has one object, of the triggered realm; in it at most the triggered cell, under its port in a port realm, and not if it is zero |
| BstCollector.Unit.constructor | src/apps/bst/bst_main.c:1087-1137 | three different records, all zero |
| BstCollector.Unit.Collect | src/apps/bst/bst.c:537-544 | a collection changes the current record alone |
| BstCollector.Unit.UpdateData | src/apps/bst/bst.c:947-981 | current becomes active, active backup and backup current: the same three records, none lost or shared |
| BstCollector.Unit.ClearStats | src/apps/bst/bst.c:902-921 | all three records become zero |
| BstCollector.Unit.HandleReport | src/apps/bst/bst_main.c:784-873 | records, answer and report buffers of a report message are those of the run: the text of the new active record, against the new backup exactly for incremental periodic reports |
| BstCollector.Unit.HandleTrigger | src/apps/bst/bst_main.c:790-840 | records, answer and report buffers of a trigger message; whether the collection failed does not matter: a report is sent exactly if statistics could be enabled again, a buffer is available and it can be encoded |
| BstCollector.SendResponse | src/apps/bst/bst_main.c:594-716 | a report is sent exactly if a buffer is available and it can be encoded; the buffer of a report that cannot be encoded stays in use, and no other changes |
| BstCollector.RequestLeaksIff | src/apps/bst/bst_main.c:609-716 | a request for a report loses its session if and only if its counters are collected and no buffer is available or the report cannot be encoded; an ASIC without an external name is one reason |
| BstCollector.RequestAfterReportsLeaksIff | src/apps/bst/bst_main.c:609-716 | after any run of reports a request loses its session if and only if its counters are collected and four of those reports, or its own, cannot be encoded |
| BstCollector.NamedRequestNeverLeaks | src/apps/bst/bst_main.c:685-716 | a request is always replied to while a buffer is available and ASIC, ports and queues have names |
| BstTrigger.TriggerIndexGet | src/apps/bst/bst_trigger.c:47-85 | the index of the first row for realm and counter, or not found and 0 |
| BstTrigger.IndexOfRow | src/apps/bst/bst_trigger.c:49-63 | every kind of trigger has a counter of its own |
| BstTrigger.IndexIsKind | src/apps/bst/bst_trigger.c:49-80 | the thirteen kinds of triggers, by realm and counter, have the indices 0 to 12, and no other trigger has one |
| BstTrigger.TriggerUnit.ProcessTrigger | src/apps/bst/bst_trigger.c:234-298 | counters, timer and posting of one trigger are those of the state machine, failing calls included |
| BstTrigger.TriggerUnit.TimerAdd | src/apps/bst/bst_trigger.c:424-472 | a running timer is left alone |
| BstTrigger.TriggerUnit.TimerDelete | src/apps/bst/bst_trigger.c:488-520 | the timer is off unless it could not be deleted |
| BstTrigger.TriggerUnit.ClearTriggerCount | src/apps/bst/bst_main.c:108-145 | all counters become zero, and the timer is deleted exactly if they were |
| BstTrigger.TriggerIsCounted | src/apps/bst/bst_trigger.c:243-298 | what one trigger does to its own counter, the others, the timer and the posting: a suppressed trigger is counted, one that could not be sent is not |
| BstTrigger.ClearForgets | src/apps/bst/bst_main.c:108-145 | a clear zeroes all thirteen counters and turns the timer off exactly if all were zero and it could be deleted |
| BstTrigger.RunIsLimited | src/apps/bst/bst_trigger.c:243-295 | over every run with a fixed positive bound m, no index is posted more than m times between clears, and index i > 0 exactly min(count, m) times |
| BstTrigger.RunFromStartIsLimited | src/apps/bst/bst_trigger.c:243-295 | the same from the initial state |
| BstTrigger.UnboundedPostsAll | src/apps/bst/bst_trigger.c:260-295 | with bound 0 every recognised trigger that can be sent is posted |
| BstTrigger.PendingIffTimed | src/apps/bst/bst_trigger.c:287-295 | one event keeps "anything counted implies timer running" if and only if the timer runs already or the trigger is recognised and either not sent or timed |
| BstTrigger.RunIsPending | src/apps/bst/bst_trigger.c:287-295 | over every run with a positive bound, recognised triggers and successful timer calls, anything counted implies that the timer runs |
| BstTrigger.RunIsPendingIff | src/apps/bst/bst_trigger.c:287-295 | over any run, whatever is configured or fails, "anything counted implies timer running" holds all along if and only if every event keeps it |
| BstTrigger.SuppressedIsTimed | src/apps/bst/bst_trigger.c:260-263 | then no index stays suppressed without a clear to come |
| BstTrigger.ClearTurnsTimerOff | src/apps/bst/bst_main.c:129-145 | a clear that finds nothing counted leaves the timer off |
| BstTrigger.UnrecognisedTriggerSticks | src/apps/bst/bst_trigger.c:244-295 | as many unrecognised triggers as the bound allows suppress the device trigger, with no timer, over every run of triggers in which none starts the timer: none of it is let through |
| BstTrigger.RaisedBoundSticks | src/apps/bst/bst_trigger.c:287-295 | so does a bound raised from 0 after as many triggers, over every such run |
| SystemTime.SplitIsExact | src/infrastructure/system/system_time.c:150-151 | seconds and nanoseconds add up to the milliseconds, and the nanoseconds are less than a second |
| SystemTime.Timers.Set | src/infrastructure/system/system_time.c:146-169 | first expiry and, if periodic, period are armed with the split time |
| SystemTime.Timers.Add | src/infrastructure/system/system_time.c:53-100 | a timer is created and armed; one that cannot be armed stays alive, disarmed |
| SystemTime.Timers.Delete | src/infrastructure/system/system_time.c:117-125 | that timer and no other disappears |
| BstFeature.FeatureUnit.TimerAdd | src/apps/bst/bst.c:612-664 | the old timer is deleted and a new one armed with the interval in milliseconds, failing calls included |
| BstFeature.FeatureUnit.TimerDelete | src/apps/bst/bst.c:679-707 | the timer in use is deleted, or stays in use if that fails |
| BstFeature.FeatureUnit.ConfigFeatureSet | src/apps/bst/bst.c:105-168 | interval, asynchronous flag and timer after a configuration message |
| BstFeature.AdmittedIff | src/apps/bst/api/configure_bst_feature.c:154-155 | the parser admits intervals up to ten minutes and no others |
| BstFeature.MessageIsStored | src/apps/bst/bst.c:107-159 | interval and flag are those of the message where it carries them and unchanged otherwise, whatever the system calls answer |
| BstFeature.TimerIsTouchedIff | src/apps/bst/bst.c:107-159 | a timer is created exactly if reports are asked for and the interval changes or they were off, and only deleted if they are asked to stop |
| BstFeature.ConsistentIffCallsGoWell | src/apps/bst/bst.c:141-168 | a message keeps "in use exactly when reports are sent, with exactly one live timer" if and only if its calls succeed, or both deleting and creating fail |
| BstFeature.RunIsConsistent | src/apps/bst/bst.c:141-168 | over every run with successful calls there is one live timer when reports are sent and none otherwise |
| BstFeature.PeriodMatchesIff | src/apps/bst/bst.c:107-168 | a message keeps the armed period equal to the interval if and only if it carries the asynchronous bit whenever it changes the interval of a running timer |
| BstFeature.PeriodAfterMessage | src/apps/bst/bst.c:107-168 | from any consistent state the period is right after a message exactly if reports go off, the timer is armed anew, or it was armed with that interval |
| BstFeature.RunMatches | src/apps/bst/bst.c:643-649 | over every run in which each message that changes the interval of a running timer carries the asynchronous bit, the armed period is the interval in whole seconds |
| BstFeature.RunMatchesIff | src/apps/bst/bst.c:107-168 | the armed period is right all along a run if and only if each message that changes the interval of a running timer carries the bit |
| BstFeature.RunFromStart | src/apps/bst/bst.c:107-168 | from the initial state every run keeps one live timer exactly when reports are sent, with its period right on that condition |
| BstFeature.RunOfParsedMessages | src/apps/bst/api/configure_bst_feature.c:136-156 | over every run of messages that come through the parser interval and flag are those of the last message, and exactly if it asks for reports there is one live timer, which expires at that interval |
| BstFeature.ZeroIntervalNeverFires | src/apps/bst/api/configure_bst_feature.c:154-155 | the one live timer is disarmed if and only if the interval is 0, which the parser admits |
| BstFeature.StalePeriodStays | src/apps/bst/bst.c:107-159 | for a caller that bypasses the parser: after an interval without the asynchronous bit the period stays stale, however often the interval is repeated with it |
| RestSession.Pool.constructor | src/nb_plugin/rest/rest_session.c:36-51 | five cleared sessions |
| RestSession.Pool.Allocate | src/nb_plugin/rest/rest_session.c:63-77 | the first free session, cleared, or none exactly if all are in use |
| RestSession.StepInv | src/nb_plugin/rest/rest_http_server.c:220-388 | every step of the server thread and of any number of application threads keeps ownership, open connections and answers in order |
| RestSession.OutstandingRequestsOwnSessions | src/nb_plugin/rest/rest_http_server.c:292-388 | in every interleaving two outstanding requests own different sessions in use, each with the descriptor of its own connection |
| RestSession.NoRequestAnsweredTwice | src/nb_plugin/rest/rest_api.c:108-235 | in every interleaving no request is answered twice, by whatever thread |
| RestSession.ScanTakesNobodysSlot | src/nb_plugin/rest/rest_session.c:66-74 | the session that a scan takes belongs to no outstanding request, although it is marked only after parsing |
| RestSession.AnswerGoesHome | src/nb_plugin/rest/rest_api.c:132-143 | an answer is written to the connection of the request it is for |
| RestSession.RefusalGoesHome | src/nb_plugin/rest/rest_http_server.c:302-318 | so is a refusal by the server thread |
| RestSession.ScanIsAllocate | src/nb_plugin/rest/rest_session.c:66-76 | undisturbed, the single steps of a scan do what the allocation method does |
| RestSession.LeakedIff | src/apps/bst/bst_main.c:685-716 | a step leaves a session in use without an owner if and only if it was so before or the step drops the message that owned it |
| RestSession.LeakedIffDropped | src/apps/bst/bst_main.c:685-716 | from the initial state, over every run, a session is lost if and only if its message was dropped on the way |
| RestSession.LeakIsForEver | src/apps/bst/bst_main.c:685-716 | a session whose message is taken and never answered is never freed or reused |
| RestSession.FullPoolServesNobody | src/nb_plugin/rest/rest_http_server.c:220-222 | once all sessions are lost no request is read again |
| RestSession.StartCanLosePool | src/nb_plugin/rest/rest_http_server.c:220-222 | from the initial state one with all sessions lost can be reached, and whatever follows no request is read |
| RestSession.OrphanedIff | src/nb_plugin/rest/rest_http_server.c:220-222 | an open descriptor loses its owner exactly when a scan finds all sessions in use or its message is dropped |
| RestSession.OrphanedAfterRun | src/nb_plugin/rest/rest_http_server.c:220-222 | over every run, an open descriptor has no owner exactly if it had none or was stranded so on the way |
| RestRequest.Strtok | src/nb_plugin/rest/rest_http_server.c:132-142 | the token after the leading blanks, ended in place by a NUL |
| RestRequest.ValidateHttpMethod | src/nb_plugin/rest/rest_http_server.c:54-66 | exactly the four supported methods |
| RestRequest.RestMethodStart | src/nb_plugin/rest/rest_http_server.c:145-156 | the REST method starts after the last slash that is not the last character |
| RestRequest.Session.ParseHttpRequest | src/nb_plugin/rest/rest_http_server.c:117-187 | success, session fields, remaining length and the cut buffer for every buffer content |
| RestRequest.ParseInvertsRequestText | src/nb_plugin/rest/rest_http_server.c:117-187 | for every supported method, valid URL, header and body, parsing the request text returns exactly that method and URL and where the body starts |
| RestRequest.BodyIsKept | src/nb_plugin/rest/rest_http_server.c:177-184 | after the in-place cuts the body still stands there, and the session's length becomes the body's |
| RestRequest.UrlOfCommandIsValid | src/nb_plugin/rest/rest_http_server.c:79-106 | a URL that ends in agent name, feature and registered method is valid, and the method is its suffix |
| RestRequest.ValidUrlIff | src/nb_plugin/rest/rest_http_server.c:79-106 | a URL is valid if and only if what follows its last inner slash is registered and agent name, feature name and method occur in it, separated by slashes |
| RestRequest.ParsedIsSound | src/nb_plugin/rest/rest_http_server.c:117-187 | whatever is parsed starts with a supported method, holds a valid URL, and has its header's end right before the body; the cuts only turn blanks into NULs |
| RestRequest.ReportRequestIsParsed | src/nb_plugin/rest/rest_http_server.c:117-187 | a request for a report is parsed to its method, URL and REST method, and its body is found |
| RestRequest.FieldIsCut | src/nb_plugin/rest/rest.h:105-111 | the fields of a session hold the first 128 characters |
| RestRequest.ExtraBlanksParseIff | src/nb_plugin/rest/rest_http_server.c:139-174 | with more than one blank between method and URL a request is parsed if and only if the URL is valid and its last characters, two fewer than there are blanks, hold a twin line end |
| RestRequest.ExtraBlanksAreRefused | src/nb_plugin/rest/rest_http_server.c:139-174 | more than one blank between method and a URL without carriage returns makes every request fail |
| RestRequest.LeadingBlankIsRefused | src/nb_plugin/rest/rest_http_server.c:132-142 | a request that starts with a blank is refused, whatever it holds |
| RestRequest.BlanksParseIff | src/nb_plugin/rest/rest_http_server.c:132-174 | with any blanks before and between them a supported method and any valid URL are parsed if and only if there are none before, and one in between or a twin line end in the last characters of the URL, two fewer than those in between |
| RestRequest.ParsesIffSingleBlank | src/nb_plugin/rest/rest_http_server.c:139-174 | a supported method and a valid URL without carriage returns are parsed if and only if no blank stands before the method and one in between |
| RestSend.SendRest | src/nb_plugin/rest/rest_http_client.c:62-81 | the loop sends what is left, each byte once and in order, exactly as many as the calls let through, and succeeds exactly if these are all |
| RestSend.Send200WithData | src/nb_plugin/rest/rest_http_client.c:42-82 | how much of header and payload is accepted, in order, as a function of what the calls answer; success exactly if header and payload calls did not fail and the whole payload was accepted; the loop starts at the byte before the buffer exactly if the first send of the payload fails, and sends that byte exactly if the later calls let one through; the calls are bounded and delivery is certain if every call makes progress |
| RestSend.AllThroughIff | src/nb_plugin/rest/rest_http_client.c:62-81 | the rest of a payload gets through if and only if enough bytes are offered before a call fails |
| ModuleMgr.ModuleManager.constructor | src/infrastructure/module_mgr/modulemgr.c:149-165 | an empty table |
| ModuleMgr.ModuleManager.Register | src/infrastructure/module_mgr/modulemgr.c:189-254 | the scan refuses or appends exactly as the specification on the list of modules says, and keeps the table packed |
| ModuleMgr.ModuleManager.HandlerGet | src/infrastructure/module_mgr/modulemgr.c:309-358 | succeeds exactly if the first module that names the method has a handler in the first such row, and returns it |
| ModuleMgr.ModuleManager.FeatureNameGet | src/infrastructure/module_mgr/modulemgr.c:403-452 | succeeds exactly if some module names the method, with the first one's feature name |
| ModuleMgr.RegistrationsKeepTable | src/infrastructure/module_mgr/modulemgr.c:204-250 | over any registrations identifiers stay different and earlier entries are never changed |
| ModuleMgr.RegisterStatusMeans | src/infrastructure/module_mgr/modulemgr.c:226-249 | for nonzero identifiers, duplicate and full (16 modules) are returned exactly when they apply, and otherwise the module is appended |
| ModuleMgr.ZeroIdAcceptedIff | src/infrastructure/module_mgr/modulemgr.c:213-221 | identifier 0 is accepted, and appended, exactly when 15 modules are registered and none has it, and the table is full only with 16 |
| ModuleMgr.LookupsAgree | src/infrastructure/module_mgr/modulemgr.c:309-443 | handler and feature name come from the same module; with handlers present both lookups succeed together |
| ModuleMgr.LookupsAreFirst | src/infrastructure/module_mgr/modulemgr.c:309-443 | handler and feature name are those of the first row of the table that names the method |
| ModuleMgr.UnnamedIsNotFound | src/infrastructure/module_mgr/modulemgr.c:309-443 | a method that no row names is not found |
| ModuleMgr.LookupsAreStable | src/infrastructure/module_mgr/modulemgr.c:309-443 | a served method keeps its module whatever is registered later |
| ModuleMgr.NullHandlerHidesIff | src/infrastructure/module_mgr/modulemgr.c:324-339 | a method has a feature name and no handler if and only if the first row of the table that names it has no handler |
| ModuleMgr.NullHandlerOccurs | src/infrastructure/module_mgr/modulemgr.c:324-339 | such a table: one row without a handler before any other modules |
| ModuleMgr.NullHandlerHidesLater | src/infrastructure/module_mgr/modulemgr.c:324-339 | then no module registered later makes the lookup succeed |
| SbRedirect.Validate | src/sb_plugin/sb_redirector/sbplugin_redirect_core.c:268-312 | at most 17 features, and at most one ASIC in a system feature |
| SbRedirect.AcceptableIff | src/sb_plugin/sb_redirector/sbplugin_redirect_core.c:268-312 | a plug-in is accepted exactly with at most 17 features, and at most one ASIC in a system feature |
| SbRedirect.Redirector.constructor | src/sb_plugin/sb_redirector/sbplugin_redirect_core.c:46-61 | no plug-in is registered |
| SbRedirect.Redirector.Register | src/sb_plugin/sb_redirector/sbplugin_redirect_core.c:333-374 | failure, table full or appended, exactly as validity and room say |
| SbRedirect.Redirector.FeatureHandleGet | src/sb_plugin/sb_redirector/sbplugin_redirect_core.c:83-165 | the nested flag-driven loops find the best match among all registered features |
| SbRedirect.ListedIsScanned | src/sb_plugin/sb_redirector/sbplugin_redirect_core.c:101-121 | every listed feature of a registered plug-in is searched, at its place in the order of registration and list |
| SbRedirect.PositionsAscend | src/sb_plugin/sb_redirector/sbplugin_redirect_core.c:101-121 | that order is the order of plug-ins, and in a plug-in that of its list |
| SbRedirect.ScannedIsListed | src/sb_plugin/sb_redirector/sbplugin_redirect_core.c:101-121 | nothing else is searched |
| SbRedirect.SupportsIff | src/sb_plugin/sb_redirector/sbplugin_redirect_core.c:133-134 | an entry supports a request exactly if its mask lacks none of the bits asked for |
| SbRedirect.BestIsUnique | src/sb_plugin/sb_redirector/sbplugin_redirect_core.c:103-141 | there is one best match |
| SbRedirect.BestIsSuitable | src/sb_plugin/sb_redirector/sbplugin_redirect_core.c:122-137 | it is registered, has the identifier, and supports every requested bit unless it is an entry for all silicon and the request goes beyond 16 bits |
| SbRedirect.NoneOnlyWhenNone | src/sb_plugin/sb_redirector/sbplugin_redirect_core.c:103-164 | nothing is returned only if no registered feature with the identifier supports the silicon |
| SbRedirect.FirstSpecificWins | src/sb_plugin/sb_redirector/sbplugin_redirect_core.c:125-137 | with a single entry for all silicon, the first specific supporter wins wherever that entry stands |
| SbRedirect.FirstSpecificWinsIff | src/sb_plugin/sb_redirector/sbplugin_redirect_core.c:122-137 | the first specific supporter is found if and only if there are not, for a request of at most 16 bits, two entries for all silicon before it |
| SbRedirect.SecondAllWins | src/sb_plugin/sb_redirector/sbplugin_redirect_core.c:125-137 | the second entry for all silicon is found if no specific supporter stands before it and the request is within 16 bits |
| SbRedirect.FirstAllIsFallback | src/sb_plugin/sb_redirector/sbplugin_redirect_core.c:125-164 | the first entry for all silicon is found if nothing ends the search |
| SbRedirect.NothingIsFoundIff | src/sb_plugin/sb_redirector/sbplugin_redirect_core.c:125-164 | nothing is found exactly if there is neither an entry for all silicon nor a specific supporter |

## Left out

- BstData.PercentageIsNearest: IEEE rounding of the two conversions to double and of their quotient is not modelled.
- BstReport.EncodeReport: what an `snprintf` outside the print-and-advance macro does when the text does not fit is not modelled, and neither is formatting the time.
- BstMemory.Pool.Allocate: the mutex, whose failure gives an error, and the time a buffer was taken; the small buffers are modelled, their users are not.
- BstRun.CollectorFollows: the maximum buffers and the unit options are fixed during a run; the port a queue belongs to is printed but not part of the collector's view.
- BstTrigger.TriggerUnit.ClearTriggerCount: the message that re-enables statistics on the ASIC after a clear.
- BstFeature.FeatureUnit.ConfigFeatureSet: the other configuration fields and programming the ASIC.
- RestSession.StepInv: every access to a session field is one step, and memory ordering between threads is not modelled.
- RestRequest.Session.ParseHttpRequest: bytes after the end of the copied REST method, the fixed sizes of the command and feature-name buffers, and reading the socket.
- RestSend.Send200WithData: the text of the header, which may be accepted in part without an error, is a parameter.
- ModuleMgr.ModuleManager.HandlerGet: taking the method out of the JSON body, and the read-write lock.
- SbRedirect.Redirector.FeatureHandleGet: the read-write lock, whose failure gives NULL.
- The threshold report uses the encoder with other options; setting and clearing thresholds and the track masks have no state worth a proof.
- The encoders of features and tracking: fixed templates without branches.
- The `sbapi_*` wrappers around the best-match search: one repeated pattern.
- The generated REST handlers, the command line, the OVSDB plug-in, logging, message queues and socket set-up: plumbing.
