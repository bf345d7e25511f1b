/**
 The report encoder: it prints into one flat character buffer through a moving cursor, and steps the
 cursor back one character to erase a trailing separator. Every method is proved to write the text that
 `BstText` gives for what `BstSelect` selects, or to return the error that the source returns.

 The seven flat realms share one encoder and the three per-port realms another: the C functions differ
 only in the tables of `BstData.Realm` and in the templates of `BstText`.
 */
module BstEncoder {
  import opened Wrappers
  import opened BstData
  import opened BstSelect
  import opened BstText

  datatype Status = Success | InvalidParameter | OutOfMemory | InvalidJson

  // ---------------------------------------------------------------- the cursor

  /**
   The three variables every encoder moves together. All along, `remLength + length` is what the encoder
   was given, and `buffer` is `length` characters past where it started.
   */
  datatype Cursor = Cursor(buffer: int, remLength: int, length: int)

  /** `snprintf`: at most `len - 1` characters and a NUL; the result is the length of the whole text. */
  method Snprintf(buf: array<char>, at: nat, len: int, text: string) returns (n: nat)
    requires 0 < len && at + len <= buf.Length
    modifies buf
    ensures n == |text|
    ensures buf[..at] == old(buf[..at])
    ensures |text| < len ==> buf[..at + |text|] == old(buf[..at]) + text && buf[at + |text|] == '\0'
    ensures |text| >= len ==> buf[..at + len - 1] == old(buf[..at]) + text[..len - 1] && buf[at + len - 1] == '\0'
  {
    n := |text|;
    var m := if n < len then n else len - 1;
    forall k | 0 <= k < m {
      buf[at + k] := text[k];
    }
    buf[at + m] := '\0';
  }

  /**
   The print-and-advance macro. It reports that memory is out exactly if the text is as long as what is left. A
   longer text is cut off and passes as success, and the cursor leaves the encoder's part of the buffer.
   */
  method CopyAndAdvance(buf: array<char>, c: Cursor, text: string) returns (status: Status, c': Cursor)
    requires 0 <= c.buffer && 0 < c.remLength && c.buffer + c.remLength <= buf.Length
    modifies buf
    ensures buf[..c.buffer] == old(buf[..c.buffer])
    ensures status == if |text| == c.remLength then OutOfMemory else Success
    ensures status.Success? ==> c' == Cursor(c.buffer + |text|, c.remLength - |text|, c.length + |text|)
    ensures |text| < c.remLength ==> buf[..c'.buffer] == old(buf[..c.buffer]) + text && buf[c'.buffer] == '\0'
    ensures |text| > c.remLength ==>
              && c'.remLength < 0 && c'.buffer > c.buffer + c.remLength
              && buf[..c.buffer + c.remLength - 1] == old(buf[..c.buffer]) + text[..c.remLength - 1]
  {
    var actLen := Snprintf(buf, c.buffer, c.remLength, text);
    c' := c.(length := c.length + actLen);
    if c.remLength == actLen {
      return OutOfMemory, c';
    }
    c' := c'.(buffer := c.buffer + actLen, remLength := c.remLength - actLen);
    status := Success;
  }

  /** The end of every list: the last separator is erased and the list is closed. */
  method CloseList(buf: array<char>, c: Cursor, ghost base: string, ghost text: string)
    returns (status: Status, c': Cursor)
    requires text != "" && 0 <= c.buffer && 0 <= c.remLength && c.buffer + c.remLength <= buf.Length
    requires buf[..c.buffer] == base + text && IsSeparator(text[|text| - 1])
    requires c.remLength >= 4
    modifies buf
    ensures buf[..|base|] == base
    ensures status == if c.remLength == 4 then OutOfMemory else Success
    ensures status.Success? ==>
              && c' == Cursor(c.buffer + 4, c.remLength - 4, c.length + 4)
              && buf[..c'.buffer] == base + Closed(text)
              && buf[c'.buffer] == '\0'
  {
    var back := Cursor(c.buffer - 1, c.remLength + 1, c.length - 1);
    assert buf[back.buffer] == text[|text| - 1];
    assert buf[..back.buffer] == base + text[..|text| - 1] by {
      assert (base + text)[..|base + text| - 1] == base + text[..|text| - 1];
    }
    status, c' := CopyAndAdvance(buf, back, "] } ,");
    assert (base + text[..|text| - 1]) + "] } ," == base + Closed(text);
    assert buf[..|base|] == buf[..back.buffer][..|base|];
  }

  /** All that a step back may erase. */
  predicate IsSeparator(c: char) {
    c == ',' || c == ' '
  }

  // ---------------------------------------------------------------- rows

  /** The rows of the first `n` cells. */
  function RowsUpTo(x: Context, r: Realm, port: nat, n: nat): string
    requires x.asic.Valid() && r.HasPort(port) && n <= r.Count(x.asic)
  {
    RowsText(r, Kept(Cells(x, r, port, n)))
  }

  lemma CellsGrow(x: Context, r: Realm, port: nat, n: nat)
    requires x.asic.Valid() && r.HasPort(port) && n < r.Count(x.asic)
    ensures r.InTable(port, n) && Cells(x, r, port, n + 1) == Cells(x, r, port, n) + [Cell(x, r, port, n)]
  {
    hide Cell;
  }

  lemma CellKept(x: Context, r: Realm, port: nat, n: nat)
    requires x.asic.Valid() && r.InTable(port, n)
    ensures (if Cell(x, r, port, n).Some? then [Cell(x, r, port, n).value] else [])
         == if Emitted(x, r, port, n) then [EntryAt(x, r, port, n)] else []
  {
    hide Emitted, EntryAt;
  }

  lemma CellsSnoc(x: Context, r: Realm, port: nat, n: nat)
    requires x.asic.Valid() && r.HasPort(port) && n < r.Count(x.asic)
    ensures r.InTable(port, n)
    ensures Kept(Cells(x, r, port, n + 1))
         == Kept(Cells(x, r, port, n)) + (if Emitted(x, r, port, n) then [EntryAt(x, r, port, n)] else [])
  {
    hide *;
    CellsGrow(x, r, port, n);
    CellKept(x, r, port, n);
    KeptSnoc(Cells(x, r, port, n), Cell(x, r, port, n));
  }

  lemma RowsUpToNext(x: Context, r: Realm, port: nat, n: nat)
    requires x.asic.Valid() && r.HasPort(port) && n < r.Count(x.asic)
    ensures r.InTable(port, n)
    ensures RowsUpTo(x, r, port, n + 1)
         == RowsUpTo(x, r, port, n) + (if Emitted(x, r, port, n) then RowText(r, EntryAt(x, r, port, n)) else "")
  {
    CellsSnoc(x, r, port, n);
    hide Emitted, EntryAt, Cells, RowText;
    var es := Kept(Cells(x, r, port, n));
    if Emitted(x, r, port, n) {
      assert (es + [EntryAt(x, r, port, n)])[..|es|] == es;
    } else {
      assert es + [] == es;
    }
  }

  lemma {:induction false} RowsUpToGrow(x: Context, r: Realm, port: nat, k: nat, n: nat)
    requires x.asic.Valid() && r.HasPort(port) && k <= n <= r.Count(x.asic)
    ensures |RowsUpTo(x, r, port, k)| <= |RowsUpTo(x, r, port, n)|
    decreases n
  {
    hide RowsUpTo, Emitted, RowText, EntryAt;
    if k < n {
      RowsUpToGrow(x, r, port, k, n - 1);
      RowsUpToNext(x, r, port, n - 1);
    }
  }

  /** A step back after the rows erases a separator: the comma of the last row, or the blank of the head. */
  lemma RowsEndInSeparator(head: string, x: Context, r: Realm, port: nat, n: nat)
    requires x.asic.Valid() && r.HasPort(port) && n <= r.Count(x.asic)
    ensures var t := head + " " + RowsUpTo(x, r, port, n); t != "" && IsSeparator(t[|t| - 1])
  {
    var es := Kept(Cells(x, r, port, n));
    hide Cells, RowCore;
    if es != [] {
      var rows := RowsText(r, es);
      assert rows[|rows| - 1] == ',';
    }
  }

  // ---------------------------------------------------------------- one cell

  /** The trigger filter, the zero suppression and the comparison with the previous snapshot, in that order. */
  method Includes(x: Context, r: Realm, port: nat, index: nat) returns (emit: bool)
    requires r.InTable(port, index) && !r.Device?
    ensures emit == Emitted(x, r, port, index)
  {
    var o := x.options;
    if index != o.triggerInfo.queue && !o.sendSnapShotOnTrigger && o.reportTrigger {
      return false;
    }
    if r.PerPort() && port != o.triggerInfo.port && !o.sendSnapShotOnTrigger && o.reportTrigger {
      return false;
    }
    var counters := Counters(r, x.current, port, index);
    if o.sendIncrementalReport {
      if x.previous.None? && AllZero(counters) {
        return false;
      }
    }
    if x.previous.Some? && Counters(r, x.previous.value, port, index) == counters {
      return false;
    }
    return true;
  }

  // ---------------------------------------------------------------- flat realms

  /** The row's port, if it names one, has an external name. */
  predicate RowNamed(x: Context, r: Realm, index: nat)
    requires r.InTable(0, index)
  {
    r.NamesPort() ==> QueuePort(r, x.current, index) in x.notation
  }

  predicate RowsNamed(x: Context, r: Realm, n: nat)
    requires x.asic.Valid() && !r.PerPort() && n <= r.Count(x.asic)
  {
    forall i: nat | i < n && Emitted(x, r, 0, i) :: RowNamed(x, r, i)
  }

  lemma RowsNamedNext(x: Context, r: Realm, n: nat)
    requires x.asic.Valid() && !r.PerPort() && n < r.Count(x.asic)
    ensures r.InTable(0, n)
    ensures RowsNamed(x, r, n + 1) <==> RowsNamed(x, r, n) && (Emitted(x, r, 0, n) ==> RowNamed(x, r, n))
  {
    hide Emitted, RowNamed;
  }

  lemma RowNotNamed(x: Context, r: Realm, k: nat)
    requires x.asic.Valid() && !r.PerPort() && k < r.Count(x.asic)
    ensures r.InTable(0, k)
    ensures Emitted(x, r, 0, k) && !RowNamed(x, r, k) ==> !RowsNamed(x, r, r.Count(x.asic))
  {
    hide Emitted, RowNamed;
  }

  lemma FlatStart(x: Context, r: Realm)
    requires x.asic.Valid() && !r.Device? && !r.PerPort()
    ensures r.HasPort(0) && r.Count(x.asic) >= 0
    ensures RealmText(ReportOf(x, r))
         == Closed(ObjectHead("realm", r.Name()) + " " + RowsUpTo(x, r, 0, r.Count(x.asic)))
    ensures RowsUpTo(x, r, 0, 0) == "" && RowsNamed(x, r, 0)
  {
  }

  lemma ClosedLength(text: string)
    requires text != ""
    ensures |Closed(text)| == |text| + 4
  {
  }

  /** `_jsonencode_report_egress_cpuq` and its six siblings. */
  method EncodeFlat(x: Context, r: Realm, buf: array<char>, start: nat, bufLen: int)
    returns (status: Status, length: int)
    requires x.asic.Valid() && !r.Device? && !r.PerPort()
    requires 0 < bufLen && start + bufLen <= buf.Length && |RealmText(ReportOf(x, r))| <= bufLen
    modifies buf
    ensures buf[..start] == old(buf[..start])
    ensures status.Success? || status.OutOfMemory? || status.InvalidJson?
    ensures status.InvalidJson? ==> !RowsNamed(x, r, r.Count(x.asic))
    ensures status.OutOfMemory? ==> |RealmText(ReportOf(x, r))| == bufLen
    ensures status.Success? ==>
              && RowsNamed(x, r, r.Count(x.asic))
              && length == |RealmText(ReportOf(x, r))| < bufLen
              && buf[..start + length] == old(buf[..start]) + RealmText(ReportOf(x, r))
              && buf[start + length] == '\0'
  {
    hide *;
    FlatStart(x, r);
    var count := r.Count(x.asic);
    ghost var base := buf[..start];
    ghost var head := ObjectHead("realm", r.Name()) + " ";
    ghost var all := head + RowsUpTo(x, r, 0, count);
    ClosedLength(all);

    var c := Cursor(start, bufLen, 0);
    status, c := CopyAndAdvance(buf, c, ObjectHead("realm", r.Name()) + " ");
    assert head + "" == head;
    RowsUpToGrow(x, r, 0, 0, count);
    for queue := 1 to count + 1
      invariant c.remLength + c.length == bufLen && c.buffer == start + c.length
      invariant c.length == |head + RowsUpTo(x, r, 0, queue - 1)| <= |all|
      invariant buf[..c.buffer] == base + (head + RowsUpTo(x, r, 0, queue - 1))
      invariant RowsNamed(x, r, queue - 1)
    {
      RowsUpToNext(x, r, 0, queue - 1);
      RowsUpToGrow(x, r, 0, queue, count);
      RowsNamedNext(x, r, queue - 1);
      var emit := Includes(x, r, 0, queue - 1);
      if !emit {
        assert RowsUpTo(x, r, 0, queue) == RowsUpTo(x, r, 0, queue - 1);
        continue;
      }
      if !RowNamed(x, r, queue - 1) {
        RowNotNamed(x, r, queue - 1);
        return InvalidJson, c.length;
      }
      ghost var rows := RowsUpTo(x, r, 0, queue - 1);
      var row := RowText(r, EntryAt(x, r, 0, queue - 1));
      status, c := CopyAndAdvance(buf, c, row);
      ConcatAssociative(head, rows, row);
      ConcatAssociative(base, head + rows, row);
    }
    RowsEndInSeparator(ObjectHead("realm", r.Name()), x, r, 0, count);
    status, c := CloseList(buf, c, base, all);
    length := c.length;
  }

  // ---------------------------------------------------------------- per-port realms

  /** The port objects of ports 1 to `n`. */
  function PortsUpTo(x: Context, r: Realm, n: nat): string
    requires x.asic.Valid() && r.PerPort() && n <= x.asic.numPorts
  {
    PortsText(r, Kept(PortObjects(x, r, n)))
  }

  predicate PortsNamed(x: Context, r: Realm, n: nat)
    requires x.asic.Valid() && r.PerPort() && n <= x.asic.numPorts
  {
    forall p: nat | 1 <= p <= n && PortEmitted(x, r, p) :: p in x.notation
  }

  lemma PortsUpToNext(x: Context, r: Realm, n: nat)
    requires x.asic.Valid() && r.PerPort() && n < x.asic.numPorts
    ensures PortsUpTo(x, r, n + 1)
         == PortsUpTo(x, r, n) + (if PortEmitted(x, r, n + 1) then PortText(r, PortEntryOf(x, r, n + 1)) else "")
  {
    PortsStep(x, r, n);
    hide PortObjects, PortCells, PortText, PortEmitted, PortsText, Kept, PortEntryOf;
    var ports := Kept(PortObjects(x, r, n));
    if PortEmitted(x, r, n + 1) {
      PortsTextSnoc(r, ports, PortEntryOf(x, r, n + 1));
    } else {
      assert ports + [] == ports;
      assert PortsText(r, ports) + "" == PortsText(r, ports);
    }
  }

  lemma {:induction false} PortsUpToGrow(x: Context, r: Realm, k: nat, n: nat)
    requires x.asic.Valid() && r.PerPort() && k <= n <= x.asic.numPorts
    ensures |PortsUpTo(x, r, k)| <= |PortsUpTo(x, r, n)|
    decreases n
  {
    hide PortsUpTo, PortEmitted, PortText, PortEntryOf;
    if k < n {
      PortsUpToGrow(x, r, k, n - 1);
      PortsUpToNext(x, r, n - 1);
    }
  }

  lemma PortsEndInSeparator(head: string, x: Context, r: Realm, n: nat)
    requires x.asic.Valid() && r.PerPort() && n <= x.asic.numPorts
    ensures var t := head + " " + PortsUpTo(x, r, n); t != "" && IsSeparator(t[|t| - 1])
  {
    var ps := Kept(PortObjects(x, r, n));
    hide PortObjects, ObjectHead, RowsText;
    if ps != [] {
      var text := PortsText(r, ps);
      assert text[|text| - 1] == ',';
    }
  }

  lemma PortsNamedNext(x: Context, r: Realm, n: nat)
    requires x.asic.Valid() && r.PerPort() && n < x.asic.numPorts
    ensures PortsNamed(x, r, n + 1) <==> PortsNamed(x, r, n) && (PortEmitted(x, r, n + 1) ==> n + 1 in x.notation)
  {
    hide PortEmitted;
  }

  lemma PortNotNamed(x: Context, r: Realm, port: nat)
    requires x.asic.Valid() && r.PerPort() && 1 <= port <= x.asic.numPorts
    ensures PortEmitted(x, r, port) && port !in x.notation ==> !PortsNamed(x, r, x.asic.numPorts)
  {
    hide PortEmitted;
  }

  /** The trigger filter of the outer loop. */
  predicate PortFiltered(x: Context, port: nat) {
    port != x.options.triggerInfo.port && !x.options.sendSnapShotOnTrigger && x.options.reportTrigger
  }

  lemma FilteredPortIsSilent(x: Context, r: Realm, port: nat)
    requires x.asic.Valid() && r.PerPort() && 1 <= port <= MAX_PORTS && PortFiltered(x, port)
    ensures !PortEmitted(x, r, port)
  {
    hide Counters;
  }

  /** `marks` holds the first pass's decision for every pool or group of the port. */
  predicate Marked(x: Context, r: Realm, port: nat, marks: seq<int>)
    requires x.asic.Valid() && r.PerPort() && 1 <= port <= MAX_PORTS && |marks| == r.MaxCount()
  {
    forall i: nat | i < r.Count(x.asic) :: marks[i] == if Emitted(x, r, port, i) then 1 else 0
  }

  /** The first pass over one port: which of its pools or groups to print, and whether there is any. */
  method MarkPort(x: Context, r: Realm, port: nat, marks: array<int>) returns (includePort: bool)
    requires x.asic.Valid() && r.PerPort() && 1 <= port <= MAX_PORTS && !PortFiltered(x, port)
    requires marks.Length == r.MaxCount()
    modifies marks
    ensures Marked(x, r, port, marks[..])
    ensures includePort <==> PortEmitted(x, r, port)
  {
    hide Counters;
    var o := x.options;
    includePort := false;
    forall i | 0 <= i < marks.Length {
      marks[i] := 0;
    }
    for pool := 1 to r.Count(x.asic) + 1
      invariant forall i: nat | i < pool - 1 :: marks[i] == if Emitted(x, r, port, i) then 1 else 0
      invariant forall i: nat | pool - 1 <= i < marks.Length :: marks[i] == 0
      invariant includePort <==> exists i: nat :: i < pool - 1 && Emitted(x, r, port, i)
    {
      if pool - 1 != o.triggerInfo.queue && !o.sendSnapShotOnTrigger && o.reportTrigger {
        assert !Emitted(x, r, port, pool - 1);
        continue;
      }
      marks[pool - 1] := 1;
      if o.sendIncrementalReport {
        if x.previous.None? && AllZero(Counters(r, x.current, port, pool - 1)) {
          marks[pool - 1] := 0;
          continue;
        }
      }
      if x.previous.None? {
        assert Emitted(x, r, port, pool - 1);
        includePort := true;
        continue;
      }
      if Counters(r, x.previous.value, port, pool - 1) != Counters(r, x.current, port, pool - 1) {
        assert Emitted(x, r, port, pool - 1);
        includePort := true;
        continue;
      }
      marks[pool - 1] := 0;
    }
  }

  lemma MarkMeans(x: Context, r: Realm, port: nat, marks: seq<int>, i: nat)
    requires x.asic.Valid() && r.PerPort() && 1 <= port <= MAX_PORTS && |marks| == r.MaxCount()
    requires Marked(x, r, port, marks) && i < r.Count(x.asic)
    ensures r.InTable(port, i) && (marks[i] == 0 <==> !Emitted(x, r, port, i))
  {
    hide Emitted;
  }

  lemma PortStart(x: Context, r: Realm, port: nat)
    requires x.asic.Valid() && r.PerPort() && 1 <= port <= MAX_PORTS
    ensures r.HasPort(port) && r.Count(x.asic) <= r.MaxCount()
    ensures PortText(r, PortEntryOf(x, r, port))
         == Closed(ObjectHead("port", PortName(x.notation, port)) + " " + RowsUpTo(x, r, port, r.Count(x.asic)))
    ensures RowsUpTo(x, r, port, 0) == ""
  {
    hide ObjectHead, Closed, Emitted;
  }

  /** The second pass over one port: the rows that the first pass marked. */
  method EncodePortRows(x: Context, r: Realm, port: nat, marks: array<int>, buf: array<char>, c0: Cursor,
                        ghost base: string)
    returns (c: Cursor)
    requires x.asic.Valid() && r.PerPort() && 1 <= port <= MAX_PORTS && r.HasPort(port)
    requires marks.Length == r.MaxCount() && Marked(x, r, port, marks[..])
    requires |RowsUpTo(x, r, port, r.Count(x.asic))| < c0.remLength
    requires 0 <= c0.buffer && c0.buffer + c0.remLength <= buf.Length && buf[..c0.buffer] == base
    modifies buf
    ensures var n := |RowsUpTo(x, r, port, r.Count(x.asic))|;
            c == Cursor(c0.buffer + n, c0.remLength - n, c0.length + n)
    ensures buf[..c.buffer] == base + RowsUpTo(x, r, port, r.Count(x.asic))
  {
    hide *;
    PortStart(x, r, port);
    ghost var marked := marks[..];
    ghost var n := 0;
    RowsUpToGrow(x, r, port, 0, r.Count(x.asic));
    c := c0;
    assert base + "" == base;
    for pool := 1 to r.Count(x.asic) + 1
      invariant n == |RowsUpTo(x, r, port, pool - 1)| <= |RowsUpTo(x, r, port, r.Count(x.asic))|
      invariant c == Cursor(c0.buffer + n, c0.remLength - n, c0.length + n)
      invariant buf[..c.buffer] == base + RowsUpTo(x, r, port, pool - 1)
      invariant marks[..] == marked
    {
      RowsUpToNext(x, r, port, pool - 1);
      RowsUpToGrow(x, r, port, pool, r.Count(x.asic));
      MarkMeans(x, r, port, marked, pool - 1);
      assert marks[pool - 1] == marked[pool - 1];
      n := |RowsUpTo(x, r, port, pool)|;
      if marks[pool - 1] == 0 {
        assert RowsUpTo(x, r, port, pool) == RowsUpTo(x, r, port, pool - 1);
        continue;
      }
      var row := RowText(r, EntryAt(x, r, port, pool - 1));
      var status;
      status, c := CopyAndAdvance(buf, c, row);
      ConcatAssociative(base, RowsUpTo(x, r, port, pool - 1), row);
    }
  }

  /** The body of the port loop: the first pass, and the port's object if it marked anything. */
  method EncodePort(x: Context, r: Realm, port: nat, marks: array<int>, buf: array<char>, c0: Cursor,
                    ghost base: string, ghost text: string)
    returns (status: Status, c: Cursor)
    requires x.asic.Valid() && r.PerPort() && 1 <= port <= x.asic.numPorts && !PortFiltered(x, port)
    requires marks.Length == r.MaxCount()
    requires text == PortText(r, PortEntryOf(x, r, port))
    requires 0 < c0.remLength && (PortEmitted(x, r, port) ==> |text| < c0.remLength)
    requires 0 <= c0.buffer && c0.buffer + c0.remLength <= buf.Length && buf[..c0.buffer] == base
    modifies buf, marks
    ensures buf[..c0.buffer] == base
    ensures status == if PortEmitted(x, r, port) && port !in x.notation then InvalidJson else Success
    ensures !PortEmitted(x, r, port) ==> c == c0
    ensures status.Success? && PortEmitted(x, r, port) ==>
              && c == Cursor(c0.buffer + |text|, c0.remLength - |text|, c0.length + |text|)
              && buf[..c.buffer] == base + text
              && buf[c.buffer] == '\0'
  {
    assert port <= MAX_PORTS;
    hide *;
    PortStart(x, r, port);
    c := c0;
    var includePort := MarkPort(x, r, port, marks);
    if !includePort {
      return Success, c;
    }
    if port !in x.notation {
      return InvalidJson, c;
    }
    var head := ObjectHead("port", PortName(x.notation, port)) + " ";
    ghost var rows := RowsUpTo(x, r, port, r.Count(x.asic));
    ClosedLength(head + rows);
    status, c := CopyAndAdvance(buf, c, head);
    c := EncodePortRows(x, r, port, marks, buf, c, base + head);
    ConcatAssociative(base, head, rows);
    RowsEndInSeparator(ObjectHead("port", PortName(x.notation, port)), x, r, port, r.Count(x.asic));
    status, c := CloseList(buf, c, base, head + rows);
    assert base == buf[..|base|];
  }

  lemma PortsStart(x: Context, r: Realm)
    requires x.asic.Valid() && r.PerPort()
    ensures x.asic.numPorts <= MAX_PORTS && !r.Device?
    ensures RealmText(ReportOf(x, r)) == Closed(ObjectHead("realm", r.Name()) + " " + PortsUpTo(x, r, x.asic.numPorts))
    ensures PortsUpTo(x, r, 0) == "" && PortsNamed(x, r, 0)
  {
    hide ObjectHead, Closed, Emitted;
  }

  /** `_jsonencode_report_ingress_ippg` and its two siblings. */
  method EncodePerPort(x: Context, r: Realm, buf: array<char>, start: nat, bufLen: int)
    returns (status: Status, length: int)
    requires x.asic.Valid() && r.PerPort()
    requires 0 < bufLen && start + bufLen <= buf.Length && |RealmText(ReportOf(x, r))| <= bufLen
    modifies buf
    ensures buf[..start] == old(buf[..start])
    ensures status.Success? || status.OutOfMemory? || status.InvalidJson?
    ensures status.InvalidJson? ==> !PortsNamed(x, r, x.asic.numPorts)
    ensures status.OutOfMemory? ==> |RealmText(ReportOf(x, r))| == bufLen
    ensures status.Success? ==>
              && PortsNamed(x, r, x.asic.numPorts)
              && length == |RealmText(ReportOf(x, r))| < bufLen
              && buf[..start + length] == old(buf[..start]) + RealmText(ReportOf(x, r))
              && buf[start + length] == '\0'
  {
    hide *;
    PortsStart(x, r);
    var count := x.asic.numPorts;
    ghost var base := buf[..start];
    ghost var head := ObjectHead("realm", r.Name()) + " ";
    ghost var all := head + PortsUpTo(x, r, count);
    ClosedLength(all);
    PortsUpToGrow(x, r, 0, count);

    var marks := new int[r.MaxCount()];
    var c := Cursor(start, bufLen, 0);
    status, c := CopyAndAdvance(buf, c, ObjectHead("realm", r.Name()) + " ");
    assert head + "" == head;
    for port := 1 to count + 1
      invariant c.remLength + c.length == bufLen && c.buffer == start + c.length
      invariant c.length == |head + PortsUpTo(x, r, port - 1)| <= |all|
      invariant buf[..c.buffer] == base + (head + PortsUpTo(x, r, port - 1))
      invariant PortsNamed(x, r, port - 1)
    {
      PortsUpToNext(x, r, port - 1);
      PortsUpToGrow(x, r, port, count);
      PortsNamedNext(x, r, port - 1);
      if PortFiltered(x, port) {
        FilteredPortIsSilent(x, r, port);
        assert PortsUpTo(x, r, port) == PortsUpTo(x, r, port - 1);
        continue;
      }
      ghost var ports, portText := PortsUpTo(x, r, port - 1), PortText(r, PortEntryOf(x, r, port));
      ghost var before := base + (head + ports);
      status, c := EncodePort(x, r, port, marks, buf, c, before, portText);
      assert buf[..start] == buf[..|before|][..start] == base;
      if !status.Success? {
        PortNotNamed(x, r, port);
        return status, c.length;
      }
      if !PortEmitted(x, r, port) {
        assert PortsUpTo(x, r, port) == ports;
        continue;
      }
      ConcatAssociative(head, ports, portText);
      ConcatAssociative(base, head + ports, portText);
    }
    PortsEndInSeparator(ObjectHead("realm", r.Name()), x, r, count);
    status, c := CloseList(buf, c, base, all);
    length := c.length;
  }

  // ---------------------------------------------------------------- groups of realms

  /** Every port that the realm prints has an external name. */
  predicate RealmNamed(x: Context, r: Realm)
    requires x.asic.Valid()
  {
    r in x.options.included && !r.Device? ==>
      if r.PerPort() then PortsNamed(x, r, x.asic.numPorts) else RowsNamed(x, r, r.Count(x.asic))
  }

  predicate AllNamed(x: Context, rs: seq<Realm>)
    requires x.asic.Valid()
  {
    forall i | 0 <= i < |rs| :: RealmNamed(x, rs[i])
  }

  /** What realm `r` adds to a report. */
  function Part(x: Context, r: Realm): string
    requires x.asic.Valid()
  {
    if Reported(x, r) then RealmText(ReportOf(x, r)) else ""
  }

  function GroupText(x: Context, rs: seq<Realm>): string
    requires x.asic.Valid()
  {
    RealmsText(Selected(x, rs))
  }

  lemma GroupTextSnoc(x: Context, rs: seq<Realm>, r: Realm)
    requires x.asic.Valid()
    ensures GroupText(x, rs + [r]) == GroupText(x, rs) + Part(x, r)
  {
    SelectedSnoc(x, rs, r);
    hide Selected, ReportOf, RealmText;
    if Reported(x, r) {
      RealmsTextSnoc(Selected(x, rs), ReportOf(x, r));
    } else {
      assert Selected(x, rs) + [] == Selected(x, rs);
      assert GroupText(x, rs) + "" == GroupText(x, rs);
    }
  }

  lemma {:induction false} GroupTextConcat(x: Context, a: seq<Realm>, b: seq<Realm>)
    requires x.asic.Valid()
    ensures GroupText(x, a + b) == GroupText(x, a) + GroupText(x, b)
  {
    hide Part;
    if b == [] {
      assert a + b == a;
      assert Selected(x, b) == [];
      assert GroupText(x, a) + "" == GroupText(x, a);
    } else {
      hide GroupText;
      var init, last := b[..|b| - 1], b[|b| - 1];
      assert b == init + [last] && a + b == (a + init) + [last];
      GroupTextConcat(x, a, init);
      GroupTextSnoc(x, a + init, last);
      GroupTextSnoc(x, init, last);
      ConcatAssociative(GroupText(x, a), GroupText(x, init), Part(x, last));
    }
  }

  /** Whatever is written for a realm ends in a blank and a comma. */
  predicate Ends(text: string) {
    text == "" || (|text| >= 2 && text[|text| - 2..] == " ,")
  }

  lemma PartEnds(x: Context, r: Realm)
    requires x.asic.Valid()
    ensures Ends(Part(x, r)) && (Part(x, r) != "" <==> Reported(x, r))
  {
    hide DeviceCore, ObjectHead, RowsText, PortsText, ReportOf, Reported;
  }

  lemma {:induction false} GroupTextEnds(x: Context, rs: seq<Realm>)
    requires x.asic.Valid()
    ensures Ends(GroupText(x, rs)) && (GroupText(x, rs) != "" <==> exists i :: 0 <= i < |rs| && Reported(x, rs[i]))
  {
    if rs == [] {
      assert Selected(x, rs) == [];
    } else {
      hide Part, GroupText, Reported;
      var init, last := rs[..|rs| - 1], rs[|rs| - 1];
      assert rs == init + [last];
      assert forall i | 0 <= i < |init| :: init[i] == rs[i];
      GroupTextEnds(x, init);
      GroupTextSnoc(x, init, last);
      PartEnds(x, last);
    }
  }

  /** What the two combining functions keep for the part they have written. */
  datatype Progress = Progress(buffer: int, bufLen: int, length: int, tempLength: int)

  /** One block of a combining function: encode the realm if it is asked for, and move past it. */
  method AppendRealm(x: Context, r: Realm, buf: array<char>, p: Progress) returns (status: Status, p': Progress)
    requires x.asic.Valid() && !r.Device?
    requires 0 <= p.buffer && 0 < p.bufLen && p.buffer + p.bufLen <= buf.Length && |Part(x, r)| < p.bufLen
    modifies buf
    ensures buf[..p.buffer] == old(buf[..p.buffer])
    ensures status == if RealmNamed(x, r) then Success else InvalidJson
    ensures status.Success? ==>
              && var n := |Part(x, r)|;
              && p' == Progress(p.buffer + n, p.bufLen - n, p.length + n,
                                if r in x.options.included then n else p.tempLength)
              && buf[..p'.buffer] == old(buf[..p.buffer]) + Part(x, r)
              && (r in x.options.included ==> buf[p'.buffer] == '\0')
  {
    hide RealmText, ReportOf, PortsNamed, RowsNamed;
    p' := p;
    if r in x.options.included {
      var tempLength;
      PartEnds(x, r);
      if r.PerPort() {
        status, tempLength := EncodePerPort(x, r, buf, p.buffer, p.bufLen);
      } else {
        status, tempLength := EncodeFlat(x, r, buf, p.buffer, p.bufLen);
      }
      if !status.Success? {
        return;
      }
      p' := p.(tempLength := tempLength);
      if tempLength != 0 {
        p' := Progress(p.buffer + tempLength, p.bufLen - tempLength, p.length + tempLength, tempLength);
      }
    } else {
      status := Success;
      assert buf[..p.buffer] + "" == buf[..p.buffer];
    }
  }

  /** The next realm of a group: its text follows the group's, and the group grows towards `whole`. */
  lemma GroupNext(x: Context, rs: seq<Realm>, r: Realm)
    requires x.asic.Valid()
    ensures GroupText(x, rs + [r]) == GroupText(x, rs) + Part(x, r)
    ensures AllNamed(x, rs + [r]) <==> AllNamed(x, rs) && RealmNamed(x, r)
    ensures Part(x, r) != "" <==> Reported(x, r)
  {
    GroupTextSnoc(x, rs, r);
    PartEnds(x, r);
    hide GroupText, Part, RealmNamed;
    assert (rs + [r])[|rs|] == r;
    assert forall i | 0 <= i < |rs| :: (rs + [r])[i] == rs[i];
  }

  lemma GroupPrefix(x: Context, a: seq<Realm>, b: seq<Realm>)
    requires x.asic.Valid()
    ensures |GroupText(x, a)| <= |GroupText(x, a + b)|
    ensures AllNamed(x, a + b) ==> AllNamed(x, a)
  {
    GroupTextConcat(x, a, b);
    hide GroupText, RealmNamed;
    assert forall i | 0 <= i < |a| :: (a + b)[i] == a[i];
  }

  /** How a combining function stands after the realms `rs`. */
  predicate Stands(x: Context, rs: seq<Realm>, p0: Progress, p: Progress)
    requires x.asic.Valid()
  {
    var n := |GroupText(x, rs)|;
    && p.buffer == p0.buffer + n
    && p.bufLen == p0.bufLen - n
    && p.length == p0.length + n
    && (p.tempLength != 0 <==> GroupText(x, rs) != "")
  }

  lemma StandsMeans(x: Context, rs: seq<Realm>, p0: Progress, p: Progress)
    requires x.asic.Valid() && Stands(x, rs, p0, p)
    ensures p.buffer == p0.buffer + |GroupText(x, rs)| && p.bufLen == p0.bufLen - |GroupText(x, rs)|
    ensures p.length == p0.length + |GroupText(x, rs)| && (p.tempLength != 0 <==> GroupText(x, rs) != "")
  {
  }

  /** Before the first realm. */
  lemma GroupStart(x: Context, p: Progress)
    requires x.asic.Valid() && p.tempLength == 0
    ensures GroupText(x, []) == "" && AllNamed(x, []) && Stands(x, [], p, p)
  {
    assert Selected(x, []) == [];
  }

  lemma IngressOrder()
    ensures INGRESS_ORDER == [IngressPortPriorityGroup, IngressPortServicePool, IngressServicePool]
  {
  }

  lemma EgressOrder()
    ensures EGRESS_ORDER
         == [EgressCpuQueue, EgressMcQueue, EgressPortServicePool, EgressRqeQueue,
             EgressServicePool, EgressUcQueue, EgressUcQueueGroup]
  {
  }

  /** `AppendRealm` seen from its combining function, of which `r` is the `k`-th realm. */
  method AppendNext(x: Context, ghost order: seq<Realm>, ghost k: nat, r: Realm, buf: array<char>,
                    ghost base: string, ghost p0: Progress, p: Progress)
    returns (status: Status, p': Progress)
    requires x.asic.Valid() && !r.Device? && k < |order| && order[k] == r
    requires 0 <= p0.buffer && p0.buffer + p0.bufLen <= buf.Length && |GroupText(x, order)| < p0.bufLen
    requires Stands(x, order[..k], p0, p) && AllNamed(x, order[..k])
    requires |base| == p0.buffer && p.buffer <= buf.Length && buf[..p.buffer] == base + GroupText(x, order[..k])
    modifies buf
    ensures status.Success? || status.InvalidJson?
    ensures buf[..|base|] == base
    ensures status.InvalidJson? ==> !AllNamed(x, order)
    ensures status.Success? ==>
              && AllNamed(x, order[..k + 1]) && Stands(x, order[..k + 1], p0, p')
              && 0 <= p'.buffer < buf.Length
              && buf[..p'.buffer] == base + GroupText(x, order[..k + 1])
  {
    hide AllNamed, GroupText, Part, RealmNamed;
    ghost var done := order[..k];
    assert done + [r] == order[..k + 1] && order == order[..k + 1] + order[k + 1..];
    GroupNext(x, done, r);
    GroupPrefix(x, order[..k + 1], order[k + 1..]);
    status, p' := AppendRealm(x, r, buf, p);
    assert buf[..|base|] == buf[..p.buffer][..|base|];
    ConcatAssociative(base, GroupText(x, done), Part(x, r));
  }

  /** Some realm of the group is asked for. */
  predicate AnyIncluded(x: Context, rs: seq<Realm>) {
    exists i | 0 <= i < |rs| :: rs[i] in x.options.included
  }

  /** `_jsonencode_report_ingress`: its last comma is trimmed if no egress realm follows. */
  method EncodeIngress(x: Context, buf: array<char>, start: nat, bufLen: int) returns (status: Status, length: int)
    requires x.asic.Valid() && start + bufLen <= buf.Length && |GroupText(x, INGRESS_ORDER)| < bufLen
    modifies buf
    ensures buf[..start] == old(buf[..start])
    ensures status == if AllNamed(x, INGRESS_ORDER) then Success else InvalidJson
    ensures status.Success? ==>
              var text := GroupText(x, INGRESS_ORDER);
              && length == |text| - (if text != "" && !AnyIncluded(x, EGRESS_ORDER) then 1 else 0)
              && buf[..start + |text|] == old(buf[..start]) + text
  {
    IngressOrder();
    hide *;
    ghost var o, base := INGRESS_ORDER, buf[..start];
    var p := Progress(start, bufLen, 0, 0);
    ghost var p0 := p;
    GroupStart(x, p0);
    assert o[..0] == [] && base + "" == base;
    status, p := AppendNext(x, o, 0, IngressPortPriorityGroup, buf, base, p0, p);
    if !status.Success? { return status, p.length; }
    status, p := AppendNext(x, o, 1, IngressPortServicePool, buf, base, p0, p);
    if !status.Success? { return status, p.length; }
    status, p := AppendNext(x, o, 2, IngressServicePool, buf, base, p0, p);
    if !status.Success? { return status, p.length; }
    assert o[..3] == o;
    StandsMeans(x, o, p0, p);
    length := p.length;
    if p.tempLength != 0 {
      if !AnyIncluded(x, EGRESS_ORDER) {
        length := length - 1;
      }
    }
  }

  /** `_jsonencode_report_egress`: its last comma is always trimmed. */
  method EncodeEgress(x: Context, buf: array<char>, start: nat, bufLen: int) returns (status: Status, length: int)
    requires x.asic.Valid() && start + bufLen <= buf.Length && |GroupText(x, EGRESS_ORDER)| < bufLen
    modifies buf
    ensures buf[..start] == old(buf[..start])
    ensures status == if AllNamed(x, EGRESS_ORDER) then Success else InvalidJson
    ensures status.Success? ==>
              var text := GroupText(x, EGRESS_ORDER);
              && length == |text| - (if text != "" then 1 else 0)
              && buf[..start + |text|] == old(buf[..start]) + text
  {
    EgressOrder();
    hide *;
    ghost var o, base := EGRESS_ORDER, buf[..start];
    var p := Progress(start, bufLen, 0, 0);
    ghost var p0 := p;
    GroupStart(x, p0);
    assert o[..0] == [] && base + "" == base;
    status, p := AppendNext(x, o, 0, EgressCpuQueue, buf, base, p0, p);
    if !status.Success? { return status, p.length; }
    status, p := AppendNext(x, o, 1, EgressMcQueue, buf, base, p0, p);
    if !status.Success? { return status, p.length; }
    status, p := AppendNext(x, o, 2, EgressPortServicePool, buf, base, p0, p);
    if !status.Success? { return status, p.length; }
    status, p := AppendNext(x, o, 3, EgressRqeQueue, buf, base, p0, p);
    if !status.Success? { return status, p.length; }
    status, p := AppendNext(x, o, 4, EgressServicePool, buf, base, p0, p);
    if !status.Success? { return status, p.length; }
    status, p := AppendNext(x, o, 5, EgressUcQueue, buf, base, p0, p);
    if !status.Success? { return status, p.length; }
    status, p := AppendNext(x, o, 6, EgressUcQueueGroup, buf, base, p0, p);
    if !status.Success? { return status, p.length; }
    assert o[..7] == o;
    StandsMeans(x, o, p0, p);
    length := p.length;
    if p.tempLength != 0 {
      length := length - 1;
    }
  }
}
