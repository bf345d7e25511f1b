/**
 The assembly of a report: header, device, ingress and egress realms, and the finaliser, which steps
 back over the last separator and closes the list and the report.
 */
module BstReport {
  import opened Wrappers
  import opened Json
  import opened BstData
  import opened BstSelect
  import opened BstText
  import opened BstParse
  import opened BstEncoder
  import BstMemory

  /** The C string at the start of a buffer. */
  function CString(s: seq<char>): string {
    if s == [] || s[0] == '\0' then [] else [s[0]] + CString(s[1..])
  }

  lemma {:induction false} CStringIs(s: seq<char>, t: string)
    requires t < s && s[|t|] == '\0' && forall i | 0 <= i < |t| :: t[i] != '\0'
    ensures CString(s) == t
  {
    if t != [] {
      assert s[1..][|t| - 1] == s[|t|];
      assert forall i | 0 <= i < |t| - 1 :: t[1..][i] == t[i + 1];
      CStringIs(s[1..], t[1..]);
      assert t == [t[0]] + t[1..];
    }
  }

  // ---------------------------------------------------------------- the header

  /** A trigger report fails if its realm is unknown, or if it must name a port that has no name. */
  function HeadStatus(x: Context): Status {
    if !x.options.reportTrigger then Success
    else
      match RealmOfName(x.options.triggerInfo.realm)
      case None => InvalidParameter
      case Some(r) =>
        if "port" in Indices(r) && x.options.triggerInfo.port !in x.notation then InvalidJson else Success
  }

  lemma FieldsTextAppend(fs: seq<Field>, f: Field)
    requires Scalar(fs) && (f.value.Num? || f.value.Str?)
    ensures Scalar(fs + [f]) && FieldsText(fs + [f]) == FieldsText(fs) + FieldText(f)
  {
    hide FieldText;
    assert (fs + [f])[..|fs|] == fs;
  }

  /** The fields that the first template of a trigger report prints. */
  function TriggerStart(x: Context, stamp: Stamp): (fs: seq<Field>)
    ensures Scalar(fs)
  {
    CommonFields("trigger-report", stamp)
    + [Field("realm", ": ", Str(x.options.triggerInfo.realm)),
       Field("counter", ": ", Str(x.options.triggerInfo.counter))]
  }

  /** The fields of a trigger report up to its `k`-th index. */
  function TriggerUpTo(x: Context, stamp: Stamp, r: Realm, k: nat): (fs: seq<Field>)
    requires k <= |Indices(r)|
    ensures Scalar(fs)
  {
    if k == 0 then TriggerStart(x, stamp)
    else TriggerUpTo(x, stamp, r, k - 1) + [IndexField(x, Indices(r)[k - 1])]
  }

  function TriggerTextUpTo(x: Context, stamp: Stamp, r: Realm, k: nat): string
    requires k <= |Indices(r)|
  {
    " { " + FieldsText(TriggerUpTo(x, stamp, r, k))
  }

  lemma TriggerTextNext(x: Context, stamp: Stamp, r: Realm, k: nat)
    requires k < |Indices(r)|
    ensures Scalar([IndexField(x, Indices(r)[k])])
    ensures TriggerTextUpTo(x, stamp, r, k + 1)
         == TriggerTextUpTo(x, stamp, r, k) + FieldText(IndexField(x, Indices(r)[k]))
  {
    var fs, f := TriggerUpTo(x, stamp, r, k), IndexField(x, Indices(r)[k]);
    assert [f][0] == f;
    hide TriggerStart, FieldText, FieldsText, IndexField, Indices;
    FieldsTextAppend(fs, f);
    ConcatAssociative(" { ", FieldsText(fs), FieldText(f));
  }

  lemma TriggerFieldsForm(x: Context, stamp: Stamp, r: Realm)
    ensures |Indices(r)| <= 2
    ensures CommonFields("trigger-report", stamp) + TriggerFields(x, r) == TriggerUpTo(x, stamp, r, |Indices(r)|)
  {
    hide IndexField, CommonFields;
    var n := |Indices(r)|;
    assert TriggerUpTo(x, stamp, r, 0) == TriggerStart(x, stamp);
    if n > 0 {
      assert TriggerUpTo(x, stamp, r, 1) == TriggerStart(x, stamp) + [IndexField(x, Indices(r)[0])];
    }
    if n > 1 {
      assert TriggerUpTo(x, stamp, r, 2) == TriggerUpTo(x, stamp, r, 1) + [IndexField(x, Indices(r)[1])];
    }
  }

  lemma TriggerHeadForm(x: Context, stamp: Stamp, r: Realm)
    requires x.options.reportTrigger && RealmOfName(x.options.triggerInfo.realm) == Some(r)
    ensures |Indices(r)| <= 2
    ensures HeadText(x, stamp) == TriggerTextUpTo(x, stamp, r, |Indices(r)|) + (Quoted("report") + " : [")
  {
    TriggerFieldsForm(x, stamp, r);
    hide TriggerFields, CommonFields, TriggerUpTo, FieldsText, RealmOfName, Indices;
    ConcatAssociative(TriggerTextUpTo(x, stamp, r, |Indices(r)|), Quoted("report"), " : [");
  }

  /** `bstjson_encode_trigger_realm_index_info`. */
  method EncodeIndex(x: Context, index: string, buf: array<char>, at: nat, bufLen: int)
    returns (status: Status, length: nat)
    requires at + bufLen <= buf.Length && Scalar([IndexField(x, index)]) && |FieldText(IndexField(x, index))| < bufLen
    modifies buf
    ensures status == if index == "port" && x.options.triggerInfo.port !in x.notation then InvalidJson else Success
    ensures status.Success? ==>
              && length == |FieldText(IndexField(x, index))|
              && buf[..at + length] == old(buf[..at]) + FieldText(IndexField(x, index))
  {
    hide FieldText;
    length := 0;
    if index == "port" && x.options.triggerInfo.port !in x.notation {
      return InvalidJson, length;
    }
    length := Snprintf(buf, at, bufLen, FieldText(IndexField(x, index)));
    status := Success;
  }

  lemma TriggerTextGrows(x: Context, stamp: Stamp, r: Realm)
    ensures |Indices(r)| <= 2
    ensures |TriggerTextUpTo(x, stamp, r, 0)| <= |TriggerTextUpTo(x, stamp, r, |Indices(r)|)|
    ensures |Indices(r)| == 2 ==> |TriggerTextUpTo(x, stamp, r, 1)| <= |TriggerTextUpTo(x, stamp, r, 2)|
  {
    if |Indices(r)| > 0 {
      TriggerTextNext(x, stamp, r, 0);
    }
    if |Indices(r)| > 1 {
      TriggerTextNext(x, stamp, r, 1);
    }
    hide TriggerTextUpTo, FieldText;
    TriggerFieldsForm(x, stamp, r);
  }

  /** Every index that a trigger of realm `r` prints has an external name. */
  predicate IndicesNamed(x: Context, r: Realm, k: nat)
    requires k <= |Indices(r)|
  {
    "port" in Indices(r)[..k] ==> x.options.triggerInfo.port in x.notation
  }

  lemma IndicesNamedNext(x: Context, r: Realm, k: nat)
    requires k < |Indices(r)|
    ensures IndicesNamed(x, r, k + 1)
       <==> IndicesNamed(x, r, k) && !(Indices(r)[k] == "port" && x.options.triggerInfo.port !in x.notation)
    ensures IndicesNamed(x, r, |Indices(r)|) ==> IndicesNamed(x, r, k + 1)
  {
    hide Indices;
    assert Indices(r)[..k + 1] == Indices(r)[..k] + [Indices(r)[k]];
  }

  /** The `k`-th index follows the header printed so far. */
  method EncodeNextIndex(x: Context, ghost stamp: Stamp, r: Realm, k: nat, buf: array<char>, at: nat, bufferLength: int)
    returns (status: Status, at': nat, bufferLength': int)
    requires k < |Indices(r)| && at + bufferLength == buf.Length
    requires at == |TriggerTextUpTo(x, stamp, r, k)| && |TriggerTextUpTo(x, stamp, r, k + 1)| < buf.Length
    requires buf[..at] == TriggerTextUpTo(x, stamp, r, k) && IndicesNamed(x, r, k)
    modifies buf
    ensures status.Success? || status.InvalidJson?
    ensures status.InvalidJson? ==> !IndicesNamed(x, r, |Indices(r)|)
    ensures status.Success? ==>
              && IndicesNamed(x, r, k + 1)
              && at' == |TriggerTextUpTo(x, stamp, r, k + 1)| && at' + bufferLength' == buf.Length
              && buf[..at'] == TriggerTextUpTo(x, stamp, r, k + 1)
  {
    hide *;
    TriggerTextNext(x, stamp, r, k);
    IndicesNamedNext(x, r, k);
    var tempLength;
    status, tempLength := EncodeIndex(x, Indices(r)[k], buf, at, bufferLength);
    at', bufferLength' := at + tempLength, bufferLength - tempLength;
  }

  /** The header of a trigger report, printed in up to four pieces. */
  method EncodeTriggerHead(x: Context, stamp: Stamp, r: Realm, buf: array<char>, bufferLength: int)
    returns (status: Status, at: nat, bufferLength': int)
    requires x.options.reportTrigger && RealmOfName(x.options.triggerInfo.realm) == Some(r)
    requires |HeadText(x, stamp)| < bufferLength == buf.Length
    modifies buf
    ensures status == if IndicesNamed(x, r, |Indices(r)|) then Success else InvalidJson
    ensures status.Success? ==> at == |HeadText(x, stamp)| && buf[..at] == HeadText(x, stamp)
    ensures status.Success? ==> at + bufferLength' == buf.Length
  {
    hide FieldsText, HeadText, RealmOfName, IndexField, Indices, TriggerTextUpTo;
    TriggerHeadForm(x, stamp, r);
    TriggerTextGrows(x, stamp, r);
    var tempLength := Snprintf(buf, 0, bufferLength, TriggerTextUpTo(x, stamp, r, 0));
    at, bufferLength' := tempLength, bufferLength - tempLength;
    assert buf[..at] == TriggerTextUpTo(x, stamp, r, 0);
    if |Indices(r)| > 0 {
      status, at, bufferLength' := EncodeNextIndex(x, stamp, r, 0, buf, at, bufferLength');
      if !status.Success? { return; }
    }
    if |Indices(r)| > 1 {
      status, at, bufferLength' := EncodeNextIndex(x, stamp, r, 1, buf, at, bufferLength');
      if !status.Success? { return; }
    }
    tempLength := Snprintf(buf, at, bufferLength', Quoted("report") + " : [");
    at, bufferLength' := at + tempLength, bufferLength' - tempLength;
    status := Success;
  }

  /** The header; `at` is where it ends, and `bufferLength'` is what is left. */
  method EncodeHead(x: Context, stamp: Stamp, buf: array<char>, bufferLength: int)
    returns (status: Status, at: nat, bufferLength': int)
    requires |HeadText(x, stamp)| < bufferLength == buf.Length
    modifies buf
    ensures status == HeadStatus(x)
    ensures status.Success? ==> at == |HeadText(x, stamp)| && buf[..at] == HeadText(x, stamp)
    ensures status.Success? ==> at + bufferLength' == buf.Length
  {
    hide HeadText, RealmOfName, Indices;
    at, bufferLength' := 0, bufferLength;
    if !x.options.reportTrigger {
      var tempLength := Snprintf(buf, 0, bufferLength, HeadText(x, stamp));
      at, bufferLength' := at + tempLength, bufferLength' - tempLength;
      assert buf[..0] + HeadText(x, stamp) == HeadText(x, stamp);
      status := Success;
      return;
    }
    var realm := RealmOfName(x.options.triggerInfo.realm);
    if realm.None? {
      status := InvalidParameter;
      return;
    }
    assert Indices(realm.value)[..|Indices(realm.value)|] == Indices(realm.value);
    status, at, bufferLength' := EncodeTriggerHead(x, stamp, realm.value, buf, bufferLength);
  }

  // ---------------------------------------------------------------- device, and what the finaliser finds

  function DeviceText(x: Context): string
    requires x.asic.Valid()
  {
    if Reported(x, Device) then DeviceCore(Values(x, Device, x.current, 0, 0)[0]) else ""
  }

  /** `_jsonencode_report_device`. */
  method EncodeDevice(x: Context, buf: array<char>, at: nat, bufLen: int) returns (length: nat)
    requires x.asic.Valid() && at + bufLen <= buf.Length && |DeviceText(x)| < bufLen
    modifies buf
    ensures length == |DeviceText(x)|
    ensures buf[..at + length] == old(buf[..at]) + DeviceText(x)
  {
    hide DeviceCore;
    length := 0;
    assert buf[..at] + "" == buf[..at];
    if Device !in x.options.included {
      return;
    }
    if x.previous.Some? && x.current.device == x.previous.value.device {
      return;
    }
    var data := ConvertData(x.options, x.asic, x.current.device, x.maxBuffers.device);
    length := Snprintf(buf, at, bufLen, DeviceCore(data));
  }

  lemma DevicePart(x: Context)
    requires x.asic.Valid()
    ensures Part(x, Device) == if DeviceText(x) == "" then "" else DeviceText(x) + " ,"
    ensures GroupText(x, [Device]) == Part(x, Device)
  {
    GroupTextSnoc(x, [], Device);
    assert Selected(x, []) == [];
    assert [] + [Device] == [Device];
    assert "" + Part(x, Device) == Part(x, Device);
    hide GroupText;
  }

  /** The body in the three pieces in which it is written. */
  lemma BodyParts(x: Context)
    requires x.asic.Valid()
    ensures BodyText(x) == Part(x, Device) + GroupText(x, INGRESS_ORDER) + GroupText(x, EGRESS_ORDER)
  {
    GroupTextConcat(x, [Device] + INGRESS_ORDER, EGRESS_ORDER);
    GroupTextConcat(x, [Device], INGRESS_ORDER);
    DevicePart(x);
    hide GroupText, Part;
    assert BodyText(x) == GroupText(x, REPORT_ORDER);
  }

  /** A group writes something if and only if one of its realms is asked for. */
  lemma GroupIsWritten(x: Context, rs: seq<Realm>)
    requires x.asic.Valid() && forall i | 0 <= i < |rs| :: !rs[i].Device?
    ensures GroupText(x, rs) != "" <==> AnyIncluded(x, rs)
    ensures Ends(GroupText(x, rs))
  {
    GroupTextEnds(x, rs);
    hide GroupText, Emitted;
    forall i | 0 <= i < |rs| ensures Reported(x, rs[i]) <==> rs[i] in x.options.included {
    }
  }

  lemma BackstepMeans(x: Context)
    ensures Backstep(x) == if AnyIncluded(x, INGRESS_ORDER) || AnyIncluded(x, EGRESS_ORDER) then 2 else 1
  {
    if r :| r in x.options.included && !r.Device? {
      EveryRealmIsOrdered(r);
      assert REPORT_ORDER == [Device] + (INGRESS_ORDER + EGRESS_ORDER);
      assert r in INGRESS_ORDER || r in EGRESS_ORDER;
    }
    forall i | 0 <= i < |INGRESS_ORDER| ensures !INGRESS_ORDER[i].Device? {
    }
    forall i | 0 <= i < |EGRESS_ORDER| ensures !EGRESS_ORDER[i].Device? {
    }
  }

  // ---------------------------------------------------------------- assembly

  /** The two statuses a body can have. */
  function BodyStatus(x: Context): Status
    requires x.asic.Valid()
  {
    if AllNamed(x, INGRESS_ORDER) && AllNamed(x, EGRESS_ORDER) then Success else InvalidJson
  }

  /** A realm that nobody asks for needs no names. */
  lemma NotIncludedIsNamed(x: Context, rs: seq<Realm>)
    requires x.asic.Valid() && !AnyIncluded(x, rs)
    ensures AllNamed(x, rs)
  {
  }

  lemma NoDeviceInGroups()
    ensures forall i | 0 <= i < |INGRESS_ORDER| :: !INGRESS_ORDER[i].Device?
    ensures forall i | 0 <= i < |EGRESS_ORDER| :: !EGRESS_ORDER[i].Device?
  {
  }

  /** How far the combining functions leave the cursor behind the text. */
  function Trim(x: Context): nat {
    if AnyIncluded(x, INGRESS_ORDER) || AnyIncluded(x, EGRESS_ORDER) then 1 else 0
  }

  /** The device realm and the blank and comma after it. */
  method EncodeDevicePart(x: Context, buf: array<char>, at: nat, bufferLength: int)
    returns (at': nat, bufferLength': int)
    requires x.asic.Valid() && at + bufferLength == buf.Length && |Part(x, Device)| < bufferLength
    modifies buf
    ensures at' == at + |Part(x, Device)| && at' + bufferLength' == buf.Length
    ensures buf[..at'] == old(buf[..at]) + Part(x, Device)
  {
    hide *;
    DevicePart(x);
    ghost var before, device := buf[..at], DeviceText(x);
    at', bufferLength' := at, bufferLength;
    var tempLength := EncodeDevice(x, buf, at', bufferLength');
    if tempLength != 0 {
      at', bufferLength' := at' + tempLength, bufferLength' - tempLength;
      assert buf[..at'] == before + device;
      tempLength := Snprintf(buf, at', bufferLength', " ,");
      at', bufferLength' := at' + tempLength, bufferLength' - tempLength;
      ConcatAssociative(before, device, " ,");
    }
  }

  /** The ingress block of the assembler, entered if any ingress realm is asked for. */
  method EncodeIngressPart(x: Context, buf: array<char>, at: nat, bufferLength: int)
    returns (status: Status, at': nat, bufferLength': int)
    requires x.asic.Valid() && at + bufferLength == buf.Length && |GroupText(x, INGRESS_ORDER)| < bufferLength
    modifies buf
    ensures status == if AllNamed(x, INGRESS_ORDER) then Success else InvalidJson
    ensures status.Success? ==>
              var text := GroupText(x, INGRESS_ORDER);
              && at' == at + |text| - (if text != "" && !AnyIncluded(x, EGRESS_ORDER) then 1 else 0)
              && at' + bufferLength' == buf.Length
              && buf[..at + |text|] == old(buf[..at]) + text
  {
    NoDeviceInGroups();
    GroupIsWritten(x, INGRESS_ORDER);
    hide AllNamed, GroupText, AnyIncluded;
    at', bufferLength' := at, bufferLength;
    if AnyIncluded(x, INGRESS_ORDER) {
      var tempLength;
      status, tempLength := EncodeIngress(x, buf, at', bufferLength');
      if !status.Success? { return; }
      at', bufferLength' := at' + tempLength, bufferLength' - tempLength;
    } else {
      NotIncludedIsNamed(x, INGRESS_ORDER);
      assert buf[..at] + "" == buf[..at];
      status := Success;
    }
  }

  /** The egress block of the assembler. */
  method EncodeEgressPart(x: Context, buf: array<char>, at: nat, bufferLength: int)
    returns (status: Status, at': nat, bufferLength': int)
    requires x.asic.Valid() && at + bufferLength == buf.Length && |GroupText(x, EGRESS_ORDER)| < bufferLength
    modifies buf
    ensures status == if AllNamed(x, EGRESS_ORDER) then Success else InvalidJson
    ensures status.Success? ==>
              var text := GroupText(x, EGRESS_ORDER);
              && at' == at + |text| - (if text != "" then 1 else 0)
              && at' + bufferLength' == buf.Length
              && buf[..at + |text|] == old(buf[..at]) + text
              && (text == "" ==> buf[..] == old(buf[..]))
  {
    NoDeviceInGroups();
    GroupIsWritten(x, EGRESS_ORDER);
    hide AllNamed, GroupText, AnyIncluded;
    at', bufferLength' := at, bufferLength;
    if AnyIncluded(x, EGRESS_ORDER) {
      var tempLength;
      status, tempLength := EncodeEgress(x, buf, at', bufferLength');
      if !status.Success? { return; }
      at', bufferLength' := at' + tempLength, bufferLength' - tempLength;
    } else {
      NotIncludedIsNamed(x, EGRESS_ORDER);
      assert buf[..at] + "" == buf[..at];
      status := Success;
    }
  }

  /** The realm objects. Cursor and remaining length add up to the size of the buffer all along. */
  method EncodeBody(x: Context, buf: array<char>, at: nat, bufferLength: int, ghost head: string)
    returns (status: Status, at': nat, bufferLength': int)
    requires x.asic.Valid() && at + bufferLength == buf.Length && |BodyText(x)| < bufferLength
    requires at == |head| && buf[..at] == head
    modifies buf
    ensures status == BodyStatus(x)
    ensures status.Success? ==>
              && at' == |head + BodyText(x)| - Trim(x) && at' + bufferLength' == buf.Length
              && buf[..|head + BodyText(x)|] == head + BodyText(x)
  {
    hide *;
    BodyParts(x);
    BodyStatusMeans(x);
    TrimMeans(x);
    ghost var d, i, e := Part(x, Device), GroupText(x, INGRESS_ORDER), GroupText(x, EGRESS_ORDER);
    BodyForm(head, d, i, e);
    at', bufferLength' := EncodeDevicePart(x, buf, at, bufferLength);
    assert buf[..at'] == head + d;
    status, at', bufferLength' := EncodeIngressPart(x, buf, at', bufferLength');
    if !status.Success? { return; }
    assert buf[..|head + d + i|] == head + d + i;
    status, at', bufferLength' := EncodeEgressPart(x, buf, at', bufferLength');
    if !status.Success? { return; }
    if e == "" {
      assert head + d + i + e == head + d + i;
    }
  }

  lemma BodyForm(head: string, d: string, i: string, e: string)
    ensures head + (d + i + e) == head + d + i + e
  {
  }

  lemma BodyStatusMeans(x: Context)
    requires x.asic.Valid()
    ensures BodyStatus(x) == if AllNamed(x, INGRESS_ORDER) && AllNamed(x, EGRESS_ORDER) then Success else InvalidJson
  {
    hide AllNamed;
  }

  lemma TrimMeans(x: Context)
    requires x.asic.Valid()
    ensures AnyIncluded(x, EGRESS_ORDER) <==> GroupText(x, EGRESS_ORDER) != ""
    ensures AnyIncluded(x, INGRESS_ORDER) <==> GroupText(x, INGRESS_ORDER) != ""
    ensures Trim(x) == if GroupText(x, INGRESS_ORDER) != "" || GroupText(x, EGRESS_ORDER) != "" then 1 else 0
  {
    NoDeviceInGroups();
    hide GroupText, AnyIncluded;
    GroupIsWritten(x, INGRESS_ORDER);
    GroupIsWritten(x, EGRESS_ORDER);
  }

  // ---------------------------------------------------------------- the finaliser

  /** The text that the finaliser finds. */
  function UnfinishedText(x: Context, stamp: Stamp): string
    requires x.asic.Valid()
  {
    HeadText(x, stamp) + BodyText(x)
  }

  lemma LastOfBody(x: Context)
    requires x.asic.Valid()
    ensures Ends(BodyText(x)) && (BodyText(x) != "" <==> SomethingReported(x))
    ensures Trim(x) + 1 == Backstep(x) && (BodyText(x) == "" ==> Trim(x) == 0)
  {
    SomethingReportedMeans(x);
    BackstepMeans(x);
    GroupTextEnds(x, REPORT_ORDER);
    assert BodyText(x) == GroupText(x, REPORT_ORDER);
    EmptyMeansUnselected(x);
    hide SomethingReported, Selected, RealmsText, Ends;
    if BodyText(x) == "" {
      EmptyBody(x);
    }
  }

  lemma EmptyMeansUnselected(x: Context)
    requires x.asic.Valid()
    ensures GroupText(x, REPORT_ORDER) != "" <==> Selected(x, REPORT_ORDER) != []
  {
    GroupTextEnds(x, REPORT_ORDER);
    SelectedIsEmpty(x, REPORT_ORDER);
  }

  lemma HeadEnds(x: Context, stamp: Stamp)
    ensures var h := HeadText(x, stamp); h != "" && h[|h| - 1] == if x.options.reportTrigger then '[' else ' '
  {
    hide HeadStart;
  }

  /**
   Step-back safety: the finaliser overwrites nothing but separators if and only if the report is well-formed;
   otherwise it overwrites the bracket of the list. The character it tests is never NUL.
   */
  lemma FinaliserErasesSeparators(x: Context, stamp: Stamp)
    requires x.asic.Valid()
    ensures |UnfinishedText(x, stamp)| >= Backstep(x)
    ensures (var t := UnfinishedText(x, stamp);
             var k := |t| - Backstep(x);
             && t[k] != '\0'
             && ((forall i | k <= i < |t| :: IsSeparator(t[i])) <==> !x.options.reportTrigger || SomethingReported(x)))
  {
    hide *;
    LastOfBody(x);
    HeadEnds(x, stamp);
    UnfinishedTextMeans(x, stamp);
    BackstepMeans(x);
    LastOfConcat(HeadText(x, stamp), BodyText(x), Backstep(x));
  }

  lemma UnfinishedTextMeans(x: Context, stamp: Stamp)
    requires x.asic.Valid()
    ensures UnfinishedText(x, stamp) == HeadText(x, stamp) + BodyText(x)
    ensures BodyText(x) == "" ==> Backstep(x) == 1
  {
    LastOfBody(x);
    hide HeadText, BodyText, Backstep;
  }

  lemma LastOfConcat(h: string, b: string, back: nat)
    requires h != "" && Ends(b) && (back == 1 || (back == 2 && b != ""))
    ensures |h + b| >= back
    ensures b == "" ==> (h + b)[|h + b| - 1] == h[|h| - 1]
    ensures b != "" ==> (h + b)[|h + b| - 1] == ',' && (h + b)[|h + b| - 2] == ' '
    ensures IsSeparator(',') && IsSeparator(' ') && !IsSeparator('[')
  {
    if b == "" {
      assert h + b == h;
    } else {
      assert b[|b| - 2] == b[|b| - 2..][0] && b[|b| - 1] == b[|b| - 2..][1];
    }
  }

  lemma ReportTextMeans(x: Context, stamp: Stamp)
    requires x.asic.Valid()
    ensures |UnfinishedText(x, stamp)| >= Backstep(x)
    ensures ReportText(x, stamp) == UnfinishedText(x, stamp)[..|UnfinishedText(x, stamp)| - Backstep(x)] + " ] } "
  {
    hide HeadText, BodyText;
    FinaliserErasesSeparators(x, stamp);
  }

  /** What the whole encoder returns. */
  function ReportStatus(x: Context, asicId: Option<string>): Status
    requires x.asic.Valid()
  {
    if asicId.None? then InvalidJson
    else if HeadStatus(x).Success? then BodyStatus(x)
    else HeadStatus(x)
  }

  lemma TextHasNoNul(x: Context, stamp: Stamp)
    requires x.asic.Valid() && Plain(x, stamp)
    ensures forall i | 0 <= i < |ReportText(x, stamp)| :: ReportText(x, stamp)[i] != '\0'
  {
    hide *;
    LexesAlways(x, stamp);
    forall i | 0 <= i < |ReportText(x, stamp)| ensures ReportText(x, stamp)[i] != '\0' {
      LexHasNoNul(ReportText(x, stamp), i);
    }
  }

  lemma LexesAlways(x: Context, stamp: Stamp)
    requires x.asic.Valid() && Plain(x, stamp)
    ensures Lex(ReportText(x, stamp)).Some?
  {
    hide Lex, ReportText, Plain, SomethingReported;
    if !x.options.reportTrigger || SomethingReported(x) {
      ReportParses(x, stamp);
    } else {
      LexEmptyTriggerReport(x, stamp);
    }
  }

  /**
   The end of the encoder: back over the separator, a second time if a NUL was found, and the closing marks. The
   step back takes one from the remaining length as well, where every other step back adds one, so the room that the
   closing marks are printed into is two less than what is left of the buffer.
   */
  method Finalise(x: Context, stamp: Stamp, buf: array<char>, at: nat, length: int)
    returns (jsonBuf: int, bufferLength: int)
    requires x.asic.Valid() && at + length == buf.Length
    requires var t := UnfinishedText(x, stamp); at == |t| - Trim(x) && |t| + 6 < buf.Length && buf[..|t|] == t
    modifies buf
    ensures |ReportText(x, stamp)| < buf.Length
    ensures buf[..|ReportText(x, stamp)|] == ReportText(x, stamp) && buf[|ReportText(x, stamp)|] == '\0'
    ensures jsonBuf == |ReportText(x, stamp)| - |" ] } "| && jsonBuf + bufferLength == buf.Length - 2
  {
    hide *;
    LastOfBody(x);
    FinaliserErasesSeparators(x, stamp);
    ReportTextMeans(x, stamp);
    jsonBuf, bufferLength := at, length;
    jsonBuf, bufferLength := jsonBuf - 1, bufferLength - 1;
    ghost var t := UnfinishedText(x, stamp);
    assert buf[jsonBuf] == t[jsonBuf];
    if buf[jsonBuf] == '\0' {
      jsonBuf, bufferLength := jsonBuf - 1, bufferLength - 1;
    }
    assert buf[..jsonBuf] == t[..jsonBuf];
    var tempLength := Snprintf(buf, jsonBuf, bufferLength, " ] } ");
  }

  lemma StatusMeans(x: Context, asicId: Option<string>)
    requires x.asic.Valid()
    ensures ReportStatus(x, asicId)
         == if asicId.None? then InvalidJson else if HeadStatus(x).Success? then BodyStatus(x) else HeadStatus(x)
  {
  }

  /**
   `bstjson_encode_get_bst_report`. `asicId` is the external name of the ASIC, if it has one, and `time` the formatted
   time of the snapshot. The text must fit the buffer with room for the closing marks. `json` is what stands in the
   buffer, and `buffer` its address in the pool. An error leaves the buffer in use and hands out no address of it.
   */
  method EncodeReport(x: Context, asicId: Option<string>, time: string, pool: BstMemory.Pool)
    returns (status: Status, json: array<char>, buffer: Option<nat>)
    requires x.asic.Valid() && pool.Valid()
    requires asicId.Some? ==> |UnfinishedText(x, Stamp(asicId.value, time))| + 6 < pool.layout.reportSize
    modifies pool.large
    ensures (var r := BstMemory.FirstAvailable(old(pool.InUse(BstMemory.Report)), 0);
             && status == (if r.None? then InvalidParameter else ReportStatus(x, asicId))
             && pool.InUse(BstMemory.Report)
                == (if r.None? then old(pool.InUse(BstMemory.Report))
                    else old(pool.InUse(BstMemory.Report))[r.value := true])
             && buffer == if status.Success? then Some(pool.layout.Address(BstMemory.Report, r.value)) else None)
    ensures status.Success? ==>
              asicId.Some? && |ReportText(x, Stamp(asicId.value, time))| < json.Length == pool.layout.reportSize
    ensures status.Success? ==>
              var text := ReportText(x, Stamp(asicId.value, time));
              json[..|text|] == text && json[|text|] == '\0'
  {
    hide *;
    StatusMeans(x, asicId);
    LayoutMeans(pool);
    var size := pool.layout.reportSize;
    json := new char[size](_ => '\0');
    buffer := None;
    var allocation, address := pool.Allocate(BstMemory.Report);
    if !allocation.Success? {
      return InvalidParameter, json, None;
    }
    if asicId.None? {
      return InvalidJson, json, None;
    }
    var stamp := Stamp(asicId.value, time);
    UnfinishedTextMeans(x, stamp);
    var jsonBuf, bufferLength := 0, size;
    status, jsonBuf, bufferLength := EncodeHead(x, stamp, json, bufferLength);
    if !status.Success? { return; }
    status, jsonBuf, bufferLength := EncodeBody(x, json, jsonBuf, bufferLength, HeadText(x, stamp));
    if !status.Success? { return; }
    jsonBuf, bufferLength := Finalise(x, stamp, json, jsonBuf, bufferLength);
    buffer := Some(address);
  }

  lemma LayoutMeans(pool: BstMemory.Pool)
    ensures pool.Slices(BstMemory.Report) == pool.large && pool.Slices(BstMemory.Response) == pool.small
  {
  }

  /**
   What the receiver of a buffer filled by `EncodeReport` reads: if the report is well-formed, the C string
   in the buffer is one JSON text, and its realms and rows are exactly the selected ones.
   */
  lemma BufferReadsBack(x: Context, stamp: Stamp, json: seq<char>)
    requires x.asic.Valid() && Plain(x, stamp)
    requires ReportText(x, stamp) < json && json[|ReportText(x, stamp)|] == '\0'
    ensures Parse(CString(json))
         == if !x.options.reportTrigger || SomethingReported(x) then Some(ReportJson(x, stamp)) else None
    ensures !x.options.reportTrigger || SomethingReported(x) ==>
              ReadReport(Parse(CString(json)).value) == Some(Selected(x, REPORT_ORDER))
  {
    hide *;
    TextHasNoNul(x, stamp);
    CStringIs(json, ReportText(x, stamp));
    ReportIsWellFormedIff(x, stamp);
    ReportReadsBack(x, stamp);
  }
}
