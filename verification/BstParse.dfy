/**
 The texts of `BstText` parse: a report is one JSON text, and reading it gives back exactly what was
 selected. The one exception, a trigger report without any realm object, is characterised exactly.
 */
module BstParse {
  import opened Wrappers
  import opened Json
  import opened BstData
  import opened BstSelect
  import opened BstText

  // ---------------------------------------------------------------- rendering lists

  /** `body` is a list of items, each ended by a blank and a comma. */
  predicate Renders(body: string, items: seq<Json>) {
    if items == [] then body == ""
    else
      && |body| >= 2
      && body[|body| - 2..] == " ,"
      && Lex(body[..|body| - 2]) == Some(ItemTokens(items))
  }

  /** `text` reads as `j` and does not start with a digit. */
  predicate Reads(text: string, j: Json) {
    text != "" && !IsDigit(text[0]) && Lex(text) == Some(Tokens(j))
  }

  lemma LexAppend(a: string, ta: seq<Token>, b: string, tb: seq<Token>)
    requires Lex(a) == Some(ta) && Lex(b) == Some(tb)
    requires b == "" || !IsDigit(b[0]) || (a != "" && !IsDigit(a[|a| - 1]) && a[|a| - 1] != '-')
    ensures Lex(a + b) == Some(ta + tb)
  {
    hide Lex;
    LexConcat(a, b);
  }

  lemma LexObjectMarks()
    ensures Lex(" { ") == Some([LBrace]) && Lex(": ") == Some([Colon]) && Lex(", ") == Some([Comma])
    ensures Lex(": [") == Some([Colon, LBracket])
  {
    hide Lex;
    LexShortMarks(" { ", [LBrace]);
    LexShortMarks(": ", [Colon]);
    LexShortMarks(", ", [Comma]);
    LexShortMarks(": [", [Colon, LBracket]);
  }

  lemma LexDeviceMarks()
    ensures Lex("{ ") == Some([LBrace]) && Lex(" : ") == Some([Colon]) && Lex(", ") == Some([Comma])
    ensures Lex("}") == Some([RBrace])
  {
    hide Lex;
    LexShortMarks("{ ", [LBrace]);
    LexShortMarks(" : ", [Colon]);
    LexShortMarks(", ", [Comma]);
    LexShortMarks("}", [RBrace]);
  }

  lemma LexRowMarks()
    ensures Lex(" [  ") == Some([LBracket]) && Lex(" , ") == Some([Comma]) && Lex(" ]") == Some([RBracket])
  {
    hide Lex;
    LexShortMarks(" [  ", [LBracket]);
    LexShortMarks(" , ", [Comma]);
    LexShortMarks(" ]", [RBracket]);
  }

  lemma LexListMarks()
    ensures Lex(" ") == Some([]) && Lex(" ,") == Some([Comma]) && Lex("] }") == Some([RBracket, RBrace])
  {
    hide Lex;
    LexShortMarks(" ", []);
    LexShortMarks(" ,", [Comma]);
    LexShortMarks("] }", [RBracket, RBrace]);
  }

  lemma LexKeywords()
    ensures Lex(Quoted("data")) == Some([TStr("data")])
    ensures Lex(Quoted("realm")) == Some([TStr("realm")])
    ensures Lex(Quoted("device")) == Some([TStr("device")])
  {
    hide Lex;
    PlainKeywords();
    LexQuoted("data");
    LexQuoted("realm");
    LexQuoted("device");
  }

  lemma PlainKeywords()
    ensures PlainText("data") && PlainText("realm") && PlainText("device") && PlainText("port")
  {
  }

  /** One more quoted word. */
  lemma LexThenWord(a: string, ta: seq<Token>, word: string)
    requires Lex(a) == Some(ta) && Lex(Quoted(word)) == Some([TStr(word)])
    ensures Lex(a + Quoted(word)) == Some(ta + [TStr(word)])
  {
    hide Lex;
    assert Quoted(word)[0] == '"';
    LexAppend(a, ta, Quoted(word), [TStr(word)]);
  }

  lemma RendersSnoc(body: string, items: seq<Json>, text: string, j: Json)
    requires Renders(body, items) && Reads(text, j)
    ensures Renders(body + (text + " ,"), items + [j])
  {
    hide Lex;
    var all := body + (text + " ,");
    assert all[..|all| - 2] == body + text;
    ItemTokensSnoc(items, j);
    if items == [] {
      assert body + text == text;
    } else {
      var b := body[..|body| - 2];
      LexListMarks();
      LexAppend(b, ItemTokens(items), " ,", [Comma]);
      assert body == b + " ,";
      LexAppend(body, ItemTokens(items) + [Comma], text, Tokens(j));
    }
  }

  /** A text that ends in a blank and a comma, before which it reads as `j`. */
  predicate ReadsListed(text: string, j: Json) {
    |text| >= 2 && text[|text| - 2..] == " ," && Reads(text[..|text| - 2], j)
  }

  lemma RendersListed(body: string, items: seq<Json>, text: string, j: Json)
    requires Renders(body, items) && ReadsListed(text, j)
    ensures Renders(body + text, items + [j])
  {
    hide Lex;
    assert text == text[..|text| - 2] + " ,";
    RendersSnoc(body, items, text[..|text| - 2], j);
  }

  /** A text that does not end in a number. */
  predicate EndsClean(a: string) {
    a != "" && !IsDigit(a[|a| - 1]) && a[|a| - 1] != '-'
  }

  /** Erasing the last separator, whether the list is empty or not, leaves an array to be closed. */
  lemma LexTrimmed(head: string, ts: seq<Token>, body: string, items: seq<Json>)
    requires Lex(head) == Some(ts) && EndsClean(head) && Renders(body, items)
    ensures var t := head + " " + body; Lex(t[..|t| - 1]) == Some(ts + ItemTokens(items))
  {
    hide Lex;
    var t := head + " " + body;
    LexListMarks();
    if items == [] {
      assert t[..|t| - 1] == head;
      assert ts + ItemTokens(items) == ts;
    } else {
      LexTrimmedList(head, ts, body[..|body| - 2], ItemTokens(items));
      assert t[..|t| - 1] == (head + " " + body[..|body| - 2]) + " ";
    }
  }

  lemma LexTrimmedList(head: string, ts: seq<Token>, list: string, tl: seq<Token>)
    requires Lex(head) == Some(ts) && Lex(list) == Some(tl)
    ensures Lex((head + " " + list) + " ") == Some(ts + tl)
    ensures Lex(head + " " + list) == Some(ts + tl)
  {
    hide Lex;
    LexListMarks();
    LexAppend(head, ts, " ", []);
    assert ts + [] == ts;
    LexAppend(head + " ", ts, list, tl);
    LexAppend(head + " " + list, ts + tl, " ", []);
    assert ts + tl + [] == ts + tl;
  }

  /** A closed list without the blank and the comma that end it. */
  function ClosedCore(text: string): string
    requires text != ""
  {
    text[..|text| - 1] + "] }"
  }

  lemma LexClosed(head: string, ts: seq<Token>, body: string, items: seq<Json>)
    requires Lex(head) == Some(ts) && EndsClean(head) && Renders(body, items)
    ensures Closed(head + " " + body) == ClosedCore(head + " " + body) + " ,"
    ensures Lex(ClosedCore(head + " " + body)) == Some(ts + ItemTokens(items) + [RBracket, RBrace])
  {
    hide Lex;
    var t := head + " " + body;
    LexTrimmed(head, ts, body, items);
    LexListMarks();
    LexAppend(t[..|t| - 1], ts + ItemTokens(items), "] }", [RBracket, RBrace]);
    assert "] } ," == "] }" + " ,";
  }

  // ---------------------------------------------------------------- rows

  lemma LexSeparator(r: Realm, j: nat)
    ensures Separator(r, j)[0] == ' ' || Separator(r, j)[0] == ','
    ensures var s := Separator(r, j); s[|s| - 1] == ' ' && Lex(s) == Some([Comma])
  {
    hide Lex;
    LexShortMarks(" , ", [Comma]);
    LexShortMarks(", ", [Comma]);
    LexShortMarks(" ,  ", [Comma]);
  }

  lemma {:induction false} LexColumns(head: string, items: seq<Json>, r: Realm, values: seq<int>, n: nat)
    requires n <= |values| && items != [] && Lex(head) == Some([LBracket] + ItemTokens(items))
    ensures Lex(head + Columns(r, values, n)) == Some([LBracket] + ItemTokens(items + Nums(values[..n])))
  {
    hide *;
    ColumnsForm(head, items, r, values, n);
    if n > 0 {
      LexColumns(head, items, r, values, n - 1);
      LexColumn(head + Columns(r, values, n - 1), items + Nums(values[..n - 1]), r, n - 1, values[n - 1]);
    }
  }

  lemma ColumnsForm(head: string, items: seq<Json>, r: Realm, values: seq<int>, n: nat)
    requires n <= |values| && items != []
    ensures n == 0 ==> head + Columns(r, values, n) == head && items + Nums(values[..n]) == items
    ensures n > 0 ==>
              && head + Columns(r, values, n)
              == head + Columns(r, values, n - 1) + (Separator(r, n - 1) + IntText(values[n - 1]))
              && items + Nums(values[..n]) == items + Nums(values[..n - 1]) + [Num(values[n - 1])]
              && items + Nums(values[..n - 1]) != []
  {
    hide Separator, IntText;
    if n > 0 {
      ConcatAssociative(head, Columns(r, values, n - 1), Separator(r, n - 1) + IntText(values[n - 1]));
      assert Nums(values[..n]) == Nums(values[..n - 1]) + [Num(values[n - 1])];
      ConcatAssociative(items, Nums(values[..n - 1]), [Num(values[n - 1])]);
    }
  }

  lemma LexColumn(before: string, list: seq<Json>, r: Realm, j: nat, v: int)
    requires list != [] && Lex(before) == Some([LBracket] + ItemTokens(list))
    ensures Lex(before + (Separator(r, j) + IntText(v))) == Some([LBracket] + ItemTokens(list + [Num(v)]))
  {
    hide Lex;
    var sep := Separator(r, j);
    LexSeparator(r, j);
    LexInt(v);
    LexAppend(sep, [Comma], IntText(v), [TNum(v)]);
    LexAppend(before, [LBracket] + ItemTokens(list), sep + IntText(v), [Comma] + [TNum(v)]);
    ItemTokensSnoc(list, Num(v));
    assert ([LBracket] + ItemTokens(list)) + ([Comma] + [TNum(v)])
        == [LBracket] + (ItemTokens(list) + [Comma] + [TNum(v)]);
  }

  predicate PlainEntry(e: Entry) {
    e.port.Some? ==> PlainText(e.port.value)
  }

  lemma LexRowIndex(index: nat)
    ensures Lex(" [  " + IntText(index)) == Some([LBracket] + ItemTokens([Num(index)]))
  {
    hide Lex;
    LexRowMarks();
    LexInt(index);
    LexAppend(" [  ", [LBracket], IntText(index), [TNum(index)]);
  }

  lemma LexRowStart(e: Entry)
    requires PlainEntry(e)
    ensures Lex(" [  " + IntText(e.index) + PortColumn(e.port))
         == Some([LBracket] + ItemTokens([Num(e.index)] + PortItem(e.port)))
  {
    hide Lex;
    LexRowIndex(e.index);
    var a, ta := " [  " + IntText(e.index), [LBracket] + ItemTokens([Num(e.index)]);
    match e.port
    case None =>
      assert a + "" == a;
      assert [Num(e.index)] + PortItem(e.port) == [Num(e.index)];
    case Some(name) =>
      LexPortColumn(name);
      LexAppend(a, ta, PortColumn(e.port), [Comma, TStr(name)]);
      ItemTokensSnoc([Num(e.index)], Str(name));
      assert ta + [Comma, TStr(name)] == [LBracket] + (ItemTokens([Num(e.index)]) + [Comma] + [TStr(name)]);
  }

  lemma LexPortColumn(name: string)
    requires PlainText(name)
    ensures PortColumn(Some(name))[0] == ' '
    ensures Lex(PortColumn(Some(name))) == Some([Comma, TStr(name)])
  {
    hide Lex;
    LexRowMarks();
    LexQuoted(name);
    LexThenWord(" , ", [Comma], name);
    assert [Comma] + [TStr(name)] == [Comma, TStr(name)];
  }

  /** A printed row reads as the array of its index, its port if it has one, and its counters. */
  lemma RowReads(r: Realm, e: Entry)
    requires PlainEntry(e)
    ensures Reads(RowCore(r, e), RowJson(e))
  {
    hide Lex;
    var head, items := " [  " + IntText(e.index) + PortColumn(e.port), [Num(e.index)] + PortItem(e.port);
    LexRowStart(e);
    LexColumns(head, items, r, e.values, |e.values|);
    assert e.values[..|e.values|] == e.values;
    LexRowMarks();
    LexAppend(head + Columns(r, e.values, |e.values|), [LBracket] + ItemTokens(items + Nums(e.values)),
              " ]", [RBracket]);
  }

  lemma RowTextIsListed(r: Realm, e: Entry)
    requires Reads(RowCore(r, e), RowJson(e))
    ensures ReadsListed(RowText(r, e), RowJson(e))
  {
    hide Lex, RowCore;
    assert RowText(r, e)[..|RowText(r, e)| - 2] == RowCore(r, e);
  }

  lemma RowsTextSnoc(r: Realm, init: seq<Entry>, last: Entry)
    ensures RowsText(r, init + [last]) == RowsText(r, init) + RowText(r, last)
    ensures RowsJson(init + [last]) == RowsJson(init) + [RowJson(last)]
  {
    assert (init + [last])[..|init|] == init;
  }

  lemma {:induction false} RowsRender(r: Realm, es: seq<Entry>)
    requires forall i | 0 <= i < |es| :: PlainEntry(es[i])
    ensures Renders(RowsText(r, es), RowsJson(es))
  {
    if es == [] {
      assert RowsText(r, es) == "" && RowsJson(es) == [];
    } else {
      hide *;
      var init, last := es[..|es| - 1], es[|es| - 1];
      assert es == init + [last];
      RowsRender(r, init);
      RowReads(r, last);
      RowTextIsListed(r, last);
      RendersListed(RowsText(r, init), RowsJson(init), RowText(r, last), RowJson(last));
      RowsTextSnoc(r, init, last);
    }
  }

  // ---------------------------------------------------------------- objects

  lemma LexObjectHead(key: string, name: string)
    requires PlainText(key) && PlainText(name)
    ensures Lex(ObjectHead(key, name))
         == Some([LBrace, TStr(key), Colon, TStr(name), Comma, TStr("data"), Colon, LBracket])
  {
    hide Lex;
    LexObjectMarks();
    LexKeywords();
    LexQuoted(key);
    LexQuoted(name);
    var t, ts := " { ", [LBrace];
    LexThenWord(t, ts, key);
    t, ts := t + Quoted(key), ts + [TStr(key)];
    LexAppend(t, ts, ": ", [Colon]);
    t, ts := t + ": ", ts + [Colon];
    LexThenWord(t, ts, name);
    t, ts := t + Quoted(name), ts + [TStr(name)];
    LexAppend(t, ts, ", ", [Comma]);
    t, ts := t + ", ", ts + [Comma];
    LexThenWord(t, ts, "data");
    t, ts := t + Quoted("data"), ts + [TStr("data")];
    LexAppend(t, ts, ": [", [Colon, LBracket]);
    assert ts + [Colon, LBracket] == [LBrace, TStr(key), Colon, TStr(name), Comma, TStr("data"), Colon, LBracket];
  }

  lemma ObjectTokens(key: string, name: string, items: seq<Json>)
    ensures Tokens(ObjectJson(key, name, items))
         == [LBrace, TStr(key), Colon, TStr(name), Comma, TStr("data"), Colon, LBracket]
            + ItemTokens(items) + [RBracket, RBrace]
  {
    var m0, m1 := Member(key, Str(name)), Member("data", Arr(items));
    assert [m0, m1][1..] == [m1];
    assert MemberTokens([m1]) == [TStr("data"), Colon] + Tokens(Arr(items));
    assert MemberTokens([m0, m1]) == [TStr(key), Colon] + Tokens(Str(name)) + [Comma] + MemberTokens([m1]);
  }

  /** An object written head first, with its last separator erased, reads as the object. */
  lemma ObjectReads(key: string, name: string, body: string, items: seq<Json>)
    requires PlainText(key) && PlainText(name) && Renders(body, items)
    ensures ReadsListed(Closed(ObjectHead(key, name) + " " + body), ObjectJson(key, name, items))
  {
    hide Lex;
    var head := ObjectHead(key, name);
    var ts := [LBrace, TStr(key), Colon, TStr(name), Comma, TStr("data"), Colon, LBracket];
    LexObjectHead(key, name);
    assert head[|head| - 1] == '[';
    LexClosed(head, ts, body, items);
    ObjectTokens(key, name, items);
    var core := ClosedCore(head + " " + body);
    assert (core + " ,")[..|core|] == core;
    assert core[0] == head[0] == ' ';
  }

  predicate PlainPort(p: PortEntry) {
    PlainText(p.port) && forall i | 0 <= i < |p.entries| :: PlainEntry(p.entries[i])
  }

  lemma PortReads(r: Realm, p: PortEntry)
    requires PlainPort(p)
    ensures ReadsListed(PortText(r, p), PortJson(p))
  {
    hide Lex;
    RowsRender(r, p.entries);
    PlainKeywords();
    ObjectReads("port", p.port, RowsText(r, p.entries), RowsJson(p.entries));
  }

  lemma {:induction false} PortsRender(r: Realm, es: seq<PortEntry>)
    requires forall i | 0 <= i < |es| :: PlainPort(es[i])
    ensures Renders(PortsText(r, es), PortsJson(es))
  {
    if es == [] {
      assert PortsText(r, es) == "" && PortsJson(es) == [];
    } else {
      hide *;
      var init, last := es[..|es| - 1], es[|es| - 1];
      assert es == init + [last];
      PortsRender(r, init);
      PortReads(r, last);
      RendersListed(PortsText(r, init), PortsJson(init), PortText(r, last), PortJson(last));
      PortsTextSnoc(r, init, last);
    }
  }

  predicate PlainRealm(rr: RealmReport) {
    match rr
    case DeviceReport(_) => true
    case FlatReport(_, es) => forall i | 0 <= i < |es| :: PlainEntry(es[i])
    case PortReport(_, ps) => forall i | 0 <= i < |ps| :: PlainPort(ps[i])
  }

  lemma RealmNameIsPlain(r: Realm)
    ensures PlainText(r.Name())
  {
    if r.Egress() {
      EgressNameIsPlain(r);
    }
  }

  lemma EgressNameIsPlain(r: Realm)
    requires r.Egress()
    ensures PlainText(r.Name())
  {
  }

  lemma DeviceReads(value: int)
    ensures Reads(DeviceCore(value), RealmJson(DeviceReport(value)))
  {
    hide Lex;
    LexDeviceMarks();
    LexKeywords();
    LexInt(value);
    var t, ts := "{ ", [LBrace];
    LexThenWord(t, ts, "realm");
    t, ts := t + Quoted("realm"), ts + [TStr("realm")];
    LexAppend(t, ts, " : ", [Colon]);
    t, ts := t + " : ", ts + [Colon];
    LexThenWord(t, ts, "device");
    t, ts := t + Quoted("device"), ts + [TStr("device")];
    LexAppend(t, ts, ", ", [Comma]);
    t, ts := t + ", ", ts + [Comma];
    LexThenWord(t, ts, "data");
    t, ts := t + Quoted("data"), ts + [TStr("data")];
    LexDeviceEnd(t, ts, value);
    assert ts + [Colon, TNum(value), RBrace]
        == [LBrace, TStr("realm"), Colon, TStr("device"), Comma, TStr("data"), Colon, TNum(value), RBrace];
    DeviceTokens(value);
  }

  lemma LexDeviceEnd(t: string, ts: seq<Token>, value: int)
    requires Lex(t) == Some(ts)
    ensures Lex(t + " : " + IntText(value) + "}") == Some(ts + [Colon, TNum(value), RBrace])
  {
    hide Lex;
    LexDeviceMarks();
    LexInt(value);
    LexAppend(t, ts, " : ", [Colon]);
    LexAppend(t + " : ", ts + [Colon], IntText(value), [TNum(value)]);
    LexAppend(t + " : " + IntText(value), ts + [Colon] + [TNum(value)], "}", [RBrace]);
    assert ts + [Colon] + [TNum(value)] + [RBrace] == ts + [Colon, TNum(value), RBrace];
  }

  lemma DeviceTokens(value: int)
    ensures Tokens(RealmJson(DeviceReport(value)))
         == [LBrace, TStr("realm"), Colon, TStr("device"), Comma, TStr("data"), Colon, TNum(value), RBrace]
  {
    var m0, m1 := Member("realm", Str("device")), Member("data", Num(value));
    assert [m0, m1][1..] == [m1];
    assert MemberTokens([m1]) == [TStr("data"), Colon] + Tokens(Num(value));
    assert MemberTokens([m0, m1]) == [TStr("realm"), Colon] + Tokens(Str("device")) + [Comma] + MemberTokens([m1]);
  }

  lemma RealmReads(rr: RealmReport)
    requires PlainRealm(rr)
    ensures ReadsListed(RealmText(rr), RealmJson(rr))
  {
    hide Lex;
    PlainKeywords();
    match rr
    case DeviceReport(value) =>
      DeviceReads(value);
      assert RealmText(rr)[..|RealmText(rr)| - 2] == DeviceCore(value);
    case FlatReport(r, es) =>
      RealmNameIsPlain(r);
      RowsRender(r, es);
      ObjectReads("realm", r.Name(), RowsText(r, es), RowsJson(es));
    case PortReport(r, ps) =>
      RealmNameIsPlain(r);
      PortsRender(r, ps);
      ObjectReads("realm", r.Name(), PortsText(r, ps), PortsJson(ps));
  }

  lemma {:induction false} RealmsRender(rrs: seq<RealmReport>)
    requires forall i | 0 <= i < |rrs| :: PlainRealm(rrs[i])
    ensures Renders(RealmsText(rrs), RealmsJson(rrs))
  {
    if rrs == [] {
      assert RealmsText(rrs) == "" && RealmsJson(rrs) == [];
    } else {
      hide *;
      var init, last := rrs[..|rrs| - 1], rrs[|rrs| - 1];
      assert rrs == init + [last];
      RealmsRender(init);
      RealmReads(last);
      RendersListed(RealmsText(init), RealmsJson(init), RealmText(last), RealmJson(last));
      RealmsTextSnoc(init, last);
    }
  }

  // ---------------------------------------------------------------- the header

  predicate PlainField(f: Field) {
    && PlainText(f.key)
    && (f.colon == ": " || f.colon == " : ")
    && (f.value.Num? || (f.value.Str? && PlainText(f.value.s)))
  }

  /** Nothing that is printed between quotes needs escaping. */
  predicate Plain(x: Context, stamp: Stamp) {
    && (forall p | p in x.notation :: PlainText(x.notation[p]))
    && PlainText(stamp.asicId)
    && PlainText(stamp.time)
    && (x.options.reportTrigger ==> PlainText(x.options.triggerInfo.realm) && PlainText(x.options.triggerInfo.counter))
  }

  lemma LexColon(colon: string)
    requires colon == ": " || colon == " : "
    ensures !IsDigit(colon[0]) && EndsClean(colon) && Lex(colon) == Some([Colon])
  {
    if colon == ": " {
      LexShortMarks(": ", [Colon]);
    } else {
      LexShortMarks(" : ", [Colon]);
    }
  }

  lemma LexScalar(v: Json)
    requires v.Num? || (v.Str? && PlainText(v.s))
    ensures Lex(ScalarText(v)) == Some(Tokens(v))
  {
    hide Lex, IntText, Quoted;
    if v.Num? {
      LexInt(v.n);
    } else {
      LexQuoted(v.s);
    }
  }

  function ScalarText(v: Json): string
    requires v.Num? || v.Str?
  {
    if v.Num? then IntText(v.n) else Quoted(v.s)
  }

  lemma FieldTextForm(f: Field)
    requires f.value.Num? || f.value.Str?
    ensures FieldText(f) == Quoted(f.key) + f.colon + ScalarText(f.value) + "," && FieldText(f)[0] == '"'
  {
    hide IntText;
  }

  lemma PlainFieldParts(f: Field)
    requires PlainField(f)
    ensures PlainText(f.key) && (f.colon == ": " || f.colon == " : ")
    ensures f.value.Num? || (f.value.Str? && PlainText(f.value.s))
  {
    hide PlainText;
  }

  lemma LexComma()
    ensures Lex(",") == Some([Comma])
  {
    LexShortMarks(",", [Comma]);
  }

  lemma LexField(f: Field)
    requires PlainField(f)
    ensures FieldText(f)[0] == '"'
    ensures Lex(FieldText(f)) == Some([TStr(f.key), Colon] + Tokens(f.value) + [Comma])
  {
    hide *;
    PlainFieldParts(f);
    FieldTextForm(f);
    LexQuoted(f.key);
    LexColon(f.colon);
    LexScalar(f.value);
    LexComma();
    LexFieldParts(Quoted(f.key), [TStr(f.key)], f.colon, ScalarText(f.value), Tokens(f.value));
    assert [TStr(f.key)] + [Colon] == [TStr(f.key), Colon];
  }

  lemma LexFieldParts(key: string, tk: seq<Token>, colon: string, v: string, tv: seq<Token>)
    requires Lex(key) == Some(tk) && Lex(v) == Some(tv) && Lex(",") == Some([Comma])
    requires Lex(colon) == Some([Colon]) && EndsClean(colon) && !IsDigit(colon[0])
    ensures Lex(key + colon + v + ",") == Some(tk + [Colon] + tv + [Comma])
  {
    hide Lex;
    LexAppend(key, tk, colon, [Colon]);
    assert EndsClean(key + colon);
    LexAppend(key + colon, tk + [Colon], v, tv);
    LexAppend(key + colon + v, tk + [Colon] + tv, ",", [Comma]);
  }

  lemma FieldsTextSnoc(init: seq<Field>, last: Field)
    requires Scalar(init) && (last.value.Num? || last.value.Str?)
    ensures Scalar(init + [last]) && FieldsText(init + [last]) == FieldsText(init) + FieldText(last)
    ensures ListedMembers(FieldMembers(init + [last]))
         == ListedMembers(FieldMembers(init)) + ([TStr(last.key), Colon] + Tokens(last.value) + [Comma])
  {
    assert (init + [last])[..|init|] == init;
    var ms := FieldMembers(init + [last]);
    assert ms == FieldMembers(init) + [Member(last.key, last.value)];
    assert ms[..|init|] == FieldMembers(init);
  }

  lemma {:induction false} LexFields(fs: seq<Field>)
    requires Scalar(fs) && forall i | 0 <= i < |fs| :: PlainField(fs[i])
    ensures Lex(" { " + FieldsText(fs)) == Some([LBrace] + ListedMembers(FieldMembers(fs)))
  {
    if fs == [] {
      LexObjectMarks();
      assert " { " + FieldsText(fs) == " { ";
      assert [LBrace] + ListedMembers(FieldMembers(fs)) == [LBrace];
    } else {
      var init, last := fs[..|fs| - 1], fs[|fs| - 1];
      assert Scalar(init) && fs == init + [last];
      LexFields(init);
      LexFieldsStep(init, last);
    }
  }

  lemma LexFieldsStep(init: seq<Field>, last: Field)
    requires Scalar(init) && PlainField(last)
    requires Lex(" { " + FieldsText(init)) == Some([LBrace] + ListedMembers(FieldMembers(init)))
    ensures Scalar(init + [last])
    ensures Lex(" { " + FieldsText(init + [last])) == Some([LBrace] + ListedMembers(FieldMembers(init + [last])))
  {
    FieldsTextSnoc(init, last);
    LexField(last);
    var a, ta := " { " + FieldsText(init), [LBrace] + ListedMembers(FieldMembers(init));
    var b, tb := FieldText(last), [TStr(last.key), Colon] + Tokens(last.value) + [Comma];
    hide Lex, FieldText, Tokens, ListedMembers, FieldsText;
    LexAppend(a, ta, b, tb);
    ConcatAssociative(" { ", FieldsText(init), b);
    ConcatAssociative([LBrace], ListedMembers(FieldMembers(init)), tb);
  }

  lemma PlainHeaderWords()
    ensures PlainText("jsonrpc") && PlainText("2.0") && PlainText("method") && PlainText("asic-id")
    ensures PlainText("version") && PlainText("time-stamp")
  {
  }

  lemma PlainMethods()
    ensures PlainText("get-bst-report") && PlainText("get-bst-thresholds") && PlainText("trigger-report")
  {
  }

  lemma PlainIndices()
    ensures PlainText("counter") && PlainText("realm") && PlainText("port") && PlainText("queue")
    ensures PlainText("service-pool") && PlainText("priority-group") && PlainText("queue-group")
  {
  }

  lemma DigitsArePlain(n: nat)
    ensures PlainText(NatText(n))
  {
    assert forall c: char :: IsDigit(c) ==> IsPlain(c);
  }

  lemma CommonFieldsArePlain(methodName: string, stamp: Stamp)
    requires PlainText(methodName) && PlainText(stamp.asicId) && PlainText(stamp.time)
    ensures forall i | 0 <= i < 5 :: PlainField(CommonFields(methodName, stamp)[i])
  {
    PlainHeaderWords();
    DigitsArePlain(JSON_VERSION);
    hide PlainText, NatText;
  }

  lemma IndexFieldIsPlain(x: Context, r: Realm, k: nat)
    requires k < |Indices(r)| && PlainText(PortName(x.notation, x.options.triggerInfo.port))
    ensures PlainField(IndexField(x, Indices(r)[k]))
  {
    PlainIndices();
    hide PlainText;
  }

  lemma PortNameIsPlain(x: Context, stamp: Stamp, p: int)
    requires Plain(x, stamp)
    ensures PlainText(PortName(x.notation, p))
  {
  }

  lemma TriggerFieldsArePlain(x: Context, stamp: Stamp, r: Realm)
    requires Plain(x, stamp) && x.options.reportTrigger
    ensures forall i | 0 <= i < |TriggerFields(x, r)| :: PlainField(TriggerFields(x, r)[i])
  {
    PortNameIsPlain(x, stamp, x.options.triggerInfo.port);
    if |Indices(r)| > 0 {
      IndexFieldIsPlain(x, r, 0);
    }
    if |Indices(r)| > 1 {
      IndexFieldIsPlain(x, r, 1);
    }
    PlainIndices();
    hide PlainText, IndexField, Indices;
  }

  lemma HeadFieldsArePlain(x: Context, stamp: Stamp)
    requires Plain(x, stamp)
    ensures forall i | 0 <= i < |HeadFields(x, stamp)| :: PlainField(HeadFields(x, stamp)[i])
  {
    PlainMethods();
    var o := x.options;
    if o.reportTrigger {
      CommonFieldsArePlain("trigger-report", stamp);
      match RealmOfName(o.triggerInfo.realm)
      case Some(r) => TriggerFieldsArePlain(x, stamp, r);
      case None =>
    } else {
      CommonFieldsArePlain(if o.reportThreshold then "get-bst-thresholds" else "get-bst-report", stamp);
    }
    hide PlainField, CommonFields, TriggerFields, RealmOfName;
  }

  /** The tokens of the header up to the key of the realm list. */
  function HeadTokens(x: Context, stamp: Stamp): seq<Token> {
    [LBrace] + ListedMembers(FieldMembers(HeadFields(x, stamp))) + [TStr("report")]
  }

  lemma LexReportWord()
    ensures Lex(Quoted("report")) == Some([TStr("report")])
  {
    assert PlainText("report");
    LexQuoted("report");
  }

  lemma LexHeadStart(x: Context, stamp: Stamp)
    requires Plain(x, stamp)
    ensures EndsClean(HeadStart(x, stamp)) && Lex(HeadStart(x, stamp)) == Some(HeadTokens(x, stamp))
  {
    HeadFieldsArePlain(x, stamp);
    LexFields(HeadFields(x, stamp));
    LexReportWord();
    hide Lex, HeadFields, FieldsText, FieldMembers, ListedMembers;
    LexThenWord(" { " + FieldsText(HeadFields(x, stamp)),
                [LBrace] + ListedMembers(FieldMembers(HeadFields(x, stamp))), "report");
  }

  // ---------------------------------------------------------------- the whole report

  lemma EntriesArePlain(x: Context, stamp: Stamp, r: Realm, port: nat, n: nat)
    requires x.asic.Valid() && Plain(x, stamp) && r.HasPort(port) && n <= r.Count(x.asic)
    ensures forall k | 0 <= k < |Kept(Cells(x, r, port, n))| :: PlainEntry(Kept(Cells(x, r, port, n))[k])
  {
    var cells := Cells(x, r, port, n);
    forall k | 0 <= k < |Kept(cells)| ensures PlainEntry(Kept(cells)[k]) {
      KeptIsPresent(cells, k);
      var i :| 0 <= i < n && cells[i] == Some(Kept(cells)[k]);
      assert Cell(x, r, port, i) == Some(Kept(cells)[k]);
      assert Kept(cells)[k] == EntryAt(x, r, port, i);
    }
  }

  lemma PortsArePlain(x: Context, stamp: Stamp, r: Realm, n: nat)
    requires x.asic.Valid() && Plain(x, stamp) && r.PerPort() && n <= MAX_PORTS
    ensures forall k | 0 <= k < |Kept(PortObjects(x, r, n))| :: PlainPort(Kept(PortObjects(x, r, n))[k])
  {
    hide *;
    var ports := PortObjects(x, r, n);
    forall k | 0 <= k < |Kept(ports)| ensures PlainPort(Kept(ports)[k]) {
      KeptIsPresent(ports, k);
      var p :| 0 <= p < |ports| && ports[p] == Some(Kept(ports)[k]);
      PortObjectIsPlain(x, stamp, r, n, p);
    }
  }

  lemma PortObjectIsPlain(x: Context, stamp: Stamp, r: Realm, n: nat, p: nat)
    requires x.asic.Valid() && Plain(x, stamp) && r.PerPort() && p < n <= MAX_PORTS
    ensures PortObjects(x, r, n)[p].Some? ==> PlainPort(PortObjects(x, r, n)[p].value)
  {
    PortIsPlain(x, stamp, r, p + 1);
    hide Plain, PlainPort, PortCells, PortName;
    assert PortObjects(x, r, n)[p] == PortObject(PortName(x.notation, p + 1), PortCells(x, r, p + 1));
  }

  lemma PortIsPlain(x: Context, stamp: Stamp, r: Realm, port: nat)
    requires x.asic.Valid() && Plain(x, stamp) && r.PerPort() && 1 <= port <= MAX_PORTS
    ensures PlainPort(PortEntry(PortName(x.notation, port), Kept(PortCells(x, r, port))))
  {
    EntriesArePlain(x, stamp, r, port, r.Count(x.asic));
  }

  lemma ReportIsPlain(x: Context, stamp: Stamp, r: Realm)
    requires x.asic.Valid() && Plain(x, stamp)
    ensures PlainRealm(ReportOf(x, r))
  {
    if r.Device? {
    } else if r.PerPort() {
      PortsArePlain(x, stamp, r, x.asic.numPorts);
    } else {
      EntriesArePlain(x, stamp, r, 0, r.Count(x.asic));
    }
  }

  lemma {:induction false} SelectedArePlain(x: Context, stamp: Stamp, rs: seq<Realm>)
    requires x.asic.Valid() && Plain(x, stamp)
    ensures forall i | 0 <= i < |Selected(x, rs)| :: PlainRealm(Selected(x, rs)[i])
  {
    if rs == [] {
      assert Selected(x, rs) == [];
    } else {
      var init, last := rs[..|rs| - 1], rs[|rs| - 1];
      assert rs == init + [last];
      SelectedArePlain(x, stamp, init);
      SelectedSnoc(x, init, last);
      ReportIsPlain(x, stamp, last);
    }
  }

  /** Some realm object is written. A caller can tell before asking for the report. */
  predicate SomethingReported(x: Context) {
    || (exists r :: r in x.options.included && !r.Device?)
    || (Device in x.options.included && (x.previous.None? || x.previous.value.device != x.current.device))
  }

  lemma {:induction false} SelectedIsEmpty(x: Context, rs: seq<Realm>)
    requires x.asic.Valid()
    ensures Selected(x, rs) == [] <==> forall i | 0 <= i < |rs| :: !Reported(x, rs[i])
  {
    if rs != [] {
      var init, last := rs[..|rs| - 1], rs[|rs| - 1];
      assert rs == init + [last];
      SelectedIsEmpty(x, init);
      SelectedSnoc(x, init, last);
      assert forall i | 0 <= i < |init| :: init[i] == rs[i];
    }
  }

  lemma EveryRealmIsOrdered(r: Realm)
    ensures r in REPORT_ORDER
  {
    assert REPORT_ORDER[0] == Device;
    assert REPORT_ORDER[1] == IngressPortPriorityGroup && REPORT_ORDER[2] == IngressPortServicePool;
    assert REPORT_ORDER[3] == IngressServicePool && REPORT_ORDER[4] == EgressCpuQueue;
    assert REPORT_ORDER[5] == EgressMcQueue && REPORT_ORDER[6] == EgressPortServicePool;
    assert REPORT_ORDER[7] == EgressRqeQueue && REPORT_ORDER[8] == EgressServicePool;
    assert REPORT_ORDER[9] == EgressUcQueue && REPORT_ORDER[10] == EgressUcQueueGroup;
  }

  lemma SomethingReportedMeans(x: Context)
    requires x.asic.Valid()
    ensures SomethingReported(x) <==> Selected(x, REPORT_ORDER) != []
  {
    SelectedIsEmpty(x, REPORT_ORDER);
    if r :| r in x.options.included && Reported(x, r) {
      EveryRealmIsOrdered(r);
      var i :| 0 <= i < |REPORT_ORDER| && REPORT_ORDER[i] == r;
      assert Reported(x, REPORT_ORDER[i]);
    }
  }

  lemma LexListOpening(trigger: bool)
    ensures Lex(if trigger then " : [" else ": [") == Some([Colon, LBracket])
  {
    if trigger {
      LexShortMarks(" : [", [Colon, LBracket]);
    } else {
      LexShortMarks(": [", [Colon, LBracket]);
    }
  }

  /** The header up to and including the bracket of the realm list. */
  function HeadCore(x: Context, stamp: Stamp): string {
    HeadStart(x, stamp) + (if x.options.reportTrigger then " : [" else ": [")
  }

  lemma LexHeadCore(x: Context, stamp: Stamp)
    requires Plain(x, stamp)
    ensures EndsClean(HeadCore(x, stamp))
    ensures Lex(HeadCore(x, stamp)) == Some(HeadTokens(x, stamp) + [Colon, LBracket])
    ensures HeadText(x, stamp) == HeadCore(x, stamp) + (if x.options.reportTrigger then "" else " ")
  {
    hide *;
    LexHeadStart(x, stamp);
    LexListOpening(x.options.reportTrigger);
    HeadCoreForm(x, stamp);
    LexAppend(HeadStart(x, stamp), HeadTokens(x, stamp), if x.options.reportTrigger then " : [" else ": [",
              [Colon, LBracket]);
  }

  lemma HeadCoreForm(x: Context, stamp: Stamp)
    ensures HeadCore(x, stamp) == HeadStart(x, stamp) + (if x.options.reportTrigger then " : [" else ": [")
    ensures var open := if x.options.reportTrigger then " : [" else ": ["; open != "" && !IsDigit(open[0])
    ensures EndsClean(HeadCore(x, stamp))
    ensures HeadText(x, stamp) == HeadCore(x, stamp) + (if x.options.reportTrigger then "" else " ")
  {
    hide HeadStart;
    assert ": [ " == ": [" + " ";
  }

  /** What the finaliser leaves of the text, in the cases in which it erases only separators. */
  lemma LexKeptText(head: string, ts: seq<Token>, gap: string, body: string, items: seq<Json>, back: nat)
    requires Lex(head) == Some(ts) && EndsClean(head) && (gap == "" || gap == " ") && Renders(body, items)
    requires back == 1 || back == 2
    requires items == [] ==> gap == " " && back == 1
    ensures var t := head + gap + body; Lex(t[..|t| - back]) == Some(ts + ItemTokens(items))
  {
    hide Lex;
    var t := head + gap + body;
    LexListMarks();
    if items == [] {
      assert t[..|t| - back] == head;
      assert ts + ItemTokens(items) == ts;
    } else {
      var b, tb := body[..|body| - 2], ItemTokens(items);
      if gap == "" {
        assert head + gap == head;
      } else {
        LexAppend(head, ts, " ", []);
        assert ts + [] == ts;
      }
      assert EndsClean(head + gap);
      LexAppend(head + gap, ts, b, tb);
      LexAppend(head + gap + b, ts + tb, " ", []);
      assert ts + tb + [] == ts + tb;
      assert back == 1 ==> t[..|t| - back] == (head + gap + b) + " ";
      assert back == 2 ==> t[..|t| - back] == head + gap + b;
    }
  }

  lemma ReportTokens(x: Context, stamp: Stamp)
    requires x.asic.Valid()
    ensures Tokens(ReportJson(x, stamp))
         == HeadTokens(x, stamp) + [Colon, LBracket] + ItemTokens(RealmsJson(Selected(x, REPORT_ORDER)))
            + [RBracket, RBrace]
  {
    ObjectOfListTokens(FieldMembers(HeadFields(x, stamp)), RealmsJson(Selected(x, REPORT_ORDER)));
  }

  lemma ObjectOfListTokens(ms: seq<Member>, items: seq<Json>)
    ensures Tokens(Obj(ms + [Member("report", Arr(items))]))
         == [LBrace] + ListedMembers(ms) + [TStr("report")] + [Colon, LBracket] + ItemTokens(items) + [RBracket, RBrace]
  {
    hide *;
    var last := Member("report", Arr(items));
    MemberTokensSnoc(ms, last);
    ListedIsMemberTokens(ms);
    TokensOfParts(ms + [last], items);
    if ms == [] {
      assert [] + ([TStr("report"), Colon] + Tokens(Arr(items))) == [TStr("report"), Colon] + Tokens(Arr(items));
    }
    TokensRegroup(ListedMembers(ms), ItemTokens(items));
  }

  lemma TokensOfParts(ms: seq<Member>, items: seq<Json>)
    ensures Tokens(Obj(ms)) == [LBrace] + MemberTokens(ms) + [RBrace]
    ensures Tokens(Arr(items)) == [LBracket] + ItemTokens(items) + [RBracket]
  {
  }

  lemma TokensRegroup(a: seq<Token>, b: seq<Token>)
    ensures [LBrace] + (a + ([TStr("report"), Colon] + ([LBracket] + b + [RBracket]))) + [RBrace]
         == [LBrace] + a + [TStr("report")] + [Colon, LBracket] + b + [RBracket, RBrace]
  {
    var w := TStr("report");
    assert [w, Colon] + [LBracket] == [w] + [Colon, LBracket];
  }

  function Gap(x: Context): string {
    if x.options.reportTrigger then "" else " "
  }

  /** The text that the finaliser starts from, cut where it starts to write. */
  function KeptText(x: Context, stamp: Stamp): string
    requires x.asic.Valid()
  {
    var t := HeadCore(x, stamp) + Gap(x) + BodyText(x);
    t[..|t| - Backstep(x)]
  }

  lemma ReportTextForm(x: Context, stamp: Stamp)
    requires x.asic.Valid() && Plain(x, stamp)
    ensures ReportText(x, stamp) == KeptText(x, stamp) + " ] } "
  {
    HeadCoreForm(x, stamp);
    hide HeadCore, HeadText, BodyText, Plain, Backstep;
  }

  lemma ReportBody(x: Context, stamp: Stamp)
    requires x.asic.Valid() && Plain(x, stamp)
    ensures Renders(BodyText(x), RealmsJson(Selected(x, REPORT_ORDER)))
    ensures Backstep(x) == 1 || Backstep(x) == 2
    ensures RealmsJson(Selected(x, REPORT_ORDER)) == [] ==> !SomethingReported(x) && Backstep(x) == 1
  {
    var selected := Selected(x, REPORT_ORDER);
    SomethingReportedMeans(x);
    SelectedArePlain(x, stamp, REPORT_ORDER);
    RealmsRender(selected);
    assert |RealmsJson(selected)| == |selected|;
    hide Lex, Selected, RealmsText, Renders, Plain;
  }

  lemma GapKinds(x: Context)
    ensures Gap(x) == "" || Gap(x) == " "
    ensures !x.options.reportTrigger ==> Gap(x) == " "
  {
  }

  lemma LexKeptReport(x: Context, stamp: Stamp)
    requires x.asic.Valid() && Plain(x, stamp) && (!x.options.reportTrigger || SomethingReported(x))
    ensures Lex(KeptText(x, stamp))
         == Some(HeadTokens(x, stamp) + [Colon, LBracket] + ItemTokens(RealmsJson(Selected(x, REPORT_ORDER))))
  {
    hide *;
    var items := RealmsJson(Selected(x, REPORT_ORDER));
    ReportBody(x, stamp);
    LexHeadCore(x, stamp);
    GapKinds(x);
    LexKeptText(HeadCore(x, stamp), HeadTokens(x, stamp) + [Colon, LBracket], Gap(x), BodyText(x), items, Backstep(x));
    KeptTextForm(x, stamp);
  }

  lemma KeptTextForm(x: Context, stamp: Stamp)
    requires x.asic.Valid()
    ensures var t := HeadCore(x, stamp) + Gap(x) + BodyText(x); KeptText(x, stamp) == t[..|t| - Backstep(x)]
  {
  }

  /** Every report that is not a trigger report, and every trigger report with a realm object, is one JSON text. */
  lemma ReportParses(x: Context, stamp: Stamp)
    requires x.asic.Valid() && Plain(x, stamp)
    requires !x.options.reportTrigger || SomethingReported(x)
    ensures Lex(ReportText(x, stamp)).Some?
    ensures Parse(ReportText(x, stamp)) == Some(ReportJson(x, stamp))
  {
    var kept := HeadTokens(x, stamp) + [Colon, LBracket] + ItemTokens(RealmsJson(Selected(x, REPORT_ORDER)));
    LexReportEnd();
    hide *;
    ReportTextForm(x, stamp);
    LexKeptReport(x, stamp);
    LexThenReportEnd(KeptText(x, stamp), kept);
    ReportTokens(x, stamp);
    ParseOfTokens(ReportText(x, stamp), ReportJson(x, stamp));
  }

  lemma LexReportEnd()
    ensures Lex(" ] } ") == Some([RBracket, RBrace])
  {
    LexShortMarks(" ] } ", [RBracket, RBrace]);
  }

  lemma LexThenReportEnd(t: string, ts: seq<Token>)
    requires Lex(t) == Some(ts)
    ensures Lex(t + " ] } ") == Some(ts + [RBracket, RBrace])
  {
    LexReportEnd();
    hide Lex;
    LexAppend(t, ts, " ] } ", [RBracket, RBrace]);
  }

  // ---------------------------------------------------------------- the exception

  /** A trigger report without realm objects has lost the bracket that opens its list. */
  lemma EmptyTriggerReportText(x: Context, stamp: Stamp)
    requires x.asic.Valid() && x.options.reportTrigger && !SomethingReported(x)
    ensures ReportText(x, stamp) == HeadStart(x, stamp) + " : " + " ] } "
  {
    hide *;
    EmptyBody(x);
    TriggerReportText(x, stamp);
    assert (HeadStart(x, stamp) + " : [" + "")[..|HeadStart(x, stamp)| + 3] == HeadStart(x, stamp) + " : ";
  }

  lemma TriggerReportText(x: Context, stamp: Stamp)
    requires x.asic.Valid() && x.options.reportTrigger
    ensures var t := HeadStart(x, stamp) + " : [" + BodyText(x);
            |t| >= Backstep(x) && ReportText(x, stamp) == t[..|t| - Backstep(x)] + " ] } "
  {
    hide BodyText, HeadStart;
  }

  lemma EmptyBody(x: Context)
    requires x.asic.Valid() && !SomethingReported(x)
    ensures BodyText(x) == "" && Backstep(x) == 1
  {
    SomethingReportedMeans(x);
    hide Selected;
  }

  lemma LexEmptyTriggerReport(x: Context, stamp: Stamp)
    requires x.asic.Valid() && Plain(x, stamp) && x.options.reportTrigger && !SomethingReported(x)
    ensures Lex(ReportText(x, stamp)) == Some(HeadTokens(x, stamp) + [Colon] + [RBracket, RBrace])
  {
    hide *;
    EmptyTriggerReportText(x, stamp);
    LexHeadStart(x, stamp);
    LexSpacedColon(HeadStart(x, stamp), HeadTokens(x, stamp));
    LexThenReportEnd(HeadStart(x, stamp) + " : ", HeadTokens(x, stamp) + [Colon]);
  }

  lemma LexSpacedColon(t: string, ts: seq<Token>)
    requires Lex(t) == Some(ts)
    ensures Lex(t + " : ") == Some(ts + [Colon])
  {
    LexShortMarks(" : ", [Colon]);
    hide Lex;
    LexAppend(t, ts, " : ", [Colon]);
  }

  lemma BracketlessListFails(ms: seq<Member>)
    requires ms != []
    ensures Value([LBrace] + ListedMembers(ms) + [TStr("report")] + [Colon] + [RBracket, RBrace]) == Fail
  {
    var bad := [TStr("report"), Colon, RBracket, RBrace];
    var ts := [LBrace] + ListedMembers(ms) + [TStr("report")] + [Colon] + [RBracket, RBrace];
    ListedIsMemberTokens(ms);
    assert bad[2..] == [RBracket, RBrace];
    assert Members(bad) == Fail;
    MembersFailLater(ms, bad);
    assert ts == [LBrace] + (MemberTokens(ms) + ([Comma] + bad));
    DropPrefix([LBrace], MemberTokens(ms) + ([Comma] + bad));
    assert MemberTokens(ms)[0] == TStr(ms[0].key);
  }

  lemma EmptyTriggerReportFails(x: Context, stamp: Stamp)
    requires x.asic.Valid() && Plain(x, stamp) && x.options.reportTrigger && !SomethingReported(x)
    ensures Parse(ReportText(x, stamp)) == None
  {
    LexEmptyTriggerReport(x, stamp);
    assert FieldMembers(HeadFields(x, stamp)) != [];
    BracketlessListFails(FieldMembers(HeadFields(x, stamp)));
  }

  /**
   A report is well-formed if and only if it is not a trigger report or has a realm object to write:
   a collection realm is included, or the device realm is included and its count is new.
   */
  lemma ReportIsWellFormedIff(x: Context, stamp: Stamp)
    requires x.asic.Valid() && Plain(x, stamp)
    ensures Parse(ReportText(x, stamp))
         == if !x.options.reportTrigger || SomethingReported(x) then Some(ReportJson(x, stamp)) else None
  {
    if !x.options.reportTrigger || SomethingReported(x) {
      ReportParses(x, stamp);
    } else {
      EmptyTriggerReportFails(x, stamp);
    }
  }

  /** Options of a trigger report that includes no realm. */
  const NO_REALM := Options({}, false, false, false, true, true, TriggerInfo("device", "data", 0, 0), true)

  /** Such reports exist, whatever the counters are: the trigger report that includes no realm. */
  lemma MalformedReportExists(s: Snapshot, asic: Capabilities)
    requires asic.Valid()
    ensures Parse(ReportText(Context(None, s, NO_REALM, asic, map[], s), Stamp("1", "now"))) == None
  {
    var x, stamp := Context(None, s, NO_REALM, asic, map[], s), Stamp("1", "now");
    assert PlainText("device") && PlainText("data") && PlainText("1") && PlainText("now");
    hide ReportText, Parse, PlainText;
    EmptyTriggerReportFails(x, stamp);
  }

  // ---------------------------------------------------------------- reading a report back

  /** `f` of every item, if it succeeds on all of them. */
  function ReadAll<T>(f: Json -> Option<T>, items: seq<Json>): Option<seq<T>> {
    if items == [] then Some([])
    else
      match (ReadAll(f, items[..|items| - 1]), f(items[|items| - 1]))
      case (Some(ts), Some(t)) => Some(ts + [t])
      case _ => None
  }

  function ReadNum(j: Json): Option<int> {
    if j.Num? then Some(j.n) else None
  }

  function ReadRow(j: Json): Option<Entry> {
    if !j.Arr? || |j.items| == 0 || !j.items[0].Num? || j.items[0].n < 0 then None
    else
      var named := |j.items| > 1 && j.items[1].Str?;
      match ReadAll(ReadNum, j.items[if named then 2 else 1..])
      case None => None
      case Some(values) => Some(Entry(j.items[0].n, if named then Some(j.items[1].s) else None, values))
  }

  function ReadPort(j: Json): Option<PortEntry> {
    if !j.Obj? || |j.members| != 2 || !j.members[0].value.Str? || !j.members[1].value.Arr? then None
    else
      match ReadAll(ReadRow, j.members[1].value.items)
      case None => None
      case Some(es) => Some(PortEntry(j.members[0].value.s, es))
  }

  function ReadRealm(j: Json): Option<RealmReport> {
    if !j.Obj? || |j.members| != 2 || !j.members[0].value.Str? then None
    else
      var data := j.members[1].value;
      match RealmOfName(j.members[0].value.s)
      case None => None
      case Some(Device) => if data.Num? then Some(DeviceReport(data.n)) else None
      case Some(r) =>
        if !data.Arr? then None
        else if r.PerPort() then
          (match ReadAll(ReadPort, data.items)
           case None => None
           case Some(ps) => Some(PortReport(r, ps)))
        else
          (match ReadAll(ReadRow, data.items)
           case None => None
           case Some(es) => Some(FlatReport(r, es)))
  }

  /** The realm objects of a report, from its JSON value. */
  function ReadReport(j: Json): Option<seq<RealmReport>> {
    if !j.Obj? || j.members == [] || !j.members[|j.members| - 1].value.Arr? then None
    else ReadAll(ReadRealm, j.members[|j.members| - 1].value.items)
  }

  lemma {:induction false} ReadAllInverts<T>(f: Json -> Option<T>, ts: seq<T>, items: seq<Json>)
    requires |ts| == |items| && forall i | 0 <= i < |ts| :: f(items[i]) == Some(ts[i])
    ensures ReadAll(f, items) == Some(ts)
  {
    if ts != [] {
      var n := |ts| - 1;
      ReadAllInverts(f, ts[..n], items[..n]);
      assert ts[..n] + [ts[n]] == ts;
    }
  }

  lemma RowReadsBack(e: Entry)
    ensures ReadRow(RowJson(e)) == Some(e)
  {
    RowItems(e);
    NumsReadBack(e.values);
    hide Nums, PortItem, ReadAll;
  }

  lemma RowItems(e: Entry)
    ensures (var items := [Num(e.index)] + PortItem(e.port) + Nums(e.values);
             && RowJson(e) == Arr(items)
             && |items| > 0
             && items[0] == Num(e.index)
             && (|items| > 1 && items[1].Str? <==> e.port.Some?)
             && (e.port.Some? ==> items[1].s == e.port.value && items[2..] == Nums(e.values))
             && (e.port.None? ==> items[1..] == Nums(e.values)))
  {
    var items := [Num(e.index)] + PortItem(e.port) + Nums(e.values);
    if e.port.None? {
      assert items[1..] == Nums(e.values);
      assert |items| > 1 ==> items[1] == Nums(e.values)[0];
    } else {
      assert items[2..] == Nums(e.values);
    }
  }

  lemma NumsReadBack(values: seq<int>)
    ensures ReadAll(ReadNum, Nums(values)) == Some(values)
  {
    ReadAllInverts(ReadNum, values, Nums(values));
  }

  lemma RowsReadBack(es: seq<Entry>)
    ensures ReadAll(ReadRow, RowsJson(es)) == Some(es)
  {
    forall i | 0 <= i < |es| ensures ReadRow(RowsJson(es)[i]) == Some(es[i]) {
      RowReadsBack(es[i]);
    }
    ReadAllInverts(ReadRow, es, RowsJson(es));
  }

  lemma PortReadsBack(p: PortEntry)
    ensures ReadPort(PortJson(p)) == Some(p)
  {
    RowsReadBack(p.entries);
  }

  lemma PortsReadBack(ps: seq<PortEntry>)
    ensures ReadAll(ReadPort, PortsJson(ps)) == Some(ps)
  {
    forall i | 0 <= i < |ps| ensures ReadPort(PortsJson(ps)[i]) == Some(ps[i]) {
      PortReadsBack(ps[i]);
    }
    ReadAllInverts(ReadPort, ps, PortsJson(ps));
  }

  /** Realm names are different, so a name determines its realm. */
  lemma RealmOfNameInverts(r: Realm)
    ensures RealmOfName(r.Name()) == Some(r)
  {
  }

  predicate Shaped(rr: RealmReport) {
    match rr
    case DeviceReport(_) => true
    case FlatReport(r, _) => !r.Device? && !r.PerPort()
    case PortReport(r, _) => r.PerPort()
  }

  lemma RealmReadsBack(rr: RealmReport)
    requires Shaped(rr)
    ensures ReadRealm(RealmJson(rr)) == Some(rr)
  {
    match rr
    case DeviceReport(_) => RealmOfNameInverts(Device);
    case FlatReport(r, es) =>
      RealmOfNameInverts(r);
      RowsReadBack(es);
    case PortReport(r, ps) =>
      RealmOfNameInverts(r);
      PortsReadBack(ps);
  }

  lemma {:induction false} SelectedAreShaped(x: Context, rs: seq<Realm>)
    requires x.asic.Valid()
    ensures forall i | 0 <= i < |Selected(x, rs)| :: Shaped(Selected(x, rs)[i])
  {
    if rs == [] {
      assert Selected(x, rs) == [];
    } else {
      var init, last := rs[..|rs| - 1], rs[|rs| - 1];
      assert rs == init + [last];
      SelectedAreShaped(x, init);
      SelectedSnoc(x, init, last);
    }
  }

  /** Reading a report's value gives exactly the realms and rows that the encoder selected. */
  lemma ReportReadsBack(x: Context, stamp: Stamp)
    requires x.asic.Valid()
    ensures ReadReport(ReportJson(x, stamp)) == Some(Selected(x, REPORT_ORDER))
  {
    var rrs := Selected(x, REPORT_ORDER);
    SelectedAreShaped(x, REPORT_ORDER);
    forall i | 0 <= i < |rrs| ensures ReadRealm(RealmsJson(rrs)[i]) == Some(rrs[i]) {
      RealmReadsBack(rrs[i]);
    }
    ReadAllInverts(ReadRealm, rrs, RealmsJson(rrs));
  }
}
