/** Build, concatenate, cut into chunks, frame, parse: the original fields come back. */
module RoundTrip {
  import opened Text
  import opened FixMessage
  import opened FixScanner
  import opened FieldMeaning
  import opened Framing
  import opened Checksum
  import opened FixEncoding
  import opened MsgParser
  import opened RcvBuf
  import opened ReceiveRuns

  /** The fields handed to one builder. */
  datatype Outgoing = Outgoing(version: string, fields: seq<NumberedField>)

  function Wire(o: Outgoing): string {
    Encode(o.version, BodyText(o.fields))
  }

  function Wires(os: seq<Outgoing>): (ws: seq<string>)
    ensures |ws| == |os|
    ensures forall i :: 0 <= i < |os| ==> ws[i] == Wire(os[i])
  {
    seq(|os|, i requires 0 <= i < |os| => Wire(os[i]))
  }

  /** A field the parser keeps under its own tag. */
  predicate Keepable(f: NumberedField) {
    && f.value != "" && Find(f.value, 0, SOH) == |f.value|
    && f.tag < MAX_TAG_NUM && !IsEntryTag(f.tag)
    && f.tag != BEGIN_STRING && f.tag != BODY_LENGTH && f.tag != CHECK_SUM
  }

  /** Every ordinary field is one. */
  lemma OrdinaryFields(f: NumberedField)
    requires f.value != "" && forall i :: 0 <= i < |f.value| ==> f.value[i] != SOH
    ensures Keepable(f) <==> f.tag < 9068 && f.tag !in {8, 9, 10, 269, 270, 271, 278, 279}
  {
    FindUnique(f.value, 0, SOH, |f.value|);
  }

  /** A message the parser accepts. */
  ghost predicate Readable(o: Outgoing) {
    && o.version != "" && Find(o.version, 0, SOH) == |o.version|
    && (forall i :: 0 <= i < |o.fields| ==> Keepable(o.fields[i]))
  }

  ghost predicate AllReadable(os: seq<Outgoing>) {
    forall i :: 0 <= i < |os| ==> Readable(os[i])
  }

  // ---------- the symbols of a security list response ----------

  predicate IsListField(f: NumberedField) {
    f.tag == MSG_TYPE && f.value != "" && f.value[0] == SECURITY_LIST_RESPONSE
  }

  predicate ListAfterField(list: bool, f: NumberedField) {
    if f.tag == MSG_TYPE then IsListField(f) else list
  }

  /** The fields that stay fields ... */
  function KeptFields(fs: seq<NumberedField>, list: bool): seq<NumberedField>
    decreases |fs|
  {
    if fs == [] then []
    else
      var rest := KeptFields(fs[1..], ListAfterField(list, fs[0]));
      if list && fs[0].tag == SYMBOL then rest else [fs[0]] + rest
  }

  /** ... and the Symbols that go to the list of securities instead. */
  function ListedSymbols(fs: seq<NumberedField>, list: bool): seq<string>
    decreases |fs|
  {
    if fs == [] then []
    else
      var rest := ListedSymbols(fs[1..], ListAfterField(list, fs[0]));
      if list && fs[0].tag == SYMBOL then [fs[0].value] + rest else rest
  }

  /** The value of the last field with tag t. */
  function LastOf(fs: seq<NumberedField>, t: nat): Option<string>
    decreases |fs|
  {
    if fs == [] then None
    else
      var r := LastOf(fs[1..], t);
      if r.None? && fs[0].tag == t then Some(fs[0].value) else r
  }

  /** What a receiver is to find under tag t: the header and trailer fields, or the last of `fs`. */
  function ExpectedOf(o: Outgoing, fs: seq<NumberedField>, t: nat): Option<string> {
    var body := BodyText(o.fields);
    if t == BEGIN_STRING then Some(o.version)
    else if t == BODY_LENGTH then Some(Dec(|body|))
    else if t == CHECK_SUM then Some(ZeroPad(3, CheckSum(Header(o.version, |body|) + body)))
    else LastOf(fs, t)
  }

  /** The message has the expected value under tag t, or none. */
  predicate FieldRecovered(m: Msg, o: Outgoing, fs: seq<NumberedField>, t: nat) {
    && (t in m.available <==> ExpectedOf(o, fs, t).Some?)
    && (ExpectedOf(o, fs, t).Some? ==> t in m.fields && m.fields[t] == ExpectedOf(o, fs, t).value)
  }

  /** The message has exactly the fields of o. */
  ghost predicate Recovers(m: Msg, o: Outgoing) {
    forall t: nat :: FieldRecovered(m, o, o.fields, t)
  }

  /** What arrives in any case: the fields but the listed Symbols, and those in the list. */
  ghost predicate Arrives(m: Msg, o: Outgoing) {
    && m.securities == ListedSymbols(o.fields, false)
    && forall t: nat :: FieldRecovered(m, o, KeptFields(o.fields, false), t)
  }

  /** The last Symbol, if any, is a field that is kept. */
  predicate SymbolKept(o: Outgoing) {
    LastOf(KeptFields(o.fields, false), SYMBOL) == LastOf(o.fields, SYMBOL)
  }

  // ---------- one message ----------

  lemma {:induction false} LastValueAppend(a: seq<Item>, b: seq<Item>, t: nat)
    ensures LastValue(a + b, t) == if LastValue(b, t).Some? then LastValue(b, t) else LastValue(a, t)
    decreases |a|
  {
    if a == [] {
      Unit(b);
    } else {
      assert (a + b)[1..] == a[1..] + b;
      LastValueAppend(a[1..], b, t);
    }
  }

  lemma {:induction false} LastValueOfFields(fs: seq<NumberedField>, t: nat)
    ensures LastValue(ToItems(fs), t) == LastOf(fs, t)
    decreases |fs|
  {
    if fs != [] {
      assert ToItems(fs)[1..] == ToItems(fs[1..]);
      ParseDec(fs[0].tag);
      LastValueOfFields(fs[1..], t);
    }
  }

  lemma LastValueOne(tag: nat, value: string, t: nat)
    ensures LastValue([ToItem(Field(tag, value))], t) == if tag == t then Some(value) else None
  {
    ParseDec(tag);
    assert [ToItem(Field(tag, value))][1..] == [];
  }

  lemma {:induction false} KeptIsKeepable(fs: seq<NumberedField>, list: bool, t: nat)
    requires forall i :: 0 <= i < |fs| ==> Keepable(fs[i])
    ensures t == BEGIN_STRING || t == BODY_LENGTH || t == CHECK_SUM ==> LastOf(KeptFields(fs, list), t).None?
    decreases |fs|
  {
    if fs != [] {
      assert Keepable(fs[0]);
      KeptIsKeepable(fs[1..], ListAfterField(list, fs[0]), t);
      LastOfCons(fs[0], KeptFields(fs[1..], ListAfterField(list, fs[0])), t);
    }
  }

  lemma LastOfCons(f: NumberedField, fs: seq<NumberedField>, t: nat)
    ensures LastOf([f] + fs, t) == if LastOf(fs, t).None? && f.tag == t then Some(f.value) else LastOf(fs, t)
  {
    assert ([f] + fs)[1..] == fs;
  }

  lemma FieldTags(f: NumberedField)
    ensures HasTag(ToItem(f), f.tag) && forall t: nat :: HasTag(ToItem(f), t) ==> t == f.tag
    ensures Refusable(ToItem(f)) <==> f.value == "" || f.tag >= MAX_TAG_NUM
    ensures Plain(ToItem(f)) <==> !IsEntryTag(f.tag)
    ensures StartsWith(ToItem(f), SECURITY_LIST_RESPONSE) <==> f.value != "" && f.value[0] == SECURITY_LIST_RESPONSE
  {
    ParseDec(f.tag);
  }

  lemma ToItemsCons(f: NumberedField, fs: seq<NumberedField>)
    ensures ToItems([f] + fs) == [ToItem(f)] + ToItems(fs)
  {
  }

  /** Keeping fields and keeping items is the same. */
  lemma {:induction false} KeptToItems(fs: seq<NumberedField>, list: bool)
    ensures Kept(ToItems(fs), list) == ToItems(KeptFields(fs, list))
    ensures Collected(ToItems(fs), list) == ListedSymbols(fs, list)
    decreases |fs|
  {
    if fs != [] {
      var f, rest := fs[0], fs[1..];
      FieldTags(f);
      assert ToItems(fs)[1..] == ToItems(rest);
      KeptToItems(rest, ListAfterField(list, f));
      ToItemsCons(f, KeptFields(rest, ListAfterField(list, f)));
    }
  }

  lemma KeptCons(it: Item, items: seq<Item>, list: bool)
    requires !HasTag(it, SYMBOL) && !HasTag(it, MSG_TYPE)
    ensures Kept([it] + items, list) == [it] + Kept(items, list)
    ensures Collected([it] + items, list) == Collected(items, list)
  {
    assert ([it] + items)[1..] == items;
  }

  lemma {:induction false} KeptSnoc(items: seq<Item>, it: Item, list: bool)
    requires !HasTag(it, SYMBOL)
    ensures Kept(items + [it], list) == Kept(items, list) + [it]
    ensures Collected(items + [it], list) == Collected(items, list)
    decreases |items|
  {
    if items == [] {
      Unit([it]);
      assert [it][1..] == [];
    } else {
      assert (items + [it])[1..] == items[1..] + [it];
      var after := ListAfter(list, items[0]);
      KeptSnoc(items[1..], it, after);
      Assoc([items[0]], Kept(items[1..], after), [it]);
    }
  }

  /** Header and trailer are always kept. */
  lemma KeptOfMessage(o: Outgoing)
    ensures var body := BodyText(o.fields);
            var items := MessageItems(o.version, o.fields);
            && Kept(items, false) == HeadItems(o.version, |body|) + ToItems(KeptFields(o.fields, false))
            + [LastItem(o.version, body)]
            && Collected(items, false) == ListedSymbols(o.fields, false)
  {
    var body := BodyText(o.fields);
    var head, mid, last := HeadItems(o.version, |body|), ToItems(o.fields), LastItem(o.version, body);
    var a, b := head[0], head[1];
    FieldTags(Field(BEGIN_STRING, o.version));
    FieldTags(Field(BODY_LENGTH, Dec(|body|)));
    FieldTags(Field(CHECK_SUM, ZeroPad(3, CheckSum(Header(o.version, |body|) + body))));
    KeptSnoc(head + mid, last, false);
    KeptToItems(o.fields, false);
    KeptHead(a, b, mid);
    assert head == [a, b];
  }

  lemma KeptHead(a: Item, b: Item, mid: seq<Item>)
    requires !HasTag(a, SYMBOL) && !HasTag(a, MSG_TYPE) && !HasTag(b, SYMBOL) && !HasTag(b, MSG_TYPE)
    ensures Kept([a, b] + mid, false) == [a, b] + Kept(mid, false)
    ensures Collected([a, b] + mid, false) == Collected(mid, false)
  {
    assert [a, b] + mid == [a] + ([b] + mid);
    KeptCons(a, [b] + mid, false);
    KeptCons(b, mid, false);
  }

  lemma LastValueOfMessage(o: Outgoing, t: nat)
    requires Readable(o)
    ensures LastValue(Kept(MessageItems(o.version, o.fields), false), t)
         == ExpectedOf(o, KeptFields(o.fields, false), t)
  {
    var body, kept := BodyText(o.fields), KeptFields(o.fields, false);
    var head, mid := HeadItems(o.version, |body|), ToItems(kept);
    var a, b := head[0], head[1];
    var c := ZeroPad(3, CheckSum(Header(o.version, |body|) + body));
    KeptOfMessage(o);
    LastValueAppend(head + mid, [LastItem(o.version, body)], t);
    LastValueAppend(head, mid, t);
    assert head == [a] + [b];
    LastValueAppend([a], [b], t);
    LastValueOne(BEGIN_STRING, o.version, t);
    LastValueOne(BODY_LENGTH, Dec(|body|), t);
    LastValueOne(CHECK_SUM, c, t);
    LastValueOfFields(kept, t);
    KeptIsKeepable(o.fields, false, t);
  }

  lemma FieldsArePlain(fs: seq<NumberedField>)
    requires forall i :: 0 <= i < |fs| ==> !IsEntryTag(fs[i].tag)
    ensures AllPlain(ToItems(fs))
    ensures NoneRefusable(ToItems(fs)) <==> forall i :: 0 <= i < |fs| ==> fs[i].value != "" && fs[i].tag < MAX_TAG_NUM
  {
    forall i | 0 <= i < |fs|
      ensures Plain(ToItems(fs)[i])
      ensures Refusable(ToItems(fs)[i]) <==> fs[i].value == "" || fs[i].tag >= MAX_TAG_NUM
    {
      FieldTags(fs[i]);
    }
  }

  lemma PlainAppend(a: seq<Item>, b: seq<Item>)
    ensures AllPlain(a + b) <==> AllPlain(a) && AllPlain(b)
    ensures NoneRefusable(a + b) <==> NoneRefusable(a) && NoneRefusable(b)
  {
    var s := a + b;
    assert forall i :: 0 <= i < |a| ==> a[i] == s[i];
    assert forall i :: 0 <= i < |b| ==> b[i] == s[i + |a|];
  }

  /** The items of a message with ordinary tags are plain, and they are refusable exactly when the
      version or a value is empty or a tag is too large. */
  lemma MessageIsPlain(o: Outgoing)
    requires forall i :: 0 <= i < |o.fields| ==> !IsEntryTag(o.fields[i].tag)
    ensures AllPlain(MessageItems(o.version, o.fields))
    ensures NoneRefusable(MessageItems(o.version, o.fields)) <==>
              && o.version != ""
              && forall i :: 0 <= i < |o.fields| ==> o.fields[i].value != "" && o.fields[i].tag < MAX_TAG_NUM
  {
    var body := BodyText(o.fields);
    var head, last := HeadItems(o.version, |body|), LastItem(o.version, body);
    CheckSumDigits(CheckSum(Header(o.version, |body|) + body));
    FieldsArePlain([Field(BEGIN_STRING, o.version), Field(BODY_LENGTH, Dec(|body|))]);
    FieldsArePlain([Field(CHECK_SUM, ZeroPad(3, CheckSum(Header(o.version, |body|) + body)))]);
    HeadFromFields(o.version, |body|);
    LastFromField(o.version, body);
    FieldsArePlain(o.fields);
    PlainAppend(head, ToItems(o.fields));
    PlainAppend(head + ToItems(o.fields), [last]);
  }

  lemma HeadFromFields(version: string, n: nat)
    ensures var fs := [Field(BEGIN_STRING, version), Field(BODY_LENGTH, Dec(n))];
            && HeadItems(version, n) == ToItems(fs)
            && fs[0].value == version && fs[1].value != ""
  {
  }

  lemma LastFromField(version: string, body: string)
    ensures var c := CheckSum(Header(version, |body|) + body);
            [LastItem(version, body)] == ToItems([Field(CHECK_SUM, ZeroPad(3, c))])
  {
  }

  /** Parsing the text of a message means running its items. */
  lemma MeaningOfWire(o: Outgoing)
    requires SohFree(o.version, o.fields)
    ensures Meaning(Wire(o)) == RunItems(EMPTY_MSG, MessageItems(o.version, o.fields))
  {
    var items := MessageItems(o.version, o.fields);
    EncodeIsItems(o.version, o.fields);
    MessageClean(o.version, o.fields);
    assert AllWellFormed(items);
    InterpretPrinted(EMPTY_MSG, items);
  }

  /** A message with ordinary tags is rejected exactly when its version or a value is empty or a
      tag is too large. */
  lemma RejectedIff(o: Outgoing)
    requires SohFree(o.version, o.fields)
    requires forall i :: 0 <= i < |o.fields| ==> !IsEntryTag(o.fields[i].tag)
    ensures Meaning(Wire(o)) == Rejected <==>
              || o.version == ""
              || exists i :: 0 <= i < |o.fields| && (o.fields[i].value == "" || o.fields[i].tag >= MAX_TAG_NUM)
  {
    MeaningOfWire(o);
    MessageIsPlain(o);
    PlainMeaning(EMPTY_MSG, MessageItems(o.version, o.fields));
  }

  lemma ReadableFields(o: Outgoing)
    requires Readable(o)
    ensures SohFree(o.version, o.fields)
    ensures forall i :: 0 <= i < |o.fields| ==>
              && o.fields[i].tag != CHECK_SUM && !IsEntryTag(o.fields[i].tag)
              && o.fields[i].value != "" && o.fields[i].tag < MAX_TAG_NUM
  {
    forall i | 0 <= i < |o.fields|
      ensures Keepable(o.fields[i])
    {
    }
  }

  /** The encoded message is one frame, and parsing it yields its fields, but for listed Symbols. */
  lemma MessageArrives(o: Outgoing)
    requires Readable(o)
    ensures IsFrame(Wire(o))
    ensures Meaning(Wire(o)).Parsed? && Arrives(Meaning(Wire(o)).msg, o)
  {
    var items := MessageItems(o.version, o.fields);
    ReadableFields(o);
    EncodeIsFrame(o.version, o.fields);
    MeaningOfWire(o);
    MessageIsPlain(o);
    PlainMeaning(EMPTY_MSG, items);
    var m := Meaning(Wire(o)).msg;
    KeptOfMessage(o);
    forall t: nat
      ensures FieldRecovered(m, o, KeptFields(o.fields, false), t)
    {
      LastValueOfMessage(o, t);
      assert FieldFollows(EMPTY_MSG, Kept(items, false), m, t);
    }
    Unit(ListedSymbols(o.fields, false));
  }

  lemma {:induction false} OthersKept(fs: seq<NumberedField>, list: bool, t: nat)
    requires t != SYMBOL
    ensures LastOf(KeptFields(fs, list), t) == LastOf(fs, t)
    decreases |fs|
  {
    if fs != [] {
      var after := ListAfterField(list, fs[0]);
      OthersKept(fs[1..], after, t);
      LastOfCons(fs[0], KeptFields(fs[1..], after), t);
    }
  }

  /** What arrives is the message exactly when its last Symbol is kept. */
  lemma RecoversIff(m: Msg, o: Outgoing)
    requires Arrives(m, o)
    ensures Recovers(m, o) <==> SymbolKept(o)
  {
    var kept := KeptFields(o.fields, false);
    forall t: nat
      ensures t != SYMBOL ==> FieldRecovered(m, o, o.fields, t)
      ensures SymbolKept(o) ==> FieldRecovered(m, o, o.fields, t)
    {
      assert FieldRecovered(m, o, kept, t);
      if t != SYMBOL {
        OthersKept(o.fields, false, t);
      }
    }
    assert FieldRecovered(m, o, kept, SYMBOL);
    if Recovers(m, o) {
      assert FieldRecovered(m, o, o.fields, SYMBOL);
    }
  }

  /** Parsing the text of a message recovers it if and only if its last Symbol is kept. */
  lemma MessageRoundTrip(o: Outgoing)
    requires Readable(o)
    ensures Meaning(Wire(o)).Parsed?
    ensures Recovers(Meaning(Wire(o)).msg, o) <==> SymbolKept(o)
  {
    MessageArrives(o);
    RecoversIff(Meaning(Wire(o)).msg, o);
  }

  // ---------- any number of messages, in any chunks ----------

  ghost predicate ArrivesAll(ms: seq<Msg>, os: seq<Outgoing>) {
    |ms| == |os| && forall i :: 0 <= i < |os| ==> Arrives(ms[i], os[i])
  }

  ghost predicate RecoversAll(ms: seq<Msg>, os: seq<Outgoing>) {
    |ms| == |os| && forall i :: 0 <= i < |os| ==> Recovers(ms[i], os[i])
  }

  ghost predicate AllSymbolsKept(os: seq<Outgoing>) {
    forall i :: 0 <= i < |os| ==> SymbolKept(os[i])
  }

  lemma RecoversAllIff(ms: seq<Msg>, os: seq<Outgoing>)
    requires ArrivesAll(ms, os)
    ensures RecoversAll(ms, os) <==> AllSymbolsKept(os)
  {
    forall i | 0 <= i < |os|
      ensures Recovers(ms[i], os[i]) <==> SymbolKept(os[i])
    {
      RecoversIff(ms[i], os[i]);
    }
  }

  lemma WiresAreFrames(os: seq<Outgoing>)
    requires AllReadable(os)
    ensures AllFrames(Wires(os))
  {
    forall i | 0 <= i < |os|
      ensures IsFrame(Wires(os)[i])
    {
      MessageArrives(os[i]);
    }
  }

  lemma {:induction false} WiresAreDelivered(os: seq<Outgoing>)
    requires AllReadable(os)
    ensures Returns(Wires(os)) && ArrivesAll(Delivered(Wires(os)), os)
    decreases |os|
  {
    if os != [] {
      var o, rest := os[0], os[1..];
      assert os == [o] + rest;
      MessageArrives(o);
      WiresAreDelivered(rest);
      WiresCons(o, rest);
      FirstOf(Wire(o), Wires(rest));
      ArrivesCons(Meaning(Wire(o)).msg, Delivered(Wires(rest)), o, rest);
    }
  }

  lemma WiresCons(o: Outgoing, os: seq<Outgoing>)
    ensures Wires([o] + os) == [Wire(o)] + Wires(os)
  {
  }

  lemma ArrivesCons(m: Msg, ms: seq<Msg>, o: Outgoing, os: seq<Outgoing>)
    requires Arrives(m, o) && ArrivesAll(ms, os)
    ensures ArrivesAll([m] + ms, [o] + os)
  {
  }

  /** However the concatenated messages are cut into chunks, framer and parser together deliver
      one message per original, in order, and nothing is left over. Each is its original, but for
      listed Symbols; all are, field for field, if and only if every message's last Symbol is kept. */
  lemma EndToEnd(os: seq<Outgoing>, chunks: seq<string>, capacity: nat)
    requires AllReadable(os) && Concat(chunks) == Concat(Wires(os))
    ensures var r := Run(Fresh(capacity), chunks);
            && ArrivesAll(r.sent, os) && r.kept == "" && r.ending == EndingOf(Frames(Concat(chunks))) == Completed
            && (RecoversAll(r.sent, os) <==> AllSymbolsKept(os))
  {
    WiresAreFrames(os);
    WiresAreDelivered(os);
    NothingKept();
    SplitUnique(Wires(os), "");
    Unit(Concat(Wires(os)));
    ChunkingIndependence(capacity, chunks);
    BroadcastAll(Wires(os));
    RecoversAllIff(Run(Fresh(capacity), chunks).sent, os);
  }

  /** The same for the buffer object itself, for chunks that fit its free space. */
  method Receive(b: FixMsgRcvBuf, chunks: seq<string>, ghost os: seq<Outgoing>)
    requires b.Valid() && b.Kept() == "" && b.parser.broadcasts == []
    requires AllReadable(os) && Concat(chunks) == Concat(Wires(os))
    requires Fits(Fresh(b.bufSz), chunks)
    modifies b, b.buf, b.parser
    ensures b.Valid() && b.Kept() == ""
    ensures ArrivesAll(b.parser.broadcasts, os)
    ensures RecoversAll(b.parser.broadcasts, os) <==> AllSymbolsKept(os)
  {
    EndToEnd(os, chunks, b.bufSz);
    var ending := ReadAll(b, chunks);
    assert ending == Completed;
  }

  // ---------- distinct tags ----------

  ghost predicate Distinct(fs: seq<NumberedField>) {
    forall i, j :: 0 <= i < j < |fs| ==> fs[i].tag != fs[j].tag
  }

  lemma {:induction false} LastOfAbsent(fs: seq<NumberedField>, t: nat)
    requires forall i :: 0 <= i < |fs| ==> fs[i].tag != t
    ensures LastOf(fs, t).None?
    decreases |fs|
  {
    if fs != [] {
      LastOfAbsent(fs[1..], t);
    }
  }

  lemma {:induction false} LastOfDistinct(fs: seq<NumberedField>, i: nat)
    requires Distinct(fs) && i < |fs|
    ensures LastOf(fs, fs[i].tag) == Some(fs[i].value)
    decreases |fs|
  {
    if i == 0 {
      LastOfAbsent(fs[1..], fs[0].tag);
    } else {
      assert fs[1..][i - 1] == fs[i];
      LastOfDistinct(fs[1..], i - 1);
    }
  }

  /** Is the message a security list response where field j is set? */
  predicate ListAt(fs: seq<NumberedField>, list: bool, j: nat)
    requires j < |fs|
    decreases |fs|
  {
    if j == 0 then list else ListAt(fs[1..], ListAfterField(list, fs[0]), j - 1)
  }

  ghost predicate TypeBefore(fs: seq<NumberedField>, j: nat)
    requires j <= |fs|
  {
    exists i :: 0 <= i < j && fs[i].tag == MSG_TYPE
  }

  ghost predicate ListBefore(fs: seq<NumberedField>, j: nat)
    requires j <= |fs|
  {
    exists i :: 0 <= i < j && IsListField(fs[i])
  }

  lemma BeforeCons(fs: seq<NumberedField>, j: nat)
    requires 0 < j <= |fs|
    ensures TypeBefore(fs, j) <==> fs[0].tag == MSG_TYPE || TypeBefore(fs[1..], j - 1)
    ensures ListBefore(fs, j) <==> IsListField(fs[0]) || ListBefore(fs[1..], j - 1)
  {
    var rest := fs[1..];
    assert forall i :: 1 <= i < |fs| ==> fs[i] == rest[i - 1];
    assert forall i :: 0 <= i < |rest| ==> rest[i] == fs[i + 1];
  }

  lemma DistinctRest(fs: seq<NumberedField>)
    requires Distinct(fs) && fs != []
    ensures Distinct(fs[1..]) && forall i :: 0 <= i < |fs[1..]| ==> fs[1..][i].tag != fs[0].tag
  {
  }

  lemma {:induction false} ListAtIff(fs: seq<NumberedField>, list: bool, j: nat)
    requires Distinct(fs) && j < |fs|
    ensures ListAt(fs, list, j) <==> ListBefore(fs, j) || (list && !TypeBefore(fs, j))
    decreases |fs|
  {
    if j > 0 {
      DistinctRest(fs);
      BeforeCons(fs, j);
      ListAtIff(fs[1..], ListAfterField(list, fs[0]), j - 1);
    }
  }

  lemma {:induction false} NoSymbol(fs: seq<NumberedField>, list: bool)
    requires forall i :: 0 <= i < |fs| ==> fs[i].tag != SYMBOL
    ensures KeptFields(fs, list) == fs && ListedSymbols(fs, list) == []
    decreases |fs|
  {
    if fs != [] {
      NoSymbol(fs[1..], ListAfterField(list, fs[0]));
    }
  }

  lemma {:induction false} SymbolAt(fs: seq<NumberedField>, list: bool, j: nat)
    requires Distinct(fs) && j < |fs| && fs[j].tag == SYMBOL
    ensures LastOf(KeptFields(fs, list), SYMBOL) == if ListAt(fs, list, j) then None else Some(fs[j].value)
    ensures ListedSymbols(fs, list) == if ListAt(fs, list, j) then [fs[j].value] else []
    decreases |fs|
  {
    var rest, after := fs[1..], ListAfterField(list, fs[0]);
    DistinctRest(fs);
    LastOfCons(fs[0], KeptFields(rest, after), SYMBOL);
    if j == 0 {
      NoSymbol(rest, after);
      LastOfAbsent(rest, SYMBOL);
    } else {
      assert rest[j - 1] == fs[j];
      SymbolAt(rest, after, j - 1);
    }
  }

  /** A Symbol stands behind a MsgType that makes the message a security list response. */
  ghost predicate SymbolBehindList(fs: seq<NumberedField>) {
    exists j :: 0 <= j < |fs| && fs[j].tag == SYMBOL && ListBefore(fs, j)
  }

  /** With distinct tags: the message comes back field for field if and only if no Symbol stands
      behind a MsgType that starts with 'y'; otherwise that Symbol is the one listed security. */
  lemma DistinctRecovers(o: Outgoing)
    requires Readable(o) && Distinct(o.fields)
    ensures Meaning(Wire(o)).Parsed?
    ensures Recovers(Meaning(Wire(o)).msg, o) <==> !SymbolBehindList(o.fields)
    ensures !SymbolBehindList(o.fields) ==> Meaning(Wire(o)).msg.securities == []
    ensures forall j :: 0 <= j < |o.fields| && o.fields[j].tag == SYMBOL && ListBefore(o.fields, j) ==>
              && Meaning(Wire(o)).msg.securities == [o.fields[j].value]
              && 55 !in Meaning(Wire(o)).msg.available
  {
    var fs := o.fields;
    MessageArrives(o);
    MessageRoundTrip(o);
    assert FieldRecovered(Meaning(Wire(o)).msg, o, KeptFields(fs, false), SYMBOL);
    if j :| 0 <= j < |fs| && fs[j].tag == SYMBOL {
      SymbolAt(fs, false, j);
      ListAtIff(fs, false, j);
      LastOfDistinct(fs, j);
      assert forall i :: 0 <= i < |fs| && fs[i].tag == SYMBOL ==> i == j;
    } else {
      NoSymbol(fs, false);
    }
  }

  lemma ShortMessage(f: NumberedField, g: NumberedField) returns (o: Outgoing)
    requires Keepable(f) && Keepable(g) && f.tag != g.tag
    ensures o == Outgoing("FIX.4.4", [f, g]) && Readable(o) && Distinct(o.fields)
  {
    o := Outgoing("FIX.4.4", [f, g]);
    FindUnique("FIX.4.4", 0, SOH, 7);
  }

  /** MsgType 'y' in front of a Symbol ... */
  lemma SymbolListed() returns (o: Outgoing)
    ensures o == Outgoing("FIX.4.4", [Field(35, "y"), Field(55, "A")])
    ensures Meaning(Wire(o)).Parsed? && !Recovers(Meaning(Wire(o)).msg, o)
    ensures Meaning(Wire(o)).msg.securities == ["A"] && 55 !in Meaning(Wire(o)).msg.available
  {
    var f, g := Field(MSG_TYPE, "y"), Field(SYMBOL, "A");
    FindUnique(f.value, 0, SOH, 1);
    FindUnique(g.value, 0, SOH, 1);
    o := ShortMessage(f, g);
    DistinctRecovers(o);
    assert IsListField(o.fields[0]) && ListBefore(o.fields, 1) && o.fields[1].tag == SYMBOL;
  }

  /** ... and behind it. */
  lemma SymbolInFront() returns (o: Outgoing)
    ensures o == Outgoing("FIX.4.4", [Field(55, "A"), Field(35, "y")])
    ensures Meaning(Wire(o)).Parsed? && Recovers(Meaning(Wire(o)).msg, o)
    ensures Meaning(Wire(o)).msg.securities == []
  {
    var f, g := Field(SYMBOL, "A"), Field(MSG_TYPE, "y");
    FindUnique(f.value, 0, SOH, 1);
    FindUnique(g.value, 0, SOH, 1);
    o := ShortMessage(f, g);
    DistinctRecovers(o);
    assert !SymbolBehindList(o.fields);
  }

  /** With distinct tags every single field comes back under its tag. */
  lemma DistinctFieldsComeBack(m: Msg, o: Outgoing, i: nat)
    requires Readable(o) && Distinct(o.fields) && i < |o.fields| && Recovers(m, o)
    ensures var f := o.fields[i]; f.tag in m.available && f.tag in m.fields && m.fields[f.tag] == f.value
  {
    LastOfDistinct(o.fields, i);
    assert Keepable(o.fields[i]);
    assert FieldRecovered(m, o, o.fields, o.fields[i].tag);
  }

  /** And no other field is there. */
  lemma NoOtherFields(m: Msg, o: Outgoing, t: nat)
    requires Recovers(m, o) && t != 8 && t != 9 && t != 10
    requires forall i :: 0 <= i < |o.fields| ==> o.fields[i].tag != t
    ensures t !in m.available
  {
    LastOfAbsent(o.fields, t);
    assert FieldRecovered(m, o, o.fields, t);
  }

  /** Header and trailer fields carry the version, the length of the body and the check sum. */
  lemma HeaderAndTrailer(m: Msg, o: Outgoing)
    requires Recovers(m, o)
    ensures {8, 9, 10} <= m.available && {8, 9, 10} <= m.fields.Keys
    ensures m.fields[8] == o.version && m.fields[9] == Dec(|BodyText(o.fields)|)
    ensures m.fields[10] == ZeroPad(3, CheckSum(Header(o.version, |BodyText(o.fields)|) + BodyText(o.fields)))
  {
    assert FieldRecovered(m, o, o.fields, 8) && FieldRecovered(m, o, o.fields, 9) && FieldRecovered(m, o, o.fields, 10);
  }

  /** The largest tag that is accepted, and the smallest that is not. */
  lemma TagLimit(value: string) returns (o: Outgoing, p: Outgoing)
    requires value != "" && Find(value, 0, SOH) == |value|
    ensures o == Outgoing("FIX.4.4", [Field(9067, value)]) && p == Outgoing("FIX.4.4", [Field(9068, value)])
    ensures Meaning(Wire(o)).Parsed? && 9067 in Meaning(Wire(o)).msg.available
    ensures Meaning(Wire(p)) == Rejected
  {
    FindUnique("FIX.4.4", 0, SOH, 7);
    o, p := Outgoing("FIX.4.4", [Field(9067, value)]), Outgoing("FIX.4.4", [Field(9068, value)]);
    OneFieldArrives(o);
    RejectedIff(p);
    assert p.fields[0].tag >= MAX_TAG_NUM;
  }

  lemma OneFieldArrives(o: Outgoing)
    requires o.version != "" && SohFree(o.version, o.fields) && |o.fields| == 1 && Keepable(o.fields[0])
    requires o.fields[0].tag != SYMBOL
    ensures Meaning(Wire(o)).Parsed? && o.fields[0].tag in Meaning(Wire(o)).msg.available
  {
    MessageArrives(o);
    MessageRoundTrip(o);
    NoSymbol(o.fields, false);
    assert FieldRecovered(Meaning(Wire(o)).msg, o, o.fields, o.fields[0].tag);
    assert o.fields[1..] == [];
  }
}
