/** Market-data messages as they are sent: header and trailer around the announcement and the groups;
    and streams of them mixed with ordinary messages. */
module MarketMessages {
  import opened Text
  import opened DecimalNumber
  import opened FixMessage
  import opened FixScanner
  import opened FieldMeaning
  import opened RepeatingGroups
  import opened Framing
  import opened Checksum
  import opened FixEncoding
  import opened MsgParser
  import opened ReceiveRuns
  import opened RoundTrip
  import opened ParserFaults

  /** The fields in front of the announcement, the announcement, and the groups. */
  datatype MarketMessage =
    Market(version: string, pre: seq<NumberedField>, count: NumberedField, groups: seq<seq<NumberedField>>)

  function FlatFields(gs: seq<seq<NumberedField>>): seq<NumberedField> {
    if gs == [] then [] else gs[0] + FlatFields(gs[1..])
  }

  function AsOutgoing(mm: MarketMessage): Outgoing {
    Outgoing(mm.version, mm.pre + [mm.count] + FlatFields(mm.groups))
  }

  function ItemGroups(gs: seq<seq<NumberedField>>): seq<seq<Item>> {
    if gs == [] then [] else [ToItems(gs[0])] + ItemGroups(gs[1..])
  }

  ghost predicate WellFormedMarket(mm: MarketMessage) {
    && mm.version != "" && SohFree(mm.version, AsOutgoing(mm).fields)
    && (forall i :: 0 <= i < |AsOutgoing(mm).fields| ==> AsOutgoing(mm).fields[i].tag != CHECK_SUM)
    && IsMarketData(ToItems(mm.pre), ToItem(mm.count), ItemGroups(mm.groups))
  }

  /** What the groups of the message are to leave. */
  ghost predicate Stored(o: Outcome, mm: MarketMessage)
    requires WellFormedMarket(mm)
  {
    GroupsStored(o, Announced(ToItem(mm.count)), ItemGroups(mm.groups), SnapshotIn(ToItems(mm.pre)))
  }

  /** No entries are announced, and a group addresses one. */
  ghost predicate MarketFails(mm: MarketMessage) {
    Announced(ToItem(mm.count)) == 0 && AnyAddresses(Flat(ItemGroups(mm.groups)))
  }

  lemma ToItemsAppend(a: seq<NumberedField>, b: seq<NumberedField>)
    ensures ToItems(a + b) == ToItems(a) + ToItems(b)
  {
  }

  lemma {:induction false} FlatToItems(gs: seq<seq<NumberedField>>)
    ensures ToItems(FlatFields(gs)) == Flat(ItemGroups(gs))
    decreases |gs|
  {
    if gs != [] {
      FlatToItems(gs[1..]);
      ToItemsAppend(gs[0], FlatFields(gs[1..]));
      assert ItemGroups(gs)[1..] == ItemGroups(gs[1..]);
    }
  }

  lemma BodyItems(mm: MarketMessage)
    ensures ToItems(AsOutgoing(mm).fields) == ToItems(mm.pre) + [ToItem(mm.count)] + Flat(ItemGroups(mm.groups))
  {
    ToItemsAppend(mm.pre + [mm.count], FlatFields(mm.groups));
    ToItemsAppend(mm.pre, [mm.count]);
    assert ToItems([mm.count]) == [ToItem(mm.count)];
    FlatToItems(mm.groups);
  }

  // ---------- header and trailer make no difference ----------

  lemma HeadIsPlain(version: string, n: nat)
    requires version != ""
    ensures var head := HeadItems(version, n);
            AllPlain(head) && NoneRefusable(head) && NoEntries(head) && !SnapshotIn(head)
  {
    FieldTags(Field(BEGIN_STRING, version));
    FieldTags(Field(BODY_LENGTH, Dec(n)));
    var head := HeadItems(version, n);
    var a, b := head[0], head[1];
    assert head[1..] == [b] && [b][1..] == [];
    assert !HasTag(a, MSG_TYPE) && !HasTag(b, MSG_TYPE) && !HasTag(a, NO_MD_ENTRIES) && !HasTag(b, NO_MD_ENTRIES);
    assert !SnapshotIn([]) && !SnapshotIn([b]) && NoEntries([b]);
  }

  lemma {:induction false} InFront(head: seq<Item>, pre: seq<Item>)
    requires NoEntries(head) && !SnapshotIn(head)
    ensures NoEntries(head + pre) == NoEntries(pre) && SnapshotIn(head + pre) == SnapshotIn(pre)
    decreases |head|
  {
    if head == [] {
      assert head + pre == pre;
    } else {
      assert (head + pre)[1..] == head[1..] + pre;
      InFront(head[1..], pre);
    }
  }

  lemma TrailerStep(m: Msg, version: string, body: string)
    ensures RunItems(m, [LastItem(version, body)]).Parsed?
    ensures var m' := RunItems(m, [LastItem(version, body)]).msg;
            m'.entries == m.entries && m'.entryIndex == m.entryIndex
  {
    var c := CheckSum(Header(version, |body|) + body);
    CheckSumDigits(c);
    ParseDec(CHECK_SUM);
    assert [LastItem(version, body)][1..] == [];
  }

  lemma StoredStays(o: Outcome, o': Outcome, n: nat, gs: seq<seq<Item>>, snapshot: bool)
    requires AllGroups(gs, snapshot) && GroupsStored(o, n, gs, snapshot)
    requires o.Parsed? ==> o'.Parsed? && o'.msg.entries == o.msg.entries && o'.msg.entryIndex == o.msg.entryIndex
    requires !o.Parsed? ==> o' == o
    ensures GroupsStored(o', n, gs, snapshot)
  {
  }

  /** The text of a market-data message is one frame, and its groups are stored as they are announced. */
  lemma MarketArrives(mm: MarketMessage)
    requires WellFormedMarket(mm)
    ensures IsFrame(Wire(AsOutgoing(mm))) && Stored(Meaning(Wire(AsOutgoing(mm))), mm)
  {
    var o := AsOutgoing(mm);
    var body := BodyText(o.fields);
    var head, last := HeadItems(o.version, |body|), LastItem(o.version, body);
    var pre, count, gs := ToItems(mm.pre), ToItem(mm.count), ItemGroups(mm.groups);
    EncodeIsFrame(o.version, o.fields);
    MeaningOfWire(o);
    BodyItems(mm);
    HeadIsPlain(o.version, |body|);
    PlainAppend(head, pre);
    InFront(head, pre);
    MarketDataRun(head + pre, count, gs);
    var items := (head + pre) + [count] + Flat(gs);
    Regroup(head, pre, [count], Flat(gs));
    RunAppend(EMPTY_MSG, items, [last]);
    var before := RunItems(EMPTY_MSG, items);
    if before.Parsed? {
      TrailerStep(before.msg, o.version, body);
    }
    StoredStays(before, Meaning(Wire(o)), Announced(count), gs, SnapshotIn(pre));
  }

  lemma Regroup(head: seq<Item>, pre: seq<Item>, count: seq<Item>, groups: seq<Item>)
    ensures head + (pre + count + groups) == (head + pre) + count + groups
  {
  }

  /** It fails exactly when no entries are announced and a group addresses one. */
  lemma MarketFailsIff(mm: MarketMessage)
    requires WellFormedMarket(mm)
    ensures var o := Meaning(Wire(AsOutgoing(mm)));
            if MarketFails(mm) then o == Failed(Undefined) else o.Parsed?
  {
    MarketArrives(mm);
  }

  // ---------- streams of messages of both kinds ----------

  datatype Sent = Ordinary(o: Outgoing) | MarketData(mm: MarketMessage)

  function TextOf(s: Sent): string {
    match s
    case Ordinary(o) => Wire(o)
    case MarketData(mm) => Wire(AsOutgoing(mm))
  }

  function TextsOf(ss: seq<Sent>): seq<string> {
    if ss == [] then [] else [TextOf(ss[0])] + TextsOf(ss[1..])
  }

  ghost predicate Acceptable(s: Sent) {
    match s
    case Ordinary(o) => Readable(o)
    case MarketData(mm) => WellFormedMarket(mm)
  }

  ghost predicate AllAcceptable(ss: seq<Sent>) {
    forall i :: 0 <= i < |ss| ==> Acceptable(ss[i])
  }

  ghost predicate Fails(s: Sent) {
    s.MarketData? && MarketFails(s.mm)
  }

  /** The message that is delivered for s: its fields, but for listed Symbols; or its groups. */
  ghost predicate Delivers(m: Msg, s: Sent)
    requires Acceptable(s)
  {
    match s
    case Ordinary(o) => Arrives(m, o)
    case MarketData(mm) => Stored(Parsed(m), mm)
  }

  lemma OneDelivered(s: Sent)
    requires Acceptable(s)
    ensures IsFrame(TextOf(s))
    ensures var o := Meaning(TextOf(s));
            if Fails(s) then o == Failed(Undefined) else o.Parsed? && Delivers(o.msg, s)
  {
    match s
    case Ordinary(o) => MessageArrives(o);
    case MarketData(mm) =>
      MarketArrives(mm);
      MarketFailsIff(mm);
  }

  ghost predicate AllDelivered(ms: seq<Msg>, ss: seq<Sent>)
    requires AllAcceptable(ss)
  {
    |ms| == |ss| && forall i :: 0 <= i < |ss| ==> Delivers(ms[i], ss[i])
  }

  lemma DeliveredCons(m: Msg, ms: seq<Msg>, ss: seq<Sent>)
    requires AllAcceptable(ss) && ss != [] && Delivers(m, ss[0]) && AllDelivered(ms, ss[1..])
    ensures AllDelivered([m] + ms, ss)
  {
    forall i | 0 <= i < |ss|
      ensures Delivers(([m] + ms)[i], ss[i])
    {
      if i > 0 {
        assert ss[i] == ss[1..][i - 1];
      }
    }
  }

  ghost predicate NoneFails(ss: seq<Sent>) {
    forall i :: 0 <= i < |ss| ==> !Fails(ss[i])
  }

  lemma NoneFailsCons(ss: seq<Sent>)
    requires ss != []
    ensures NoneFails(ss) <==> !Fails(ss[0]) && NoneFails(ss[1..])
  {
    assert forall i :: 1 <= i < |ss| ==> ss[i] == ss[1..][i - 1];
    assert forall i :: 0 <= i < |ss[1..]| ==> ss[1..][i] == ss[i + 1];
  }

  lemma {:induction false} TextsDelivered(ss: seq<Sent>)
    requires AllAcceptable(ss)
    ensures AllFrames(TextsOf(ss))
    ensures EndingOf(TextsOf(ss)) == if NoneFails(ss) then Completed else Stopped(Undefined)
    ensures NoneFails(ss) ==> AllDelivered(Broadcast(TextsOf(ss)), ss)
    decreases |ss|
  {
    if ss != [] {
      var s, rest := ss[0], ss[1..];
      OneDelivered(s);
      TextsDelivered(rest);
      NoneFailsCons(ss);
      AllFramesCons(TextOf(s), TextsOf(rest));
      FirstOf(TextOf(s), TextsOf(rest));
      if NoneFails(ss) {
        DeliveredCons(Meaning(TextOf(s)).msg, Broadcast(TextsOf(rest)), ss);
      }
    }
  }

  /** Ordinary and market-data messages in any order, concatenated and cut into any chunks: unless a
      market-data message fails, every message is delivered, in order, and nothing is left over;
      otherwise it ends at the first that fails, with what was delivered before. */
  lemma StreamEndToEnd(ss: seq<Sent>, chunks: seq<string>, capacity: nat)
    requires AllAcceptable(ss) && Concat(chunks) == Concat(TextsOf(ss))
    ensures var r := Run(Fresh(capacity), chunks);
            && r.sent == Broadcast(TextsOf(ss))
            && (if NoneFails(ss) then
                  && r.ending == Completed && r.kept == "" && |r.sent| == |ss|
                  && (forall i :: 0 <= i < |ss| && ss[i].Ordinary? ==> Arrives(r.sent[i], ss[i].o))
                  && (forall i :: 0 <= i < |ss| && ss[i].MarketData? ==> Stored(Parsed(r.sent[i]), ss[i].mm))
                else r.ending == Stopped(Undefined))
  {
    TextsDelivered(ss);
    SplitUnique(TextsOf(ss), "");
    NothingKept();
    Unit(Concat(TextsOf(ss)));
    ChunkingIndependence(capacity, chunks);
    AcceptableMarket(ss);
    if NoneFails(ss) {
      var ms := Run(Fresh(capacity), chunks).sent;
      forall i | 0 <= i < |ss|
        ensures Delivers(ms[i], ss[i])
      {
      }
    }
  }

  lemma AcceptableMarket(ss: seq<Sent>)
    requires AllAcceptable(ss)
    ensures forall i :: 0 <= i < |ss| && ss[i].MarketData? ==> WellFormedMarket(ss[i].mm)
  {
    forall i | 0 <= i < |ss| && ss[i].MarketData?
      ensures WellFormedMarket(ss[i].mm)
    {
      assert Acceptable(ss[i]);
    }
  }

  // ---------- two messages ----------

  /** When the fields of a message can be set behind the header, its text leaves their entries. */
  lemma WireSets(o: Outgoing, m: Msg, m1: Msg)
    requires o.version != "" && SohFree(o.version, o.fields) && Settable(o.fields)
    requires RunItems(EMPTY_MSG, HeadItems(o.version, |BodyText(o.fields)|)) == Parsed(m)
    requires SetFields(m, o.fields) == Parsed(m1)
    ensures Meaning(Wire(o)).Parsed? && Meaning(Wire(o)).msg.entries == m1.entries
  {
    var body := BodyText(o.fields);
    var head, mid, last := HeadItems(o.version, |body|), ToItems(o.fields), LastItem(o.version, body);
    MeaningOfWire(o);
    SetFieldsIsRun(m, o.fields);
    RunAppend(EMPTY_MSG, head, mid);
    RunAppend(EMPTY_MSG, head + mid, [last]);
    TrailerStep(m1, o.version, body);
  }

  lemma OneDigit(s: string)
    requires |s| == 1 && IsDigit(s[0])
    ensures IsNumber(s)
  {
    assert NumberFrom(Start, s, 0) == NumberFrom(Whole, s, 1);
  }

  lemma SurplusSets(m: Msg, fs: seq<NumberedField>) returns (m1: Msg)
    requires m.entries == [] && m.entryIndex == -1
    requires fs == [Announce("1"), Field(MD_UPDATE_ACTION, "0"), Field(MD_ENTRY_PX, "5"),
                    Field(MD_UPDATE_ACTION, "1"), Field(MD_ENTRY_PX, "0")]
    ensures SetFields(m, fs) == Parsed(m1)
    ensures |m1.entries| == 1 && m1.entries[0].action == 0 && m1.entries[0].px == "0"
  {
    Numbers();
    OneDigit("5");
    OneDigit("0");
    var a := SetField(m, NO_MD_ENTRIES, "1").msg;
    var b := SetField(a, MD_UPDATE_ACTION, "0").msg;
    var c := SetField(b, MD_ENTRY_PX, "5").msg;
    assert SetField(c, MD_UPDATE_ACTION, "1") == Parsed(c);
    m1 := SetField(c, MD_ENTRY_PX, "0").msg;
    assert fs[1..][1..] == fs[2..] && fs[2..][1..] == fs[3..] && fs[3..][1..] == fs[4..] && fs[4..][1..] == [];
    assert SetFields(c, fs[4..]) == Parsed(m1);
    assert SetFields(c, fs[3..]) == Parsed(m1);
    assert SetFields(b, fs[2..]) == Parsed(m1);
    assert SetFields(a, fs[1..]) == Parsed(m1);
  }

  /** One entry is announced and two groups follow: the price of the second ends up in the entry of the
      first, whose action it keeps. */
  lemma SurplusMessage() returns (o: Outgoing)
    ensures o.fields == [Announce("1"), Field(MD_UPDATE_ACTION, "0"), Field(MD_ENTRY_PX, "5"),
                         Field(MD_UPDATE_ACTION, "1"), Field(MD_ENTRY_PX, "0")]
    ensures Meaning(Wire(o)).Parsed?
    ensures var es := Meaning(Wire(o)).msg.entries; |es| == 1 && es[0].action == 0 && es[0].px == "0"
  {
    var m;
    o, m := SmallMessage([Announce("1"), Field(MD_UPDATE_ACTION, "0"), Field(MD_ENTRY_PX, "5"),
                          Field(MD_UPDATE_ACTION, "1"), Field(MD_ENTRY_PX, "0")]);
    var m1 := SurplusSets(m, o.fields);
    WireSets(o, m, m1);
  }

  /** A snapshot that announces no entries and has one. */
  lemma UnannouncedMessage() returns (o: Outgoing)
    ensures o.fields == [Field(MSG_TYPE, "W"), Announce("0"), Field(MD_ENTRY_TYPE, "0")]
    ensures IsFrame(Wire(o)) && Meaning(Wire(o)) == Failed(Undefined)
  {
    var m;
    o, m := SmallMessage([Field(MSG_TYPE, "W"), Announce("0"), Field(MD_ENTRY_TYPE, "0")]);
    UnannouncedFails(m, o.fields);
    WireFails(o, m, Undefined);
  }

  lemma UnannouncedFails(m: Msg, fs: seq<NumberedField>)
    requires m.entries == [] && m.entryIndex == -1
    requires fs == [Field(MSG_TYPE, "W"), Announce("0"), Field(MD_ENTRY_TYPE, "0")]
    ensures SetFields(m, fs) == Failed(Undefined)
  {
    Numbers();
    var a := SetField(m, MSG_TYPE, "W").msg;
    var b := SetField(a, NO_MD_ENTRIES, "0").msg;
    assert fs[1..][1..] == fs[2..];
    assert SetFields(b, fs[2..]) == Failed(Undefined);
    assert SetFields(a, fs[1..]) == SetFields(b, fs[2..]);
  }
}
