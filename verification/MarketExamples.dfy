/** Two market-data messages, literally: what is sent, and what is stored. */
module MarketExamples {
  import opened Text
  import opened DecimalNumber
  import opened FixMessage
  import opened FixScanner
  import opened FieldMeaning
  import opened RepeatingGroups
  import opened FixEncoding
  import opened MsgParser
  import opened RoundTrip
  import opened MarketMessages

  // ---------- groups in terms of numbered fields ----------

  predicate InnerField(f: NumberedField, snapshot: bool) {
    && f.value != "" && f.tag < 9068
    && f.tag != 279 && f.tag != 268 && f.tag != 35 && !(snapshot && f.tag == 269)
    && (f.tag == 270 || f.tag == 271 ==> IsNumber(f.value))
  }

  ghost predicate IsGroupOfFields(g: seq<NumberedField>, snapshot: bool) {
    && g != [] && g[0].tag == (if snapshot then 269 else 279) && g[0].value != ""
    && forall i :: 1 <= i < |g| ==> InnerField(g[i], snapshot)
  }

  lemma InnerIff(f: NumberedField, snapshot: bool)
    ensures Inner(ToItem(f), snapshot) <==> InnerField(f, snapshot)
  {
    FieldTags(f);
  }

  lemma GroupIff(g: seq<NumberedField>, snapshot: bool)
    ensures IsGroup(ToItems(g), snapshot) <==> IsGroupOfFields(g, snapshot)
  {
    if g != [] {
      FieldTags(g[0]);
      forall i | 1 <= i < |g|
        ensures Inner(ToItems(g)[1..][i - 1], snapshot) <==> InnerField(g[i], snapshot)
      {
        InnerIff(g[i], snapshot);
      }
      if AllInner(ToItems(g)[1..], snapshot) {
        forall i | 1 <= i < |g|
          ensures InnerField(g[i], snapshot)
        {
          assert Inner(ToItems(g)[1..][i - 1], snapshot);
        }
      }
    }
  }

  lemma GroupsCons(g: seq<Item>, rest: seq<seq<Item>>, snapshot: bool)
    requires IsGroup(g, snapshot) && AllGroups(rest, snapshot)
    ensures AllGroups([g] + rest, snapshot)
  {
    forall i | 0 <= i < |[g] + rest|
      ensures IsGroup(([g] + rest)[i], snapshot)
    {
      if i > 0 {
        assert ([g] + rest)[i] == rest[i - 1];
      }
    }
  }

  lemma {:induction false} ItemGroupAt(gs: seq<seq<NumberedField>>, i: nat)
    requires i < |gs|
    ensures |ItemGroups(gs)| == |gs| && ItemGroups(gs)[i] == ToItems(gs[i])
    decreases |gs|
  {
    if |gs| > 1 {
      ItemGroupAt(gs[1..], if i == 0 then 0 else i - 1);
    }
  }

  lemma {:induction false} GroupsAre(gs: seq<seq<NumberedField>>, snapshot: bool)
    requires forall i :: 0 <= i < |gs| ==> IsGroupOfFields(gs[i], snapshot)
    ensures AllGroups(ItemGroups(gs), snapshot)
    decreases |gs|
  {
    if gs != [] {
      GroupIff(gs[0], snapshot);
      GroupsAre(gs[1..], snapshot);
      GroupsCons(ToItems(gs[0]), ItemGroups(gs[1..]), snapshot);
    }
  }

  /** The entry of a group has the last value of each tag. */
  lemma EntryOfGroup(g: seq<NumberedField>, snapshot: bool) returns (e: MdEntry)
    requires IsGroupOfFields(g, snapshot)
    ensures e == EntryOf(NEW_ENTRY, ToItems(g))
    ensures e.px == OrElse(LastOf(g, 270), "") && e.size == OrElse(LastOf(g, 271), "")
    ensures e.id == OrElse(LastOf(g, 278), "") && e.symbol == OrElse(LastOf(g, 55), "")
    ensures e.action == ActionOf(LastOf(g, 279), 0) && e.side == SideOf(LastOf(g, 269), Unset)
  {
    e := EntryOf(NEW_ENTRY, ToItems(g));
    EntryOfFields(NEW_ENTRY, ToItems(g));
    LastValueOfFields(g, 270);
    LastValueOfFields(g, 271);
    LastValueOfFields(g, 278);
    LastValueOfFields(g, 55);
    LastValueOfFields(g, 279);
    LastValueOfFields(g, 269);
  }

  lemma ShortPre(msgType: string)
    requires |msgType| == 1
    ensures var pre := ToItems([Field(35, msgType)]);
            && AllPlain(pre) && NoneRefusable(pre) && NoEntries(pre)
            && SnapshotIn(pre) == (msgType == "W")
  {
    var it := ToItem(Field(35, msgType));
    FieldTags(Field(35, msgType));
    assert ToItems([Field(35, msgType)]) == [it] && [it][1..] == [];
    assert StartsWith(it, 'W') <==> msgType == "W";
    assert HasTag(it, MSG_TYPE) && !HasTag(it, NO_MD_ENTRIES);
  }

  ghost predicate FreeFields(fs: seq<NumberedField>) {
    forall i :: 0 <= i < |fs| ==> Find(fs[i].value, 0, SOH) == |fs[i].value| && fs[i].tag != 10
  }

  ghost predicate GroupsOfFields(gs: seq<seq<NumberedField>>, snapshot: bool) {
    forall i :: 0 <= i < |gs| ==> IsGroupOfFields(gs[i], snapshot) && FreeFields(gs[i])
  }

  lemma FreeAppend(a: seq<NumberedField>, b: seq<NumberedField>)
    requires FreeFields(a) && FreeFields(b)
    ensures FreeFields(a + b)
  {
  }

  /** A market-data message whose header field is the MsgType alone. */
  lemma ShortMarket(msgType: string, count: string, gs: seq<seq<NumberedField>>) returns (mm: MarketMessage)
    requires |msgType| == 1 && msgType[0] != SOH && |count| == 1 && IsDigit(count[0])
    requires GroupsOfFields(gs, msgType == "W")
    ensures mm == Market("FIX.4.4", [Field(35, msgType)], Field(268, count), gs) && WellFormedMarket(mm)
    ensures SnapshotIn(ToItems(mm.pre)) == (msgType == "W")
  {
    mm := Market("FIX.4.4", [Field(35, msgType)], Field(268, count), gs);
    ShortPre(msgType);
    FieldTags(Field(268, count));
    GroupsAre(gs, msgType == "W");
    ShortTextFree("FIX.4.4");
    ShortTextFree(msgType);
    ShortTextFree(count);
    FlatFree(gs);
    FreeAppend(mm.pre + [mm.count], FlatFields(gs));
  }

  lemma {:induction false} FlatFree(gs: seq<seq<NumberedField>>)
    requires forall i :: 0 <= i < |gs| ==> FreeFields(gs[i])
    ensures FreeFields(FlatFields(gs))
    decreases |gs|
  {
    if gs != [] {
      FlatFree(gs[1..]);
      FreeAppend(gs[0], FlatFields(gs[1..]));
    }
  }

  lemma ShortTextFree(s: string)
    requires forall i :: 0 <= i < |s| ==> s[i] != SOH
    ensures Find(s, 0, SOH) == |s|
  {
    FindUnique(s, 0, SOH, |s|);
  }

  lemma DigitValue(s: string, d: nat)
    requires d < 10 && s == [DigitChar(d)]
    ensures NumParse(s) == d
  {
    ParseDec(d);
    assert Dec(d) == s;
  }

  // ---------- an incremental message ----------

  lemma Prices()
    ensures IsNumber("100.5") && IsNumber("0.5") && IsNumber("7") && IsNumber("2") && IsNumber("-1.25")
  {
    OrdinaryNumbers("", "100", "5");
    OrdinaryNumbers("", "0", "5");
    OrdinaryNumbers("", "7", "");
    OrdinaryNumbers("", "2", "");
    OrdinaryNumbers("-", "1", "25");
    assert "" + "100" + "." + "5" == "100.5" && "" + "0" + "." + "5" == "0.5";
    assert "" + "7" == "7" && "" + "2" == "2" && "-" + "1" + "." + "25" == "-1.25";
  }

  /** An entry's fields in the order in which they are sent. */
  function EntryFields(action: string, id: string, symbol: string, side: string, px: string, size: string)
    : seq<NumberedField>
  {
    [Field(279, action), Field(278, id), Field(55, symbol), Field(269, side), Field(270, px), Field(271, size)]
  }

  ghost predicate FreeText(s: string) {
    s != "" && forall i :: 0 <= i < |s| ==> s[i] != SOH
  }

  lemma EntryIsGroup(action: string, id: string, symbol: string, side: string, px: string, size: string)
    requires FreeText(action) && FreeText(id) && FreeText(symbol) && FreeText(side) && FreeText(px) && FreeText(size)
    requires IsNumber(px) && IsNumber(size)
    ensures var g := EntryFields(action, id, symbol, side, px, size);
            IsGroupOfFields(g, false) && FreeFields(g) && Distinct(g)
  {
    ShortTextFree(action);
    ShortTextFree(id);
    ShortTextFree(symbol);
    ShortTextFree(side);
    ShortTextFree(px);
    ShortTextFree(size);
  }

  /** All six parts are stored. */
  lemma EntryIsStored(action: string, id: string, symbol: string, side: string, px: string, size: string)
    requires FreeText(action) && FreeText(id) && FreeText(symbol) && FreeText(side) && FreeText(px) && FreeText(size)
    requires IsNumber(px) && IsNumber(size)
    ensures EntryOf(NEW_ENTRY, ToItems(EntryFields(action, id, symbol, side, px, size)))
         == MdEntry(SignedChar(action[0]) - 48, symbol, if side[0] == '0' then Bid else Ask, px, size, id)
  {
    var g := EntryFields(action, id, symbol, side, px, size);
    EntryIsGroup(action, id, symbol, side, px, size);
    var e := EntryOfGroup(g, false);
    LastOfDistinct(g, 0);
    LastOfDistinct(g, 1);
    LastOfDistinct(g, 2);
    LastOfDistinct(g, 3);
    LastOfDistinct(g, 4);
    LastOfDistinct(g, 5);
  }

  lemma TwoEntries(g: seq<NumberedField>, h: seq<NumberedField>) returns (o: Outgoing, m: Msg)
    requires GroupsOfFields([g, h], false)
    ensures o == Outgoing("FIX.4.4", [Field(35, "X"), Field(268, "2")] + g + h)
    ensures Meaning(Wire(o)) == Parsed(m) && |m.entries| == 2
    ensures m.entries[0] == EntryOf(NEW_ENTRY, ToItems(g)) && m.entries[1] == EntryOf(NEW_ENTRY, ToItems(h))
  {
    var mm := ShortMarket("X", "2", [g, h]);
    o := AsOutgoing(mm);
    TwoFlat(g, h);
    MarketArrives(mm);
    ItemGroupAt([g, h], 0);
    ItemGroupAt([g, h], 1);
    DigitValue("2", 2);
    m := Meaning(Wire(o)).msg;
  }

  lemma TwoFlat(g: seq<NumberedField>, h: seq<NumberedField>)
    ensures [Field(35, "X")] + [Field(268, "2")] + FlatFields([g, h]) == [Field(35, "X"), Field(268, "2")] + g + h
  {
    assert [g, h][1..] == [h] && [h][1..] == [] && FlatFields([h]) == h;
  }

  lemma NewGroup() returns (g: seq<NumberedField>)
    ensures g == EntryFields("1", "a", "B", "0", "100.5", "2") && IsGroupOfFields(g, false) && FreeFields(g)
    ensures EntryOf(NEW_ENTRY, ToItems(g)) == MdEntry(1, "B", Bid, "100.5", "2", "a")
  {
    Prices();
    g := EntryFields("1", "a", "B", "0", "100.5", "2");
    EntryIsGroup("1", "a", "B", "0", "100.5", "2");
    EntryIsStored("1", "a", "B", "0", "100.5", "2");
  }

  lemma OldGroup() returns (h: seq<NumberedField>)
    ensures h == EntryFields("2", "b", "B", "1", "7", "0.5") && IsGroupOfFields(h, false) && FreeFields(h)
    ensures EntryOf(NEW_ENTRY, ToItems(h)) == MdEntry(2, "B", Ask, "7", "0.5", "b")
  {
    Prices();
    h := EntryFields("2", "b", "B", "1", "7", "0.5");
    EntryIsGroup("2", "b", "B", "1", "7", "0.5");
    EntryIsStored("2", "b", "B", "1", "7", "0.5");
  }

  /** Two groups are announced and follow: each is stored in its entry, with all its parts. */
  lemma Incremental() returns (o: Outgoing, m: Msg)
    ensures o == Outgoing("FIX.4.4", [Field(35, "X"), Field(268, "2")] + EntryFields("1", "a", "B", "0", "100.5", "2")
                                     + EntryFields("2", "b", "B", "1", "7", "0.5"))
    ensures Meaning(Wire(o)) == Parsed(m) && |m.entries| == 2
    ensures m.entries[0] == MdEntry(1, "B", Bid, "100.5", "2", "a")
    ensures m.entries[1] == MdEntry(2, "B", Ask, "7", "0.5", "b")
  {
    var g := NewGroup();
    var h := OldGroup();
    o, m := TwoEntries(g, h);
  }

  // ---------- a snapshot ----------

  lemma ItemText(tag: nat, number: string, value: string) returns (text: string)
    requires Dec(tag) == number
    ensures text == number + [EQUALS] + value + [SOH] && text == Print(ToItem(Field(tag, value)))
  {
    text := number + [EQUALS] + value + [SOH];
  }

  lemma SnapshotNumerals()
    ensures Dec(35) == "35" && Dec(268) == "268" && Dec(269) == "269" && Dec(270) == "270"
  {
    assert Dec(3) == "3" && Dec(2) == "2" && Dec(26) == "26" && Dec(27) == "27";
  }

  lemma FourItems(a: Item, b: Item, c: Item, d: Item)
    ensures PrintAll([a, b, c, d]) == Print(a) + (Print(b) + (Print(c) + Print(d)))
  {
    assert [a, b, c, d] == [a] + ([b] + ([c] + [d]));
    PrintCons(a, [b] + ([c] + [d]));
    PrintCons(b, [c] + [d]);
    PrintCons(c, [d]);
    PrintOne(d);
  }

  lemma SnapshotPieces(a: string, b: string, c: string, d: string)
    requires a == "35=W\U{01}" && b == "268=1\U{01}" && c == "269=0\U{01}" && d == "270=100.5\U{01}"
    ensures a + (b + (c + d)) == "35=W\U{01}268=1\U{01}269=0\U{01}270=100.5\U{01}"
  {
  }

  lemma SnapshotText(fs: seq<NumberedField>) returns (body: string)
    requires fs == [Field(35, "W"), Field(268, "1"), Field(269, "0"), Field(270, "100.5")]
    ensures body == "35=W\U{01}268=1\U{01}269=0\U{01}270=100.5\U{01}" && BodyText(fs) == body
  {
    SnapshotNumerals();
    var a := ItemText(35, "35", "W");
    var b := ItemText(268, "268", "1");
    var c := ItemText(269, "269", "0");
    var d := ItemText(270, "270", "100.5");
    FourItems(ToItem(fs[0]), ToItem(fs[1]), ToItem(fs[2]), ToItem(fs[3]));
    assert ToItems(fs) == [ToItem(fs[0]), ToItem(fs[1]), ToItem(fs[2]), ToItem(fs[3])];
    SnapshotPieces(a, b, c, d);
    body := a + (b + (c + d));
  }

  lemma SnapshotGroup(side: string, px: string) returns (g: seq<NumberedField>)
    requires FreeText(side) && FreeText(px) && IsNumber(px)
    ensures g == [Field(269, side), Field(270, px)] && GroupsOfFields([g], true)
    ensures EntryOf(NEW_ENTRY, ToItems(g)) == MdEntry(0, "", if side[0] == '0' then Bid else Ask, px, "", "")
  {
    g := [Field(269, side), Field(270, px)];
    ShortTextFree(side);
    ShortTextFree(px);
    var e := EntryOfGroup(g, true);
    LastOfDistinct(g, 0);
    LastOfDistinct(g, 1);
    LastOfAbsent(g, 271);
    LastOfAbsent(g, 278);
    LastOfAbsent(g, 55);
    LastOfAbsent(g, 279);
  }

  lemma OneEntry(g: seq<NumberedField>) returns (o: Outgoing, m: Msg)
    requires GroupsOfFields([g], true)
    ensures o == Outgoing("FIX.4.4", [Field(35, "W"), Field(268, "1")] + g)
    ensures Meaning(Wire(o)) == Parsed(m) && |m.entries| == 1
    ensures m.entries[0] == EntryOf(NEW_ENTRY, ToItems(g))
  {
    var mm := ShortMarket("W", "1", [g]);
    o := AsOutgoing(mm);
    OneFlat(g);
    MarketArrives(mm);
    ItemGroupAt([g], 0);
    DigitValue("1", 1);
    m := Meaning(Wire(o)).msg;
  }

  lemma OneFlat(g: seq<NumberedField>)
    ensures [Field(35, "W")] + [Field(268, "1")] + FlatFields([g]) == [Field(35, "W"), Field(268, "1")] + g
  {
    assert [g][1..] == [] && FlatFields([g]) == g;
  }

  /** A snapshot with one bid. */
  lemma Snapshot() returns (o: Outgoing, body: string, m: Msg)
    ensures o == Outgoing("FIX.4.4", [Field(35, "W"), Field(268, "1"), Field(269, "0"), Field(270, "100.5")])
    ensures body == "35=W\U{01}268=1\U{01}269=0\U{01}270=100.5\U{01}" && BodyText(o.fields) == body
    ensures Meaning(Wire(o)) == Parsed(m) && |m.entries| == 1
    ensures m.entries[0] == MdEntry(0, "", Bid, "100.5", "", "")
  {
    Prices();
    var g := SnapshotGroup("0", "100.5");
    o, m := OneEntry(g);
    body := SnapshotText(o.fields);
  }
}
