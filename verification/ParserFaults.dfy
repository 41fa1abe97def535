/** The frames on which the parser throws or leaves its vectors, and so stops the receive buffer. */
module ParserFaults {
  import opened Text
  import opened DecimalNumber
  import opened FixMessage
  import opened FixScanner
  import opened FieldMeaning
  import opened RepeatingGroups
  import opened MsgParser
  import opened Framing
  import opened FixEncoding
  import opened RoundTrip

  // ---------- one field ----------

  /** The field needs a current entry. */
  predicate NeedsEntry(m: Msg, t: nat) {
    || t == MD_ENTRY_PX || t == MD_ENTRY_SIZE || t == MD_ENTRY_ID
    || (t == MD_ENTRY_TYPE && !(m.isSnapshot && HasNext(m)))
  }

  /** Looks at the first character of the value. */
  predicate NeedsCharacter(m: Msg, t: nat) {
    t == MSG_TYPE || t == MD_ENTRY_TYPE || (t == MD_UPDATE_ACTION && HasNext(m))
  }

  /** The original leaves a vector or a buffer. */
  predicate Unsettable(m: Msg, t: nat, value: string) {
    || (NeedsEntry(m, t) && !InGroup(m))
    || (NeedsCharacter(m, t) && value == "")
  }

  /** lexical_cast throws. */
  predicate Unconvertible(m: Msg, t: nat, value: string) {
    (t == MD_ENTRY_PX || t == MD_ENTRY_SIZE) && InGroup(m) && !IsNumber(value)
  }

  predicate FailsWith(m: Msg, t: nat, value: string, kind: Failure) {
    match kind
    case Undefined => Unsettable(m, t, value)
    case Throws => Unconvertible(m, t, value)
  }

  /** The effect of a field is undefined exactly when it addresses an entry and no entry is current, or
      when the first character of an empty value is asked for; it throws exactly when it is a price or
      size of the current entry that is no number. */
  lemma SetFieldFails(m: Msg, t: nat, value: string, kind: Failure)
    ensures SetField(m, t, value) == Failed(kind) <==> FailsWith(m, t, value, kind)
  {
  }

  predicate ItemFails(m: Msg, it: Item, kind: Failure) {
    !Refusable(it) && it.tag != "" && FailsWith(m, NumParse(it.tag), it.value, kind)
  }

  lemma ItemFailsIff(m: Msg, it: Item, kind: Failure)
    ensures RunItem(m, it) == Failed(kind) <==> ItemFails(m, it, kind)
  {
    SetFieldFails(m, NumParse(it.tag), it.value, kind);
  }

  // ---------- runs of fields ----------

  /** Field i is reached, and fails on the message as it then is. */
  predicate FailsAt(m: Msg, items: seq<Item>, i: nat, kind: Failure)
    requires i < |items|
  {
    var o := RunItems(m, items[..i]);
    o.Parsed? && ItemFails(o.msg, items[i], kind)
  }

  ghost predicate FailsSomewhere(m: Msg, items: seq<Item>, kind: Failure) {
    exists i :: 0 <= i < |items| && FailsAt(m, items, i, kind)
  }

  lemma FailsAtCons(m: Msg, items: seq<Item>, i: nat, kind: Failure)
    requires 0 < i < |items|
    ensures var o := RunItem(m, items[0]);
            FailsAt(m, items, i, kind) <==> o.Parsed? && FailsAt(o.msg, items[1..], i - 1, kind)
  {
    var s := items[..i];
    assert s[0] == items[0] && s[1..] == items[1..][..i - 1];
  }

  lemma FailsCons(m: Msg, items: seq<Item>, kind: Failure)
    requires items != []
    ensures var o := RunItem(m, items[0]);
            FailsSomewhere(m, items, kind) <==>
            ItemFails(m, items[0], kind) || (o.Parsed? && FailsSomewhere(o.msg, items[1..], kind))
  {
    var o, rest := RunItem(m, items[0]), items[1..];
    assert FailsAt(m, items, 0, kind) <==> ItemFails(m, items[0], kind);
    forall i | 0 < i < |items|
      ensures FailsAt(m, items, i, kind) <==> o.Parsed? && FailsAt(o.msg, rest, i - 1, kind)
    {
      FailsAtCons(m, items, i, kind);
    }
    if o.Parsed? && FailsSomewhere(o.msg, rest, kind) {
      var i :| 0 <= i < |rest| && FailsAt(o.msg, rest, i, kind);
      assert FailsAt(m, items, i + 1, kind);
    }
  }

  /** A run fails, either way, if and only if some field that is reached fails like that where it stands. */
  lemma {:induction false} RunFails(m: Msg, items: seq<Item>, kind: Failure)
    ensures RunItems(m, items) == Failed(kind) <==> FailsSomewhere(m, items, kind)
    decreases |items|
  {
    if items != [] {
      var it := items[0];
      FailsCons(m, items, kind);
      ItemFailsIff(m, it, kind);
      if RunItem(m, it).Parsed? {
        RunFails(RunItem(m, it).msg, items[1..], kind);
      }
    }
  }

  // ---------- the index of the current entry ----------

  /** After i fields, if they can be set, the index is inside the vector. */
  predicate InsideAt(m: Msg, items: seq<Item>, i: nat)
    requires i <= |items|
  {
    var o := RunItems(m, items[..i]);
    o.Parsed? ==> o.msg.entryIndex < |o.msg.entries|
  }

  /** Field i is reached and announces no more entries than are already open. */
  predicate ShrinksAt(m: Msg, items: seq<Item>, i: nat)
    requires i < |items|
  {
    var o := RunItems(m, items[..i]);
    && o.Parsed? && RunItem(o.msg, items[i]).Parsed?
    && HasTag(items[i], NO_MD_ENTRIES) && NumParse(items[i].value) <= o.msg.entryIndex
  }

  lemma InsideNext(m: Msg, items: seq<Item>, i: nat)
    requires i < |items| && InsideAt(m, items, i)
    ensures InsideAt(m, items, i + 1) <==> !ShrinksAt(m, items, i)
  {
    var o, it := RunItems(m, items[..i]), items[i];
    assert items[..i + 1] == items[..i] + [it];
    RunAppend(m, items[..i], [it]);
    assert [it][1..] == [];
    if o.Parsed? && RunItem(o.msg, it).Parsed? {
      IndexStaysInside(o.msg, it);
    }
  }

  lemma {:induction false} InsideUpTo(m: Msg, items: seq<Item>, i: nat)
    requires m.entryIndex < |m.entries| && i <= |items|
    requires forall j :: 0 <= j < i ==> !ShrinksAt(m, items, j)
    ensures InsideAt(m, items, i)
  {
    if i > 0 {
      InsideUpTo(m, items, i - 1);
      InsideNext(m, items, i - 1);
    }
  }

  /** Throughout a run the index is inside the vector if and only if no field announces fewer
      entries than are open already. */
  lemma IndexInsideIff(m: Msg, items: seq<Item>)
    requires m.entryIndex < |m.entries|
    ensures (forall i :: 0 <= i <= |items| ==> InsideAt(m, items, i)) <==>
            (forall i :: 0 <= i < |items| ==> !ShrinksAt(m, items, i))
  {
    if forall i :: 0 <= i < |items| ==> !ShrinksAt(m, items, i) {
      forall i | 0 <= i <= |items|
        ensures InsideAt(m, items, i)
      {
        InsideUpTo(m, items, i);
      }
    } else {
      var i :| 0 <= i < |items| && ShrinksAt(m, items, i);
      if InsideAt(m, items, i) {
        InsideNext(m, items, i);
      }
    }
  }

  // ---------- frames ----------

  /** The unterminated last field, "tag=", is reached and fails with the empty value. */
  predicate TailFails(o: Outcome, tail: string, kind: Failure) {
    var e := Find(tail, 0, '=');
    && o.Parsed? && e + 1 == |tail|
    && NumParse(Slice(tail, 0, e)) < MAX_TAG_NUM && FailsWith(o.msg, NumParse(Slice(tail, 0, e)), "", kind)
  }

  ghost predicate Faulty(frame: string, kind: Failure) {
    || FailsSomewhere(EMPTY_MSG, Items(frame), kind)
    || TailFails(RunItems(EMPTY_MSG, Items(frame)), Tail(frame), kind)
  }

  lemma MeaningFails(frame: string, kind: Failure)
    ensures Meaning(frame) == Failed(kind) <==> Faulty(frame, kind)
  {
    var o, tail := RunItems(EMPTY_MSG, Items(frame)), Tail(frame);
    RunFails(EMPTY_MSG, Items(frame), kind);
    var e := Find(tail, 0, '=');
    if o.Parsed? && e + 1 == |tail| {
      SetFieldFails(o.msg, NumParse(Slice(tail, 0, e)), "", kind);
    }
  }

  ghost predicate Sound(frame: string) {
    !Faulty(frame, Throws) && !Faulty(frame, Undefined)
  }

  /** Frame i is the first that is not sound, and fails so. */
  ghost predicate StopsAt(frames: seq<string>, i: nat, kind: Failure)
    requires i < |frames|
  {
    Faulty(frames[i], kind) && forall j :: 0 <= j < i ==> Sound(frames[j])
  }

  lemma StopsAtCons(frames: seq<string>, i: nat, kind: Failure)
    requires 0 < i < |frames|
    ensures StopsAt(frames, i, kind) <==> Sound(frames[0]) && StopsAt(frames[1..], i - 1, kind)
  {
    var rest := frames[1..];
    assert forall j :: 1 <= j < |frames| ==> frames[j] == rest[j - 1];
    assert forall j :: 0 <= j < |rest| ==> rest[j] == frames[j + 1];
  }

  /** Processing frames stops, either way, if and only if behind sound frames comes one that fails so. */
  lemma {:induction false} StopsIff(frames: seq<string>, kind: Failure)
    ensures EndingOf(frames) == Stopped(kind) <==> exists i :: 0 <= i < |frames| && StopsAt(frames, i, kind)
    decreases |frames|
  {
    if frames != [] {
      var rest := frames[1..];
      MeaningFails(frames[0], Throws);
      MeaningFails(frames[0], Undefined);
      KindCases(Meaning(frames[0]));
      StopsIff(rest, kind);
      assert StopsAt(frames, 0, kind) <==> Faulty(frames[0], kind);
      forall i | 0 < i < |frames|
        ensures StopsAt(frames, i, kind) <==> Sound(frames[0]) && StopsAt(rest, i - 1, kind)
      {
        StopsAtCons(frames, i, kind);
      }
      if i :| 0 <= i < |rest| && StopsAt(rest, i, kind) && Sound(frames[0]) {
        assert StopsAt(frames, i + 1, kind);
      }
    }
  }

  lemma KindCases(o: Outcome)
    ensures o.Failed? ==> o == Failed(Throws) || o == Failed(Undefined)
  {
    if o.Failed? {
      match o.kind
      case Throws =>
      case Undefined =>
    }
  }

  /** It completes if and only if every frame is sound. */
  lemma {:induction false} ReturnsIff(frames: seq<string>)
    ensures Returns(frames) <==> forall i :: 0 <= i < |frames| ==> Sound(frames[i])
    decreases |frames|
  {
    if frames != [] {
      var rest := frames[1..];
      MeaningFails(frames[0], Throws);
      MeaningFails(frames[0], Undefined);
      KindCases(Meaning(frames[0]));
      ReturnsIff(rest);
      assert forall i :: 1 <= i < |frames| ==> frames[i] == rest[i - 1];
      assert forall i :: 0 <= i < |rest| ==> rest[i] == frames[i + 1];
    }
  }

  // ---------- two frames that fail ----------

  /** Setting numbered fields one after the other. */
  function SetFields(m: Msg, fs: seq<NumberedField>): Outcome
    decreases |fs|
  {
    if fs == [] then Parsed(m)
    else
      var o := SetField(m, fs[0].tag, fs[0].value);
      if o.Parsed? then SetFields(o.msg, fs[1..]) else o
  }

  ghost predicate Settable(fs: seq<NumberedField>) {
    forall i :: 0 <= i < |fs| ==> fs[i].value != "" && fs[i].tag < MAX_TAG_NUM
  }

  lemma {:induction false} SetFieldsIsRun(m: Msg, fs: seq<NumberedField>)
    requires Settable(fs)
    ensures RunItems(m, ToItems(fs)) == SetFields(m, fs)
    decreases |fs|
  {
    if fs != [] {
      var f, rest := fs[0], fs[1..];
      assert ToItems(fs)[1..] == ToItems(rest) && ToItems(fs)[0] == ToItem(f);
      ParseDec(f.tag);
      var o := SetField(m, f.tag, f.value);
      if o.Parsed? {
        SetFieldsIsRun(o.msg, rest);
      }
    }
  }

  /** The fields in front of the first group, which none has been opened by. */
  lemma BeforeGroups(o: Outgoing) returns (m: Msg)
    requires o.version != ""
    ensures RunItems(EMPTY_MSG, HeadItems(o.version, |BodyText(o.fields)|)) == Parsed(m)
    ensures m.entries == [] && m.entryIndex == -1 && !m.isSnapshot
  {
    var n := |BodyText(o.fields)|;
    var fs := [Field(BEGIN_STRING, o.version), Field(BODY_LENGTH, Dec(n))];
    HeadFromFields(o.version, n);
    SetFieldsIsRun(EMPTY_MSG, fs);
    var m1 := SetField(EMPTY_MSG, BEGIN_STRING, o.version).msg;
    assert fs[1..] == [fs[1]];
    assert SetFields(EMPTY_MSG, fs) == SetFields(m1, [fs[1]]);
    m := SetField(m1, BODY_LENGTH, Dec(n)).msg;
    assert SetFields(m1, [fs[1]]) == Parsed(m);
  }

  /** When the fields of a message fail behind the header, its text is a frame that fails. */
  lemma WireFails(o: Outgoing, m: Msg, kind: Failure)
    requires o.version != "" && SohFree(o.version, o.fields) && Settable(o.fields)
    requires forall i :: 0 <= i < |o.fields| ==> o.fields[i].tag != CHECK_SUM
    requires RunItems(EMPTY_MSG, HeadItems(o.version, |BodyText(o.fields)|)) == Parsed(m)
    requires SetFields(m, o.fields) == Failed(kind)
    ensures IsFrame(Wire(o)) && Meaning(Wire(o)) == Failed(kind)
  {
    var body := BodyText(o.fields);
    var head, mid, last := HeadItems(o.version, |body|), ToItems(o.fields), LastItem(o.version, body);
    EncodeIsFrame(o.version, o.fields);
    MeaningOfWire(o);
    SetFieldsIsRun(m, o.fields);
    RunAppend(EMPTY_MSG, head, mid);
    RunAppend(EMPTY_MSG, head + mid, [last]);
  }

  function Announce(n: string): NumberedField {
    Field(NO_MD_ENTRIES, n)
  }

  lemma Numbers()
    ensures NumParse("1") == 1 && NumParse("0") == 0
  {
    ParseDec(1);
    ParseDec(0);
    assert Dec(1) == "1" && Dec(0) == "0";
  }

  lemma PlainText(s: string)
    requires forall i :: 0 <= i < |s| ==> s[i] != SOH
    ensures Find(s, 0, SOH) == |s|
  {
    FindUnique(s, 0, SOH, |s|);
  }

  /** A message whose fields have values of one character, and the state its header leaves. */
  lemma SmallMessage(fs: seq<NumberedField>) returns (o: Outgoing, m: Msg)
    requires forall i :: 0 <= i < |fs| ==>
               |fs[i].value| == 1 && fs[i].value[0] != SOH && fs[i].tag < MAX_TAG_NUM && fs[i].tag != CHECK_SUM
    ensures o == Outgoing("FIX.4.4", fs) && SohFree(o.version, fs) && Settable(fs)
    ensures RunItems(EMPTY_MSG, HeadItems(o.version, |BodyText(fs)|)) == Parsed(m)
    ensures m.entries == [] && m.entryIndex == -1 && !m.isSnapshot
  {
    o := Outgoing("FIX.4.4", fs);
    PlainText("FIX.4.4");
    forall i | 0 <= i < |fs|
      ensures Find(fs[i].value, 0, SOH) == |fs[i].value|
    {
      PlainText(fs[i].value);
    }
    m := BeforeGroups(o);
  }

  /** Two announcements, the second smaller: the entry id is then written outside the vector. */
  lemma ShrinkingFails() returns (o: Outgoing)
    ensures o.fields == [Announce("1"), Field(MD_UPDATE_ACTION, "0"), Announce("0"), Field(MD_ENTRY_ID, "5")]
    ensures IsFrame(Wire(o)) && Meaning(Wire(o)) == Failed(Undefined)
  {
    var m;
    o, m := SmallMessage([Announce("1"), Field(MD_UPDATE_ACTION, "0"), Announce("0"), Field(MD_ENTRY_ID, "5")]);
    Shrinking(m, o.fields);
    WireFails(o, m, Undefined);
  }

  lemma Shrinking(m: Msg, fs: seq<NumberedField>)
    requires m.entries == [] && m.entryIndex == -1
    requires fs == [Announce("1"), Field(MD_UPDATE_ACTION, "0"), Announce("0"), Field(MD_ENTRY_ID, "5")]
    ensures SetFields(m, fs) == Failed(Undefined)
  {
    Numbers();
    var m1 := SetField(m, NO_MD_ENTRIES, "1").msg;
    var m2 := SetField(m1, MD_UPDATE_ACTION, "0").msg;
    var m3 := SetField(m2, NO_MD_ENTRIES, "0").msg;
    assert fs[1..][1..][1..] == fs[3..] && fs[1..][1..] == fs[2..];
    assert SetFields(m3, fs[3..]) == Failed(Undefined);
    assert SetFields(m2, fs[2..]) == SetFields(m3, fs[3..]);
    assert SetFields(m1, fs[1..]) == SetFields(m2, fs[2..]);
  }

  /** A price that is no number. */
  lemma BadPriceThrows() returns (o: Outgoing)
    ensures o.fields == [Announce("1"), Field(MD_UPDATE_ACTION, "0"), Field(MD_ENTRY_PX, "x")]
    ensures IsFrame(Wire(o)) && Meaning(Wire(o)) == Failed(Throws)
  {
    var m;
    o, m := SmallMessage([Announce("1"), Field(MD_UPDATE_ACTION, "0"), Field(MD_ENTRY_PX, "x")]);
    BadPrice(m, o.fields);
    WireFails(o, m, Throws);
  }

  lemma BadPrice(m: Msg, fs: seq<NumberedField>)
    requires m.entries == [] && m.entryIndex == -1
    requires fs == [Announce("1"), Field(MD_UPDATE_ACTION, "0"), Field(MD_ENTRY_PX, "x")]
    ensures SetFields(m, fs) == Failed(Throws)
  {
    Numbers();
    var m1 := SetField(m, NO_MD_ENTRIES, "1").msg;
    var m2 := SetField(m1, MD_UPDATE_ACTION, "0").msg;
    assert fs[1..][1..] == fs[2..];
    assert !IsNumber("x") by {
      assert NumberFrom(Start, "x", 0) == NumberFrom(Bad, "x", 1);
    }
    assert SetFields(m2, fs[2..]) == Failed(Throws);
    assert SetFields(m1, fs[1..]) == SetFields(m2, fs[2..]);
  }
}
