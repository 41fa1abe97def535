/** loginRequest of the stand-alone client: the same message by plain concatenation. */
module Login {
  import opened Text
  import opened FixMessage
  import opened Checksum
  import opened FixEncoding
  import opened Framing
  import opened MsgParser
  import opened RoundTrip

  function LoginFields(sendTime: string): seq<NumberedField> {
    [Field(35, "A"), Field(34, "1"), Field(49, "GALAXY-TEST-MD"), Field(56, "BAXTER"), Field(98, "0"),
     Field(108, "30"), Field(141, "Y"), Field(52, sendTime), Field(8013, "Y")]
  }

  /** The text as the string streams build it: body, then header and body, then trailer. */
  function LoginRequest(sendTime: string): string {
    var msg := LoginBody(sendTime);
    var hdr := "8=FIX.4.4" + [SOH] + "9=" + Dec(|msg|) + [SOH] + msg;
    hdr + "10=" + ZeroPad(3, CheckSum(hdr)) + [SOH]
  }

  lemma Numerals()
    ensures Dec(35) == "35" && Dec(34) == "34" && Dec(49) == "49" && Dec(56) == "56" && Dec(98) == "98"
    ensures Dec(108) == "108" && Dec(141) == "141" && Dec(52) == "52" && Dec(8013) == "8013"
  {
    assert Dec(3) == "3" && Dec(4) == "4" && Dec(5) == "5" && Dec(9) == "9" && Dec(1) == "1" && Dec(8) == "8";
    assert Dec(10) == "10" && Dec(14) == "14" && Dec(80) == "80" && Dec(801) == "801";
  }

  lemma TextIs(tag: nat, number: string, value: string, text: string)
    requires Dec(tag) == number && number + [EQUALS] + value == text
    ensures FieldText(tag, value) == text + [SOH]
  {
  }

  lemma SessionTexts()
    ensures FieldText(35, "A") == "35=A" + [SOH] && FieldText(34, "1") == "34=1" + [SOH]
  {
    Numerals();
    TextIs(35, "35", "A", "35=A");
    TextIs(34, "34", "1", "34=1");
  }

  lemma PartyTexts()
    ensures FieldText(49, "GALAXY-TEST-MD") == "49=GALAXY-TEST-MD" + [SOH]
    ensures FieldText(56, "BAXTER") == "56=BAXTER" + [SOH]
  {
    Numerals();
    TextIs(49, "49", "GALAXY-TEST-MD", "49=GALAXY-TEST-MD");
    TextIs(56, "56", "BAXTER", "56=BAXTER");
  }

  lemma LogonTexts(sendTime: string)
    ensures FieldText(98, "0") == "98=0" + [SOH] && FieldText(108, "30") == "108=30" + [SOH]
    ensures FieldText(141, "Y") == "141=Y" + [SOH] && FieldText(52, sendTime) == "52=" + sendTime + [SOH]
    ensures FieldText(8013, "Y") == "8013=Y" + [SOH]
  {
    Numerals();
    assert "52" + [EQUALS] == "52=";
  }

  /** Streaming `text` and a delimiter adds the field that prints like that. */
  lemma StreamField(x: string, fs: seq<NumberedField>, f: NumberedField, text: string)
    returns (y: string, gs: seq<NumberedField>)
    requires x == BodyText(fs) && FieldText(f.tag, f.value) == text + [SOH]
    ensures y == x + text + [SOH] && gs == fs + [f] && y == BodyText(gs)
  {
    y, gs := x + text + [SOH], fs + [f];
    assert ToItems(gs) == ToItems(fs) + [ToItem(f)];
    PrintAppend(ToItems(fs), [ToItem(f)]);
    PrintOne(ToItem(f));
    Assoc(x, text, [SOH]);
  }

  function LoginBody(sendTime: string): string {
    "35=A" + [SOH] + "34=1" + [SOH] + "49=GALAXY-TEST-MD" + [SOH] + "56=BAXTER" + [SOH]
    + "98=0" + [SOH] + "108=30" + [SOH] + "141=Y" + [SOH] + "52=" + sendTime + [SOH]
    + "8013=Y" + [SOH]
  }

  lemma SessionPart() returns (x: string, fs: seq<NumberedField>)
    ensures x == "35=A" + [SOH] + "34=1" + [SOH] + "49=GALAXY-TEST-MD" + [SOH] + "56=BAXTER" + [SOH]
    ensures fs == [Field(35, "A"), Field(34, "1"), Field(49, "GALAXY-TEST-MD"), Field(56, "BAXTER")]
    ensures x == BodyText(fs)
  {
    SessionTexts();
    PartyTexts();
    Unit("35=A");
    x, fs := StreamField("", [], Field(35, "A"), "35=A");
    x, fs := StreamField(x, fs, Field(34, "1"), "34=1");
    x, fs := StreamField(x, fs, Field(49, "GALAXY-TEST-MD"), "49=GALAXY-TEST-MD");
    x, fs := StreamField(x, fs, Field(56, "BAXTER"), "56=BAXTER");
  }

  lemma LoginBodyText(sendTime: string)
    ensures LoginBody(sendTime) == BodyText(LoginFields(sendTime))
  {
    LogonTexts(sendTime);
    var x, fs := SessionPart();
    x, fs := StreamField(x, fs, Field(98, "0"), "98=0");
    x, fs := StreamField(x, fs, Field(108, "30"), "108=30");
    x, fs := StreamField(x, fs, Field(141, "Y"), "141=Y");
    Assoc(x, "52=", sendTime);
    x, fs := StreamField(x, fs, Field(52, sendTime), "52=" + sendTime);
    x, fs := StreamField(x, fs, Field(8013, "Y"), "8013=Y");
    assert fs == LoginFields(sendTime);
  }

  /** The stand-alone client sends the very text FixBuilder makes of the same fields. */
  lemma LoginIsEncode(sendTime: string)
    ensures LoginRequest(sendTime) == Encode("FIX.4.4", BodyText(LoginFields(sendTime)))
  {
    var body := LoginBody(sendTime);
    LoginBodyText(sendTime);
    HeaderText("FIX.4.4", |body|);
    assert "8=" + "FIX.4.4" == "8=FIX.4.4";
    var hdr := Header("FIX.4.4", |body|) + body;
    TrailerText(CheckSum(hdr));
    Assoc(hdr, "10=", ZeroPad(3, CheckSum(hdr)));
    Assoc(hdr, "10=" + ZeroPad(3, CheckSum(hdr)), [SOH]);
  }

  lemma LoginValues()
    ensures Find("FIX.4.4", 0, SOH) == 7 && Find("A", 0, SOH) == 1 && Find("1", 0, SOH) == 1
    ensures Find("GALAXY-TEST-MD", 0, SOH) == 14 && Find("BAXTER", 0, SOH) == 6
    ensures Find("0", 0, SOH) == 1 && Find("30", 0, SOH) == 2 && Find("Y", 0, SOH) == 1
  {
    FindUnique("FIX.4.4", 0, SOH, 7);
    FindUnique("A", 0, SOH, 1);
    FindUnique("1", 0, SOH, 1);
    FindUnique("GALAXY-TEST-MD", 0, SOH, 14);
    FindUnique("BAXTER", 0, SOH, 6);
    FindUnique("0", 0, SOH, 1);
    FindUnique("30", 0, SOH, 2);
    FindUnique("Y", 0, SOH, 1);
  }

  lemma LoginIsReadable(sendTime: string) returns (o: Outgoing)
    requires sendTime != "" && Find(sendTime, 0, SOH) == |sendTime|
    ensures o == Outgoing("FIX.4.4", LoginFields(sendTime)) && Readable(o)
  {
    o := Outgoing("FIX.4.4", LoginFields(sendTime));
    LoginValues();
  }

  lemma LoginIsDistinct(sendTime: string)
    ensures Distinct(LoginFields(sendTime)) && !SymbolBehindList(LoginFields(sendTime))
  {
  }

  predicate Holds(m: Msg, tag: nat, value: string) {
    tag in m.available && tag in m.fields && m.fields[tag] == value
  }

  lemma LoginRecovered(sendTime: string) returns (o: Outgoing, m: Msg)
    requires sendTime != "" && Find(sendTime, 0, SOH) == |sendTime|
    ensures o == Outgoing("FIX.4.4", LoginFields(sendTime)) && Readable(o) && Distinct(o.fields)
    ensures IsFrame(Wire(o)) && Meaning(Wire(o)) == Parsed(m) && Recovers(m, o) && LoginRequest(sendTime) == Wire(o)
  {
    LoginIsEncode(sendTime);
    o := LoginIsReadable(sendTime);
    LoginIsDistinct(sendTime);
    MessageArrives(o);
    DistinctRecovers(o);
    m := Meaning(Wire(o)).msg;
  }

  lemma FieldHolds(m: Msg, o: Outgoing, i: nat, tag: nat, value: string)
    requires Readable(o) && Distinct(o.fields) && Recovers(m, o)
    requires i < |o.fields| && o.fields[i] == Field(tag, value)
    ensures Holds(m, tag, value)
  {
    DistinctFieldsComeBack(m, o, i);
  }

  ghost predicate Recovered(m: Msg, o: Outgoing, sendTime: string) {
    o == Outgoing("FIX.4.4", LoginFields(sendTime)) && Readable(o) && Distinct(o.fields) && Recovers(m, o)
  }

  lemma SessionFields(m: Msg, o: Outgoing, sendTime: string)
    requires Recovered(m, o, sendTime)
    ensures Holds(m, 35, "A") && Holds(m, 34, "1") && Holds(m, 49, "GALAXY-TEST-MD") && Holds(m, 56, "BAXTER")
  {
    FieldHolds(m, o, 0, 35, "A");
    FieldHolds(m, o, 1, 34, "1");
    FieldHolds(m, o, 2, 49, "GALAXY-TEST-MD");
    FieldHolds(m, o, 3, 56, "BAXTER");
  }

  lemma LogonFields(m: Msg, o: Outgoing, sendTime: string)
    requires Recovered(m, o, sendTime)
    ensures Holds(m, 98, "0") && Holds(m, 108, "30") && Holds(m, 141, "Y")
    ensures Holds(m, 52, sendTime) && Holds(m, 8013, "Y")
  {
    FieldHolds(m, o, 4, 98, "0");
    FieldHolds(m, o, 5, 108, "30");
    FieldHolds(m, o, 6, 141, "Y");
    FieldHolds(m, o, 7, 52, sendTime);
    FieldHolds(m, o, 8, 8013, "Y");
  }

  lemma VersionField(m: Msg, o: Outgoing)
    requires Recovers(m, o)
    ensures Holds(m, 8, o.version)
  {
    assert FieldRecovered(m, o, o.fields, 8);
  }

  /** It is one frame, and parsing it yields its fields. */
  lemma LoginArrives(sendTime: string) returns (m: Msg)
    requires sendTime != "" && Find(sendTime, 0, SOH) == |sendTime|
    ensures IsFrame(LoginRequest(sendTime)) && Meaning(LoginRequest(sendTime)) == Parsed(m)
    ensures Holds(m, 8, "FIX.4.4") && Holds(m, 35, "A") && Holds(m, 34, "1") && Holds(m, 49, "GALAXY-TEST-MD")
    ensures Holds(m, 56, "BAXTER") && Holds(m, 98, "0") && Holds(m, 108, "30") && Holds(m, 141, "Y")
    ensures Holds(m, 52, sendTime) && Holds(m, 8013, "Y")
  {
    var o;
    o, m := LoginRecovered(sendTime);
    VersionField(m, o);
    SessionFields(m, o, sendTime);
    LogonFields(m, o, sendTime);
  }
}
