/** The text of a FIX message, as plain concatenation (the way loginRequest writes it), and what
    the framer and the parser make of it. */
module FixEncoding {
  import opened Text
  import opened FixMessage
  import opened FixScanner
  import opened Framing
  import opened Checksum

  type NumberedField = Field<nat, string>

  function ToItem(f: NumberedField): Item {
    Field(Dec(f.tag), f.value)
  }

  function ToItems(fs: seq<NumberedField>): (r: seq<Item>)
    ensures |r| == |fs|
    ensures forall i :: 0 <= i < |fs| ==> r[i] == ToItem(fs[i])
  {
    seq(|fs|, i requires 0 <= i < |fs| => ToItem(fs[i]))
  }

  function FieldText(tag: nat, value: string): string {
    Print(ToItem(Field(tag, value)))
  }

  function BodyText(fs: seq<NumberedField>): string {
    PrintAll(ToItems(fs))
  }

  function Header(version: string, bodyLength: nat): string {
    FieldText(BEGIN_STRING, version) + FieldText(BODY_LENGTH, Dec(bodyLength))
  }

  function Trailer(checkSum: nat): string {
    FieldText(CHECK_SUM, ZeroPad(3, checkSum))
  }

  /** Header, body and trailer; BodyLength counts the body, CheckSum sums all before "10=". */
  function Encode(version: string, body: string): string {
    var pre := Header(version, |body|) + body;
    pre + Trailer(CheckSum(pre))
  }

  lemma HeaderText(version: string, n: nat)
    ensures Header(version, n) == "8=" + version + [SOH] + "9=" + Dec(n) + [SOH]
  {
    assert Dec(8) == "8" && Dec(9) == "9";
    assert "8" + [EQUALS] == "8=" && "9" + [EQUALS] == "9=";
    assert FieldText(BEGIN_STRING, version) == "8=" + version + [SOH];
    assert FieldText(BODY_LENGTH, Dec(n)) == "9=" + Dec(n) + [SOH];
  }

  lemma TrailerText(c: nat)
    requires c < 256
    ensures Trailer(c) == "10=" + ZeroPad(3, c) + [SOH] && |Trailer(c)| == 7
  {
    assert Dec(10) == "1" + "0" by {
      assert Dec(1) == "1";
    }
    assert "1" + "0" + [EQUALS] == "10=";
    CheckSumDigits(c);
  }

  // ---------- the whole message as items ----------

  function MessageItems(version: string, fs: seq<NumberedField>): seq<Item> {
    var body := BodyText(fs);
    HeadItems(version, |body|) + ToItems(fs) + [LastItem(version, body)]
  }

  function HeadItems(version: string, bodyLength: nat): seq<Item> {
    [ToItem(Field(BEGIN_STRING, version)), ToItem(Field(BODY_LENGTH, Dec(bodyLength)))]
  }

  function LastItem(version: string, body: string): Item {
    ToItem(Field(CHECK_SUM, ZeroPad(3, CheckSum(Header(version, |body|) + body))))
  }

  lemma {:induction false} PrintAppend(a: seq<Item>, b: seq<Item>)
    ensures PrintAll(a + b) == PrintAll(a) + PrintAll(b)
  {
    if a == [] {
      assert a + b == b;
      Unit(PrintAll(b));
    } else {
      assert (a + b)[1..] == a[1..] + b;
      PrintAppend(a[1..], b);
      Assoc(Print(a[0]), PrintAll(a[1..]), PrintAll(b));
    }
  }

  lemma PrintOne(it: Item)
    ensures PrintAll([it]) == Print(it)
  {
    PrintCons(it, []);
    Unit(Print(it));
    Unit([it]);
  }

  lemma EncodeIsItems(version: string, fs: seq<NumberedField>)
    ensures Encode(version, BodyText(fs)) == PrintAll(MessageItems(version, fs))
  {
    var body := BodyText(fs);
    var head := HeadItems(version, |body|);
    var a, b := head[0], head[1];
    PrintOne(b);
    PrintCons(a, [b]);
    assert head == [a] + [b];
    PrintAppend(head, ToItems(fs));
    PrintOne(LastItem(version, body));
    PrintAppend(head + ToItems(fs), [LastItem(version, body)]);
  }

  // ---------- it is exactly one frame ----------

  /** Neither the tag nor the value can be mistaken for a delimiter. */
  predicate Clean(it: Item) {
    WellFormed(it) && Find(it.tag, 0, SOH) == |it.tag|
  }

  ghost predicate AllClean(items: seq<Item>) {
    forall i :: 0 <= i < |items| ==> Clean(items[i])
  }

  predicate IsTen(it: Item) {
    it.tag == ['1', '0']
  }

  lemma {:induction false} NoNeedleUpTo(s: string, i: nat, e: nat)
    requires i <= e <= |s| && e <= Find(s, i, SOH)
    ensures MemMem(s, i) == MemMem(s, e)
    decreases e - i
  {
    if i < e {
      NoNeedleUpTo(s, i + 1, e);
    }
  }

  /** The only SOH of a clean item is its last character. */
  lemma FirstSoh(s: string, i: nat, it: Item)
    requires Clean(it) && i + |Print(it)| <= |s|
    requires Slice(s, i, i + |Print(it)|) == Print(it)
    ensures Find(s, i, SOH) == i + |Print(it)| - 1
  {
    FindInItem(s, i, it);
    SkipSlice(s, i, i + |it.tag|, SOH);
  }

  /** A needle in front of an item is an item with tag 10. */
  lemma NeedleBefore(s: string, i: nat, it: Item)
    requires 0 < i && i + |Print(it)| <= |s| && s[i - 1] == SOH && Clean(it)
    requires Slice(s, i, i + |Print(it)|) == Print(it)
    ensures NeedleAt(s, i - 1) <==> IsTen(it)
  {
    FindInItem(s, i, it);
    if NeedleAt(s, i - 1) {
      FindAtMost(s, i, '=', i + 2);
      SliceIs(s, i, i + 2);
    }
    if IsTen(it) {
      SliceIs(s, i, i + 2);
      assert s[i] == s[i..i + 2][0] && s[i + 1] == s[i..i + 2][1];
    }
  }

  /** The first of two printed pieces stands where the rest of s starts. */
  lemma FirstPrinted(s: string, i: nat, items: seq<Item>)
    requires i <= |s| && items != [] && Slice(s, i, |s|) == PrintAll(items)
    ensures i + |Print(items[0])| <= |s|
    ensures Slice(s, i, i + |Print(items[0])|) == Print(items[0])
    ensures Slice(s, i + |Print(items[0])|, |s|) == PrintAll(items[1..])
  {
    PeelFirst(s, i, Print(items[0]), PrintAll(items[1..]));
  }

  /** No needle before the end of the first of two items, and one there when the second has tag 10. */
  lemma NeedleStep(s: string, i: nat, items: seq<Item>)
    requires i <= |s| && |items| >= 2 && Slice(s, i, |s|) == PrintAll(items) && AllClean(items)
    ensures var e := i + |Print(items[0])| - 1;
            && e < |s| && Slice(s, e + 1, |s|) == PrintAll(items[1..])
            && MemMem(s, i) == MemMem(s, e) && (NeedleAt(s, e) <==> IsTen(items[1]))
  {
    var it, rest := items[0], items[1..];
    var e := i + |Print(it)| - 1;
    FirstPrinted(s, i, items);
    assert Clean(it) && rest[0] == items[1] && Clean(items[1]);
    FirstSoh(s, i, it);
    NoNeedleUpTo(s, i, e);
    FirstPrinted(s, e + 1, rest);
    NeedleBefore(s, e + 1, rest[0]);
  }

  /** The first needle stands in front of the first item, but the very first, that has tag 10. */
  lemma {:induction false} FirstNeedle(s: string, i: nat, items: seq<Item>, k: nat)
    requires i <= |s| && Slice(s, i, |s|) == PrintAll(items) && AllClean(items)
    requires 1 <= k < |items| && IsTen(items[k])
    requires forall j :: 1 <= j < k ==> !IsTen(items[j])
    ensures MemMem(s, i) == Some(i + |PrintAll(items[..k])| - 1)
    decreases k
  {
    var it, rest := items[0], items[1..];
    NeedleStep(s, i, items);
    assert items[..k] == [it] + rest[..k - 1];
    PrintCons(it, rest[..k - 1]);
    if k > 1 {
      assert rest[k - 1] == items[k];
      assert forall j :: 1 <= j < k - 1 ==> rest[j] == items[j + 1];
      FirstNeedle(s, i + |Print(it)|, rest, k - 1);
      NeedleAtOnly(s, i + |Print(it)| - 1);
    }
  }

  lemma NeedleAtOnly(s: string, e: nat)
    requires e < |s| && !NeedleAt(s, e)
    ensures MemMem(s, e) == MemMem(s, e + 1)
  {
  }

  ghost predicate SohFree(version: string, fs: seq<NumberedField>) {
    && Find(version, 0, SOH) == |version|
    && forall i :: 0 <= i < |fs| ==> Find(fs[i].value, 0, SOH) == |fs[i].value|
  }

  lemma CleanItem(tag: nat, value: string)
    requires Find(value, 0, SOH) == |value|
    ensures Clean(ToItem(Field(tag, value)))
    ensures IsTen(ToItem(Field(tag, value))) <==> tag == CHECK_SUM
  {
    DigitsFree(Dec(tag));
    ParseDec(tag);
    assert Dec(10) == ['1', '0'] by {
      assert Dec(1) == "1";
    }
  }

  lemma DigitsFree(s: string)
    requires AllDigits(s)
    ensures Find(s, 0, SOH) == |s| && Find(s, 0, '=') == |s|
  {
    forall i | 0 <= i < |s|
      ensures s[i] != SOH && s[i] != '='
    {
      assert IsDigit(s[i]);
    }
    FindUnique(s, 0, SOH, |s|);
    FindUnique(s, 0, '=', |s|);
  }

  lemma HeadClean(version: string, n: nat)
    requires Find(version, 0, SOH) == |version|
    ensures AllClean(HeadItems(version, n)) && !IsTen(HeadItems(version, n)[1])
  {
    CleanItem(BEGIN_STRING, version);
    LengthClean(n);
    PairClean(ToItem(Field(BEGIN_STRING, version)), ToItem(Field(BODY_LENGTH, Dec(n))));
  }

  lemma LengthClean(n: nat)
    ensures Clean(ToItem(Field(BODY_LENGTH, Dec(n)))) && !IsTen(ToItem(Field(BODY_LENGTH, Dec(n))))
  {
    DigitsFree(Dec(n));
    CleanItem(BODY_LENGTH, Dec(n));
  }

  lemma PairClean(a: Item, b: Item)
    requires Clean(a) && Clean(b)
    ensures AllClean([a, b]) && [a, b][1] == b
  {
  }

  lemma LastClean(version: string, body: string)
    ensures Clean(LastItem(version, body)) && IsTen(LastItem(version, body))
  {
    var c := ZeroPad(3, CheckSum(Header(version, |body|) + body));
    DigitsFree(c);
    CleanItem(CHECK_SUM, c);
  }

  lemma FieldsClean(fs: seq<NumberedField>)
    requires forall i :: 0 <= i < |fs| ==> Find(fs[i].value, 0, SOH) == |fs[i].value|
    ensures AllClean(ToItems(fs))
    ensures forall i :: 0 <= i < |fs| ==> (IsTen(ToItems(fs)[i]) <==> fs[i].tag == CHECK_SUM)
  {
    forall i | 0 <= i < |fs|
      ensures Clean(ToItems(fs)[i]) && (IsTen(ToItems(fs)[i]) <==> fs[i].tag == CHECK_SUM)
    {
      CleanItem(fs[i].tag, fs[i].value);
    }
  }

  lemma Inside(head: seq<Item>, mid: seq<Item>, last: Item)
    requires |head| == 2 && AllClean(head) && AllClean(mid) && Clean(last)
    ensures AllClean(head + mid + [last]) && (head + mid + [last])[1] == head[1]
    ensures forall i :: 0 <= i < |mid| ==> (head + mid + [last])[i + 2] == mid[i]
  {
  }

  lemma MessageClean(version: string, fs: seq<NumberedField>)
    requires SohFree(version, fs)
    ensures AllClean(MessageItems(version, fs))
    ensures !IsTen(MessageItems(version, fs)[1])
    ensures forall i :: 0 <= i < |fs| ==>
              (IsTen(MessageItems(version, fs)[i + 2]) <==> fs[i].tag == CHECK_SUM)
    ensures IsTen(LastItem(version, BodyText(fs)))
  {
    var body := BodyText(fs);
    HeadClean(version, |body|);
    LastClean(version, body);
    FieldsClean(fs);
    Inside(HeadItems(version, |body|), ToItems(fs), LastItem(version, body));
  }

  /** Printed items are exactly one frame when 7 characters follow the first needle's SOH. */
  lemma FrameByTail(s: string, items: seq<Item>, k: nat)
    requires s == PrintAll(items) && AllClean(items)
    requires 1 <= k < |items| && IsTen(items[k])
    requires forall j :: 1 <= j < k ==> !IsTen(items[j])
    ensures IsFrame(s) <==> |PrintAll(items[k..])| == 7
  {
    SliceIs(s, 0, |s|);
    FirstNeedle(s, 0, items, k);
    assert items == items[..k] + items[k..];
    PrintAppend(items[..k], items[k..]);
  }

  /** The tail that starts with item k: the trailer is 7 characters, anything more is longer. */
  lemma TailLength(items: seq<Item>, k: nat)
    requires k < |items| && |Print(items[|items| - 1])| == 7
    ensures |PrintAll(items[k..])| == 7 <==> k == |items| - 1
  {
    var last := items[|items| - 1];
    PrintOne(last);
    if k == |items| - 1 {
      assert items[k..] == [last];
    } else {
      var mid := items[k..|items| - 1];
      assert items[k..] == mid + [last];
      PrintAppend(mid, [last]);
      assert |PrintAll(mid)| >= |Print(mid[0])| > 0;
    }
  }

  function FirstTen(items: seq<Item>, k: nat): (r: nat)
    requires 1 <= k < |items| && IsTen(items[|items| - 1])
    requires forall j :: 1 <= j < k ==> !IsTen(items[j])
    ensures k <= r < |items| && IsTen(items[r])
    ensures forall j :: 1 <= j < r ==> !IsTen(items[j])
    decreases |items| - k
  {
    if IsTen(items[k]) then k else FirstTen(items, k + 1)
  }

  /** When values are free of SOH, an encoded message is exactly one frame if and only if its
      body has no field with tag 10. */
  lemma EncodeIsFrame(version: string, fs: seq<NumberedField>)
    requires SohFree(version, fs)
    ensures IsFrame(Encode(version, BodyText(fs))) <==> forall i :: 0 <= i < |fs| ==> fs[i].tag != CHECK_SUM
  {
    var items := MessageItems(version, fs);
    var last := LastItem(version, BodyText(fs));
    EncodeIsItems(version, fs);
    MessageClean(version, fs);
    assert items[|items| - 1] == last;
    var k := FirstTen(items, 2);
    FrameByTail(PrintAll(items), items, k);
    LastLength(version, BodyText(fs));
    TailLength(items, k);
    if k < |items| - 1 {
      assert fs[k - 2].tag == CHECK_SUM;
    } else {
      forall i | 0 <= i < |fs|
        ensures fs[i].tag != CHECK_SUM
      {
        assert !IsTen(items[i + 2]);
      }
    }
  }

  lemma LastLength(version: string, body: string)
    ensures |Print(LastItem(version, body))| == 7
  {
    CheckSumDigits(CheckSum(Header(version, |body|) + body));
    assert |Dec(10)| == 2;
  }

  lemma HeartbeatSum() returns (s: string)
    ensures s == "8=FIX.4.4\U{01}9=5\U{01}35=0\U{01}" && CheckSum(s) == 163
  {
    var a := SumOfThree('8', '=', 'F');
    var b := SumOfThree('I', 'X', '.');
    var c := SumOfThree('4', '.', '4');
    var d := SumOfThree(SOH, '9', '=');
    var e := SumOfThree('5', SOH, '3');
    var f := SumOfThree('5', '=', '0');
    s := Summed(a, 187, b, 207);
    s := Summed(s, 394, c, 150);
    s := Summed(s, 544, d, 119);
    s := Summed(s, 663, e, 105);
    s := Summed(s, 768, f, 162);
    CheckSumBytes(s, SOH);
    s := s + [SOH];
  }

  lemma HeartbeatBody() returns (body: string)
    ensures body == "35=0\U{01}" && BodyText([Field(35, "0")]) == body
  {
    assert Dec(3) == "3" && Dec(35) == "35";
    PrintOne(ToItem(Field(35, "0")));
    assert ToItems([Field(35, "0")]) == [ToItem(Field(35, "0"))];
    body := FieldText(35, "0");
  }

  lemma EncodeParts(version: string, body: string, header: string, pre: string, trailer: string)
    requires Header(version, |body|) == header && header + body == pre && Trailer(CheckSum(pre)) == trailer
    ensures Encode(version, body) == pre + trailer
  {
  }

  lemma HeartbeatHeader() returns (header: string)
    ensures header == "8=FIX.4.4\U{01}9=5\U{01}" && Header("FIX.4.4", 5) == header
  {
    HeaderText("FIX.4.4", 5);
    assert Dec(5) == "5";
    header := Header("FIX.4.4", 5);
  }

  lemma HeartbeatTrailer() returns (trailer: string)
    ensures trailer == "10=163\U{01}" && Trailer(163) == trailer
  {
    TrailerText(163);
    assert Dec(1) == "1" && Dec(16) == "16" && Dec(163) == "163";
    assert ZeroPad(3, 163) == "163";
    trailer := Trailer(163);
  }

  /** A heartbeat, character by character. */
  lemma Heartbeat() returns (body: string, text: string)
    ensures body == "35=0\U{01}" && BodyText([Field(35, "0")]) == body
    ensures text == "8=FIX.4.4\U{01}9=5\U{01}35=0\U{01}10=163\U{01}" && Encode("FIX.4.4", body) == text
  {
    body := HeartbeatBody();
    var header := HeartbeatHeader();
    var pre := HeartbeatSum();
    var trailer := HeartbeatTrailer();
    EncodeParts("FIX.4.4", body, header, pre, trailer);
    text := pre + trailer;
  }
}
