/** parseFixMsg: the four-pointer scanner, and the grammar it implements. */
module FixScanner {
  import opened Text
  import opened FixMessage

  /** One `tag=value<SOH>`, as text. */
  type Item = Field<string, string>

  /** A tag runs up to the first '=', a value up to the next SOH. */
  predicate WellFormed(it: Item) {
    Find(it.tag, 0, '=') == |it.tag| && Find(it.value, 0, SOH) == |it.value|
  }

  ghost predicate AllWellFormed(items: seq<Item>) {
    forall i :: 0 <= i < |items| ==> WellFormed(items[i])
  }

  /** Nothing more to read at position i: no further '=', or no SOH after it. */
  predicate AtTail(s: string, i: nat)
    requires i <= |s|
  {
    Find(s, i, '=') == |s| || Find(s, Find(s, i, '=') + 1, SOH) == |s|
  }

  predicate Incomplete(s: string) {
    AtTail(s, 0)
  }

  function Print(it: Item): string {
    it.tag + [EQUALS] + it.value + [SOH]
  }

  function PrintAll(items: seq<Item>): string {
    if items == [] then "" else Print(items[0]) + PrintAll(items[1..])
  }

  /** The complete items of `s` from position i on, in order ... */
  function ItemsFrom(s: string, i: nat): seq<Item>
    requires i <= |s|
    decreases |s| - i
  {
    if AtTail(s, i) then []
    else
      var e := Find(s, i, '=');
      var k := Find(s, e + 1, SOH);
      [Field(Slice(s, i, e), Slice(s, e + 1, k))] + ItemsFrom(s, k + 1)
  }

  /** ... and the text behind the last of them. */
  function TailFrom(s: string, i: nat): string
    requires i <= |s|
    decreases |s| - i
  {
    if AtTail(s, i) then Slice(s, i, |s|) else TailFrom(s, Find(s, Find(s, i, '=') + 1, SOH) + 1)
  }

  function Items(s: string): seq<Item> {
    ItemsFrom(s, 0)
  }

  function Tail(s: string): string {
    TailFrom(s, 0)
  }

  // ---------- the grammar is unambiguous ----------

  lemma TailIsIncomplete(s: string, i: nat, u: string)
    requires i <= |s| && u == Slice(s, i, |s|)
    ensures AtTail(s, i) <==> Incomplete(u)
  {
    SliceIs(s, i, |s|);
    FindShift(s, u, i, i, '=');
    var e := Find(s, i, '=');
    if e < |s| {
      FindShift(s, u, i, e + 1, SOH);
    }
  }

  lemma NotInSlice(s: string, i: nat, j: nat, c: char)
    requires i <= j <= |s| && j <= Find(s, i, c)
    ensures Find(Slice(s, i, j), 0, c) == j - i
  {
    SliceIs(s, i, j);
    FindFirst(s, i, c);
    FindUnique(s[i..j], 0, c, j - i);
  }

  lemma ItemPrinted(s: string, i: nat, e: nat, k: nat)
    requires i <= e < k < |s| && s[e] == EQUALS && s[k] == SOH
    ensures Print(Field(Slice(s, i, e), Slice(s, e + 1, k))) == Slice(s, i, k + 1)
  {
    SliceSplit(s, i, e + 1, k);
  }

  lemma ItemBetween(s: string, i: nat, e: nat, v: nat)
    requires i <= e < v < |s| && e == Find(s, i, '=') && v == Find(s, e + 1, SOH)
    ensures WellFormed(Field(Slice(s, i, e), Slice(s, e + 1, v)))
    ensures Print(Field(Slice(s, i, e), Slice(s, e + 1, v))) == Slice(s, i, v + 1)
  {
    NotInSlice(s, i, e, '=');
    NotInSlice(s, e + 1, v, SOH);
    ItemPrinted(s, i, e, v);
  }

  lemma FirstItem(s: string, i: nat) returns (it: Item, k: nat)
    requires i <= |s| && !AtTail(s, i)
    ensures i < k <= |s|
    ensures ItemsFrom(s, i) == [it] + ItemsFrom(s, k) && TailFrom(s, i) == TailFrom(s, k)
    ensures WellFormed(it) && Print(it) == Slice(s, i, k)
  {
    var e := Find(s, i, '=');
    var v := Find(s, e + 1, SOH);
    ItemBetween(s, i, e, v);
    it, k := Field(Slice(s, i, e), Slice(s, e + 1, v)), v + 1;
  }

  lemma PrintCons(it: Item, items: seq<Item>)
    ensures PrintAll([it] + items) == Print(it) + PrintAll(items)
  {
    assert ([it] + items)[1..] == items;
  }

  lemma {:induction false} ItemsFromPrinted(s: string, i: nat)
    requires i <= |s|
    ensures PrintAll(ItemsFrom(s, i)) + TailFrom(s, i) == Slice(s, i, |s|)
    decreases |s| - i
  {
    if AtTail(s, i) {
      Unit(Slice(s, i, |s|));
    } else {
      var it, k := FirstItem(s, i);
      PrintCons(it, ItemsFrom(s, k));
      ItemsFromPrinted(s, k);
      Assoc(Print(it), PrintAll(ItemsFrom(s, k)), TailFrom(s, k));
      SliceSplit(s, i, k, |s|);
    }
  }

  lemma {:induction false} ItemsFromWellFormed(s: string, i: nat)
    requires i <= |s|
    ensures AllWellFormed(ItemsFrom(s, i)) && Incomplete(TailFrom(s, i))
    decreases |s| - i
  {
    if AtTail(s, i) {
      TailIsIncomplete(s, i, Slice(s, i, |s|));
    } else {
      var it, k := FirstItem(s, i);
      ItemsFromWellFormed(s, k);
    }
  }

  /** Every text is some well-formed items followed by an incomplete tail ... */
  lemma TokensSound(s: string)
    ensures PrintAll(Items(s)) + Tail(s) == s
    ensures AllWellFormed(Items(s)) && Incomplete(Tail(s))
  {
    ItemsFromPrinted(s, 0);
    ItemsFromWellFormed(s, 0);
    SliceIs(s, 0, |s|);
  }

  lemma SkipSlice(s: string, i: nat, e: nat, c: char)
    requires i <= e <= |s| && Find(Slice(s, i, e), 0, c) == e - i
    ensures Find(s, i, c) == Find(s, e, c)
  {
    SliceIs(s, i, e);
    var u := s[i..e];
    FindFirst(u, 0, c);
    forall j | i <= j < e
      ensures s[j] != c
    {
      assert s[j] == u[j - i];
    }
    FindSkips(s, i, e, c);
  }

  lemma FindInItem(s: string, i: nat, it: Item)
    requires WellFormed(it) && i + |Print(it)| <= |s|
    requires Slice(s, i, i + |Print(it)|) == Print(it)
    ensures Find(s, i, '=') == i + |it.tag| < |s|
    ensures Find(s, i + |it.tag| + 1, SOH) == i + |Print(it)| - 1
    ensures Slice(s, i, i + |it.tag|) == it.tag
    ensures Slice(s, i + |it.tag| + 1, i + |Print(it)| - 1) == it.value
  {
    var e, k := i + |it.tag|, i + |Print(it)| - 1;
    SliceSplit(s, i, e + 1, k);
    Unappend(Slice(s, i, k), [s[k]], it.tag + [EQUALS] + it.value, [SOH]);
    Unappend(Slice(s, i, e + 1), Slice(s, e + 1, k), it.tag + [EQUALS], it.value);
    Unappend(Slice(s, i, e), [s[e]], it.tag, [EQUALS]);
    SkipSlice(s, i, e, '=');
    SkipSlice(s, e + 1, k, SOH);
  }

  lemma FirstToken(s: string, i: nat, it: Item, q: string, t: string)
    requires i <= |s| && WellFormed(it) && Slice(s, i, |s|) == (Print(it) + q) + t
    ensures i + |Print(it)| <= |s| && Slice(s, i + |Print(it)|, |s|) == q + t
    ensures ItemsFrom(s, i) == [it] + ItemsFrom(s, i + |Print(it)|)
    ensures TailFrom(s, i) == TailFrom(s, i + |Print(it)|)
  {
    Peel(s, i, Print(it), q, t);
    FindInItem(s, i, it);
  }

  lemma {:induction false} TokensFromUnique(s: string, i: nat, items: seq<Item>, tail: string)
    requires i <= |s| && Slice(s, i, |s|) == PrintAll(items) + tail
    requires AllWellFormed(items) && Incomplete(tail)
    ensures ItemsFrom(s, i) == items && TailFrom(s, i) == tail
    decreases |items|
  {
    if items == [] {
      assert PrintAll(items) + tail == tail;
      TailIsIncomplete(s, i, tail);
    } else {
      var it, rest := items[0], items[1..];
      assert [it] + rest == items;
      assert WellFormed(it);
      FirstToken(s, i, it, PrintAll(rest), tail);
      TokensFromUnique(s, i + |Print(it)|, rest, tail);
    }
  }

  /** ... in exactly one way. */
  lemma TokensUnique(items: seq<Item>, tail: string)
    requires AllWellFormed(items) && Incomplete(tail)
    ensures Items(PrintAll(items) + tail) == items
    ensures Tail(PrintAll(items) + tail) == tail
  {
    var s := PrintAll(items) + tail;
    SliceIs(s, 0, |s|);
    TokensFromUnique(s, 0, items, tail);
  }

  // ---------- what the items mean ----------

  function RunItem(m: Msg, it: Item): Outcome {
    if it.value == "" then Rejected
    else if it.tag == "" then Parsed(m)
    else if NumParse(it.tag) >= MAX_TAG_NUM then Rejected
    else SetField(m, NumParse(it.tag), it.value)
  }

  function RunItems(m: Msg, items: seq<Item>): Outcome
    decreases |items|
  {
    if items == [] then Parsed(m)
    else
      var o := RunItem(m, items[0]);
      if o.Parsed? then RunItems(o.msg, items[1..]) else o
  }

  function RunLast(m: Msg, tag: string): Outcome {
    if NumParse(tag) >= MAX_TAG_NUM then Rejected else SetField(m, NumParse(tag), "")
  }

  /** A value that has started but has no character yet becomes an empty last field;
      anything else left over is dropped. */
  function RunTail(m: Msg, tail: string): Outcome {
    var e := Find(tail, 0, '=');
    if e + 1 == |tail| then RunLast(m, Slice(tail, 0, e)) else Parsed(m)
  }

  function RunText(m: Msg, items: seq<Item>, tail: string): Outcome {
    var o := RunItems(m, items);
    if o.Parsed? then RunTail(o.msg, tail) else o
  }

  /** The meaning of a whole buffer, read off the grammar. */
  function Interpret(m: Msg, s: string): Outcome {
    RunText(m, Items(s), Tail(s))
  }

  /** On text that is nothing but well-formed items the tail plays no part. */
  lemma InterpretPrinted(m: Msg, items: seq<Item>)
    requires AllWellFormed(items)
    ensures Interpret(m, PrintAll(items)) == RunItems(m, items)
  {
    TokensUnique(items, "");
    Unit(PrintAll(items));
  }

  // ---------- the same meaning, one field at a time and by position ----------

  function InterpretFrom(m: Msg, s: string, i: nat): Outcome
    requires i <= |s|
    decreases |s| - i
  {
    var e := Find(s, i, '=');
    if AtTail(s, i) then
      if e + 1 == |s| then RunLast(m, Slice(s, i, e)) else Parsed(m)
    else
      var k := Find(s, e + 1, SOH);
      var o := RunItem(m, Field(Slice(s, i, e), Slice(s, e + 1, k)));
      if o.Parsed? then InterpretFrom(o.msg, s, k + 1) else o
  }

  lemma RunCons(m: Msg, it: Item, items: seq<Item>)
    ensures RunItems(m, [it] + items) ==
            var o := RunItem(m, it); if o.Parsed? then RunItems(o.msg, items) else o
  {
    assert ([it] + items)[1..] == items;
  }

  lemma RunTailFrom(m: Msg, s: string, i: nat, u: string)
    requires i <= |s| && AtTail(s, i) && u == Slice(s, i, |s|)
    ensures RunTail(m, u) == InterpretFrom(m, s, i)
  {
    SliceIs(s, i, |s|);
    FindShift(s, u, i, i, '=');
    var e := Find(s, i, '=');
    if e < |s| {
      SliceIs(s, i, e);
      SliceIs(u, 0, e - i);
      assert u[..e - i] == s[i..e];
    }
  }

  lemma {:induction false} InterpretFromIsRun(m: Msg, s: string, i: nat)
    requires i <= |s|
    ensures InterpretFrom(m, s, i) == RunText(m, ItemsFrom(s, i), TailFrom(s, i))
    decreases |s| - i
  {
    if AtTail(s, i) {
      RunTailFrom(m, s, i, Slice(s, i, |s|));
    } else {
      var e := Find(s, i, '=');
      var k := Find(s, e + 1, SOH);
      var it := Field(Slice(s, i, e), Slice(s, e + 1, k));
      var o := RunItem(m, it);
      RunCons(m, it, ItemsFrom(s, k + 1));
      if o.Parsed? {
        InterpretFromIsRun(o.msg, s, k + 1);
      }
    }
  }

  // ---------- the scanner ----------

  datatype ScanResult = Accepted | Refused | Aborted(kind: Failure)

  ghost predicate Agrees(r: ScanResult, o: Outcome, m: Msg) {
    match r
    case Accepted => o == Parsed(m)
    case Refused => o == Rejected
    case Aborted(kind) => o == Failed(kind)
  }

  /** A pointer into the buffer, as an offset. */
  const NULL := -1

  ghost predicate Free(s: string, i: int, j: int, c: char) {
    0 <= i <= j <= |s| && forall k :: i <= k < j ==> s[k] != c
  }

  /** What the four pointers say about the text between them. */
  ghost predicate Pointers(s: string, tag: int, tagEnd: int, val: int, valEnd: int, buf: nat) {
    && buf <= |s|
    && (tag == NULL ==> tagEnd == val == valEnd == NULL)
    && (tag != NULL && val == NULL ==> valEnd == NULL && tagEnd == buf && Free(s, tag, buf, '='))
    && (tag != NULL && val != NULL ==>
      && val == tagEnd + 1 <= buf && Free(s, tag, tagEnd, '=') && s[tagEnd] == '='
      && Free(s, val, buf, SOH) && valEnd == if val == buf then NULL else buf)
  }

  lemma TagChar(s: string, tag: int, buf: nat)
    requires tag != NULL && Pointers(s, tag, buf, NULL, NULL, buf) && buf < |s| && s[buf] != '='
    ensures Pointers(s, tag, buf + 1, NULL, NULL, buf + 1)
  {
  }

  lemma TagEnds(s: string, tag: int, buf: nat)
    requires tag != NULL && Pointers(s, tag, buf, NULL, NULL, buf) && buf < |s| && s[buf] == '='
    ensures Pointers(s, tag, buf, buf + 1, NULL, buf + 1)
  {
  }

  lemma ValueChar(s: string, tag: int, tagEnd: int, val: int, valEnd: int, buf: nat)
    requires tag != NULL && val != NULL && Pointers(s, tag, tagEnd, val, valEnd, buf)
    requires buf < |s| && s[buf] != SOH
    ensures Pointers(s, tag, tagEnd, val, buf + 1, buf + 1)
  {
  }

  /** The scanner stands at the delimiter behind a value. */
  lemma FieldComplete(m: Msg, s: string, tag: int, tagEnd: int, val: int, valEnd: int, buf: nat)
    requires Pointers(s, tag, tagEnd, val, valEnd, buf) && tag != NULL && val != NULL
    requires buf < |s| && s[buf] == SOH
    ensures InterpretFrom(m, s, tag) ==
            if valEnd == NULL then Rejected
            else
              var o := RunItem(m, Field(Slice(s, tag, tagEnd), Slice(s, val, valEnd)));
              if o.Parsed? then InterpretFrom(o.msg, s, buf + 1) else o
  {
    FindUnique(s, tag, '=', tagEnd);
    FindUnique(s, val, SOH, buf);
  }

  /** The scanner has reached the end of the buffer. */
  lemma BufferEnds(m: Msg, s: string, tag: int, tagEnd: int, val: int, valEnd: int)
    requires Pointers(s, tag, tagEnd, val, valEnd, |s|)
    ensures InterpretFrom(m, s, if tag != NULL then tag else |s|) ==
            if tag != NULL && val != NULL && valEnd == NULL then RunLast(m, Slice(s, tag, tagEnd)) else Parsed(m)
  {
    if tag != NULL && val == NULL {
      FindUnique(s, tag, '=', |s|);
    } else if tag != NULL {
      FindUnique(s, tag, '=', tagEnd);
      FindUnique(s, val, SOH, |s|);
    }
  }

  /** Convert the tag of a complete field and store its value. */
  method StoreField(tag: string, value: string, msg: FixMsg) returns (r: ScanResult)
    requires value != ""
    modifies msg
    ensures Agrees(r, RunItem(old(msg.State()), Field(tag, value)), msg.State())
  {
    if tag != "" {
      var field := NumParse(tag);
      if field >= MAX_TAG_NUM {
        return Refused;
      }
      var failure := msg.Field(field, value);
      return if failure.Some? then Aborted(failure.value) else Accepted;
    }
    return Accepted;
  }

  /** The buffer ended right behind a '=': the last field has an empty value. */
  method StoreLast(tag: string, msg: FixMsg) returns (r: ScanResult)
    modifies msg
    ensures Agrees(r, RunLast(old(msg.State()), tag), msg.State())
  {
    var field := NumParse(tag);
    if field >= MAX_TAG_NUM {
      return Refused;
    }
    var failure := msg.Field(field, "");
    return if failure.Some? then Aborted(failure.value) else Accepted;
  }

  /** The delimiter behind a value: refuse an empty value, store any other. */
  method EndField(aBuf: string, tag: int, tagEnd: int, val: int, valEnd: int, buf: nat, msg: FixMsg,
                  ghost goal: Outcome)
    returns (r: ScanResult)
    requires Pointers(aBuf, tag, tagEnd, val, valEnd, buf) && tag != NULL && val != NULL
    requires buf < |aBuf| && aBuf[buf] == SOH
    requires LeadsTo(msg.State(), aBuf, tag, goal)
    modifies msg
    ensures r == Accepted ==> LeadsTo(msg.State(), aBuf, buf + 1, goal)
    ensures r != Accepted ==> Agrees(r, goal, msg.State())
  {
    FieldComplete(msg.State(), aBuf, tag, tagEnd, val, valEnd, buf);
    if valEnd == NULL {
      return Refused;
    }
    r := StoreField(Slice(aBuf, tag, tagEnd), Slice(aBuf, val, valEnd), msg);
  }

  /** The end of the buffer: only a value that has not begun is still stored. */
  method EndBuffer(aBuf: string, tag: int, tagEnd: int, val: int, valEnd: int, msg: FixMsg, ghost goal: Outcome)
    returns (r: ScanResult)
    requires Pointers(aBuf, tag, tagEnd, val, valEnd, |aBuf|)
    requires LeadsTo(msg.State(), aBuf, if tag != NULL then tag else |aBuf|, goal)
    modifies msg
    ensures Agrees(r, goal, msg.State())
  {
    BufferEnds(msg.State(), aBuf, tag, tagEnd, val, valEnd);
    if tag != NULL && tagEnd != NULL && val != NULL && valEnd == NULL {
      r := StoreLast(Slice(aBuf, tag, tagEnd), msg);
      return;
    }
    return Accepted;
  }

  /** From state m at position i on, the text means `goal`. */
  ghost predicate LeadsTo(m: Msg, s: string, i: nat, goal: Outcome) {
    i <= |s| && InterpretFrom(m, s, i) == goal
  }

  method ParseFixMsg(aBuf: string, msg: FixMsg) returns (r: ScanResult)
    modifies msg
    ensures Agrees(r, Interpret(old(msg.State()), aBuf), msg.State())
  {
    ghost var goal := Interpret(msg.State(), aBuf);
    InterpretFromIsRun(msg.State(), aBuf, 0);
    r := Scan(aBuf, msg, goal);
  }

  /** The four pointers move over the buffer. */
  method Scan(aBuf: string, msg: FixMsg, ghost goal: Outcome) returns (r: ScanResult)
    requires LeadsTo(msg.State(), aBuf, 0, goal)
    modifies msg
    ensures Agrees(r, goal, msg.State())
  {
    var tag, tagEnd, val, valEnd := NULL, NULL, NULL, NULL;
    var buf := 0;
    while buf < |aBuf|
      invariant Pointers(aBuf, tag, tagEnd, val, valEnd, buf)
      invariant LeadsTo(msg.State(), aBuf, if tag != NULL then tag else buf, goal)
    {
      if tag == NULL {
        tag, tagEnd := buf, buf;
      }
      if val == NULL {
        if aBuf[buf] != '=' {
          TagChar(aBuf, tag, buf);
          tagEnd := buf + 1;
        } else {
          TagEnds(aBuf, tag, buf);
          val := buf + 1;
        }
      } else {
        if aBuf[buf] != SOH {
          ValueChar(aBuf, tag, tagEnd, val, valEnd, buf);
          valEnd := buf + 1;
        } else {
          r := EndField(aBuf, tag, tagEnd, val, valEnd, buf, msg, goal);
          if r != Accepted {
            return;
          }
          tag, tagEnd, val, valEnd := NULL, NULL, NULL, NULL;
        }
      }
      buf := buf + 1;
    }
    r := EndBuffer(aBuf, tag, tagEnd, val, valEnd, msg, goal);
  }
}
