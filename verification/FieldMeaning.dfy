/** What a sequence of fields leaves in a message: the last-wins map of plain fields,
    and one entry for each market-data group. */
module FieldMeaning {
  import opened Text
  import opened FixMessage
  import opened FixScanner

  // ---------- plain fields ----------

  /** Tags that address the current market-data entry. */
  predicate IsEntryTag(t: nat) {
    t == MD_UPDATE_ACTION || t == MD_ENTRY_TYPE || t == MD_ENTRY_PX || t == MD_ENTRY_SIZE || t == MD_ENTRY_ID
  }

  predicate HasTag(it: Item, t: nat) {
    it.tag != "" && NumParse(it.tag) == t
  }

  /** An item parseFixMsg refuses. */
  predicate Refusable(it: Item) {
    it.value == "" || (it.tag != "" && NumParse(it.tag) >= MAX_TAG_NUM)
  }

  predicate StartsWith(it: Item, c: char) {
    it.value != "" && it.value[0] == c
  }

  /** Free of the tags of market-data entries. */
  predicate Plain(it: Item) {
    !IsEntryTag(NumParse(it.tag))
  }

  ghost predicate AllPlain(items: seq<Item>) {
    forall i :: 0 <= i < |items| ==> Plain(items[i])
  }

  ghost predicate NoneRefusable(items: seq<Item>) {
    forall i :: 0 <= i < |items| ==> !Refusable(items[i])
  }

  /** The value of the last item with tag t. */
  function LastValue(items: seq<Item>, t: nat): Option<string>
    decreases |items|
  {
    if items == [] then None
    else
      var r := LastValue(items[1..], t);
      if r.None? && HasTag(items[0], t) then Some(items[0].value) else r
  }

  lemma {:induction false} LastValueIsLast(items: seq<Item>, t: nat)
    ensures LastValue(items, t).None? <==> forall i :: 0 <= i < |items| ==> !HasTag(items[i], t)
    ensures LastValue(items, t).Some? ==>
              exists i :: 0 <= i < |items| && HasTag(items[i], t) && items[i].value == LastValue(items, t).value
                     && forall j :: i < j < |items| ==> !HasTag(items[j], t)
    decreases |items|
  {
    if items != [] {
      var rest := items[1..];
      LastValueIsLast(rest, t);
      assert forall i :: 1 <= i < |items| ==> items[i] == rest[i - 1];
      assert forall i :: 0 <= i < |rest| ==> rest[i] == items[i + 1];
      if LastValue(rest, t).Some? {
        var i :| 0 <= i < |rest| && HasTag(rest[i], t) && rest[i].value == LastValue(rest, t).value
              && forall j :: i < j < |rest| ==> !HasTag(rest[j], t);
        assert HasTag(items[i + 1], t);
      }
    }
  }

  predicate SnapshotIn(items: seq<Item>)
    decreases |items|
  {
    items != [] &&
    ((HasTag(items[0], MSG_TYPE) && StartsWith(items[0], MARKET_DATA_SNAPSHOT)) || SnapshotIn(items[1..]))
  }

  predicate NoEntries(items: seq<Item>)
    decreases |items|
  {
    items == [] || (!HasTag(items[0], NO_MD_ENTRIES) && NoEntries(items[1..]))
  }

  // ---------- the symbols of a security list response ----------

  /** Is the message a security list response once `it` is set? */
  predicate ListAfter(list: bool, it: Item) {
    if HasTag(it, MSG_TYPE) then StartsWith(it, SECURITY_LIST_RESPONSE) else list
  }

  /** A Symbol of a security list response goes to the list of securities ... */
  predicate Collects(list: bool, it: Item) {
    list && HasTag(it, SYMBOL)
  }

  function Collected(items: seq<Item>, list: bool): seq<string>
    decreases |items|
  {
    if items == [] then []
    else
      var rest := Collected(items[1..], ListAfter(list, items[0]));
      if Collects(list, items[0]) then [items[0].value] + rest else rest
  }

  /** ... and every other item is kept under its tag. */
  function Kept(items: seq<Item>, list: bool): seq<Item>
    decreases |items|
  {
    if items == [] then []
    else
      var rest := Kept(items[1..], ListAfter(list, items[0]));
      if Collects(list, items[0]) then rest else [items[0]] + rest
  }

  lemma LastValueCons(it: Item, items: seq<Item>, t: nat)
    ensures LastValue([it] + items, t) ==
            if LastValue(items, t).None? && HasTag(it, t) then Some(it.value) else LastValue(items, t)
  {
    assert ([it] + items)[1..] == items;
  }

  // ---------- what plain fields leave ----------

  predicate FieldFollows(m: Msg, items: seq<Item>, m': Msg, t: nat) {
    && (t in m'.available <==> t in m.available || LastValue(items, t).Some?)
    && (LastValue(items, t).Some? ==> t in m'.fields && m'.fields[t] == LastValue(items, t).value)
    && (LastValue(items, t).None? ==>
      (t in m'.fields <==> t in m.fields) && (t in m.fields ==> m'.fields[t] == m.fields[t]))
  }

  /** The fields of m' are those of m, overwritten by the items in order. */
  ghost predicate FieldsFollow(m: Msg, items: seq<Item>, m': Msg) {
    forall t: nat :: FieldFollows(m, items, m', t)
  }

  /** m' is m with the item set under its tag; an empty tag is skipped. */
  predicate SetIn(m: Msg, it: Item, m': Msg) {
    && m'.fields == (if it.tag == "" then m.fields else m.fields[NumParse(it.tag) := it.value])
    && m'.available == (if it.tag == "" then m.available else m.available + {NumParse(it.tag)})
  }

  lemma PlainStep(m: Msg, it: Item)
    requires m.entryIndex == -1 && Plain(it)
    ensures RunItem(m, it) == Rejected <==> Refusable(it)
    ensures !Refusable(it) ==>
              && RunItem(m, it).Parsed?
              && var m' := RunItem(m, it).msg;
                 && m'.entryIndex == -1
                 && IsSecurityList(m') == ListAfter(IsSecurityList(m), it)
                 && m'.isSnapshot == (m.isSnapshot || (HasTag(it, MSG_TYPE) && StartsWith(it, MARKET_DATA_SNAPSHOT)))
                 && (!HasTag(it, NO_MD_ENTRIES) ==> m'.entries == m.entries)
                 && if Collects(IsSecurityList(m), it) then m' == m.(securities := m.securities + [it.value])
                    else SetIn(m, it, m') && m'.securities == m.securities
  {
  }

  lemma FollowsStep(m: Msg, it: Item, m1: Msg, items: seq<Item>, m': Msg)
    requires SetIn(m, it, m1) && FieldsFollow(m1, items, m')
    ensures FieldsFollow(m, [it] + items, m')
  {
    forall t: nat
      ensures FieldFollows(m, [it] + items, m', t)
    {
      LastValueCons(it, items, t);
      assert FieldFollows(m1, items, m', t);
    }
  }

  lemma FollowsSame(m: Msg, m1: Msg, items: seq<Item>, m': Msg)
    requires m.fields == m1.fields && m.available == m1.available && FieldsFollow(m1, items, m')
    ensures FieldsFollow(m, items, m')
  {
    forall t: nat
      ensures FieldFollows(m, items, m', t)
    {
      assert FieldFollows(m1, items, m', t);
    }
  }

  lemma NoneRefusableCons(items: seq<Item>)
    requires items != []
    ensures NoneRefusable(items) <==> !Refusable(items[0]) && NoneRefusable(items[1..])
  {
    var rest := items[1..];
    assert forall i :: 1 <= i < |items| ==> items[i] == rest[i - 1];
    assert forall i :: 0 <= i < |rest| ==> rest[i] == items[i + 1];
  }

  /** The message after a run of plain fields. */
  ghost predicate PlainResult(m: Msg, items: seq<Item>, m': Msg) {
    var list := IsSecurityList(m);
    && m'.entryIndex == -1
    && FieldsFollow(m, Kept(items, list), m')
    && m'.securities == m.securities + Collected(items, list)
    && m'.isSnapshot == (m.isSnapshot || SnapshotIn(items))
    && (NoEntries(items) ==> m'.entries == m.entries)
  }

  lemma PlainCons(m: Msg, items: seq<Item>, m1: Msg, m': Msg)
    requires items != [] && m.entryIndex == -1 && Plain(items[0]) && !Refusable(items[0])
    requires RunItem(m, items[0]) == Parsed(m1) && PlainResult(m1, items[1..], m')
    ensures PlainResult(m, items, m')
  {
    var it, rest, list := items[0], items[1..], IsSecurityList(m);
    PlainStep(m, it);
    var after := ListAfter(list, it);
    var kept, collected := Kept(rest, after), Collected(rest, after);
    if Collects(list, it) {
      FollowsSame(m, m1, kept, m');
      Assoc(m.securities, [it.value], collected);
    } else {
      FollowsStep(m, it, m1, kept, m');
    }
  }

  /** On plain fields the scanner refuses exactly when some value is empty or some tag is too
      large; otherwise the Symbols of a security list response are collected, and the others leave
      the last-wins map, with hasField true for exactly the tags seen. */
  lemma {:induction false} PlainMeaning(m: Msg, items: seq<Item>)
    requires m.entryIndex == -1 && AllPlain(items)
    ensures RunItems(m, items) == Rejected <==> !NoneRefusable(items)
    ensures NoneRefusable(items) ==>
              RunItems(m, items).Parsed? && PlainResult(m, items, RunItems(m, items).msg)
    decreases |items|
  {
    if items == [] {
      Unit(m.securities);
    } else {
      var it, rest := items[0], items[1..];
      assert Plain(it);
      PlainStep(m, it);
      NoneRefusableCons(items);
      if !Refusable(it) {
        var m1 := RunItem(m, it).msg;
        PlainMeaning(m1, rest);
        if NoneRefusable(rest) {
          PlainCons(m, items, m1, RunItems(m1, rest).msg);
        }
      }
    }
  }

  // ---------- whole buffers ----------

  /** On a buffer that ends with a delimiter the "last field" branch is never taken. */
  lemma TailIsDropped(m: Msg, s: string)
    requires s == "" || s[|s| - 1] == SOH
    ensures Interpret(m, s) == RunItems(m, Items(s))
  {
    var tail := Tail(s);
    TokensSound(s);
    if tail != "" {
      assert s[|s| - 1] == tail[|tail| - 1];
    }
  }

  /** The scanner on any delimiter-terminated buffer of plain fields, for all of PlainMeaning. */
  lemma BufferMeaning(m: Msg, s: string)
    requires s == "" || s[|s| - 1] == SOH
    requires m.entryIndex == -1 && AllPlain(Items(s))
    ensures Interpret(m, s) == Rejected <==> exists i :: 0 <= i < |Items(s)| && Refusable(Items(s)[i])
    ensures NoneRefusable(Items(s)) ==>
              Interpret(m, s).Parsed? && PlainResult(m, Items(s), Interpret(m, s).msg)
  {
    TailIsDropped(m, s);
    PlainMeaning(m, Items(s));
  }

  lemma EqualsBehind(tag: string, value: string, s: string)
    requires s == tag + "=" + value && Find(tag, 0, '=') == |tag|
    ensures Find(s, 0, '=') == |tag| && Slice(s, 0, |tag|) == tag
  {
    FindFirst(tag, 0, '=');
    forall j | 0 <= j < |tag|
      ensures s[j] != '='
    {
      assert s[j] == tag[j];
    }
    FindUnique(s, 0, '=', |tag|);
    SliceIs(s, 0, |tag|);
    assert s[0..|tag|] == tag;
  }

  lemma NoDelimiterBehind(head: string, value: string)
    requires Find(value, 0, SOH) == |value|
    ensures Find(head + value, |head|, SOH) == |head + value|
  {
    FindFirst(value, 0, SOH);
    var s := head + value;
    forall j | |head| <= j < |s|
      ensures s[j] != SOH
    {
      assert s[j] == value[j - |head|];
    }
    FindUnique(s, |head|, SOH, |s|);
  }

  lemma UnterminatedTokens(tag: string, value: string, s: string)
    requires s == tag + "=" + value && Find(tag, 0, '=') == |tag| && Find(value, 0, SOH) == |value|
    ensures Items(s) == [] && Tail(s) == s && Find(s, 0, '=') == |tag| && Slice(s, 0, |tag|) == tag
  {
    EqualsBehind(tag, value, s);
    NoDelimiterBehind(tag + "=", value);
    TokensUnique([], s);
    Unit(s);
  }

  lemma SetEmpty(m: Msg, t: nat)
    requires m.entryIndex == -1 && !IsEntryTag(t) && t != MSG_TYPE && t != NO_MD_ENTRIES && t != SYMBOL
    ensures SetField(m, t, "") == Parsed(m.(fields := m.fields[t := ""], available := m.available + {t}))
  {
  }

  /** A field without delimiter at the end of a buffer: an empty value is stored, any other dropped. */
  lemma UnterminatedField(m: Msg, tag: string, value: string)
    requires m.entryIndex == -1 && Find(tag, 0, '=') == |tag| && Find(value, 0, SOH) == |value|
    requires NumParse(tag) < MAX_TAG_NUM && !IsEntryTag(NumParse(tag))
    requires NumParse(tag) != MSG_TYPE && NumParse(tag) != NO_MD_ENTRIES && NumParse(tag) != SYMBOL
    ensures Interpret(m, tag + "=" + value) ==
            if value == "" then
              Parsed(m.(fields := m.fields[NumParse(tag) := ""], available := m.available + {NumParse(tag)}))
            else Parsed(m)
  {
    var s := tag + "=" + value;
    UnterminatedTokens(tag, value, s);
    SetEmpty(m, NumParse(tag));
    assert Interpret(m, s) == RunTail(m, s);
  }
}
