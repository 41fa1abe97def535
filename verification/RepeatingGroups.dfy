/** The market-data repeating group: NoMDEntries announces n entries, and each group opener
    (MDUpdateAction, or MDEntryType in a snapshot) moves on to the next one. */
module RepeatingGroups {
  import opened Text
  import opened DecimalNumber
  import opened FixMessage
  import opened FixScanner
  import opened FieldMeaning

  function Opener(snapshot: bool): nat {
    if snapshot then MD_ENTRY_TYPE else MD_UPDATE_ACTION
  }

  /** What one field means to the entry it belongs to. */
  function SetEntry(e: MdEntry, it: Item): MdEntry {
    if it.value == "" then e
    else
      match NumParse(it.tag)
      case 279 => e.(action := SignedChar(it.value[0]) - ZERO)
      case 269 => e.(side := if it.value[0] == '0' then Bid else Ask)
      case 270 => e.(px := it.value)
      case 271 => e.(size := it.value)
      case 278 => e.(id := it.value)
      case 55 => e.(symbol := it.value)
      case _ => e
  }

  function EntryOf(e: MdEntry, g: seq<Item>): MdEntry
    decreases |g|
  {
    if g == [] then e else EntryOf(SetEntry(e, g[0]), g[1..])
  }

  lemma {:induction false} LastValueNotEmpty(g: seq<Item>, t: nat)
    requires forall i :: 0 <= i < |g| ==> g[i].value != ""
    ensures LastValue(g, t).Some? ==> LastValue(g, t).value != ""
    decreases |g|
  {
    if g != [] {
      LastValueNotEmpty(g[1..], t);
    }
  }

  /** A group's entry is read off the group by looking up each tag's last value. */
  lemma {:induction false} EntryOfFields(e: MdEntry, g: seq<Item>)
    requires forall i :: 0 <= i < |g| ==> g[i].tag != "" && g[i].value != ""
    ensures EntryOf(e, g).px == OrElse(LastValue(g, MD_ENTRY_PX), e.px)
    ensures EntryOf(e, g).size == OrElse(LastValue(g, MD_ENTRY_SIZE), e.size)
    ensures EntryOf(e, g).id == OrElse(LastValue(g, MD_ENTRY_ID), e.id)
    ensures EntryOf(e, g).symbol == OrElse(LastValue(g, SYMBOL), e.symbol)
    ensures EntryOf(e, g).action == ActionOf(LastValue(g, MD_UPDATE_ACTION), e.action)
    ensures EntryOf(e, g).side == SideOf(LastValue(g, MD_ENTRY_TYPE), e.side)
    decreases |g|
  {
    if g != [] {
      LastValueNotEmpty(g[1..], MD_UPDATE_ACTION);
      LastValueNotEmpty(g[1..], MD_ENTRY_TYPE);
      EntryOfFields(SetEntry(e, g[0]), g[1..]);
    }
  }

  function OrElse(v: Option<string>, d: string): string {
    if v.Some? then v.value else d
  }

  function ActionOf(v: Option<string>, d: int): int {
    if v.Some? && v.value != "" then SignedChar(v.value[0]) - ZERO else d
  }

  function SideOf(v: Option<string>, d: PxSide): PxSide {
    if v.Some? && v.value != "" then (if v.value[0] == '0' then Bid else Ask) else d
  }

  /** The index stays inside the vector unless a later NoMDEntries shrinks it too far. */
  lemma IndexStaysInside(m: Msg, it: Item)
    requires m.entryIndex < |m.entries|
    ensures RunItem(m, it).Parsed? ==>
              var m' := RunItem(m, it).msg;
              m'.entryIndex < |m'.entries| <==>
                !(HasTag(it, NO_MD_ENTRIES) && NumParse(it.value) <= m.entryIndex)
  {
  }

  /** A price or size that cannot be converted. */
  predicate BadNumber(it: Item) {
    (HasTag(it, MD_ENTRY_PX) || HasTag(it, MD_ENTRY_SIZE)) && !IsNumber(it.value)
  }

  /** A field inside a group: anything but an opener, NoMDEntries or MsgType. */
  predicate Inner(it: Item, snapshot: bool) {
    && !Refusable(it) && it.tag != "" && !BadNumber(it)
    && var t := NumParse(it.tag);
       t != MD_UPDATE_ACTION && t != NO_MD_ENTRIES && t != MSG_TYPE && t != Opener(snapshot)
  }

  ghost predicate AllInner(g: seq<Item>, snapshot: bool) {
    forall i :: 0 <= i < |g| ==> Inner(g[i], snapshot)
  }

  predicate Opens(it: Item, snapshot: bool) {
    !Refusable(it) && HasTag(it, Opener(snapshot))
  }

  ghost predicate IsGroup(g: seq<Item>, snapshot: bool) {
    g != [] && Opens(g[0], snapshot) && AllInner(g[1..], snapshot)
  }

  ghost predicate AllGroups(gs: seq<seq<Item>>, snapshot: bool) {
    forall i :: 0 <= i < |gs| ==> IsGroup(gs[i], snapshot)
  }

  function Flat(gs: seq<seq<Item>>): seq<Item> {
    if gs == [] then [] else gs[0] + Flat(gs[1..])
  }

  /** The two messages agree on everything the repeating group is made of. */
  predicate SameGroupState(m: Msg, entries: seq<MdEntry>, index: EntryIndex, snapshot: bool) {
    m.entries == entries && m.entryIndex == index && m.isSnapshot == snapshot
  }

  lemma {:induction false} RunAppend(m: Msg, a: seq<Item>, b: seq<Item>)
    ensures RunItems(m, a + b) ==
            var o := RunItems(m, a); if o.Parsed? then RunItems(o.msg, b) else o
    decreases |a|
  {
    if a == [] {
      assert a + b == b;
    } else {
      assert (a + b)[1..] == a[1..] + b;
      var o := RunItem(m, a[0]);
      if o.Parsed? {
        RunAppend(o.msg, a[1..], b);
      }
    }
  }

  lemma InnerStep(m: Msg, it: Item)
    requires InGroup(m) && Inner(it, m.isSnapshot)
    ensures var o := RunItem(m, it);
            && o.Parsed?
            && SameGroupState(o.msg, m.entries[m.entryIndex := SetEntry(Entry(m), it)], m.entryIndex, m.isSnapshot)
  {
    assert m.entries[m.entryIndex := Entry(m)] == m.entries;
  }

  /** Inside a group no access leaves the vector, and only the current entry changes. */
  lemma {:induction false} InnerRun(m: Msg, g: seq<Item>)
    requires InGroup(m) && AllInner(g, m.isSnapshot)
    ensures var o := RunItems(m, g);
            && o.Parsed?
            && SameGroupState(o.msg, m.entries[m.entryIndex := EntryOf(Entry(m), g)], m.entryIndex, m.isSnapshot)
    decreases |g|
  {
    if g == [] {
      assert m.entries[m.entryIndex := Entry(m)] == m.entries;
    } else {
      assert Inner(g[0], m.isSnapshot);
      InnerStep(m, g[0]);
      InnerRun(RunItem(m, g[0]).msg, g[1..]);
    }
  }

  lemma OpenerStep(m: Msg, it: Item)
    requires Opens(it, m.isSnapshot) && HasNext(m)
    ensures var o := RunItem(m, it);
            && o.Parsed?
            && SameGroupState(o.msg, m.entries[m.entryIndex + 1 := SetEntry(m.entries[m.entryIndex + 1], it)],
                              m.entryIndex + 1, m.isSnapshot)
  {
  }

  /** One whole group fills the next entry with exactly its own values. */
  lemma GroupRun(m: Msg, g: seq<Item>)
    requires IsGroup(g, m.isSnapshot) && HasNext(m)
    ensures var o := RunItems(m, g);
            && o.Parsed?
            && SameGroupState(o.msg, m.entries[m.entryIndex + 1 := EntryOf(m.entries[m.entryIndex + 1], g)],
                              m.entryIndex + 1, m.isSnapshot)
  {
    OpenerStep(m, g[0]);
    InnerRun(RunItem(m, g[0]).msg, g[1..]);
  }

  /** The entries after gs have been written over es from position i on. */
  function Filled(es: seq<MdEntry>, i: nat, gs: seq<seq<Item>>): (r: seq<MdEntry>)
    requires i + |gs| <= |es|
    ensures |r| == |es|
    decreases |gs|
  {
    if gs == [] then es else Filled(es[i := EntryOf(es[i], gs[0])], i + 1, gs[1..])
  }

  lemma {:induction false} FilledAt(es: seq<MdEntry>, i: nat, gs: seq<seq<Item>>, k: nat)
    requires i + |gs| <= |es| && k < |es|
    ensures Filled(es, i, gs)[k] == if i <= k < i + |gs| then EntryOf(es[k], gs[k - i]) else es[k]
    decreases |gs|
  {
    if gs != [] {
      FilledAt(es[i := EntryOf(es[i], gs[0])], i + 1, gs[1..], k);
    }
  }

  lemma FirstGroup(m: Msg, gs: seq<seq<Item>>) returns (m1: Msg)
    requires AllGroups(gs, m.isSnapshot) && gs != [] && HasNext(m)
    ensures RunItems(m, Flat(gs)) == RunItems(m1, Flat(gs[1..]))
    ensures SameGroupState(m1, m.entries[m.entryIndex + 1 := EntryOf(m.entries[m.entryIndex + 1], gs[0])],
                           m.entryIndex + 1, m.isSnapshot)
    ensures AllGroups(gs[1..], m1.isSnapshot)
  {
    assert IsGroup(gs[0], m.isSnapshot);
    GroupRun(m, gs[0]);
    RunAppend(m, gs[0], Flat(gs[1..]));
    m1 := RunItems(m, gs[0]).msg;
  }

  /** Groups fill consecutive entries, each with its own values, and nothing else changes. */
  lemma {:induction false} GroupsRun(m: Msg, gs: seq<seq<Item>>)
    requires AllGroups(gs, m.isSnapshot)
    requires m.entryIndex + 1 + |gs| <= |m.entries|
    ensures var o := RunItems(m, Flat(gs));
            && o.Parsed?
            && SameGroupState(o.msg, Filled(m.entries, m.entryIndex + 1, gs), m.entryIndex + |gs|, m.isSnapshot)
    decreases |gs|
  {
    if gs != [] {
      var m1 := FirstGroup(m, gs);
      GroupsRun(m1, gs[1..]);
    }
  }

  // ---------- groups beyond the announced number ----------

  /** What a group contributes when there is no entry left for it. */
  function Surplus(g: seq<Item>, snapshot: bool): seq<Item>
    requires g != []
  {
    if snapshot then g else g[1..]
  }

  function SurplusItems(gs: seq<seq<Item>>, snapshot: bool): seq<Item>
    requires forall i :: 0 <= i < |gs| ==> gs[i] != []
  {
    if gs == [] then [] else Surplus(gs[0], snapshot) + SurplusItems(gs[1..], snapshot)
  }

  lemma {:induction false} EntryOfAppend(e: MdEntry, a: seq<Item>, b: seq<Item>)
    ensures EntryOf(e, a + b) == EntryOf(EntryOf(e, a), b)
    decreases |a|
  {
    if a == [] {
      assert a + b == b;
    } else {
      assert (a + b)[1..] == a[1..] + b;
      EntryOfAppend(SetEntry(e, a[0]), a[1..], b);
    }
  }

  lemma SurplusOpener(m: Msg, it: Item)
    requires Opens(it, m.isSnapshot) && InGroup(m) && !HasNext(m)
    ensures var o := RunItem(m, it);
            && o.Parsed?
            && var e := if m.isSnapshot then SetEntry(Entry(m), it) else Entry(m);
               SameGroupState(o.msg, m.entries[m.entryIndex := e], m.entryIndex, m.isSnapshot)
  {
    assert m.entries[m.entryIndex := Entry(m)] == m.entries;
  }

  lemma SurplusGroup(m: Msg, g: seq<Item>)
    requires IsGroup(g, m.isSnapshot) && InGroup(m) && !HasNext(m)
    ensures var o := RunItems(m, g);
            && o.Parsed?
            && SameGroupState(o.msg, m.entries[m.entryIndex := EntryOf(Entry(m), Surplus(g, m.isSnapshot))],
                              m.entryIndex, m.isSnapshot)
  {
    SurplusOpener(m, g[0]);
    InnerRun(RunItem(m, g[0]).msg, g[1..]);
  }

  /** Surplus groups are not dropped: they overwrite the last entry. */
  lemma {:induction false} SurplusRun(m: Msg, gs: seq<seq<Item>>)
    requires AllGroups(gs, m.isSnapshot) && InGroup(m) && !HasNext(m)
    ensures var o := RunItems(m, Flat(gs));
            && o.Parsed?
            && SameGroupState(o.msg,
                              m.entries[m.entryIndex := EntryOf(Entry(m), SurplusItems(gs, m.isSnapshot))],
                              m.entryIndex, m.isSnapshot)
    decreases |gs|
  {
    if gs == [] {
      assert m.entries[m.entryIndex := Entry(m)] == m.entries;
    } else {
      var g, rest := gs[0], gs[1..];
      assert IsGroup(g, m.isSnapshot);
      SurplusGroup(m, g);
      RunAppend(m, g, Flat(rest));
      var m' := RunItems(m, g).msg;
      SurplusRun(m', rest);
      EntryOfAppend(Entry(m), Surplus(g, m.isSnapshot), SurplusItems(rest, m.isSnapshot));
    }
  }

  // ---------- whole messages ----------

  /** A header without market data, the announcement of the entries, and the groups. */
  ghost predicate IsMarketData(pre: seq<Item>, count: Item, gs: seq<seq<Item>>) {
    && AllPlain(pre) && NoneRefusable(pre) && NoEntries(pre)
    && !Refusable(count) && HasTag(count, NO_MD_ENTRIES)
    && AllGroups(gs, SnapshotIn(pre))
  }

  function Announced(count: Item): nat {
    NumParse(count.value)
  }

  lemma HeaderRun(pre: seq<Item>, count: Item, gs: seq<seq<Item>>) returns (m: Msg)
    requires IsMarketData(pre, count, gs)
    ensures RunItems(EMPTY_MSG, pre + [count]) == Parsed(m)
    ensures |m.entries| == Announced(count) && m.entryIndex == -1 && m.isSnapshot == SnapshotIn(pre)
    ensures forall k :: 0 <= k < Announced(count) ==> m.entries[k] == NEW_ENTRY
  {
    PlainMeaning(EMPTY_MSG, pre);
    RunAppend(EMPTY_MSG, pre, [count]);
    m := RunItems(EMPTY_MSG, pre + [count]).msg;
  }

  lemma HeaderAndGroups(pre: seq<Item>, count: Item, gs: seq<seq<Item>>) returns (m: Msg)
    requires IsMarketData(pre, count, gs)
    requires |gs| <= Announced(count)
    ensures RunItems(EMPTY_MSG, pre + [count] + Flat(gs)) == Parsed(m)
    ensures |m.entries| == Announced(count) && m.entryIndex == |gs| - 1 && m.isSnapshot == SnapshotIn(pre)
    ensures forall k :: 0 <= k < |gs| ==> m.entries[k] == EntryOf(NEW_ENTRY, gs[k])
    ensures forall k :: |gs| <= k < Announced(count) ==> m.entries[k] == NEW_ENTRY
  {
    var h := HeaderRun(pre, count, gs);
    RunAppend(EMPTY_MSG, pre + [count], Flat(gs));
    GroupsRun(h, gs);
    m := RunItems(h, Flat(gs)).msg;
    forall k | 0 <= k < |m.entries|
      ensures m.entries[k] == if k < |gs| then EntryOf(NEW_ENTRY, gs[k]) else NEW_ENTRY
    {
      FilledAt(h.entries, 0, gs, k);
    }
  }

  // ---------- no entries announced ----------

  predicate AddressesEntry(it: Item) {
    HasTag(it, MD_ENTRY_TYPE) || HasTag(it, MD_ENTRY_PX) || HasTag(it, MD_ENTRY_SIZE) || HasTag(it, MD_ENTRY_ID)
  }

  ghost predicate AnyAddresses(items: seq<Item>) {
    exists i :: 0 <= i < |items| && AddressesEntry(items[i])
  }

  ghost predicate NoneAnnounces(items: seq<Item>) {
    forall i :: 0 <= i < |items| ==>
      !Refusable(items[i]) && !HasTag(items[i], NO_MD_ENTRIES) && !HasTag(items[i], MSG_TYPE)
  }

  predicate WithoutEntries(m: Msg) {
    m.entries == [] && m.entryIndex == -1
  }

  lemma LonelyStep(m: Msg, it: Item)
    requires WithoutEntries(m)
    requires !Refusable(it) && !HasTag(it, NO_MD_ENTRIES) && !HasTag(it, MSG_TYPE)
    ensures RunItem(m, it) == Failed(Undefined) <==> AddressesEntry(it)
    ensures !AddressesEntry(it) ==> RunItem(m, it).Parsed? && WithoutEntries(RunItem(m, it).msg)
  {
  }

  lemma AnyAddressesCons(items: seq<Item>)
    requires items != []
    ensures AnyAddresses(items) <==> AddressesEntry(items[0]) || AnyAddresses(items[1..])
    ensures NoneAnnounces(items) ==> NoneAnnounces(items[1..])
  {
    var rest := items[1..];
    assert forall i :: 1 <= i < |items| ==> items[i] == rest[i - 1];
    assert forall i :: 0 <= i < |rest| ==> rest[i] == items[i + 1];
  }

  /** Without entries a run faults exactly when some item addresses one. */
  lemma {:induction false} LonelyRun(m: Msg, items: seq<Item>)
    requires WithoutEntries(m) && NoneAnnounces(items)
    ensures RunItems(m, items) == Failed(Undefined) <==> AnyAddresses(items)
    ensures !AnyAddresses(items) ==> RunItems(m, items).Parsed? && WithoutEntries(RunItems(m, items).msg)
    decreases |items|
  {
    if items != [] {
      LonelyStep(m, items[0]);
      AnyAddressesCons(items);
      if !AddressesEntry(items[0]) {
        LonelyRun(RunItem(m, items[0]).msg, items[1..]);
      }
    }
  }

  lemma GroupAnnouncesNothing(g: seq<Item>, snapshot: bool)
    requires IsGroup(g, snapshot)
    ensures NoneAnnounces(g)
  {
    assert forall i :: 1 <= i < |g| ==> g[i] == g[1..][i - 1];
  }

  lemma {:induction false} GroupsAnnounceNothing(gs: seq<seq<Item>>, snapshot: bool)
    requires AllGroups(gs, snapshot)
    ensures NoneAnnounces(Flat(gs))
    decreases |gs|
  {
    if gs != [] {
      assert IsGroup(gs[0], snapshot);
      GroupAnnouncesNothing(gs[0], snapshot);
      GroupsAnnounceNothing(gs[1..], snapshot);
    }
  }

  /** In a snapshot the opener of every group addresses an entry. */
  lemma SnapshotAddresses(gs: seq<seq<Item>>)
    requires AllGroups(gs, true) && gs != []
    ensures AnyAddresses(Flat(gs))
  {
    assert IsGroup(gs[0], true);
    assert AddressesEntry(Flat(gs)[0]);
  }

  // ---------- any number of groups against the announced number ----------

  ghost predicate FilledIn(m: Msg, n: nat, gs: seq<seq<Item>>) {
    && |m.entries| == n && m.entryIndex == |gs| - 1
    && (forall k :: 0 <= k < |gs| && k < n ==> m.entries[k] == EntryOf(NEW_ENTRY, gs[k]))
    && (forall k :: |gs| <= k < n ==> m.entries[k] == NEW_ENTRY)
  }

  ghost predicate Overfilled(m: Msg, n: nat, gs: seq<seq<Item>>, snapshot: bool)
    requires 0 < n < |gs| && AllGroups(gs, snapshot)
  {
    && |m.entries| == n && m.entryIndex == n - 1
    && (forall k :: 0 <= k < n - 1 ==> m.entries[k] == EntryOf(NEW_ENTRY, gs[k]))
    && m.entries[n - 1] == EntryOf(NEW_ENTRY, gs[n - 1] + SurplusItems(gs[n..], snapshot))
  }

  lemma MarketDataFits(pre: seq<Item>, count: Item, gs: seq<seq<Item>>)
    requires IsMarketData(pre, count, gs) && |gs| <= Announced(count)
    ensures var o := RunItems(EMPTY_MSG, pre + [count] + Flat(gs));
            o.Parsed? && FilledIn(o.msg, Announced(count), gs)
  {
    var m := HeaderAndGroups(pre, count, gs);
  }

  lemma {:induction false} FlatAppend(a: seq<seq<Item>>, b: seq<seq<Item>>)
    ensures Flat(a + b) == Flat(a) + Flat(b)
    decreases |a|
  {
    if a == [] {
      assert a + b == b;
    } else {
      assert (a + b)[1..] == a[1..] + b;
      FlatAppend(a[1..], b);
      Assoc(a[0], Flat(a[1..]), Flat(b));
    }
  }

  lemma SurplusAfter(pre: seq<Item>, count: Item, gs: seq<seq<Item>>, rest: seq<seq<Item>>) returns (m: Msg)
    requires IsMarketData(pre, count, gs) && AllGroups(rest, SnapshotIn(pre))
    requires 0 < |gs| == Announced(count)
    ensures RunItems(EMPTY_MSG, pre + [count] + Flat(gs) + Flat(rest)) == Parsed(m)
    ensures |m.entries| == |gs| && m.entryIndex == |gs| - 1
    ensures forall k :: 0 <= k < |gs| - 1 ==> m.entries[k] == EntryOf(NEW_ENTRY, gs[k])
    ensures m.entries[|gs| - 1] == EntryOf(NEW_ENTRY, gs[|gs| - 1] + SurplusItems(rest, SnapshotIn(pre)))
  {
    var h := HeaderAndGroups(pre, count, gs);
    RunAppend(EMPTY_MSG, pre + [count] + Flat(gs), Flat(rest));
    SurplusRun(h, rest);
    EntryOfAppend(NEW_ENTRY, gs[|gs| - 1], SurplusItems(rest, SnapshotIn(pre)));
    m := RunItems(h, Flat(rest)).msg;
  }

  lemma SplitFlat(head: seq<Item>, first: seq<seq<Item>>, rest: seq<seq<Item>>)
    ensures head + Flat(first + rest) == head + Flat(first) + Flat(rest)
  {
    FlatAppend(first, rest);
    Assoc(head, Flat(first), Flat(rest));
  }

  lemma SplitGroups(head: seq<Item>, gs: seq<seq<Item>>, n: nat)
    requires n <= |gs|
    ensures head + Flat(gs) == head + Flat(gs[..n]) + Flat(gs[n..])
  {
    TakeDrop(gs, n);
    SplitFlat(head, gs[..n], gs[n..]);
  }

  lemma MarketDataSurplus(pre: seq<Item>, count: Item, gs: seq<seq<Item>>)
    requires IsMarketData(pre, count, gs) && 0 < Announced(count) < |gs|
    ensures var o := RunItems(EMPTY_MSG, pre + [count] + Flat(gs));
            o.Parsed? && Overfilled(o.msg, Announced(count), gs, SnapshotIn(pre))
  {
    var n := Announced(count);
    SplitGroups(pre + [count], gs, n);
    var m := SurplusAfter(pre, count, gs[..n], gs[n..]);
  }

  lemma MarketDataUnannounced(pre: seq<Item>, count: Item, gs: seq<seq<Item>>)
    requires IsMarketData(pre, count, gs) && Announced(count) == 0
    ensures var o := RunItems(EMPTY_MSG, pre + [count] + Flat(gs));
            && (o == Failed(Undefined) <==> AnyAddresses(Flat(gs)))
            && (o != Failed(Undefined) ==> o.Parsed? && WithoutEntries(o.msg))
    ensures SnapshotIn(pre) && gs != [] ==> AnyAddresses(Flat(gs))
  {
    var h := HeaderRun(pre, count, gs);
    RunAppend(EMPTY_MSG, pre + [count], Flat(gs));
    GroupsAnnounceNothing(gs, SnapshotIn(pre));
    LonelyRun(h, Flat(gs));
    if SnapshotIn(pre) && gs != [] {
      SnapshotAddresses(gs);
    }
  }

  /** The groups of a message against the number n it announces. At most as many: entry k holds exactly
      group k's values and the remaining entries stay untouched. More, but some announced: the surplus
      ends up in the last entry, on top of the values of its own group. None announced: the message
      fails exactly when some item addresses an entry. */
  ghost predicate GroupsStored(o: Outcome, n: nat, gs: seq<seq<Item>>, snapshot: bool)
    requires AllGroups(gs, snapshot)
  {
    && (|gs| <= n ==> o.Parsed? && FilledIn(o.msg, n, gs))
    && (0 < n < |gs| ==> o.Parsed? && Overfilled(o.msg, n, gs, snapshot))
    && (n == 0 ==> if AnyAddresses(Flat(gs)) then o == Failed(Undefined) else o.Parsed? && WithoutEntries(o.msg))
  }

  /** So it is for every message; in a snapshot every group addresses an entry. */
  lemma MarketDataRun(pre: seq<Item>, count: Item, gs: seq<seq<Item>>)
    requires IsMarketData(pre, count, gs)
    ensures GroupsStored(RunItems(EMPTY_MSG, pre + [count] + Flat(gs)), Announced(count), gs, SnapshotIn(pre))
    ensures SnapshotIn(pre) && gs != [] ==> AnyAddresses(Flat(gs))
  {
    if SnapshotIn(pre) && gs != [] {
      SnapshotAddresses(gs);
    }
    if |gs| <= Announced(count) {
      MarketDataFits(pre, count, gs);
    } else if 0 < Announced(count) {
      MarketDataSurplus(pre, count, gs);
    }
    if Announced(count) == 0 {
      MarketDataUnannounced(pre, count, gs);
    }
  }
}
