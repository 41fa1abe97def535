/** The parsed message: fields by tag, and the market-data repeating group. */
module FixMessage {
  import opened Text
  import opened DecimalNumber

  /** A tag with its value; both are text on the wire. */
  datatype Field<+T, +V> = Field(tag: T, value: V)

  // Tags with a meaning of their own (FixTag.hpp, FixMsgType.hpp).
  const BEGIN_STRING := 8
  const BODY_LENGTH := 9
  const CHECK_SUM := 10
  const MSG_TYPE := 35
  const SYMBOL := 55
  const NO_MD_ENTRIES := 268
  const MD_ENTRY_TYPE := 269
  const MD_ENTRY_PX := 270
  const MD_ENTRY_SIZE := 271
  const MD_ENTRY_ID := 278
  const MD_UPDATE_ACTION := 279
  const MAX_TAG_NUM := 9068

  const MARKET_DATA_SNAPSHOT := 'W'
  const SECURITY_LIST_RESPONSE := 'y'

  /** `Unset` is the zero value a new entry starts with. */
  datatype PxSide = Unset | Bid | Ask

  /** One entry of the repeating group; price and size keep the text they were read from. */
  datatype MdEntryOf<+T> = MdEntry(action: int, symbol: T, side: PxSide, px: T, size: T, id: T)

  type MdEntry = MdEntryOf<string>

  const NEW_ENTRY: MdEntry := MdEntry(0, "", Unset, "", "", "")

  type EntryIndex = i: int | -1 <= i witness -1

  /** Everything a FixMsg object holds: field values, available tags, entries and securities. */
  datatype MsgOf<+F, +A, +E, +S> =
    Msg(fields: F, available: A, entryIndex: EntryIndex, isSnapshot: bool, entries: E, securities: S)

  type Msg = MsgOf<map<nat, string>, set<nat>, seq<MdEntry>, seq<string>>

  const EMPTY_MSG: Msg := Msg(map[], {}, -1, false, [], [])

  /** The original throws, or it reads or writes outside a vector or a buffer, behind which nothing
      is promised any more. */
  datatype Failure = Throws | Undefined

  datatype Outcome = Parsed(msg: Msg) | Rejected | Failed(kind: Failure)

  function Resize(es: seq<MdEntry>, n: nat): (r: seq<MdEntry>)
    ensures |r| == n
    ensures forall i :: 0 <= i < n ==> r[i] == if i < |es| then es[i] else NEW_ENTRY
  {
    if n <= |es| then es[..n] else es + seq(n - |es|, _ => NEW_ENTRY)
  }

  // ---------- setting a field ----------

  predicate InGroup(m: Msg) {
    0 <= m.entryIndex < |m.entries|
  }

  /** There is a further entry to move on to. */
  predicate HasNext(m: Msg) {
    |m.entries| > 0 && m.entryIndex < |m.entries| - 1
  }

  function UpdateEntry(m: Msg, e: MdEntry): Msg
    requires InGroup(m)
  {
    m.(entries := m.entries[m.entryIndex := e])
  }

  function Entry(m: Msg): MdEntry
    requires InGroup(m)
  {
    m.entries[m.entryIndex]
  }

  function SetPlain(m: Msg, tag: nat, value: string): Outcome {
    var m' := m.(fields := m.fields[tag := value], available := m.available + {tag});
    if tag == NO_MD_ENTRIES then
      Parsed(m'.(entries := Resize(m'.entries, NumParse(value))))
    else if tag == MSG_TYPE then
      if value == "" then Failed(Undefined)
      else Parsed(m'.(isSnapshot := m'.isSnapshot || value[0] == MARKET_DATA_SNAPSHOT))
    else Parsed(m')
  }

  predicate IsSecurityList(m: Msg) {
    && MSG_TYPE in m.available && MSG_TYPE in m.fields
    && m.fields[MSG_TYPE] != "" && m.fields[MSG_TYPE][0] == SECURITY_LIST_RESPONSE
  }

  /** What `FixMsg::field` makes of one field. */
  function SetField(m: Msg, tag: nat, value: string): Outcome {
    match tag
    case 279 =>
      if !HasNext(m) then Parsed(m)
      else if value == "" then Failed(Undefined)
      else
        var m' := m.(entryIndex := m.entryIndex + 1);
        Parsed(UpdateEntry(m', Entry(m').(action := SignedChar(value[0]) - ZERO)))
    case 269 =>
      var m' := if m.isSnapshot && HasNext(m) then m.(entryIndex := m.entryIndex + 1) else m;
      if !InGroup(m') || value == "" then Failed(Undefined)
      else Parsed(UpdateEntry(m', Entry(m').(side := if value[0] == '0' then Bid else Ask)))
    case 270 =>
      if !InGroup(m) then Failed(Undefined)
      else if IsNumber(value) then Parsed(UpdateEntry(m, Entry(m).(px := value)))
      else Failed(Throws)
    case 271 =>
      if !InGroup(m) then Failed(Undefined)
      else if IsNumber(value) then Parsed(UpdateEntry(m, Entry(m).(size := value)))
      else Failed(Throws)
    case 278 => if InGroup(m) then Parsed(UpdateEntry(m, Entry(m).(id := value))) else Failed(Undefined)
    case 55 =>
      if InGroup(m) then Parsed(UpdateEntry(m, Entry(m).(symbol := value)))
      else if IsSecurityList(m) then Parsed(m.(securities := m.securities + [value]))
      else SetPlain(m, tag, value)
    case _ => SetPlain(m, tag, value)
  }

  class FixMsg {
    var fields: map<nat, string>
    var available: set<nat>
    var entryIndex: EntryIndex
    var isSnapshot: bool
    var entries: seq<MdEntry>
    var securities: seq<string>

    function State(): Msg
      reads this
    {
      Msg(fields, available, entryIndex, isSnapshot, entries, securities)
    }

    constructor ()
      ensures State() == EMPTY_MSG
    {
      fields, available, entryIndex, isSnapshot, entries, securities := map[], {}, -1, false, [], [];
    }

    /** Set a field. */
    method Field(tag: nat, value: string) returns (failure: Option<Failure>)
      requires tag < MAX_TAG_NUM
      modifies this
      ensures SetField(old(State()), tag, value) ==
              if failure.Some? then Failed(failure.value) else Parsed(State())
    {
      match tag {
        case 279 =>
          if |entries| > 0 && entryIndex < |entries| - 1 {
            entryIndex := entryIndex + 1;
            if value == "" { return Some(Undefined); }
            entries := entries[entryIndex := entries[entryIndex].(action := SignedChar(value[0]) - ZERO)];
          }
          return None;
        case 269 =>
          if isSnapshot && |entries| > 0 && entryIndex < |entries| - 1 {
            entryIndex := entryIndex + 1;
          }
          if !(0 <= entryIndex < |entries|) || value == "" { return Some(Undefined); }
          entries := entries[entryIndex := entries[entryIndex].(side := if value[0] == '0' then Bid else Ask)];
          return None;
        case 270 =>
          if !(0 <= entryIndex < |entries|) { return Some(Undefined); }
          if !IsNumber(value) { return Some(Throws); }
          entries := entries[entryIndex := entries[entryIndex].(px := value)];
          return None;
        case 271 =>
          if !(0 <= entryIndex < |entries|) { return Some(Undefined); }
          if !IsNumber(value) { return Some(Throws); }
          entries := entries[entryIndex := entries[entryIndex].(size := value)];
          return None;
        case 278 =>
          if !(0 <= entryIndex < |entries|) { return Some(Undefined); }
          entries := entries[entryIndex := entries[entryIndex].(id := value)];
          return None;
        case 55 =>
          if 0 <= entryIndex < |entries| {
            entries := entries[entryIndex := entries[entryIndex].(symbol := value)];
            return None;
          }
          if IsSecurityList(State()) {
            securities := securities + [value];
            return None;
          }
        case _ =>
      }
      fields := fields[tag := value];
      available := available + {tag};
      if tag == NO_MD_ENTRIES {
        entries := Resize(entries, NumParse(fields[tag]));
      } else if tag == MSG_TYPE {
        if value == "" { return Some(Undefined); }
        if value[0] == MARKET_DATA_SNAPSHOT { isSnapshot := true; }
      }
      return None;
    }

    /** Was the tag seen, and not put into an entry or a list? */
    predicate HasField(tag: nat)
      reads this
      ensures HasField(tag) <==> tag in State().available
    {
      tag in available
    }

    function GetMdEntry(index: nat): (e: Option<MdEntry>)
      reads this
      ensures e.Some? <==> index < |State().entries|
      ensures e.Some? ==> e.value == State().entries[index]
    {
      if index < |entries| then Some(entries[index]) else None
    }
  }
}
