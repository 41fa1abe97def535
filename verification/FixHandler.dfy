/** FixHandler: outgoing sequence numbers, the incoming gap check, and the heartbeat timer. */
module Handler {
  import opened Text
  import opened Machine

  type ULong = n: nat | n < ULONG_RANGE

  const SECOND := 1_000_000  // time is counted in microseconds
  const DEFAULT_INTERVAL := 30 * SECOND

  /** What the handler looks at in a parsed message: MsgSeqNum (missing when it cannot be read) and,
      for a Logon with a HeartBtInt field, the seconds it names. */
  datatype Incoming = Incoming(seqNum: Option<ULong>, logonInterval: Option<nat>)

  /** Adding one wraps around. */
  function Next(n: ULong): ULong {
    if n == ULONG_RANGE - 1 then 0 else n + 1
  }

  /** The gap check against the last number, 0 meaning none yet. */
  predicate IsGap(last: ULong, seqNum: ULong) {
    last != 0 && seqNum != Next(last)
  }

  /** Seconds a Logon names replace the interval when they are sensible. */
  function NewInterval(h: nat, seconds: nat): nat {
    if 0 < seconds < 600 then seconds * SECOND else h
  }

  // ---------- the state and its steps ----------

  /** The next number to put on a message, the last one received, the numbers put on messages, and
      those logged as following a gap. */
  datatype NumbersOf<+S> = Numbers(next: ULong, last: ULong, stamps: S, gaps: S)

  type Numbers = NumbersOf<seq<ULong>>

  /** The interval, when the last message came, when the pending timer wait ends, and when a
      heartbeat was asked for and expiry was raised. */
  datatype HeartOf<+S> =
    Heart(interval: nat, last: int, deadline: Option<int>, heartbeats: S, expirations: S)

  type Heart = HeartOf<seq<int>>

  datatype HandlerState = HandlerState(numbers: Numbers, heart: Heart)

  function Fresh(now: int): HandlerState {
    HandlerState(Numbers(1, 0, [], []), Heart(DEFAULT_INTERVAL, now, None, [], []))
  }

  datatype Event =
    | Instruct(count: nat, at: int)
    | Renumber(next: ULong, at: int)
    | Arrival(m: Incoming, at: int)
    | Tick
    | Disconnect(at: int)

  function NumbersAfter(s: Numbers, e: Event): Numbers {
    match e
    case Instruct(count, _) =>
      s.(next := StampAfter(s.next, count), stamps := s.stamps + Stamps(s.next, count))
    case Renumber(next, _) => s.(next := next)
    case Arrival(m, _) =>
      if m.seqNum.None? then s
      else
        var n := m.seqNum.value;
        s.(last := n, gaps := s.gaps + if IsGap(s.last, n) then [n] else [])
    case _ => s
  }

  function HeartAfter(s: Heart, e: Event): Heart
    requires e.Tick? ==> s.deadline.Some?
  {
    match e
    case Arrival(m, at) => OnMessage(s, m, at)
    case Tick => OnTick(s, s.deadline.value)
    case Disconnect(_) => s.(deadline := None)
    case _ => s
  }

  function OnMessage(s: Heart, m: Incoming, now: int): Heart {
    var t := s.(last := now);
    if m.seqNum.None? || m.logonInterval.None? then t
    else
      var h := NewInterval(s.interval, m.logonInterval.value);
      t.(interval := h, deadline := Some(now + h))
  }

  function OnTick(s: Heart, now: int): Heart {
    var raised := now > s.last + 2 * s.interval;
    s.(heartbeats := s.heartbeats + [now],
       expirations := s.expirations + if raised then [now] else [],
       deadline := Some(now + s.interval))
  }

  function After(s: HandlerState, e: Event): HandlerState
    requires e.Tick? ==> s.heart.deadline.Some?
  {
    HandlerState(NumbersAfter(s.numbers, e), HeartAfter(s.heart, e))
  }

  class FixHandler {
    var msgSeqNum: ULong
    var lastMsgSeqNum: ULong
    var hbInterval: nat
    var lastMsgRecvTm: int
    var deadline: Option<int>     // when the pending timer wait ends
    var stamps: seq<ULong>        // numbers put on outgoing messages
    var gaps: seq<ULong>          // numbers logged as following a gap
    var heartbeats: seq<int>      // times at which a heartbeat was asked for
    var expirations: seq<int>     // times at which expiry was raised

    function State(): HandlerState
      reads this
    {
      HandlerState(Numbers(msgSeqNum, lastMsgSeqNum, stamps, gaps),
              Heart(hbInterval, lastMsgRecvTm, deadline, heartbeats, expirations))
    }

    constructor (now: int)
      ensures State() == Fresh(now)
    {
      msgSeqNum, lastMsgSeqNum, hbInterval, lastMsgRecvTm := 1, 0, DEFAULT_INTERVAL, now;
      deadline, stamps, gaps, heartbeats, expirations := None, [], [], [], [];
    }

    method NextMsgSeqNum() returns (n: ULong)
      modifies `msgSeqNum
      ensures n == old(msgSeqNum) && msgSeqNum == Next(old(msgSeqNum))
    {
      n := msgSeqNum;
      msgSeqNum := if msgSeqNum == ULONG_RANGE - 1 then 0 else msgSeqNum + 1;
    }

    /** Any of the instruct calls that number `count` messages (one, or one for each symbol up to the
        first that cannot be formatted). */
    method Instruct(count: nat, ghost now: int)
      modifies `msgSeqNum, `stamps
      ensures State() == After(old(State()), Event.Instruct(count, now))
    {
      var i := 0;
      Unit(stamps);
      while i < count
        invariant i <= count && msgSeqNum == StampAfter(old(msgSeqNum), i)
        invariant stamps == old(stamps) + Stamps(old(msgSeqNum), i)
      {
        Assoc(old(stamps), Stamps(old(msgSeqNum), i), [msgSeqNum]);
        var n := NextMsgSeqNum();
        stamps := stamps + [n];
        i := i + 1;
      }
    }

    method SetNextMsgSeqNum(nextSeq: ULong, ghost now: int)
      modifies `msgSeqNum
      ensures State() == After(old(State()), Renumber(nextSeq, now))
    {
      msgSeqNum := nextSeq;
    }

    method ScheduleHeartbeatTest(now: int)
      modifies `deadline
      ensures deadline == Some(now + hbInterval)
    {
      deadline := Some(now + hbInterval);
    }

    /** A message arrived at time `now`. */
    method ParseFixMsg(m: Incoming, now: int)
      modifies this
      ensures State() == After(old(State()), Arrival(m, now))
    {
      lastMsgRecvTm := now;
      Unit(gaps);
      if m.seqNum.None? {
        return;
      }
      var msgSequence := m.seqNum.value;
      var expected := if lastMsgSeqNum == ULONG_RANGE - 1 then 0 else lastMsgSeqNum + 1;
      if lastMsgSeqNum != 0 && msgSequence != expected {
        gaps := gaps + [msgSequence];
      }
      lastMsgSeqNum := msgSequence;
      if m.logonInterval.Some? {
        var interval := m.logonInterval.value;
        if 0 < interval && interval < 600 {
          hbInterval := interval * SECOND;
        }
        ScheduleHeartbeatTest(now);
      }
    }

    /** The timer wait ended, because it was cancelled or because its time has come. */
    method OnHeartbeatTest(cancelled: bool)
      requires !cancelled ==> deadline.Some?
      modifies this
      ensures State() == if cancelled then old(State()) else After(old(State()), Tick)
    {
      if !cancelled {
        var now := deadline.value;
        heartbeats := heartbeats + [now];
        Unit(expirations);
        if now > lastMsgRecvTm + 2 * hbInterval {
          expirations := expirations + [now];
        }
        ScheduleHeartbeatTest(now);
      }
    }

    /** The connection is gone: the timer is cancelled. */
    method OnDisconnected(ghost now: int)
      modifies `deadline
      ensures State() == After(old(State()), Disconnect(now))
    {
      deadline := None;
    }
  }

  // ---------- runs ----------

  /** Time does not run backwards, and the timer fires exactly at its deadline. */
  predicate Possible(s: HandlerState, now: int, e: Event) {
    if e.Tick? then s.heart.deadline.Some?
    else now <= e.at && (s.heart.deadline.Some? ==> e.at <= s.heart.deadline.value)
  }

  function When(s: HandlerState, e: Event): int
    requires e.Tick? ==> s.heart.deadline.Some?
  {
    if e.Tick? then s.heart.deadline.value else e.at
  }

  ghost predicate Runs(s: HandlerState, now: int, es: seq<Event>, end: HandlerState, endTime: int)
    decreases |es|
  {
    if es == [] then end == s && endTime == now
    else Possible(s, now, es[0]) && Runs(After(s, es[0]), When(s, es[0]), es[1..], end, endTime)
  }

  // ---------- outgoing sequence numbers ----------

  /** The next number after n messages. */
  function StampAfter(start: ULong, n: nat): ULong {
    if n == 0 then start else Next(StampAfter(start, n - 1))
  }

  function Stamps(start: ULong, n: nat): (s: seq<ULong>)
    ensures |s| == n
  {
    if n == 0 then [] else Stamps(start, n - 1) + [StampAfter(start, n - 1)]
  }

  lemma WrapNext(a: nat)
    ensures (a + 1) % ULONG_RANGE == Next(a % ULONG_RANGE)
  {
    var q, r := a / ULONG_RANGE, a % ULONG_RANGE;
    if r == ULONG_RANGE - 1 {
      assert a + 1 == (q + 1) * ULONG_RANGE;
    }
  }

  /** Numbers less than 2^64 apart do not wrap to the same one. */
  lemma WrapDistinct(a: nat, b: nat, x: nat, y: nat)
    requires a < b < a + ULONG_RANGE && x == a % ULONG_RANGE && y == b % ULONG_RANGE
    ensures x != y
  {
    var p, q := a / ULONG_RANGE, b / ULONG_RANGE;
    assert a == p * ULONG_RANGE + x && b == q * ULONG_RANGE + y;
  }

  lemma {:induction false} StampsAre(start: ULong, n: nat, i: nat)
    requires i < n
    ensures Stamps(start, n)[i] == (start + i) % ULONG_RANGE
    decreases n
  {
    if i == n - 1 {
      StampAfterIs(start, i);
    } else {
      StampsAre(start, n - 1, i);
    }
  }

  lemma {:induction false} StampAfterIs(start: ULong, n: nat)
    ensures StampAfter(start, n) == (start + n) % ULONG_RANGE
  {
    if n > 0 {
      StampAfterIs(start, n - 1);
      WrapNext(start + n - 1);
    }
  }

  /** However many messages each call sends, the calls together stamp one consecutive run. */
  lemma {:induction false} CallsCompose(start: ULong, a: nat, b: nat)
    ensures Stamps(start, a + b) == Stamps(start, a) + Stamps(StampAfter(start, a), b)
    ensures StampAfter(start, a + b) == StampAfter(StampAfter(start, a), b)
    decreases b
  {
    if b == 0 {
      Unit(Stamps(start, a));
    } else {
      CallsCompose(start, a, b - 1);
      Assoc(Stamps(start, a), Stamps(StampAfter(start, a), b - 1), [StampAfter(start, a + b - 1)]);
    }
  }

  /** No number is used twice before 2^64 messages have been sent. */
  lemma StampsDistinct(start: ULong, n: nat, i: nat, j: nat)
    requires i < j < n <= ULONG_RANGE
    ensures Stamps(start, n)[i] != Stamps(start, n)[j]
  {
    StampsAre(start, n, i);
    StampsAre(start, n, j);
    WrapDistinct(start + i, start + j, Stamps(start, n)[i], Stamps(start, n)[j]);
  }

  // ---------- the gap check ----------

  /** The numbers logged when these arrive one after the other. */
  function GapsIn(last: ULong, seqs: seq<ULong>): seq<ULong>
    decreases |seqs|
  {
    if seqs == [] then []
    else (if IsGap(last, seqs[0]) then [seqs[0]] else []) + GapsIn(seqs[0], seqs[1..])
  }

  /** No gap is logged exactly when each number that is not 0 is followed by its successor. */
  lemma {:induction false} NoGapIff(last: ULong, seqs: seq<ULong>)
    ensures GapsIn(last, seqs) == [] <==>
              (seqs != [] ==> !IsGap(last, seqs[0])) && forall i :: 0 <= i < |seqs| - 1 ==> !IsGap(seqs[i], seqs[i + 1])
    decreases |seqs|
  {
    if seqs != [] {
      var rest := seqs[1..];
      NoGapIff(seqs[0], rest);
      assert forall i :: 0 <= i < |rest| ==> rest[i] == seqs[i + 1];
      if GapsIn(last, seqs) == [] {
        forall i | 0 <= i < |seqs| - 1
          ensures !IsGap(seqs[i], seqs[i + 1])
        {
          if i > 0 {
            assert seqs[i] == rest[i - 1];
          }
        }
      } else if !IsGap(last, seqs[0]) {
        assert GapsIn(seqs[0], rest) != [];
      }
    }
  }

  lemma PickedAre(n: nat, picks: seq<nat>)
    requires n < ULONG_RANGE - 1 && forall i :: 0 <= i < |picks| ==> picks[i] < n
    ensures forall i :: 0 <= i < |picks| ==> Picked(n, picks)[i] == picks[i] + 1
  {
    forall i | 0 <= i < |picks|
      ensures Picked(n, picks)[i] == picks[i] + 1
    {
      StampsAre(1, n, picks[i]);
    }
  }

  lemma SmallGap(a: nat, b: nat)
    requires a < ULONG_RANGE - 2 && b < ULONG_RANGE - 2
    ensures IsGap(a + 1, b + 1) <==> b != a + 1
  {
  }

  /** A fresh receiver that is given any selection of a sender's messages, in any order, logs no gap
      exactly when it was given one contiguous increasing run of them. */
  lemma GapFreeIffContiguous(n: nat, picks: seq<nat>)
    requires n < ULONG_RANGE - 1 && forall i :: 0 <= i < |picks| ==> picks[i] < n
    ensures GapsIn(0, Picked(n, picks)) == [] <==> forall i :: 0 <= i < |picks| - 1 ==> picks[i + 1] == picks[i] + 1
  {
    var seqs := Picked(n, picks);
    NoGapIff(0, seqs);
    PickedAre(n, picks);
    forall i | 0 <= i < |picks| - 1
      ensures IsGap(seqs[i], seqs[i + 1]) <==> picks[i + 1] != picks[i] + 1
    {
      SmallGap(picks[i], picks[i + 1]);
    }
    assert seqs != [] ==> !IsGap(0, seqs[0]);
  }

  /** The numbers on the picked ones of the first n messages of a fresh sender. */
  function Picked(n: nat, picks: seq<nat>): (s: seq<ULong>)
    requires forall i :: 0 <= i < |picks| ==> picks[i] < n
    ensures |s| == |picks| && forall i :: 0 <= i < |picks| ==> s[i] == Stamps(1, n)[picks[i]]
  {
    seq(|picks|, i requires 0 <= i < |picks| => Stamps(1, n)[picks[i]])
  }

  // ---------- the numbers over whole runs ----------

  /** How many messages the instruct calls of a run number. */
  function Total(es: seq<Event>): nat {
    if es == [] then 0 else (if es[0].Instruct? then es[0].count else 0) + Total(es[1..])
  }

  /** The numbers of the messages that arrive in a run. */
  function Received(es: seq<Event>): seq<ULong> {
    if es == [] then []
    else
      var rest := Received(es[1..]);
      if es[0].Arrival? && es[0].m.seqNum.Some? then [es[0].m.seqNum.value] + rest else rest
  }

  ghost predicate NoRenumber(es: seq<Event>) {
    forall i :: 0 <= i < |es| ==> !es[i].Renumber?
  }

  lemma StampsStep(s: Numbers, count: nat, t: Numbers, n: nat)
    requires t.next == StampAfter(s.next, count) && t.stamps == s.stamps + Stamps(s.next, count)
    ensures t.stamps + Stamps(t.next, n) == s.stamps + Stamps(s.next, count + n)
    ensures StampAfter(t.next, n) == StampAfter(s.next, count + n)
  {
    CallsCompose(s.next, count, n);
    Assoc(s.stamps, Stamps(s.next, count), Stamps(StampAfter(s.next, count), n));
  }

  lemma EventStamps(s: Numbers, e: Event)
    requires !e.Renumber?
    ensures var count := if e.Instruct? then e.count else 0;
            && NumbersAfter(s, e).next == StampAfter(s.next, count)
            && NumbersAfter(s, e).stamps == s.stamps + Stamps(s.next, count)
  {
    Unit(s.stamps);
  }

  lemma GapsCons(last: ULong, n: ULong, rest: seq<ULong>)
    ensures GapsIn(last, [n] + rest) == (if IsGap(last, n) then [n] else []) + GapsIn(n, rest)
  {
    assert ([n] + rest)[1..] == rest;
  }

  lemma GapsStep(s: Numbers, e: Event, rest: seq<ULong>)
    ensures var t := NumbersAfter(s, e);
            var all := if e.Arrival? && e.m.seqNum.Some? then [e.m.seqNum.value] + rest else rest;
            t.gaps + GapsIn(t.last, rest) == s.gaps + GapsIn(s.last, all)
  {
    if e.Arrival? && e.m.seqNum.Some? {
      var n := e.m.seqNum.value;
      GapsCons(s.last, n, rest);
      Assoc(s.gaps, if IsGap(s.last, n) then [n] else [], GapsIn(n, rest));
    }
  }

  /** However calls, messages, ticks and disconnects are interleaved, the stamps are one consecutive
      run and the logged gaps those of the numbers that arrived. */
  lemma {:induction false} RunNumbers(s: HandlerState, now: int, es: seq<Event>, end: HandlerState, endTime: int)
    requires Runs(s, now, es, end, endTime)
    ensures end.numbers.gaps == s.numbers.gaps + GapsIn(s.numbers.last, Received(es))
    ensures NoRenumber(es) ==>
              && end.numbers.stamps == s.numbers.stamps + Stamps(s.numbers.next, Total(es))
              && end.numbers.next == StampAfter(s.numbers.next, Total(es))
    decreases |es|
  {
    if es == [] {
      Unit(s.numbers.gaps);
      Unit(s.numbers.stamps);
    } else {
      var e, rest := es[0], es[1..];
      RunNumbers(After(s, e), When(s, e), rest, end, endTime);
      GapsStep(s.numbers, e, Received(rest));
      if !e.Renumber? {
        EventStamps(s.numbers, e);
        StampsStep(s.numbers, if e.Instruct? then e.count else 0, After(s, e).numbers, Total(rest));
      }
    }
  }

  /** A fresh handler stamps 1, 2, 3 and so on, and logs exactly the gaps of what it received. */
  lemma FreshRun(begin: int, es: seq<Event>, end: HandlerState, endTime: int)
    requires Runs(Fresh(begin), begin, es, end, endTime)
    ensures end.numbers.gaps == GapsIn(0, Received(es))
    ensures NoRenumber(es) ==> end.numbers.stamps == Stamps(1, Total(es))
  {
    RunNumbers(Fresh(begin), begin, es, end, endTime);
    Unit(end.numbers.gaps);
    Unit(Stamps(1, Total(es)));
    Unit(GapsIn(0, Received(es)));
  }

  /** One handler's run receives any selection of the messages of another's, in any order: it logs no
      gap if and only if it received one contiguous increasing run of them. */
  lemma RunsGapFreeIff(begin: int, es: seq<Event>, sender: HandlerState, sent: int,
                       begin': int, es': seq<Event>, receiver: HandlerState, received: int, picks: seq<nat>)
    requires Runs(Fresh(begin), begin, es, sender, sent) && NoRenumber(es) && Total(es) < ULONG_RANGE - 1
    requires Runs(Fresh(begin'), begin', es', receiver, received)
    requires |Received(es')| == |picks|
    requires forall i :: 0 <= i < |picks| ==>
               picks[i] < |sender.numbers.stamps| && Received(es')[i] == sender.numbers.stamps[picks[i]]
    ensures receiver.numbers.gaps == [] <==> forall i :: 0 <= i < |picks| - 1 ==> picks[i + 1] == picks[i] + 1
  {
    FreshRun(begin, es, sender, sent);
    FreshRun(begin', es', receiver, received);
    assert Received(es') == Picked(Total(es), picks);
    GapFreeIffContiguous(Total(es), picks);
  }

  // ---------- the heartbeat ----------

  /** A pending deadline is at most one interval ahead. */
  predicate OnTime(s: Heart, now: int) {
    && s.interval > 0 && s.last <= now
    && (s.deadline.Some? ==> now <= s.deadline.value <= now + s.interval)
  }

  lemma EventKeepsOnTime(s: HandlerState, now: int, e: Event)
    requires OnTime(s.heart, now) && Possible(s, now, e)
    ensures OnTime(After(s, e).heart, When(s, e)) && now <= When(s, e)
  {
  }

  /** In every run, whatever intervals the logons set, the deadline stays within one interval. */
  lemma {:induction false} RunKeepsOnTime(s: HandlerState, now: int, es: seq<Event>, end: HandlerState, endTime: int)
    requires OnTime(s.heart, now) && Runs(s, now, es, end, endTime)
    ensures OnTime(end.heart, endTime)
    decreases |es|
  {
    if es != [] {
      EventKeepsOnTime(s, now, es[0]);
      RunKeepsOnTime(After(s, es[0]), When(s, es[0]), es[1..], end, endTime);
    }
  }

  function TickCount(es: seq<Event>): nat {
    if es == [] then 0 else (if es[0].Tick? then 1 else 0) + TickCount(es[1..])
  }

  /** A heartbeat is asked for at every tick of a run. */
  lemma {:induction false} EveryTickBeats(s: HandlerState, now: int, es: seq<Event>, end: HandlerState, endTime: int)
    requires Runs(s, now, es, end, endTime)
    ensures |end.heart.heartbeats| == |s.heart.heartbeats| + TickCount(es)
    decreases |es|
  {
    if es != [] {
      EveryTickBeats(After(s, es[0]), When(s, es[0]), es[1..], end, endTime);
    }
  }

  /** No interval of the run is shorter than h. */
  ghost predicate AtLeast(s: Heart, es: seq<Event>, h: nat) {
    && h <= s.interval
    && forall i :: 0 <= i < |es| && es[i].Arrival? && es[i].m.logonInterval.Some? ==>
         NewInterval(h, es[i].m.logonInterval.value) >= h
  }

  lemma AtLeastRest(s: HandlerState, now: int, es: seq<Event>, h: nat)
    requires es != [] && AtLeast(s.heart, es, h) && Possible(s, now, es[0])
    ensures AtLeast(After(s, es[0]).heart, es[1..], h)
  {
    assert forall i :: 0 <= i < |es[1..]| ==> es[1..][i] == es[i + 1];
    assert es[0].Arrival? && es[0].m.logonInterval.Some? ==> NewInterval(h, es[0].m.logonInterval.value) >= h;
  }

  /** None of the times xs is within 2h after `at`. */
  ghost predicate NoneWithin(xs: seq<int>, at: int, h: nat) {
    forall k :: 0 <= k < |xs| ==> xs[k] <= at || xs[k] > at + 2 * h
  }

  ghost predicate NoneWithinAny(xs: seq<int>, es: seq<Event>, h: nat) {
    forall i :: 0 <= i < |es| && es[i].Arrival? ==> NoneWithin(xs, es[i].at, h)
  }

  lemma {:induction false} TimesGoOn(s: HandlerState, now: int, es: seq<Event>, end: HandlerState, endTime: int, i: nat)
    requires OnTime(s.heart, now) && Runs(s, now, es, end, endTime) && i < |es| && es[i].Arrival?
    ensures now <= es[i].at
    decreases |es|
  {
    if i > 0 {
      EventKeepsOnTime(s, now, es[0]);
      TimesGoOn(After(s, es[0]), When(s, es[0]), es[1..], end, endTime, i - 1);
    }
  }

  /** In any run whose intervals are at least h, no expiry is raised within 2h after a message. */
  lemma {:induction false} ExpiriesAreLate(s: HandlerState, now: int, es: seq<Event>, end: HandlerState,
                                           endTime: int, h: nat)
    returns (xs: seq<int>)
    requires OnTime(s.heart, now) && Runs(s, now, es, end, endTime) && AtLeast(s.heart, es, h)
    ensures end.heart.expirations == s.heart.expirations + xs
    ensures forall k :: 0 <= k < |xs| ==> xs[k] > s.heart.last + 2 * h
    ensures NoneWithinAny(xs, es, h)
    decreases |es|
  {
    xs := [];
    Unit(s.heart.expirations);
    if es != [] {
      var e, rest, t := es[0], es[1..], After(s, es[0]);
      EventKeepsOnTime(s, now, e);
      AtLeastRest(s, now, es, h);
      var ys := ExpiriesAreLate(t, When(s, e), rest, end, endTime, h);
      var raised := if e.Tick? && When(s, e) > s.heart.last + 2 * s.heart.interval then [When(s, e)] else [];
      xs := raised + ys;
      Assoc(s.heart.expirations, raised, ys);
      forall i | 0 <= i < |es| && es[i].Arrival?
        ensures NoneWithin(xs, es[i].at, h)
      {
        if i > 0 {
          assert es[i] == rest[i - 1];
          TimesGoOn(t, When(s, e), rest, end, endTime, i - 1);
        }
      }
    }
  }

  function Ticks(s: Heart, n: nat): (t: Heart)
    requires s.deadline.Some?
    ensures t.deadline.Some?
  {
    if n == 0 then s else HeartAfter(Ticks(s, n - 1), Tick)
  }

  /** After n silent ticks the deadline has moved n intervals on. */
  lemma {:induction false} SilentDeadline(s: Heart, n: nat)
    requires s.deadline.Some?
    ensures Ticks(s, n).deadline == Some(s.deadline.value + n * s.interval)
    ensures Ticks(s, n).interval == s.interval && Ticks(s, n).last == s.last
  {
    if n > 0 {
      SilentDeadline(s, n - 1);
    }
  }

  /** Silence after a message at time L: the third tick raises expiry (the fourth, when the timer was
      due at L itself), no earlier one does, and that is later than L + 2h, at latest L + 3h. */
  ghost predicate ExpiresInTime(s: Heart)
    requires s.deadline.Some?
  {
    var n := if s.deadline.value > s.last then 3 else 4;
    var at := s.deadline.value + (n - 1) * s.interval;
    && Ticks(s, n - 1).expirations == s.expirations
    && Ticks(s, n).expirations == s.expirations + [at]
    && s.last + 2 * s.interval < at <= s.last + 3 * s.interval
  }

  lemma SilenceExpires(s: Heart)
    requires OnTime(s, s.last) && s.deadline.Some?
    ensures ExpiresInTime(s)
  {
    SilentDeadline(s, 0);
    SilentDeadline(s, 1);
    SilentDeadline(s, 2);
    SilentDeadline(s, 3);
    Unit(s.expirations);
    assert Ticks(s, 1) == HeartAfter(s, Tick);
    assert Ticks(s, 2) == HeartAfter(Ticks(s, 1), Tick);
    assert Ticks(s, 3) == HeartAfter(Ticks(s, 2), Tick);
    assert Ticks(s, 4) == HeartAfter(Ticks(s, 3), Tick);
  }

  // ---------- when a timer is running ----------

  /** A Logon that names the seconds between heartbeats. */
  predicate IsLogon(e: Event) {
    e.Arrival? && e.m.seqNum.Some? && e.m.logonInterval.Some?
  }

  /** A logon that arrives at time t starts the timer: sensible seconds become the interval, others leave
      it, and the first test is one interval later. No other message touches interval or timer. */
  lemma LogonStartsTimer(s: HandlerState, e: Event)
    requires e.Arrival?
    ensures After(s, e).heart.last == e.at
    ensures IsLogon(e) ==>
              var secs := e.m.logonInterval.value;
              && After(s, e).heart.interval == (if 0 < secs < 600 then secs * 1_000_000 else s.heart.interval)
              && After(s, e).heart.deadline == Some(e.at + After(s, e).heart.interval)
    ensures !IsLogon(e) ==>
              After(s, e).heart.interval == s.heart.interval && After(s, e).heart.deadline == s.heart.deadline
  {
  }

  ghost predicate NoDisconnect(es: seq<Event>) {
    forall i :: 0 <= i < |es| ==> !es[i].Disconnect?
  }

  ghost predicate NoLogon(es: seq<Event>) {
    forall i :: 0 <= i < |es| ==> !IsLogon(es[i])
  }

  /** A logon that no disconnect follows. */
  ghost predicate LogonAt(es: seq<Event>, i: nat)
    requires i < |es|
  {
    IsLogon(es[i]) && NoDisconnect(es[i + 1..])
  }

  ghost predicate LoggedOn(es: seq<Event>) {
    exists i :: 0 <= i < |es| && LogonAt(es, i)
  }

  lemma NoneCons(es: seq<Event>)
    requires es != []
    ensures NoDisconnect(es) <==> !es[0].Disconnect? && NoDisconnect(es[1..])
    ensures NoLogon(es) <==> !IsLogon(es[0]) && NoLogon(es[1..])
  {
    var rest := es[1..];
    assert forall i :: 1 <= i < |es| ==> es[i] == rest[i - 1];
    assert forall i :: 0 <= i < |rest| ==> rest[i] == es[i + 1];
  }

  lemma LogonAtCons(es: seq<Event>, i: nat)
    requires i + 1 < |es|
    ensures LogonAt(es, i + 1) <==> LogonAt(es[1..], i)
  {
    assert es[1..][i] == es[i + 1] && es[1..][i + 1..] == es[i + 2..];
  }

  lemma LoggedOnCons(es: seq<Event>)
    requires es != []
    ensures LoggedOn(es) <==> LoggedOn(es[1..]) || (IsLogon(es[0]) && NoDisconnect(es[1..]))
  {
    var rest := es[1..];
    assert LogonAt(es, 0) <==> IsLogon(es[0]) && NoDisconnect(rest);
    if i :| 0 <= i < |es| && LogonAt(es, i) && i > 0 {
      LogonAtCons(es, i - 1);
      assert LogonAt(rest, i - 1);
    }
    if i :| 0 <= i < |rest| && LogonAt(rest, i) {
      LogonAtCons(es, i);
      assert LogonAt(es, i + 1);
    }
  }

  /** After a run a timer is pending if and only if a logon arrived that no disconnect followed, or one
      was pending before and there was no disconnect. */
  lemma {:induction false} TimerIff(s: HandlerState, now: int, es: seq<Event>, end: HandlerState, endTime: int)
    requires Runs(s, now, es, end, endTime)
    ensures end.heart.deadline.Some? <==> LoggedOn(es) || (s.heart.deadline.Some? && NoDisconnect(es))
    decreases |es|
  {
    if es != [] {
      LoggedOnCons(es);
      NoneCons(es);
      TimerIff(After(s, es[0]), When(s, es[0]), es[1..], end, endTime);
    }
  }

  /** Without a timer there is no tick until a logon; in particular after a disconnect. */
  lemma {:induction false} NoTickUntilLogon(s: HandlerState, now: int, es: seq<Event>, end: HandlerState, endTime: int)
    requires Runs(s, now, es, end, endTime) && s.heart.deadline.None? && NoLogon(es)
    ensures forall i :: 0 <= i < |es| ==> !es[i].Tick?
    decreases |es|
  {
    if es != [] {
      NoneCons(es);
      NoTickUntilLogon(After(s, es[0]), When(s, es[0]), es[1..], end, endTime);
      assert forall i :: 1 <= i < |es| ==> es[i] == es[1..][i - 1];
    }
  }

  lemma NoTickAfterDisconnect(s: HandlerState, now: int, at: int, es: seq<Event>, end: HandlerState, endTime: int)
    requires Runs(s, now, [Disconnect(at)] + es, end, endTime) && NoLogon(es)
    ensures forall i :: 0 <= i < |es| ==> !es[i].Tick?
  {
    assert ([Disconnect(at)] + es)[1..] == es;
    NoTickUntilLogon(After(s, Disconnect(at)), at, es, end, endTime);
  }

  /** After setNextMsgSeqNum the stamps go on from the given number. */
  lemma StampsAfterRenumber(s: HandlerState, now: int, n: ULong, at: int, es: seq<Event>, end: HandlerState,
                            endTime: int)
    requires Runs(s, now, [Renumber(n, at)] + es, end, endTime) && NoRenumber(es)
    ensures end.numbers.stamps == s.numbers.stamps + Stamps(n, Total(es))
  {
    assert ([Renumber(n, at)] + es)[1..] == es;
    RunNumbers(After(s, Renumber(n, at)), at, es, end, endTime);
  }

  lemma SameState(s: HandlerState, next: ULong, last: ULong, stamps: seq<ULong>,
                  interval: nat, received: int, deadline: Option<int>, beats: seq<int>)
    requires s.numbers.next == next && s.numbers.last == last && s.numbers.stamps == stamps && s.numbers.gaps == []
    requires s.heart.interval == interval && s.heart.last == received && s.heart.deadline == deadline
    requires s.heart.heartbeats == beats && s.heart.expirations == []
    ensures s == HandlerState(Numbers(next, last, stamps, []), Heart(interval, received, deadline, beats, []))
  {
  }

  /** A run with every kind of event: a fresh handler numbers two messages, gets a logon that asks for a
      heartbeat every 20 seconds, ticks, and loses the connection. */
  lemma ShortRun() returns (es: seq<Event>, end: HandlerState)
    ensures es == [Instruct(2, 1), Arrival(Incoming(Some(1), Some(20)), 5), Tick, Disconnect(20_000_006)]
    ensures Runs(Fresh(0), 0, es, end, 20_000_006)
    ensures end == HandlerState(Numbers(3, 1, [1, 2], []), Heart(20_000_000, 5, None, [20_000_005], []))
  {
    es := [Instruct(2, 1), Arrival(Incoming(Some(1), Some(20)), 5), Tick, Disconnect(20_000_006)];
    assert Stamps(1, 1) == [1] && Stamps(1, 2) == [1, 2] && StampAfter(1, 2) == 3;
    var s1 := After(Fresh(0), es[0]);
    SameState(s1, 3, 0, [1, 2], 30_000_000, 0, None, []);
    var s2 := After(s1, es[1]);
    SameState(s2, 3, 1, [1, 2], 20_000_000, 5, Some(20_000_005), []);
    var s3 := After(s2, es[2]);
    SameState(s3, 3, 1, [1, 2], 20_000_000, 5, Some(40_000_005), [20_000_005]);
    end := After(s3, es[3]);
    SameState(end, 3, 1, [1, 2], 20_000_000, 5, None, [20_000_005]);
    assert es[3..][1..] == [] && es[2..][1..] == es[3..] && es[1..][1..] == es[2..];
    assert Runs(s3, 20_000_005, es[3..], end, 20_000_006);
    assert Runs(s2, 5, es[2..], end, 20_000_006);
    assert Runs(s1, 1, es[1..], end, 20_000_006);
  }

  /** From a fresh handler on no expiry was raised within two shortest intervals after any message. */
  lemma NoEarlyExpiry(begin: int, es: seq<Event>, end: HandlerState, endTime: int, h: nat)
    requires Runs(Fresh(begin), begin, es, end, endTime) && AtLeast(Fresh(begin).heart, es, h)
    ensures forall k, i :: 0 <= k < |end.heart.expirations| && 0 <= i < |es| && es[i].Arrival? ==>
              end.heart.expirations[k] <= es[i].at || end.heart.expirations[k] > es[i].at + 2 * h
  {
    var xs := ExpiriesAreLate(Fresh(begin), begin, es, end, endTime, h);
    Unit(xs);
    forall k, i | 0 <= k < |end.heart.expirations| && 0 <= i < |es| && es[i].Arrival?
      ensures end.heart.expirations[k] <= es[i].at || end.heart.expirations[k] > es[i].at + 2 * h
    {
      assert NoneWithin(xs, es[i].at, h);
    }
  }

  /** From a fresh handler on, through any run that ends with a message and in which no disconnect
      followed the last logon: no expiry was raised within two shortest intervals after any of the
      messages, and silence now expires in time. */
  lemma HeartbeatDeadline(begin: int, es: seq<Event>, end: HandlerState, h: nat)
    requires Runs(Fresh(begin), begin, es, end, end.heart.last) && LoggedOn(es)
    requires AtLeast(Fresh(begin).heart, es, h)
    ensures end.heart.deadline.Some?
    ensures forall k, i :: 0 <= k < |end.heart.expirations| && 0 <= i < |es| && es[i].Arrival? ==>
              end.heart.expirations[k] <= es[i].at || end.heart.expirations[k] > es[i].at + 2 * h
    ensures var s := end.heart;
            var n := if s.deadline.value > s.last then 3 else 4;
            var at := s.deadline.value + (n - 1) * s.interval;
            && Ticks(s, n - 1).expirations == s.expirations
            && Ticks(s, n).expirations == s.expirations + [at]
            && s.last + 2 * s.interval < at <= s.last + 3 * s.interval
  {
    NoEarlyExpiry(begin, es, end, end.heart.last, h);
    TimerIff(Fresh(begin), begin, es, end, end.heart.last);
    RunKeepsOnTime(Fresh(begin), begin, es, end, end.heart.last);
    SilenceExpires(end.heart);
  }
}
