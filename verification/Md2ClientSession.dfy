/** The send queue of one websocket session: messages read are queued or written back at once,
    with at most one asynchronous write under way. */
module SessionQueue {

  /** The fields of a session, and what the environment holds: which operations are pending, what
      was received, what each write was started with, and what completed writes have sent. */
  datatype Session = Session(
    connected: bool,
    sending: bool,
    sendingBuffer: string,
    wsMsgs: seq<string>,
    accepting: bool,
    reading: bool,
    writes: nat,
    received: seq<string>,
    started: seq<string>,
    written: seq<string>,
    writeFailed: bool)

  const INITIAL := Session(false, false, "", [], true, false, 0, [], [], [], false)

  datatype Event = Accepted | AcceptFailed | ReadOk(msg: string) | ReadFailed | WriteOk | WriteFailed

  /** The environment completes only operations that are pending. */
  predicate Enabled(s: Session, e: Event) {
    match e
    case Accepted => s.accepting
    case AcceptFailed => s.accepting
    case ReadOk(_) => s.reading
    case ReadFailed => s.reading
    case WriteOk => s.writes > 0
    case WriteFailed => s.writes > 0
  }

  /** `async_write` of sendingBuffer. */
  function StartWrite(s: Session): Session {
    s.(writes := s.writes + 1, started := s.started + [s.sendingBuffer])
  }

  function SocketSend(s: Session, msg: string): Session {
    if !s.connected || s.sending then s.(wsMsgs := s.wsMsgs + [msg])
    else StartWrite(s.(sending := true, sendingBuffer := msg))
  }

  function SendNext(s: Session): Session
    requires s.wsMsgs != []
  {
    StartWrite(s.(sending := true, sendingBuffer := s.wsMsgs[0], wsMsgs := s.wsMsgs[1..]))
  }

  function Step(s: Session, e: Event): Session
    requires Enabled(s, e)
  {
    match e
    case Accepted => s.(accepting := false, connected := true, reading := true)
    case AcceptFailed => s.(accepting := false)
    case ReadOk(msg) => SocketSend(s.(received := s.received + [msg]), msg)
    case ReadFailed => s.(reading := false, connected := false)
    case WriteOk =>
      // the operation sends what sendingBuffer holds
      var t := s.(writes := s.writes - 1, written := s.written + [s.sendingBuffer]);
      if t.wsMsgs != [] then SendNext(t) else t.(sending := false)
    case WriteFailed => s.(writes := s.writes - 1, writeFailed := true, connected := false)
  }

  // ---------- the session object ----------

  class Md2ClientSession {
    var connected: bool
    var sending: bool
    var sendingBuffer: string
    var wsMsgs: seq<string>
    ghost var accepting: bool
    ghost var reading: bool
    ghost var writes: nat
    ghost var received: seq<string>
    ghost var started: seq<string>
    ghost var written: seq<string>
    ghost var writeFailed: bool

    ghost function State(): Session
      reads this
    {
      Session(connected, sending, sendingBuffer, wsMsgs, accepting, reading, writes,
              received, started, written, writeFailed)
    }

    /** A session whose handshake has been started. */
    constructor ()
      ensures State() == INITIAL
    {
      connected, sending, sendingBuffer, wsMsgs := false, false, "", [];
      accepting, reading, writes, writeFailed := true, false, 0, false;
      received, started, written := [], [], [];
    }

    method Close()
      modifies this
      ensures State() == old(State()).(connected := false)
    {
      connected := false;
    }

    method AsyncWrite()
      modifies this
      ensures State() == StartWrite(old(State()))
    {
      writes := writes + 1;
      started := started + [sendingBuffer];
    }

    method OnAccept(ok: bool)
      requires accepting
      modifies this
      ensures State() == Step(old(State()), if ok then Accepted else AcceptFailed)
    {
      accepting := false;
      if !ok {
        return;
      }
      connected := true;
      reading := true;
    }

    method OnRead(ok: bool, msg: string)
      requires reading
      modifies this
      ensures State() == Step(old(State()), if ok then ReadOk(msg) else ReadFailed)
    {
      reading := false;
      if !ok {
        Close();
        return;
      }
      received := received + [msg];
      OnMessage(msg);
      reading := true;
    }

    method OnMessage(msg: string)
      modifies this
      ensures State() == SocketSend(old(State()), msg)
    {
      if !connected || sending {
        wsMsgs := wsMsgs + [msg];
        return;
      }
      sending := true;
      sendingBuffer := msg;
      AsyncWrite();
    }

    method SendNextWsMessage()
      requires wsMsgs != []
      modifies this
      ensures State() == SendNext(old(State()))
    {
      sending := true;
      sendingBuffer := wsMsgs[0];
      wsMsgs := wsMsgs[1..];
      AsyncWrite();
    }

    method OnWrite(ok: bool)
      requires writes > 0
      modifies this
      ensures State() == Step(old(State()), if ok then WriteOk else WriteFailed)
    {
      writes := writes - 1;
      if !ok {
        writeFailed := true;
        Close();
        return;
      }
      written := written + [sendingBuffer];
      if wsMsgs != [] {
        SendNextWsMessage();
      } else {
        sending := false;
      }
    }
  }

  // ---------- what holds in every run ----------

  function Pending(s: Session): seq<string> {
    (if s.sending then [s.sendingBuffer] else []) + s.wsMsgs
  }

  ghost predicate Inv(s: Session) {
    // first in, first out, and nothing lost
    && s.received == s.written + Pending(s)
    // at most one write, of a buffer that is as it was when the write started
    && s.writes <= 1
    && s.started == s.written + (if s.sending then [s.sendingBuffer] else [])
    && (s.sending <==> s.writes == 1 || s.writeFailed)
    && (s.writeFailed ==> s.writes == 0)
    // nothing waits while nothing is being sent
    && (!s.sending ==> s.wsMsgs == [])
    && (s.accepting ==> !s.reading && !s.sending && !s.connected)
    && (s.reading && !s.connected ==> s.writeFailed)
    // a connected session reads on, until a write fails
    && (s.connected ==> s.reading) && (s.writeFailed ==> !s.connected)
  }

  ghost predicate Runs(s: Session, es: seq<Event>, end: Session)
    decreases |es|
  {
    if es == [] then end == s else Enabled(s, es[0]) && Runs(Step(s, es[0]), es[1..], end)
  }

  lemma StepKeepsInv(s: Session, e: Event)
    requires Inv(s) && Enabled(s, e)
    ensures Inv(Step(s, e))
  {
    match e
    case ReadOk(msg) => ReadKeepsInv(s, msg);
    case WriteOk => WriteKeepsInv(s);
    case _ =>
  }

  lemma ReadKeepsInv(s: Session, msg: string)
    requires Inv(s) && s.reading
    ensures Inv(Step(s, ReadOk(msg)))
  {
    if s.sending {
      var b := [s.sendingBuffer];
      assert (s.written + (b + s.wsMsgs)) + [msg] == s.written + (b + (s.wsMsgs + [msg]));
    } else {
      assert s.connected;
      assert (s.written + []) + [msg] == s.written + ([msg] + []);
    }
  }

  lemma WriteKeepsInv(s: Session)
    requires Inv(s) && s.writes > 0
    ensures Inv(Step(s, WriteOk))
  {
    var b := s.sendingBuffer;
    if s.wsMsgs == [] {
      assert s.written + ([b] + []) == (s.written + [b]) + ([] + []);
    } else {
      assert s.wsMsgs == [s.wsMsgs[0]] + s.wsMsgs[1..];
      assert s.written + ([b] + s.wsMsgs) == (s.written + [b]) + ([s.wsMsgs[0]] + s.wsMsgs[1..]);
    }
  }

  lemma {:induction false} RunKeepsInv(s: Session, es: seq<Event>, end: Session)
    requires Inv(s) && Runs(s, es, end)
    ensures Inv(end)
    decreases |es|
  {
    if es != [] {
      StepKeepsInv(s, es[0]);
      RunKeepsInv(Step(s, es[0]), es[1..], end);
    }
  }

  /** In every run: what was received is what was written, then the write under way, then the
      queue; every completed write sent what it was started with; at most one write is under way,
      with its buffer untouched; and while nothing is being sent nothing is queued. */
  lemma EveryRun(es: seq<Event>, end: Session)
    requires Runs(INITIAL, es, end)
    ensures end.received == end.written + Pending(end) && end.written <= end.received
    ensures end.written <= end.started && |end.started| <= |end.written| + 1
    ensures end.writes <= 1 && (end.writes == 1 ==> end.started == end.written + [end.sendingBuffer])
    ensures !end.sending ==> end.wsMsgs == [] && end.written == end.received
    ensures end.connected ==> end.reading && !end.writeFailed
  {
    RunKeepsInv(INITIAL, es, end);
  }

  /** After a failed write no write is ever started again, and nothing more is written. */
  lemma {:induction false} NoWriteAfterFailure(s: Session, es: seq<Event>, end: Session)
    requires Inv(s) && s.writeFailed && Runs(s, es, end)
    ensures end.writeFailed && end.started == s.started && end.written == s.written && end.writes == 0
    decreases |es|
  {
    if es != [] {
      StepKeepsInv(s, es[0]);
      NoWriteAfterFailure(Step(s, es[0]), es[1..], end);
    }
  }

  // ---------- draining ----------

  function Drain(s: Session): Session
    requires s.writes == 1
    decreases |s.wsMsgs|
  {
    var t := Step(s, WriteOk);
    if s.wsMsgs == [] then t else Drain(t)
  }

  /** With no new reads, one successful write for the buffer and one for each queued message send
      everything that was received, in order. */
  lemma {:induction false} DrainSendsAll(s: Session)
    requires Inv(s) && s.writes == 1
    ensures !Drain(s).sending && Drain(s).wsMsgs == [] && Drain(s).writes == 0
    ensures Drain(s).received == s.received && Drain(s).written == s.received
    decreases |s.wsMsgs|
  {
    StepKeepsInv(s, WriteOk);
    if s.wsMsgs != [] {
      DrainSendsAll(Step(s, WriteOk));
    }
  }

  function WriteOks(n: nat): seq<Event> {
    if n == 0 then [] else [WriteOk] + WriteOks(n - 1)
  }

  /** Draining is a run of exactly |queue| + 1 events. */
  lemma {:induction false} DrainIsARun(s: Session)
    requires Inv(s) && s.writes == 1
    ensures Runs(s, WriteOks(|s.wsMsgs| + 1), Drain(s))
    decreases |s.wsMsgs|
  {
    var es := WriteOks(|s.wsMsgs| + 1);
    assert es[0] == WriteOk && es[1..] == WriteOks(|s.wsMsgs|);
    StepKeepsInv(s, WriteOk);
    if s.wsMsgs != [] {
      DrainIsARun(Step(s, WriteOk));
    }
  }

  // ---------- every message is read and sent back ----------

  function ReadOks(msgs: seq<string>): seq<Event> {
    if msgs == [] then [] else [ReadOk(msgs[0])] + ReadOks(msgs[1..])
  }

  lemma {:induction false} RunsAppend(s: Session, a: seq<Event>, mid: Session, b: seq<Event>, end: Session)
    requires Runs(s, a, mid) && Runs(mid, b, end)
    ensures Runs(s, a + b, end)
    decreases |a|
  {
    if a == [] {
      assert a + b == b;
    } else {
      assert (a + b)[1..] == a[1..] + b;
      RunsAppend(Step(s, a[0]), a[1..], mid, b, end);
    }
  }

  /** A connected session reads any number of messages one after the other. */
  lemma {:induction false} ReadsAll(s: Session, msgs: seq<string>) returns (end: Session)
    requires Inv(s) && s.connected
    ensures Runs(s, ReadOks(msgs), end) && Inv(end)
    ensures end.connected && end.reading && end.received == s.received + msgs && end.written == s.written
    decreases |msgs|
  {
    if msgs == [] {
      end := s;
      assert s.received + msgs == s.received;
    } else {
      StepKeepsInv(s, ReadOk(msgs[0]));
      var t := Step(s, ReadOk(msgs[0]));
      assert t.connected && t.received == s.received + [msgs[0]] && t.written == s.written;
      end := ReadsAll(t, msgs[1..]);
      assert s.received + msgs == (s.received + [msgs[0]]) + msgs[1..];
      assert ReadOks(msgs)[1..] == ReadOks(msgs[1..]);
    }
  }

  /** For every list of messages: accept, then read them all; what was received is that list. With as
      many successful writes as there are messages, what was written is that list too, and the session
      is idle and reading on. */
  lemma EchoesAll(msgs: seq<string>) returns (mid: Session, end: Session)
    ensures Runs(INITIAL, [Accepted] + ReadOks(msgs), mid) && mid.received == msgs && mid.connected && mid.reading
    ensures Runs(INITIAL, [Accepted] + ReadOks(msgs) + WriteOks(|msgs|), end)
    ensures end.written == msgs && end.received == msgs && end.writes == 0 && end.wsMsgs == []
  {
    var s := Step(INITIAL, Accepted);
    StepKeepsInv(INITIAL, Accepted);
    assert [Accepted][1..] == [] && Runs(INITIAL, [Accepted], s);
    mid := ReadsAll(s, msgs);
    assert [] + msgs == msgs;
    RunsAppend(INITIAL, [Accepted], s, ReadOks(msgs), mid);
    if mid.writes == 1 {
      DrainSendsAll(mid);
      DrainIsARun(mid);
      end := Drain(mid);
      assert |msgs| == |Pending(mid)| == |mid.wsMsgs| + 1;
    } else {
      end := mid;
      assert msgs == [];
    }
    RunsAppend(INITIAL, [Accepted] + ReadOks(msgs), mid, WriteOks(|msgs|), end);
  }

  /** Each operation may fail as well: a failed accept ends everything, a failed read or write closes the
      connection, and after a failed write what is read is still kept. */
  lemma Failures(a: string, b: string) returns (refused: Session, unread: Session, unsent: Session)
    ensures Runs(INITIAL, [AcceptFailed], refused) && refused == INITIAL.(accepting := false)
    ensures Runs(INITIAL, [Accepted, ReadFailed], unread)
    ensures !unread.connected && !unread.reading && unread.started == []
    ensures Runs(INITIAL, [Accepted, ReadOk(a), WriteFailed, ReadOk(b)], unsent)
    ensures !unsent.connected && unsent.written == [] && unsent.started == [a] && unsent.wsMsgs == [b]
  {
    refused := Step(INITIAL, AcceptFailed);
    var s := Step(INITIAL, Accepted);
    unread := Step(s, ReadFailed);
    var t := Step(s, ReadOk(a));
    var u := Step(t, WriteFailed);
    unsent := Step(u, ReadOk(b));
    assert [AcceptFailed][1..] == [];
    var es, fs := [Accepted, ReadFailed], [Accepted, ReadOk(a), WriteFailed, ReadOk(b)];
    assert es[1..][1..] == [] && Runs(s, es[1..], unread);
    assert fs[3..][1..] == [] && fs[2..][1..] == fs[3..] && fs[1..][1..] == fs[2..];
    assert Runs(u, fs[3..], unsent);
    assert Runs(t, fs[2..], unsent);
    assert Runs(s, fs[1..], unsent);
  }
}
