/** FixMsgParser::process: parse one frame into a fresh message and broadcast it, or reject it. */
module MsgParser {
  import opened Text
  import opened FixMessage
  import opened FixScanner

  /** What one frame means on its own. */
  function Meaning(frame: string): Outcome {
    Interpret(EMPTY_MSG, frame)
  }

  /** The messages a sequence of frames delivers: those of the frames that parse. */
  function Delivered(frames: seq<string>): seq<Msg> {
    if frames == [] then [] else DeliveredBy(frames[0]) + Delivered(frames[1..])
  }

  function DeliveredBy(frame: string): seq<Msg> {
    var o := Meaning(frame);
    if o.Parsed? then [o.msg] else []
  }

  /** How processing a sequence of frames ends: `process` returns for each of them, or stops at one. */
  datatype Ending = Completed | Stopped(kind: Failure)

  function EndingOf(frames: seq<string>): Ending {
    if frames == [] then Completed
    else
      var o := Meaning(frames[0]);
      if o.Failed? then Stopped(o.kind) else EndingOf(frames[1..])
  }

  predicate Returns(frames: seq<string>) {
    EndingOf(frames).Completed?
  }

  /** The messages delivered up to the first frame for which `process` does not return. */
  function Broadcast(frames: seq<string>): seq<Msg> {
    if frames == [] || Meaning(frames[0]).Failed? then []
    else DeliveredBy(frames[0]) + Broadcast(frames[1..])
  }

  lemma {:induction false} BroadcastAll(frames: seq<string>)
    requires Returns(frames)
    ensures Broadcast(frames) == Delivered(frames)
  {
    if frames != [] {
      BroadcastAll(frames[1..]);
    }
  }

  lemma {:induction false} EndingAppend(a: seq<string>, b: seq<string>)
    ensures EndingOf(a + b) == if Returns(a) then EndingOf(b) else EndingOf(a)
  {
    if a == [] {
      assert a + b == b;
    } else {
      assert (a + b)[1..] == a[1..] + b;
      EndingAppend(a[1..], b);
    }
  }

  /** Nothing is delivered behind a frame for which `process` does not return. */
  lemma {:induction false} BroadcastAppend(a: seq<string>, b: seq<string>)
    ensures Broadcast(a + b) == if Returns(a) then Broadcast(a) + Broadcast(b) else Broadcast(a)
  {
    if a == [] {
      assert a + b == b;
      Unit(Broadcast(b));
    } else {
      assert (a + b)[1..] == a[1..] + b;
      BroadcastAppend(a[1..], b);
      Assoc(DeliveredBy(a[0]), Broadcast(a[1..]), Broadcast(b));
    }
  }

  lemma FirstOf(f: string, rest: seq<string>)
    ensures EndingOf([f] + rest) == if Meaning(f).Failed? then Stopped(Meaning(f).kind) else EndingOf(rest)
    ensures Broadcast([f] + rest) == if Meaning(f).Failed? then [] else DeliveredBy(f) + Broadcast(rest)
    ensures Delivered([f] + rest) == DeliveredBy(f) + Delivered(rest)
  {
    assert ([f] + rest)[1..] == rest;
  }

  class FixMsgParser {
    /** Every message broadcast to the subscribers so far. */
    var broadcasts: seq<Msg>

    constructor ()
      ensures broadcasts == []
    {
      broadcasts := [];
    }

    method Process(aMsg: string) returns (r: ScanResult)
      modifies this
      ensures r.Accepted? <==> Meaning(aMsg).Parsed?
      ensures r.Refused? <==> Meaning(aMsg).Rejected?
      ensures r.Aborted? ==> Meaning(aMsg) == Failed(r.kind)
      ensures r != Aborted(Undefined) ==> broadcasts == old(broadcasts) + DeliveredBy(aMsg)
    {
      var fixMsg := new FixMsg();
      r := ParseFixMsg(aMsg, fixMsg);
      if r == Accepted {
        broadcasts := broadcasts + [fixMsg.State()];
      }
    }
  }
}
