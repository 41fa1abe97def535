/** FixMsgRcvBuf: a growing buffer that cuts what the socket delivered into frames. */
module RcvBuf {
  import opened Text
  import opened Framing
  import opened FixMessage
  import opened MsgParser

  class FixMsgRcvBuf {
    const parser: FixMsgParser
    var bufSz: nat
    var buf: array<char>
    var bufBegin: nat  // offsets into buf
    var bufEnd: nat

    ghost predicate Valid()
      reads this
    {
      buf.Length == bufSz == bufEnd && bufBegin <= bufEnd
    }

    /** The bytes kept from earlier reads. */
    function Kept(): string
      reads this, buf
      requires Valid()
    {
      buf[..bufBegin]
    }

    /** Room for the next read. */
    function Size(): nat
      reads this
      requires Valid()
    {
      bufEnd - bufBegin
    }

    constructor (aParser: FixMsgParser, aBufSz: nat := 1024 * 10)
      ensures Valid() && fresh(buf) && parser == aParser
      ensures bufSz == aBufSz && Kept() == ""
    {
      parser := aParser;
      bufSz := aBufSz;
      buf := new char[aBufSz];
      bufBegin, bufEnd := 0, aBufSz;
    }

    method Clear()
      requires Valid()
      modifies `bufBegin
      ensures Valid() && Kept() == ""
    {
      bufBegin := 0;
    }

    /** The socket puts what it read at begin(). */
    method Fill(data: string)
      requires Valid() && |data| <= Size()
      modifies buf
      ensures buf[..bufBegin + |data|] == old(Kept()) + data
    {
      forall i | 0 <= i < |data| {
        buf[bufBegin + i] := data[i];
      }
    }

    /** Move buf[from..from + left] to the front, byte by byte. */
    method MoveToFront(from: nat, left: nat)
      requires from + left <= buf.Length
      modifies buf
      ensures buf[..left] == old(buf[from..from + left])
    {
      for i := 0 to left
        invariant forall k :: 0 <= k < i ==> buf[k] == old(buf[from + k])
        invariant forall k :: i <= k < buf.Length ==> buf[k] == old(buf[k])
      {
        buf[i] := buf[from + i];
      }
    }

    /** Double the array and keep its whole content. */
    method Grow()
      requires Valid() && bufBegin == bufSz
      modifies this
      ensures Valid() && fresh(buf)
      ensures bufSz == 2 * old(bufSz) && Kept() == old(Kept())
    {
      var left := bufSz;
      bufSz := bufSz * 2;
      var newBuf := new char[bufSz];
      forall i | 0 <= i < left {
        newBuf[i] := buf[i];
      }
      buf := newBuf;
      bufBegin := left;
      bufEnd := bufSz;
    }

    /** Hand every complete frame to the parser, keep the rest. When a frame makes the parser throw, the
        frames before it are delivered and the buffer stays as it was. */
    method Parse(aBytesRead: nat) returns (ending: Ending)
      requires Valid() && aBytesRead <= Size()
      modifies this, buf, parser
      ensures var pending := old(buf[..bufBegin + aBytesRead]);
              && ending == EndingOf(Frames(pending))
              && (ending != Stopped(Undefined) ==>
                && Valid() && (buf == old(buf) || fresh(buf))
                && parser.broadcasts == old(parser.broadcasts) + Broadcast(Frames(pending)))
              && (ending == Completed ==>
                && Kept() == Leftover(pending)
                && bufSz == Capacity(old(bufSz), pending))
              && (ending == Stopped(Throws) ==>
                && buf == old(buf) && bufSz == old(bufSz) && bufBegin == old(bufBegin) && buf[..] == old(buf[..])
                && Kept() == old(Kept()))
    {
      var end := bufBegin + aBytesRead;
      var s := buf[..end];
      var msgBegin: nat;
      ending, msgBegin := Deliver(s);
      if ending == Completed {
        assert buf[msgBegin..end] == s[msgBegin..];
        Compact(msgBegin, end);
      }
    }

    /** The loop over the frames of s: what is not delivered starts at msgBegin. */
    method Deliver(s: string) returns (ending: Ending, msgBegin: nat)
      modifies parser
      ensures ending == EndingOf(Frames(s))
      ensures ending != Stopped(Undefined) ==>
                parser.broadcasts == old(parser.broadcasts) + Broadcast(Frames(s))
      ensures ending == Completed ==> msgBegin <= |s| && s[msgBegin..] == Leftover(s)
    {
      msgBegin := 0;
      ghost var sent := [];
      CutStart(s);
      Unit(parser.broadcasts);
      while msgBegin < |s|
        invariant msgBegin <= |s| && IsCut(s, sent, msgBegin)
        invariant parser.broadcasts == old(parser.broadcasts) + sent
      {
        var msgEnd := MemMem(s, msgBegin);
        if msgEnd.None? {
          break;
        }
        var next := msgEnd.value + NEEDLE_SIZE + 4;
        if next > |s| {
          break;
        }
        var frame := s[msgBegin..next];
        CutStep(s, sent, msgBegin, next);
        var r := parser.Process(frame);
        if r.Aborted? {
          return Stopped(r.kind), msgBegin;
        }
        Assoc(old(parser.broadcasts), sent, DeliveredBy(frame));
        sent := sent + DeliveredBy(frame);
        msgBegin := next;
      }
      NoMore(s, msgBegin);
      CutEnd(s, sent, msgBegin);
      ending := Completed;
    }

    /** Keep buf[from..end] only, at the front, and make room when nothing is free. */
    method Compact(from: nat, end: nat)
      requires Valid() && from <= end <= bufSz
      modifies this, buf
      ensures Valid() && (buf == old(buf) || fresh(buf))
      ensures Kept() == old(buf[from..end])
      ensures bufSz == if end - from == old(bufSz) then 2 * old(bufSz) else old(bufSz)
    {
      if from < end {
        var left := end - from;
        MoveToFront(from, left);
        bufBegin := left;
      } else {
        bufBegin := 0;
      }
      if Size() == 0 {
        Grow();
      }
    }
  }

  /** The frames before position i are processed and delivered `sent`. */
  ghost predicate IsCut(s: string, sent: seq<Msg>, i: nat) {
    && i <= |s|
    && EndingOf(Frames(s)) == EndingOf(FramesFrom(s, i))
    && Broadcast(Frames(s)) == sent + Broadcast(FramesFrom(s, i))
    && Leftover(s) == LeftoverFrom(s, i)
  }

  lemma CutStart(s: string)
    ensures IsCut(s, [], 0)
  {
    Unit(Broadcast(Frames(s)));
  }

  /** The next frame ends at `next`. */
  lemma CutStep(s: string, sent: seq<Msg>, i: nat, next: nat)
    requires IsCut(s, sent, i) && FrameEndFrom(s, i) == Some(next)
    ensures Meaning(s[i..next]).Failed? ==>
              EndingOf(Frames(s)) == Stopped(Meaning(s[i..next]).kind) && Broadcast(Frames(s)) == sent
    ensures !Meaning(s[i..next]).Failed? ==> IsCut(s, sent + DeliveredBy(s[i..next]), next)
  {
    var frame, rest := Slice(s, i, next), FramesFrom(s, next);
    SliceIs(s, i, next);
    FirstOf(frame, rest);
    if Meaning(frame).Failed? {
      Unit(sent);
    } else {
      Assoc(sent, DeliveredBy(frame), Broadcast(rest));
    }
  }

  lemma NoMore(s: string, i: nat)
    requires i <= |s|
    requires i == |s| || MemMem(s, i).None? || MemMem(s, i).value + NEEDLE_SIZE + 4 > |s|
    ensures FrameEndFrom(s, i).None?
  {
  }

  lemma CutEnd(s: string, sent: seq<Msg>, i: nat)
    requires IsCut(s, sent, i) && FrameEndFrom(s, i).None?
    ensures EndingOf(Frames(s)) == Completed && Broadcast(Frames(s)) == sent && Leftover(s) == s[i..]
  {
    SliceIs(s, i, |s|);
    Unit(sent);
  }

  /** The capacity after a parse: doubled when the leftover fills the whole array. */
  function Capacity(cap: nat, pending: string): nat {
    if |Leftover(pending)| == cap then 2 * cap else cap
  }
}
