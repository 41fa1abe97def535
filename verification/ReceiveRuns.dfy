/** Whole runs of the receive buffer: the socket delivers chunk after chunk. */
module ReceiveRuns {
  import opened Text
  import opened Machine
  import opened FixMessage
  import opened Framing
  import opened MsgParser
  import opened RcvBuf

  /** What a receive buffer and its parser amount to between two reads; stopped once `parse` did not
      return because of a frame. */
  datatype ReceiverOf<+K, +S> = Receiver(capacity: nat, kept: K, sent: S, ending: Ending)

  type Receiver = ReceiverOf<string, seq<Msg>>

  function Step(r: Receiver, chunk: string): Receiver {
    if r.ending != Completed then r
    else
      var pending := r.kept + chunk;
      var sent, ending := r.sent + Broadcast(Frames(pending)), EndingOf(Frames(pending));
      if ending == Completed then Receiver(Capacity(r.capacity, pending), Leftover(pending), sent, ending)
      else r.(sent := sent, ending := ending)
  }

  function Run(r: Receiver, chunks: seq<string>): Receiver
    decreases |chunks|
  {
    if chunks == [] then r else Step(Run(r, chunks[..|chunks| - 1]), chunks[|chunks| - 1])
  }

  function FreeSpace(r: Receiver): int {
    r.capacity - |r.kept|
  }

  /** Every chunk that is read fits the space that is free when it arrives. */
  predicate Fits(r: Receiver, chunks: seq<string>)
    decreases |chunks|
  {
    chunks == [] ||
    var before := chunks[..|chunks| - 1];
    Fits(r, before) && (Run(r, before).ending != Completed || |chunks[|chunks| - 1]| <= FreeSpace(Run(r, before)))
  }

  function Fresh(capacity: nat): Receiver {
    Receiver(capacity, "", [], Completed)
  }

  lemma NothingKept()
    ensures Frames("") == [] && Leftover("") == ""
  {
    SplitUnique([], "");
    assert Concat([]) + "" == "";
  }

  lemma ConcatSnoc(chunks: seq<string>)
    requires chunks != []
    ensures Concat(chunks) == Concat(chunks[..|chunks| - 1]) + chunks[|chunks| - 1]
  {
    var a, c := chunks[..|chunks| - 1], chunks[|chunks| - 1];
    assert chunks == a + [c];
    ConcatAppend(a, [c]);
    ConcatCons(c, []);
    Unit(c);
  }

  /** However the stream is cut into chunks, what is delivered, whether a frame stops the receiver
      and, unless one does, what is kept depend only on the stream: they are the messages up to the
      first frame for which the parser does not return, whether there is one, and the leftover. */
  lemma {:induction false} ChunkingIndependence(capacity: nat, chunks: seq<string>)
    ensures var r := Run(Fresh(capacity), chunks);
            var s := Concat(chunks);
            && r.sent == Broadcast(Frames(s))
            && r.ending == EndingOf(Frames(s))
            && (r.ending == Completed ==> r.kept == Leftover(s))
    decreases |chunks|
  {
    if chunks == [] {
      NothingKept();
    } else {
      var before, c := chunks[..|chunks| - 1], chunks[|chunks| - 1];
      var s := Concat(before);
      ChunkingIndependence(capacity, before);
      ConcatSnoc(chunks);
      SplitResume(s, c);
      BroadcastAppend(Frames(s), Frames(Leftover(s) + c));
      EndingAppend(Frames(s), Frames(Leftover(s) + c));
    }
  }

  // ---------- growth ----------

  lemma LeftoverLength(s: string)
    ensures |Leftover(s)| <= |s|
    ensures |Leftover(s)| == |s| ==> Frames(s) == [] && Leftover(s) == s
  {
    SplitSound(s);
    var fs := Frames(s);
    FramesTakeSpace(fs);
    if |Leftover(s)| == |s| {
      assert Concat(fs) == "" && "" + Leftover(s) == Leftover(s);
    }
  }

  lemma {:induction false} FramesTakeSpace(fs: seq<string>)
    requires AllFrames(fs)
    ensures |Concat(fs)| >= (NEEDLE_SIZE + 4) * |fs|
  {
    if fs != [] {
      assert IsFrame(fs[0]);
      FramesTakeSpace(fs[1..]);
    }
  }

  /** The array doubles only when all of it is one unfinished frame, which is kept. */
  lemma GrowthMeansUnfinished(r: Receiver, chunk: string)
    requires |chunk| <= FreeSpace(r)
    ensures Step(r, chunk).capacity != r.capacity ==>
              && r.ending == Completed && Step(r, chunk).capacity == 2 * r.capacity
              && |r.kept + chunk| == r.capacity && FrameEnd(r.kept + chunk).None?
              && Step(r, chunk).kept == r.kept + chunk && Step(r, chunk).sent == r.sent
  {
    var pending := r.kept + chunk;
    LeftoverLength(pending);
    SplitSound(pending);
    Unit(r.sent);
  }

  /** After every read there is room for the next one, except in a buffer of size 0. */
  lemma {:induction false} AlwaysRoom(capacity: nat, chunks: seq<string>)
    requires Fits(Fresh(capacity), chunks)
    ensures FreeSpace(Run(Fresh(capacity), chunks)) >= 0
    ensures FreeSpace(Run(Fresh(capacity), chunks)) > 0 <==> capacity > 0
    ensures capacity == 0 ==> Run(Fresh(capacity), chunks).capacity == 0
    decreases |chunks|
  {
    if chunks != [] {
      var before, c := chunks[..|chunks| - 1], chunks[|chunks| - 1];
      AlwaysRoom(capacity, before);
      LeftoverLength(Run(Fresh(capacity), before).kept + c);
    }
  }

  function Bytes(s: string): seq<string> {
    if s == "" then [] else Bytes(s[..|s| - 1]) + [[s[|s| - 1]]]
  }

  lemma BytesSnoc(all: seq<string>, before: seq<string>, c: string)
    requires all == before + [c]
    ensures all != [] && all[..|all| - 1] == before && all[|all| - 1] == c
  {
  }

  /** There is always a way to deliver a stream: byte by byte every stream fits. */
  lemma {:induction false} BytesFit(capacity: nat, s: string)
    requires capacity > 0
    ensures Fits(Fresh(capacity), Bytes(s)) && Concat(Bytes(s)) == s
    decreases |s|
  {
    if s != "" {
      var before, c := s[..|s| - 1], [s[|s| - 1]];
      BytesFit(capacity, before);
      AlwaysRoom(capacity, Bytes(before));
      BytesSnoc(Bytes(s), Bytes(before), c);
      ConcatSnoc(Bytes(s));
    }
  }

  ghost predicate WithinLength(msgs: seq<string>, L: nat) {
    forall i :: 0 <= i < |msgs| ==> |msgs[i]| <= L
  }

  lemma ProperPrefixUnfinished(m: string, n: nat)
    requires IsFrame(m) && n < |m|
    ensures Frames(m[..n]) == [] && Leftover(m[..n]) == m[..n]
  {
    SliceIs(m, 0, n);
    FrameEndInSlice(m, 0, n);
    SplitUnique([], m[..n]);
    assert Concat([]) + m[..n] == m[..n];
  }

  lemma LeftoverAfterFrame(m: string, q: string)
    requires IsFrame(m)
    ensures Leftover(m + q) == Leftover(q)
  {
    SplitUnique([m], "");
    ConcatCons(m, []);
    assert (m + "") + "" == m;
    SplitResume(m, q);
    Unit(q);
  }

  /** What is left of the beginning of a well-formed stream is shorter than a message. */
  lemma {:induction false} LeftoverIsShort(msgs: seq<string>, n: nat, L: nat)
    requires AllFrames(msgs) && WithinLength(msgs, L) && n <= |Concat(msgs)|
    ensures |Leftover(Concat(msgs)[..n])| < L || Leftover(Concat(msgs)[..n]) == ""
  {
    if msgs == [] {
      NothingKept();
    } else {
      var m, rest := msgs[0], msgs[1..];
      assert IsFrame(m) && |m| <= L;
      if n < |m| {
        assert (m + Concat(rest))[..n] == m[..n];
        ProperPrefixUnfinished(m, n);
      } else {
        var q := Concat(rest)[..n - |m|];
        assert (m + Concat(rest))[..n] == m + q;
        LeftoverAfterFrame(m, q);
        LeftoverIsShort(rest, n - |m|, L);
      }
    }
  }

  /** One more chunk of such a stream: the capacity changes only when the leftover fills it. */
  lemma StepCapacity(r: Receiver, before: string, chunk: string, msgs: seq<string>, L: nat)
    requires L > 0 && AllFrames(msgs) && WithinLength(msgs, L)
    requires before + chunk <= Concat(msgs) && (r.ending == Completed ==> r.kept == Leftover(before))
    ensures Step(r, chunk).capacity <= if r.capacity < L then Max(r.capacity, 2 * (L - 1)) else r.capacity
  {
    var n := |before + chunk|;
    SplitResume(before, chunk);
    LeftoverIsShort(msgs, n, L);
    assert before + chunk == Concat(msgs)[..n];
  }

  /** On a stream of messages no longer than L the capacity stays below max(initial, 2(L - 1)). */
  lemma {:induction false} CapacityBound(capacity: nat, chunks: seq<string>, msgs: seq<string>, L: nat)
    requires L > 0 && AllFrames(msgs) && WithinLength(msgs, L)
    requires Concat(chunks) <= Concat(msgs)
    ensures Run(Fresh(capacity), chunks).capacity <= Max(capacity, 2 * (L - 1))
    decreases |chunks|
  {
    if chunks != [] {
      var before, c := chunks[..|chunks| - 1], chunks[|chunks| - 1];
      ConcatSnoc(chunks);
      assert Concat(before) <= Concat(msgs);
      CapacityBound(capacity, before, msgs, L);
      ChunkingIndependence(capacity, before);
      StepCapacity(Run(Fresh(capacity), before), Concat(before), c, msgs, L);
    }
  }

  // ---------- the buffer itself runs like that ----------

  ghost function State(b: FixMsgRcvBuf, ending: Ending): Receiver
    reads b, b.buf, b.parser
    requires b.Valid()
  {
    Receiver(b.bufSz, b.Kept(), b.parser.broadcasts, ending)
  }

  /** One read: the socket fills the free space from begin() on, then parse() runs. Nothing is
      promised behind a frame whose effect is undefined. */
  method Read(b: FixMsgRcvBuf, chunk: string) returns (ending: Ending)
    requires b.Valid() && |chunk| <= b.Size()
    modifies b, b.buf, b.parser
    ensures ending == Step(old(State(b, Completed)), chunk).ending
    ensures ending != Stopped(Undefined) ==>
              && b.Valid() && (b.buf == old(b.buf) || fresh(b.buf))
              && State(b, ending) == Step(old(State(b, Completed)), chunk)
  {
    ghost var before, pending := State(b, Completed), b.Kept() + chunk;
    b.Fill(chunk);
    assert b.buf[..b.bufBegin + |chunk|] == pending;
    assert b.Kept() == before.kept;
    ending := b.Parse(|chunk|);
    if ending != Stopped(Undefined) {
      ReadIsStep(before, chunk, pending, State(b, ending));
    }
  }

  lemma ReadIsStep(r: Receiver, chunk: string, pending: string, t: Receiver)
    requires r.ending == Completed && pending == r.kept + chunk
    requires t.ending == EndingOf(Frames(pending)) && t.ending != Stopped(Undefined)
    requires t.sent == r.sent + Broadcast(Frames(pending))
    requires t.ending == Completed ==> t.capacity == Capacity(r.capacity, pending) && t.kept == Leftover(pending)
    requires t.ending == Stopped(Throws) ==> t.capacity == r.capacity && t.kept == r.kept
    ensures t == Step(r, chunk)
  {
    EndingCases(t.ending);
  }

  lemma EndingCases(ending: Ending)
    ensures ending == Completed || ending == Stopped(Throws) || ending == Stopped(Undefined)
  {
    match ending
    case Completed =>
    case Stopped(kind) =>
      match kind
      case Throws =>
      case Undefined =>
  }

  /** Reads until one does not complete, from an empty buffer: for every stream, whatever the chunks
      were, the messages up to the first frame that stops the parser are broadcast, and all of them
      when none does. */
  method ReadAll(b: FixMsgRcvBuf, chunks: seq<string>) returns (ending: Ending)
    requires b.Valid() && b.Kept() == "" && b.parser.broadcasts == []
    requires Fits(Fresh(b.bufSz), chunks)
    modifies b, b.buf, b.parser
    ensures ending == EndingOf(Frames(Concat(chunks)))
    ensures ending != Stopped(Undefined) ==>
              && b.Valid() && State(b, ending) == Run(Fresh(old(b.bufSz)), chunks)
              && b.parser.broadcasts == Broadcast(Frames(Concat(chunks)))
    ensures ending == Completed ==>
              && b.parser.broadcasts == Delivered(Frames(Concat(chunks)))
              && b.Kept() == Leftover(Concat(chunks))
  {
    ChunkingIndependence(b.bufSz, chunks);
    ending := ReadEach(b, chunks, b.bufSz);
    if ending == Completed {
      BroadcastAll(Frames(Concat(chunks)));
    }
  }

  /** What the buffer amounts to after i chunks, as long as that is defined. */
  ghost predicate HasRead(b: FixMsgRcvBuf, ending: Ending, r: Receiver)
    reads b, b.buf, b.parser
  {
    ending == r.ending && (ending != Stopped(Undefined) ==> b.Valid() && State(b, ending) == r)
  }

  method ReadEach(b: FixMsgRcvBuf, chunks: seq<string>, ghost capacity: nat) returns (ending: Ending)
    requires HasRead(b, Completed, Fresh(capacity)) && Fits(Fresh(capacity), chunks)
    modifies b, b.buf, b.parser
    ensures HasRead(b, ending, Run(Fresh(capacity), chunks))
  {
    var i := 0;
    while i < |chunks|
      invariant i <= |chunks| && HasRead(b, Completed, Run(Fresh(capacity), chunks[..i]))
      invariant b.buf == old(b.buf) || fresh(b.buf)
    {
      ending := ReadNext(b, chunks, i, capacity);
      i := i + 1;
      if ending != Completed {
        RunEnds(Fresh(capacity), chunks, i);
        return;
      }
    }
    RunEnds(Fresh(capacity), chunks, i);
    ending := Completed;
  }

  method ReadNext(b: FixMsgRcvBuf, chunks: seq<string>, i: nat, ghost capacity: nat) returns (ending: Ending)
    requires i < |chunks| && HasRead(b, Completed, Run(Fresh(capacity), chunks[..i]))
    requires Fits(Fresh(capacity), chunks)
    modifies b, b.buf, b.parser
    ensures HasRead(b, ending, Run(Fresh(capacity), chunks[..i + 1]))
    ensures ending == Completed ==> b.buf == old(b.buf) || fresh(b.buf)
  {
    ChunkFits(Fresh(capacity), chunks, i);
    RunNext(Fresh(capacity), chunks, i);
    ending := Read(b, chunks[i]);
  }

  lemma RunNext(r: Receiver, chunks: seq<string>, i: nat)
    requires i < |chunks|
    ensures Run(r, chunks[..i + 1]) == Step(Run(r, chunks[..i]), chunks[i])
  {
    assert chunks[..i + 1][..i] == chunks[..i];
  }

  /** Once stopped, or at the end, further chunks make no difference. */
  lemma {:induction false} RunEnds(r: Receiver, chunks: seq<string>, i: nat)
    requires i <= |chunks| && (i == |chunks| || Run(r, chunks[..i]).ending != Completed)
    ensures Run(r, chunks) == Run(r, chunks[..i])
    decreases |chunks| - i
  {
    if i == |chunks| {
      assert chunks[..i] == chunks;
    } else {
      RunNext(r, chunks, i);
      RunEnds(r, chunks, i + 1);
    }
  }

  lemma {:induction false} FitsPrefix(r: Receiver, chunks: seq<string>, i: nat)
    requires i <= |chunks| && Fits(r, chunks)
    ensures Fits(r, chunks[..i])
    decreases |chunks|
  {
    if i == |chunks| {
      assert chunks[..i] == chunks;
    } else {
      var before := chunks[..|chunks| - 1];
      FitsPrefix(r, before, i);
      assert before[..i] == chunks[..i];
    }
  }

  lemma ChunkFits(r: Receiver, chunks: seq<string>, i: nat)
    requires i < |chunks| && Fits(r, chunks)
    ensures Run(r, chunks[..i]).ending != Completed || |chunks[i]| <= FreeSpace(Run(r, chunks[..i]))
  {
    var now := chunks[..i + 1];
    assert now[..i] == chunks[..i] && now[i] == chunks[i];
    FitsPrefix(r, chunks, i + 1);
  }
}
