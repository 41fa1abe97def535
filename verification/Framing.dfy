/** Cutting a byte stream into FIX frames: the meaning of FixMsgRcvBuf::parse. */
module Framing {
  import opened Text

  const NEEDLE_SIZE := 4

  /** "\x01""10=" stands at position i. */
  predicate NeedleAt(s: string, i: nat) {
    && i + NEEDLE_SIZE <= |s|
    && s[i] == SOH && s[i + 1] == '1' && s[i + 2] == '0' && s[i + 3] == '='
  }

  /** `memmem`: the first needle at or after `from`. */
  function MemMem(s: string, from: nat): (k: Option<nat>)
    requires from <= |s|
    ensures k.Some? ==> from <= k.value && NeedleAt(s, k.value)
    decreases |s| - from
  {
    if NeedleAt(s, from) then Some(from)
    else if from == |s| then None
    else MemMem(s, from + 1)
  }

  lemma {:induction false} MemMemFirst(s: string, from: nat, j: nat)
    requires from <= j && NeedleAt(s, j)
    ensures from <= |s| && MemMem(s, from).Some? && MemMem(s, from).value <= j
    decreases j - from
  {
    if from < j {
      MemMemFirst(s, from + 1, j);
    }
  }

  /** Where the first complete frame behind position i ends: needle, three digits, separator. */
  function FrameEndFrom(s: string, i: nat): (e: Option<nat>)
    requires i <= |s|
    ensures e.Some? ==> i + NEEDLE_SIZE + 4 <= e.value <= |s|
  {
    var k := MemMem(s, i);
    if k.None? || k.value + NEEDLE_SIZE + 4 > |s| then None else Some(k.value + NEEDLE_SIZE + 4)
  }

  function FrameEnd(s: string): Option<nat> {
    FrameEndFrom(s, 0)
  }

  /** A string that is exactly one complete frame. */
  predicate IsFrame(f: string) {
    FrameEnd(f) == Some(|f|)
  }

  ghost predicate AllFrames(fs: seq<string>) {
    forall i :: 0 <= i < |fs| ==> IsFrame(fs[i])
  }

  /** The complete frames of `s` from position i on, in order ... */
  function FramesFrom(s: string, i: nat): seq<string>
    requires i <= |s|
    decreases |s| - i
  {
    var e := FrameEndFrom(s, i);
    if e.None? then [] else [Slice(s, i, e.value)] + FramesFrom(s, e.value)
  }

  /** ... and what is left behind them. */
  function LeftoverFrom(s: string, i: nat): string
    requires i <= |s|
    decreases |s| - i
  {
    var e := FrameEndFrom(s, i);
    if e.None? then Slice(s, i, |s|) else LeftoverFrom(s, e.value)
  }

  function Frames(s: string): seq<string> {
    FramesFrom(s, 0)
  }

  function Leftover(s: string): string {
    LeftoverFrom(s, 0)
  }

  // ---------- a frame is recognised wherever it stands and whatever follows it ----------

  lemma NeedleInSlice(s: string, i: nat, j: nat, x: nat)
    requires i <= j <= |s|
    ensures NeedleAt(Slice(s, i, j), x) <==> i + x + NEEDLE_SIZE <= j && NeedleAt(s, i + x)
  {
    SliceIs(s, i, j);
  }

  lemma FrameEndInSlice(s: string, i: nat, j: nat)
    requires i <= j <= |s|
    ensures var e := FrameEndFrom(s, i);
            FrameEnd(Slice(s, i, j)) == if e.Some? && e.value <= j then Some(e.value - i) else None
  {
    var u := Slice(s, i, j);
    var k, y := MemMem(s, i), MemMem(u, 0);
    if k.Some? {
      NeedleInSlice(s, i, j, k.value - i);
      if NeedleAt(u, k.value - i) {
        MemMemFirst(u, 0, k.value - i);
      }
    }
    if y.Some? {
      NeedleInSlice(s, i, j, y.value);
      MemMemFirst(s, i, i + y.value);
    }
  }

  // ---------- what Frames and Leftover compute, in both directions ----------

  lemma {:induction false} SplitFromConserves(s: string, i: nat)
    requires i <= |s|
    ensures Concat(FramesFrom(s, i)) + LeftoverFrom(s, i) == Slice(s, i, |s|)
    decreases |s| - i
  {
    var e := FrameEndFrom(s, i);
    if e.None? {
      Unit(Slice(s, i, |s|));
    } else {
      var f, fs := Slice(s, i, e.value), FramesFrom(s, e.value);
      ConcatCons(f, fs);
      SplitFromConserves(s, e.value);
      Assoc(f, Concat(fs), LeftoverFrom(s, e.value));
      SliceSplit(s, i, e.value, |s|);
    }
  }

  lemma AllFramesCons(f: string, fs: seq<string>)
    requires IsFrame(f) && AllFrames(fs)
    ensures AllFrames([f] + fs)
  {
    forall i | 0 <= i < |fs| + 1
      ensures IsFrame(([f] + fs)[i])
    {
      if i > 0 {
        assert ([f] + fs)[i] == fs[i - 1];
      }
    }
  }

  lemma {:induction false} SplitFromFrames(s: string, i: nat)
    requires i <= |s|
    ensures AllFrames(FramesFrom(s, i)) && FrameEnd(LeftoverFrom(s, i)).None?
    decreases |s| - i
  {
    var e := FrameEndFrom(s, i);
    if e.None? {
      FrameEndInSlice(s, i, |s|);
    } else {
      FrameEndInSlice(s, i, e.value);
      SplitFromFrames(s, e.value);
      AllFramesCons(Slice(s, i, e.value), FramesFrom(s, e.value));
    }
  }

  /** Nothing is lost, invented or reordered; every piece delivered is exactly one frame
      and the leftover holds no complete frame. */
  lemma SplitSound(s: string)
    ensures Concat(Frames(s)) + Leftover(s) == s
    ensures AllFrames(Frames(s))
    ensures FrameEnd(Leftover(s)).None?
  {
    SplitFromConserves(s, 0);
    SplitFromFrames(s, 0);
    SliceIs(s, 0, |s|);
  }

  lemma {:induction false} SplitFromUnique(s: string, i: nat, fs: seq<string>, r: string)
    requires i <= |s| && Slice(s, i, |s|) == Concat(fs) + r
    requires AllFrames(fs) && FrameEnd(r).None?
    ensures FramesFrom(s, i) == fs && LeftoverFrom(s, i) == r
    decreases |fs|
  {
    if fs == [] {
      assert Concat(fs) + r == r;
      FrameEndInSlice(s, i, |s|);
    } else {
      var f, rest := fs[0], fs[1..];
      assert [f] + rest == fs;
      assert IsFrame(f);
      Peel(s, i, f, Concat(rest), r);
      FrameEndInSlice(s, i, i + |f|);
      SplitFromUnique(s, i + |f|, rest, r);
    }
  }

  /** There is only one way to do that, so SplitSound determines both. */
  lemma SplitUnique(fs: seq<string>, r: string)
    requires AllFrames(fs) && FrameEnd(r).None?
    ensures Frames(Concat(fs) + r) == fs
    ensures Leftover(Concat(fs) + r) == r
  {
    var s := Concat(fs) + r;
    SliceIs(s, 0, |s|);
    SplitFromUnique(s, 0, fs, r);
  }

  /** Cutting `a`, keeping the leftover and cutting again when `b` arrives is cutting `a + b`. */
  lemma SplitResume(a: string, b: string)
    ensures Frames(a + b) == Frames(a) + Frames(Leftover(a) + b)
    ensures Leftover(a + b) == Leftover(Leftover(a) + b)
  {
    var c := Leftover(a) + b;
    SplitSound(a);
    SplitSound(c);
    ConcatAppend(Frames(a), Frames(c));
    Assoc(Concat(Frames(a)), Leftover(a), b);
    Assoc(Concat(Frames(a)), Concat(Frames(c)), Leftover(c));
    SplitUnique(Frames(a) + Frames(c), Leftover(c));
  }
}
