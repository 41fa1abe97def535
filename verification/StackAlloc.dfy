/** StackAlloc: a bump allocator over an inline arena, with a secondary allocator behind it. */
module Arena {
  /** Addresses are counted from the start of the arena, which is [0, N). */
  datatype Block = Block(at: int, size: nat)

  /** Arena has room for n more behind ptr. */
  predicate HasRoom(N: nat, ptr: int, n: nat) {
    N - ptr >= n
  }

  predicate InArena(N: nat, p: int) {
    0 <= p < N
  }

  /** What the secondary allocator may answer: memory that does not touch the arena. */
  predicate Outside(N: nat, p: int, n: nat) {
    p >= N || (p < 0 && p + n <= 0)
  }

  /** ptr_ after deallocate(p, n). */
  function Freed(N: nat, ptr: int, p: int, n: nat): int {
    if InArena(N, p) && p + n == ptr then p else ptr
  }

  /** Giving back the topmost block from `offset` bytes behind its start is still the arena's business,
      and takes ptr_ back to there. */
  lemma DisplacedFree(N: nat, at: nat, size: nat, offset: nat)
    requires at + size <= N && offset < size
    ensures InArena(N, at + offset) && Freed(N, at + size, at + offset, size - offset) == at + offset
  {
  }

  // ---------- any run of allocations and matching frees ----------

  datatype Op = Allocate(n: nat, secondary: int) | Free(index: nat)

  /** ptr_ and the blocks that are live; a block remembers whether the arena gave it. */
  datatype Heap = Heap(ptr: int, live: seq<(Block, bool)>)

  predicate Allowed(N: nat, h: Heap, op: Op) {
    match op
    case Allocate(n, secondary) => HasRoom(N, h.ptr, n) || Outside(N, secondary, n)
    case Free(index) => index < |h.live|
  }

  function Step(N: nat, h: Heap, op: Op): Heap
    requires Allowed(N, h, op)
  {
    match op
    case Allocate(n, secondary) =>
      if HasRoom(N, h.ptr, n) then Heap(h.ptr + n, h.live + [(Block(h.ptr, n), true)])
      else Heap(h.ptr, h.live + [(Block(secondary, n), false)])
    case Free(index) =>
      var b := h.live[index].0;
      Heap(Freed(N, h.ptr, b.at, b.size), h.live[..index] + h.live[index + 1..])
  }

  predicate Disjoint(a: Block, b: Block) {
    a.at + a.size <= b.at || b.at + b.size <= a.at
  }

  /** A live block the arena gave out, and not an empty one. */
  predicate ArenaBlock(e: (Block, bool)) {
    e.1 && e.0.size > 0
  }

  ghost predicate Inv(N: nat, h: Heap) {
    && 0 <= h.ptr <= N
    && (forall i :: 0 <= i < |h.live| && h.live[i].1 ==> 0 <= h.live[i].0.at <= N)
    && (forall i :: 0 <= i < |h.live| && ArenaBlock(h.live[i]) ==>
      0 <= h.live[i].0.at && h.live[i].0.at + h.live[i].0.size <= h.ptr)
    && (forall i :: 0 <= i < |h.live| && !h.live[i].1 ==> Outside(N, h.live[i].0.at, h.live[i].0.size))
    && (forall i, j :: 0 <= i < j < |h.live| && ArenaBlock(h.live[i]) && ArenaBlock(h.live[j]) ==>
      Disjoint(h.live[i].0, h.live[j].0))
  }

  lemma AllocateKeepsInv(N: nat, h: Heap, n: nat, secondary: int)
    requires Inv(N, h) && Allowed(N, h, Allocate(n, secondary))
    ensures Inv(N, Step(N, h, Allocate(n, secondary)))
  {
  }

  /** When the topmost block is freed all other live arena blocks lie below it. */
  lemma OthersLieBelow(N: nat, h: Heap, index: nat, i: nat)
    requires Inv(N, h) && index < |h.live| && i < |h.live| && i != index
    requires ArenaBlock(h.live[index]) && ArenaBlock(h.live[i])
    requires h.live[index].0.at + h.live[index].0.size == h.ptr
    ensures h.live[i].0.at + h.live[i].0.size <= h.live[index].0.at
  {
    assert Disjoint(h.live[i].0, h.live[index].0) || Disjoint(h.live[index].0, h.live[i].0);
  }

  lemma FreeKeepsInv(N: nat, h: Heap, index: nat)
    requires Inv(N, h) && index < |h.live|
    ensures Inv(N, Step(N, h, Free(index)))
  {
    var h' := Step(N, h, Free(index));
    assert forall i :: 0 <= i < |h'.live| ==> h'.live[i] == h.live[if i < index then i else i + 1];
    if h'.ptr != h.ptr {
      forall i | 0 <= i < |h.live| && i != index && ArenaBlock(h.live[i])
        ensures h.live[i].0.at + h.live[i].0.size <= h'.ptr
      {
        OthersLieBelow(N, h, index, i);
      }
    }
  }

  lemma StepKeepsInv(N: nat, h: Heap, op: Op)
    requires Inv(N, h) && Allowed(N, h, op)
    ensures Inv(N, Step(N, h, op))
  {
    match op
    case Allocate(n, secondary) => AllocateKeepsInv(N, h, n, secondary);
    case Free(index) => FreeKeepsInv(N, h, index);
  }

  ghost predicate Runs(N: nat, h: Heap, ops: seq<Op>, end: Heap)
    decreases |ops|
  {
    if ops == [] then end == h
    else Allowed(N, h, ops[0]) && Runs(N, Step(N, h, ops[0]), ops[1..], end)
  }

  /** In every run the live arena blocks are pairwise disjoint, inside the arena and below ptr_,
      and the blocks of the secondary allocator stay clear of the arena. */
  lemma {:induction false} RunKeepsInv(N: nat, h: Heap, ops: seq<Op>, end: Heap)
    requires Inv(N, h) && Runs(N, h, ops, end)
    ensures Inv(N, end)
    decreases |ops|
  {
    if ops != [] {
      StepKeepsInv(N, h, ops[0]);
      RunKeepsInv(N, Step(N, h, ops[0]), ops[1..], end);
    }
  }

  lemma InitialInv(N: nat)
    ensures Inv(N, Heap(0, []))
  {
  }

  // ---------- requests that fit ----------

  function Requests(ns: seq<nat>): seq<Op> {
    if ns == [] then [] else [Allocate(ns[0], 0)] + Requests(ns[1..])
  }

  function Total(ns: seq<nat>): nat {
    if ns == [] then 0 else ns[0] + Total(ns[1..])
  }

  /** Blocks of these sizes, one behind the other from p on. */
  function Placed(p: nat, ns: seq<nat>): seq<(Block, bool)>
    decreases |ns|
  {
    if ns == [] then [] else [(Block(p, ns[0]), true)] + Placed(p + ns[0], ns[1..])
  }

  lemma PlacedCons(live: seq<(Block, bool)>, p: nat, ns: seq<nat>)
    requires ns != []
    ensures live + Placed(p, ns) == (live + [(Block(p, ns[0]), true)]) + Placed(p + ns[0], ns[1..])
  {
  }

  lemma RequestsCons(ns: seq<nat>)
    requires ns != []
    ensures Requests(ns) != [] && Requests(ns)[0] == Allocate(ns[0], 0) && Requests(ns)[1..] == Requests(ns[1..])
  {
  }

  /** Requests that fit together behind ptr_ are all served by the arena, one behind the other. */
  lemma {:induction false} FittingRequests(N: nat, h: Heap, ns: seq<nat>) returns (end: Heap)
    requires 0 <= h.ptr && h.ptr + Total(ns) <= N
    ensures Runs(N, h, Requests(ns), end)
    ensures end.ptr == h.ptr + Total(ns) && end.live == h.live + Placed(h.ptr, ns)
    decreases |ns|
  {
    end := h;
    if ns != [] {
      RequestsCons(ns);
      PlacedCons(h.live, h.ptr, ns);
      end := FittingRequests(N, Step(N, h, Allocate(ns[0], 0)), ns[1..]);
    }
  }

  /** One that does not fit leaves ptr_ alone and goes to the secondary allocator. */
  lemma LargeRequest(N: nat, h: Heap, n: nat, secondary: int)
    requires 0 <= h.ptr <= N < h.ptr + n && Outside(N, secondary, n)
    ensures Allowed(N, h, Allocate(n, secondary))
    ensures Step(N, h, Allocate(n, secondary)) == Heap(h.ptr, h.live + [(Block(secondary, n), false)])
  {
  }

  // ---------- the allocator object ----------

  class StackAlloc {
    const N: nat
    var ptr: int
    ghost var live: seq<(Block, bool)>

    ghost function State(): Heap
      reads this
    {
      Heap(ptr, live)
    }

    ghost predicate Valid()
      reads this
    {
      Inv(N, State())
    }

    constructor (n: nat)
      ensures Valid() && N == n && State() == Heap(0, [])
    {
      N := n;
      ptr := 0;
      live := [];
      new;
      InitialInv(n);
    }

    /** `secondary` is what the secondary allocator would return. */
    method Allocate(n: nat, secondary: int) returns (p: int)
      requires Valid() && Allowed(N, State(), Op.Allocate(n, secondary))
      modifies this
      ensures Valid() && State() == Step(N, old(State()), Op.Allocate(n, secondary))
      ensures live == old(live) + [(Block(p, n), HasRoom(N, old(ptr), n))]
    {
      StepKeepsInv(N, State(), Op.Allocate(n, secondary));
      if N - ptr >= n {
        p := ptr;
        ptr := ptr + n;
        live := live + [(Block(p, n), true)];
      } else {
        p := secondary;
        live := live + [(Block(p, n), false)];
      }
    }

    /** Give back the block (p, n), the index-th live one. */
    method Deallocate(p: int, n: nat, ghost index: nat)
      requires Valid() && index < |live| && live[index].0 == Block(p, n)
      modifies this
      ensures Valid() && State() == Step(N, old(State()), Free(index))
    {
      StepKeepsInv(N, State(), Free(index));
      live := live[..index] + live[index + 1..];
      if 0 <= p < N {
        if p + n == ptr {
          ptr := p;
        }
      }
    }
  }

  /** So it is in every run from an empty arena. */
  lemma EveryRun(N: nat, ops: seq<Op>, end: Heap)
    requires Runs(N, Heap(0, []), ops, end)
    ensures 0 <= end.ptr <= N
    ensures forall i :: 0 <= i < |end.live| && end.live[i].1 && end.live[i].0.size > 0 ==>
              0 <= end.live[i].0.at && end.live[i].0.at + end.live[i].0.size <= end.ptr
    ensures forall i, j :: (0 <= i < j < |end.live| && end.live[i].1 && end.live[j].1
                            && end.live[i].0.size > 0 && end.live[j].0.size > 0) ==>
                             (|| end.live[i].0.at + end.live[i].0.size <= end.live[j].0.at
                              || end.live[j].0.at + end.live[j].0.size <= end.live[i].0.at)
  {
    InitialInv(N);
    RunKeepsInv(N, Heap(0, []), ops, end);
    forall i, j | 0 <= i < j < |end.live| && ArenaBlock(end.live[i]) && ArenaBlock(end.live[j])
      ensures Disjoint(end.live[i].0, end.live[j].0)
    {
    }
  }

  /** deallocate hands a block to the allocator that gave it, with one exception: an empty block
      given out by a full arena goes to the secondary allocator. */
  lemma ReturnedWhereItCameFrom(N: nat, h: Heap, i: nat)
    requires Inv(N, h) && i < |h.live|
    ensures var e := h.live[i];
            (InArena(N, e.0.at) <==> e.1) <==> !(e.1 && e.0.at == N)
    ensures h.live[i].1 && h.live[i].0.at == N ==> h.live[i].0.size == 0
  {
  }

  /** There is such a block: an arena filled to the last byte still gives out an empty one. */
  lemma FullArenaGivesEmptyBlock(N: nat) returns (end: Heap)
    ensures Runs(N, Heap(0, []), [Allocate(N, 0), Allocate(0, 0)], end)
    ensures |end.live| == 2 && end.live[1] == (Block(N, 0), true) && !InArena(N, N)
  {
    var ops := [Allocate(N, 0), Allocate(0, 0)];
    var h := Step(N, Heap(0, []), ops[0]);
    end := Step(N, h, ops[1]);
    assert ops[1..] == [ops[1]] && ops[1..][1..] == [];
    assert Runs(N, h, ops[1..], end);
  }

  // ---------- well-nested use ----------

  /** An allocation, what happens while it is live, and its deallocation. */
  datatype Nest = Nest(n: nat, secondary: int, inner: seq<Nest>)

  /** The operations, when `depth` blocks are live at the beginning. */
  function Ops(nests: seq<Nest>, depth: nat): seq<Op>
    decreases nests
  {
    if nests == [] then []
    else
      var f := nests[0];
      [Allocate(f.n, f.secondary)] + Ops(f.inner, depth + 1) + [Free(depth)] + Ops(nests[1..], depth)
  }

  lemma {:induction false} RunSplit(N: nat, h: Heap, a: seq<Op>, b: seq<Op>, end: Heap) returns (mid: Heap)
    requires Runs(N, h, a + b, end)
    ensures Runs(N, h, a, mid) && Runs(N, mid, b, end)
    decreases |a|
  {
    if a == [] {
      assert a + b == b;
      mid := h;
    } else {
      assert (a + b)[1..] == a[1..] + b;
      mid := RunSplit(N, Step(N, h, a[0]), a[1..], b, end);
    }
  }

  lemma RunOne(N: nat, h: Heap, op: Op, end: Heap)
    requires Runs(N, h, [op], end)
    ensures Allowed(N, h, op) && end == Step(N, h, op)
  {
    assert [op][1..] == [];
  }

  /** Freeing the block allocated last undoes the allocation, whichever allocator gave it. */
  lemma FreeUndoes(N: nat, h: Heap, n: nat, secondary: int)
    requires 0 <= h.ptr <= N && Allowed(N, h, Allocate(n, secondary))
    ensures Step(N, Step(N, h, Allocate(n, secondary)), Free(|h.live|)) == h
  {
  }

  /** Every answer of the secondary allocator that could be needed lies outside the arena. */
  ghost predicate AllOutside(N: nat, nests: seq<Nest>)
    decreases nests
  {
    forall i :: 0 <= i < |nests| ==> Outside(N, nests[i].secondary, nests[i].n) && AllOutside(N, nests[i].inner)
  }

  lemma {:induction false} RunJoin(N: nat, h: Heap, a: seq<Op>, mid: Heap, b: seq<Op>, end: Heap)
    requires Runs(N, h, a, mid) && Runs(N, mid, b, end)
    ensures Runs(N, h, a + b, end)
    decreases |a|
  {
    if a == [] {
      assert a + b == b;
    } else {
      assert (a + b)[1..] == a[1..] + b;
      RunJoin(N, Step(N, h, a[0]), a[1..], mid, b, end);
    }
  }

  lemma OneRuns(N: nat, h: Heap, op: Op)
    requires Allowed(N, h, op)
    ensures Runs(N, h, [op], Step(N, h, op))
  {
    assert [op][1..] == [];
  }

  /** Every well-nested use is a run, which ends where it began. */
  lemma {:induction false} NestedUseRuns(N: nat, h: Heap, nests: seq<Nest>)
    requires 0 <= h.ptr <= N && AllOutside(N, nests)
    ensures Runs(N, h, Ops(nests, |h.live|), h)
    decreases nests
  {
    if nests != [] {
      var f, depth := nests[0], |h.live|;
      var alloc := Allocate(f.n, f.secondary);
      var t := Step(N, h, alloc);
      OneRuns(N, h, alloc);
      NestedUseRuns(N, t, f.inner);
      FreeUndoes(N, h, f.n, f.secondary);
      OneRuns(N, t, Free(depth));
      NestedUseRuns(N, h, nests[1..]);
      RunJoin(N, h, [alloc], t, Ops(f.inner, depth + 1), t);
      RunJoin(N, h, [alloc] + Ops(f.inner, depth + 1), t, [Free(depth)], h);
      RunJoin(N, h, [alloc] + Ops(f.inner, depth + 1) + [Free(depth)], h, Ops(nests[1..], depth), h);
    }
  }

  /** Any well-nested run gives the arena back exactly, even when some requests fall through to
      the secondary allocator: in the end ptr_ and the live blocks are what they were. */
  lemma {:induction false} NestedUseRestores(N: nat, h: Heap, nests: seq<Nest>, end: Heap)
    requires 0 <= h.ptr <= N && Runs(N, h, Ops(nests, |h.live|), end)
    ensures end == h
    decreases nests
  {
    if nests != [] {
      var f, depth := nests[0], |h.live|;
      var alloc, inner := [Allocate(f.n, f.secondary)], Ops(f.inner, depth + 1);
      var h3 := RunSplit(N, h, alloc + inner + [Free(depth)], Ops(nests[1..], depth), end);
      var h2 := RunSplit(N, h, alloc + inner, [Free(depth)], h3);
      var h1 := RunSplit(N, h, alloc, inner, h2);
      RunOne(N, h, alloc[0], h1);
      NestedUseRestores(N, h1, f.inner, h2);
      RunOne(N, h2, Free(depth), h3);
      FreeUndoes(N, h, f.n, f.secondary);
      NestedUseRestores(N, h, nests[1..], end);
    }
  }
}
