/** The completion ring of cat_io_uring: counters that wrap, masked slots, and the drain. */
module Ring {
  import opened Text
  import opened Machine
  import opened Uring

  // ---------- counters and slots ----------

  type UInt = n: nat | n < UINT_RANGE

  /** The sum or difference of two `unsigned` numbers. */
  function Wrap(x: int): UInt
    requires -UINT_RANGE <= x < 2 * UINT_RANGE
  {
    if x < 0 then x + UINT_RANGE else if x >= UINT_RANGE then x - UINT_RANGE else x
  }

  /** Bitwise and. */
  function And(a: nat, b: nat): nat {
    if a == 0 || b == 0 then 0
    else (if a % 2 == 1 && b % 2 == 1 then 1 else 0) + 2 * And(a / 2, b / 2)
  }

  function Pow2(k: nat): (p: nat)
    ensures p > 0
  {
    if k == 0 then 1 else 2 * Pow2(k - 1)
  }

  lemma HalfMod(a: nat, m: nat)
    requires m > 0
    ensures a % (2 * m) == a % 2 + 2 * ((a / 2) % m)
  {
    var q, r := (a / 2) / m, (a / 2) % m;
    assert a / 2 == q * m + r;
    assert a == 2 * m * q + (2 * r + a % 2);
    RemainderIs(a, 2 * m, q, 2 * r + a % 2);
  }

  lemma OddHalf(m: nat)
    requires m > 0
    ensures (2 * m - 1) / 2 == m - 1 && (2 * m - 1) % 2 == 1
  {
  }

  lemma MulAtLeast(m: nat, x: int)
    requires m > 0 && x >= 1
    ensures m * x >= m
  {
    assert m * x == m * (x - 1) + m;
  }

  lemma QuotientIs(m: nat, p: int, q: int, r: nat, r': nat)
    requires m * p + r == m * q + r' && r < m && r' < m
    ensures r == r'
  {
    assert m * (p - q) == m * p - m * q && m * (q - p) == m * q - m * p;
    if p > q {
      MulAtLeast(m, p - q);
    } else if p < q {
      MulAtLeast(m, q - p);
    }
  }

  lemma RemainderIs(a: nat, m: nat, q: nat, r: nat)
    requires r < m && a == m * q + r
    ensures a % m == r
  {
    QuotientIs(m, a / m, q, a % m, r);
  }

  /** Masking with 2^k - 1 is taking the remainder modulo 2^k. */
  lemma {:induction false} MaskIsMod(a: nat, k: nat)
    ensures And(a, Pow2(k) - 1) == a % Pow2(k)
    decreases k
  {
    if k > 0 {
      var m := Pow2(k - 1);
      MaskIsMod(a / 2, k - 1);
      HalfMod(a, m);
      OddHalf(m);
    }
  }

  lemma {:induction false} Pow2Add(a: nat, b: nat)
    ensures Pow2(a + b) == Pow2(a) * Pow2(b)
  {
    if a > 0 {
      Pow2Add(a - 1, b);
      MulAssoc(2, Pow2(a - 1), Pow2(b));
    }
  }

  lemma MulAssoc(x: int, y: int, z: int)
    ensures (x * y) * z == x * (y * z)
  {
  }

  lemma UintRangeIsPow2()
    ensures Pow2(32) == UINT_RANGE
  {
    assert Pow2(4) == 16;
    Pow2Add(4, 4);
    Pow2Add(8, 8);
    Pow2Add(16, 16);
  }

  /** The slot of the i-th pending completion. */
  function Slot(head: nat, i: nat, mask: nat): nat
    requires head < UINT_RANGE && i <= UINT_RANGE
  {
    And(Wrap(head + i), mask)
  }

  lemma DivisorOfModulus(a: nat, m: nat, q: nat, c: nat, b: nat)
    requires m > 0 && a == (m * q) * c + b
    ensures b % m == a % m
  {
    MulAssoc(m, q, c);
    Distribute(m, q * c, b / m);
    RemainderIs(a, m, q * c + b / m, b % m);
  }

  lemma Distribute(x: int, y: int, z: int)
    ensures x * (y + z) == x * y + x * z
  {
  }

  lemma SlotIsMod(head: nat, i: nat, k: nat)
    requires k <= 32 && head < UINT_RANGE && i < UINT_RANGE
    ensures Slot(head, i, Pow2(k) - 1) == (head + i) % Pow2(k)
  {
    var a, b := head + i, Wrap(head + i);
    MaskIsMod(b, k);
    UintRangeIsPow2();
    Pow2Add(k, 32 - k);
    DivisorOfModulus(a, Pow2(k), Pow2(32 - k), if a == b then 0 else 1, b);
  }

  /** Pending completions, however the counters wrap, sit in pairwise distinct slots of the ring. */
  lemma SlotsDistinct(head: nat, i: nat, j: nat, k: nat)
    requires k <= 32 && head < UINT_RANGE && i < j < Pow2(k) <= UINT_RANGE
    ensures Slot(head, i, Pow2(k) - 1) != Slot(head, j, Pow2(k) - 1)
    ensures Slot(head, i, Pow2(k) - 1) < Pow2(k) && Slot(head, j, Pow2(k) - 1) < Pow2(k)
  {
    SlotIsMod(head, i, k);
    SlotIsMod(head, j, k);
    NotCongruent(head + i, head + j, Pow2(k));
  }

  lemma NotCongruent(a: nat, b: nat, m: nat)
    requires a < b < a + m
    ensures a % m != b % m
  {
    var x, y := a / m, b / m;
    assert a == m * x + a % m && b == m * y + b % m;
    assert m * y - m * x == m * (y - x);
    MultipleInRange(m, y - x);
  }

  lemma MultipleInRange(m: nat, x: int)
    requires m > 0
    ensures !(0 < m * x < m)
  {
    if x >= 1 {
      MulAtLeast(m, x);
    } else {
      assert m * x <= 0;
    }
  }

  // ---------- the ring ----------

  datatype Completion = Completion(res: int, file: FileInfo)

  /** The first n completions from `head` on, wherever the ring keeps them. */
  ghost function PendingOf(cqes: seq<Completion>, head: nat, n: nat, k: nat): (cs: seq<Completion>)
    requires k <= 32 && head < UINT_RANGE && n <= UINT_RANGE && |cqes| == Pow2(k)
    ensures |cs| == n
  {
    if n == 0 then []
    else
      SlotIsMod(head, n - 1, k);
      PendingOf(cqes, head, n - 1, k) + [cqes[Slot(head, n - 1, Pow2(k) - 1)]]
  }

  lemma {:induction false} PendingAt(cqes: seq<Completion>, head: nat, n: nat, k: nat, i: nat)
    requires k <= 32 && head < UINT_RANGE && i < n <= UINT_RANGE && |cqes| == Pow2(k)
    ensures Slot(head, i, Pow2(k) - 1) < |cqes|
    ensures PendingOf(cqes, head, n, k)[i] == cqes[Slot(head, i, Pow2(k) - 1)]
  {
    if i == n - 1 {
      SlotIsMod(head, i, k);
    } else {
      PendingAt(cqes, head, n - 1, k, i);
    }
  }

  /** Writing the slot behind n pending completions leaves those alone. */
  lemma {:induction false} PendingKept(cqes: seq<Completion>, head: nat, n: nat, m: nat, k: nat, c: Completion)
    requires k <= 32 && head < UINT_RANGE && n <= m < |cqes| == Pow2(k) <= UINT_RANGE
    ensures Slot(head, m, Pow2(k) - 1) < |cqes|
    ensures PendingOf(cqes[Slot(head, m, Pow2(k) - 1) := c], head, n, k) == PendingOf(cqes, head, n, k)
    decreases n
  {
    SlotIsMod(head, m, k);
    if n > 0 {
      SlotsDistinct(head, n - 1, m, k);
      PendingKept(cqes, head, n - 1, m, k, c);
    }
  }

  /** The slot at the tail is the one behind the pending completions. */
  lemma PostIn(cqes: seq<Completion>, head: nat, tail: nat, k: nat, c: Completion)
    requires k <= 32 && head < UINT_RANGE && tail < UINT_RANGE
    requires Wrap(tail - head) < |cqes| == Pow2(k) <= UINT_RANGE / 2
    ensures And(tail, Pow2(k) - 1) < |cqes|
    ensures var n := Wrap(tail - head);
            && Wrap(Wrap(tail + 1) - head) == n + 1
            && PendingOf(cqes[And(tail, Pow2(k) - 1) := c], head, n + 1, k) == PendingOf(cqes, head, n, k) + [c]
  {
    var n := Wrap(tail - head);
    CounterAt(head, tail, n);
    PendingKept(cqes, head, n, n, k, c);
    CounterPosts(head, tail);
  }

  /** The entry at counter h is the n-th pending completion. */
  lemma EntryIs(cqes: seq<Completion>, head: nat, m: nat, k: nat, n: nat, h: UInt)
    requires k <= 32 && head < UINT_RANGE && n < m <= UINT_RANGE && |cqes| == Pow2(k) && h == Wrap(head + n)
    ensures And(h, Pow2(k) - 1) < |cqes| && cqes[And(h, Pow2(k) - 1)] == PendingOf(cqes, head, m, k)[n]
  {
    PendingAt(cqes, head, m, k, n);
  }

  /** The text printed for some completions. */
  function Texts(cs: seq<Completion>): string {
    if cs == [] then "" else Texts(cs[..|cs| - 1]) + FileText(cs[|cs| - 1].file)
  }

  /** The errors reported for them. */
  function Errors(cs: seq<Completion>): seq<int> {
    if cs == [] then []
    else Errors(cs[..|cs| - 1]) + if cs[|cs| - 1].res < 0 then [cs[|cs| - 1].res] else []
  }

  lemma ReportSnoc(cs: seq<Completion>, c: Completion)
    ensures Texts(cs + [c]) == Texts(cs) + FileText(c.file)
    ensures Errors(cs + [c]) == Errors(cs) + if c.res < 0 then [c.res] else []
  {
    assert (cs + [c])[..|cs|] == cs;
  }

  /** What the kernel has posted by the n-th look at the tail. */
  function Posted(arrivals: seq<seq<Completion>>, n: nat): seq<Completion> {
    if n == 0 then [] else Posted(arrivals, n - 1) + (if n <= |arrivals| then arrivals[n - 1] else [])
  }

  lemma {:induction false} PostedGrows(arrivals: seq<seq<Completion>>, n: nat)
    ensures |Posted(arrivals, n)| <= |Posted(arrivals, |arrivals|)|
    decreases if n <= |arrivals| then |arrivals| - n else n
  {
    if n < |arrivals| {
      PostedGrows(arrivals, n + 1);
    } else if n > |arrivals| {
      PostedGrows(arrivals, n - 1);
    }
  }

  /** The first look, from number n on, that finds nothing to visit: `size` completions were pending
      at the beginning, and one is visited after each look that finds more, `most` in all. */
  function LastLook(size: nat, arrivals: seq<seq<Completion>>, n: nat, most: nat): nat
    decreases most - n
  {
    if n < most && n < size + |Posted(arrivals, n + 1)| then LastLook(size, arrivals, n + 1, most) else n
  }

  /** Every look before it finds more than was visited, and that one does not. */
  lemma {:induction false} LastLookIs(size: nat, arrivals: seq<seq<Completion>>, n: nat, most: nat)
    requires n <= most && size + |Posted(arrivals, |arrivals|)| <= most
    ensures var last := LastLook(size, arrivals, n, most);
            && n <= last && last >= size + |Posted(arrivals, last + 1)|
            && forall m :: n + 1 <= m <= last ==> m <= size + |Posted(arrivals, m)|
    decreases most - n
  {
    PostedGrows(arrivals, n + 1);
    if n < most && n < size + |Posted(arrivals, n + 1)| {
      LastLookIs(size, arrivals, n + 1, most);
    }
  }

  /** The first n of some completions. */
  function First(cs: seq<Completion>, n: nat): seq<Completion>
    requires n <= |cs|
  {
    if n == 0 then [] else First(cs, n - 1) + [cs[n - 1]]
  }

  lemma {:induction false} FirstOfMore(cs: seq<Completion>, more: seq<Completion>, n: nat)
    requires n <= |cs|
    ensures First(cs + more, n) == First(cs, n)
    decreases n
  {
    if n > 0 {
      FirstOfMore(cs, more, n - 1);
    }
  }

  lemma {:induction false} FirstIs(cs: seq<Completion>, n: nat)
    requires n <= |cs|
    ensures First(cs, n) == cs[..n]
    decreases n
  {
    if n > 0 {
      FirstIs(cs, n - 1);
      assert cs[..n] == cs[..n - 1] + [cs[n - 1]];
    }
  }

  lemma FirstNext(seen: seq<Completion>, cs: seq<Completion>, n: nat)
    requires n < |cs|
    ensures seen + First(cs, n) + [cs[n]] == seen + First(cs, n + 1)
  {
    Assoc(seen, First(cs, n), [cs[n]]);
  }

  lemma FirstAll(cs: seq<Completion>)
    ensures First(cs, |cs|) == cs
  {
    FirstIs(cs, |cs|);
    assert cs[..|cs|] == cs;
  }

  class CompletionRing {
    var head: UInt
    var tail: UInt
    const mask: nat
    var cqes: seq<Completion>  // written by the kernel
    var stdout: string
    var stderr: seq<int>
    ghost var visited: seq<Completion>

    /** Power-of-two ring with at most as many pending completions as it has slots. */
    ghost predicate Valid(k: nat)
      reads `head, `tail, `cqes
    {
      && k <= 32 && mask == Pow2(k) - 1 && |cqes| == Pow2(k) <= UINT_RANGE / 2
      && Wrap(tail - head) <= |cqes|
    }

    /** The output is that of the completions visited so far. */
    ghost predicate Reported()
      reads `stdout, `stderr, `visited
    {
      stdout == Texts(visited) && stderr == Errors(visited)
    }

    /** The completions posted since `head` was last written, oldest first. */
    ghost function Pending(k: nat): seq<Completion>
      reads `head, `tail, `cqes
      requires Valid(k)
    {
      PendingOf(cqes, head, Wrap(tail - head), k)
    }

    constructor (k: nat, aCqes: seq<Completion>, aHead: UInt)
      requires k <= 32 && |aCqes| == Pow2(k) <= UINT_RANGE / 2
      ensures cqes == aCqes && head == tail == aHead && Valid(k) && Pending(k) == []
      ensures Reported() && visited == []
    {
      cqes := aCqes;
      mask := Pow2(k) - 1;
      head, tail, stdout, stderr, visited := aHead, aHead, "", [], [];
    }

    /** The kernel posts a completion, when a slot is free. */
    method Post(c: Completion, ghost k: nat)
      requires Valid(k) && Wrap(tail - head) < |cqes|
      modifies `tail, `cqes
      ensures Valid(k) && |cqes| == old(|cqes|) && Wrap(tail - head) == old(Wrap(tail - head)) + 1
      ensures Pending(k) == old(Pending(k)) + [c]
    {
      PostIn(cqes, head, tail, k, c);
      cqes := cqes[And(tail, mask) := c];
      tail := Wrap(tail + 1);
    }

    method PostAll(cs: seq<Completion>, ghost k: nat)
      requires Valid(k) && Wrap(tail - head) + |cs| <= |cqes|
      modifies `tail, `cqes
      ensures Valid(k) && |cqes| == old(|cqes|) && Wrap(tail - head) == old(Wrap(tail - head)) + |cs|
      ensures Pending(k) == old(Pending(k)) + cs
    {
      ghost var pending := Pending(k);
      Unit(pending);
      for i := 0 to |cs|
        modifies `tail, `cqes
        invariant Valid(k) && |cqes| == old(|cqes|) && Wrap(tail - head) == old(Wrap(tail - head)) + i
        invariant Pending(k) == pending + cs[..i]
      {
        Assoc(pending, cs[..i], [cs[i]]);
        Post(cs[i], k);
        assert cs[..i + 1] == cs[..i] + [cs[i]];
      }
      assert cs[..|cs|] == cs;
    }

    /** Report one completion and print the buffers of its file. */
    method Output(cqe: Completion)
      modifies `stdout, `stderr
      ensures stdout == old(stdout) + FileText(cqe.file)
      ensures stderr == old(stderr) + if cqe.res < 0 then [cqe.res] else []
    {
      Unit(stdout);
      Unit(stderr);
      if cqe.res < 0 {
        stderr := stderr + [cqe.res];
      }
      var blocks := Blocks(cqe.file.fileSz);
      var i := 0;
      while i < blocks
        modifies `stdout
        invariant 0 <= i && (blocks >= 0 ==> i <= blocks) && (blocks < 0 ==> i == 0)
        invariant i <= |cqe.file.iovecs| && stdout == old(stdout) + Joined(cqe.file.iovecs, i)
      {
        Assoc(old(stdout), Joined(cqe.file.iovecs, i), cqe.file.iovecs[i]);
        stdout := stdout + cqe.file.iovecs[i];
        i := i + 1;
      }
    }

    /** The n-th pending completion. */
    method Entry(h: UInt, ghost k: nat, ghost n: nat) returns (cqe: Completion)
      requires Valid(k) && n < |Pending(k)| && h == Wrap(head + n)
      ensures cqe == Pending(k)[n]
    {
      EntryIs(cqes, head, Wrap(tail - head), k, n, h);
      cqe := cqes[And(h, mask)];
    }

    method Report(cqe: Completion)
      requires Reported()
      modifies `stdout, `stderr, `visited
      ensures Reported() && visited == old(visited) + [cqe]
    {
      ReportSnoc(visited, cqe);
      Output(cqe);
      visited := visited + [cqe];
    }

    /** Look the n-th pending completion up, print it and move on. */
    method Visit(h: UInt, ghost k: nat, ghost n: nat, ghost todo: seq<Completion>) returns (next: UInt)
      requires Valid(k) && Reported() && Pending(k) == todo && n < |todo| && h == Wrap(head + n)
      modifies `stdout, `stderr, `visited
      ensures Valid(k) && Pending(k) == todo && next == Wrap(head + (n + 1))
      ensures Reported() && visited == old(visited) + [todo[n]]
    {
      CounterStep(head, n);
      var cqe := Entry(h, k, n);
      Report(cqe);
      next := Wrap(h + 1);
    }

    /** The kernel posts what it has, then look number n at the tail: are there more than n? */
    method Look(h: UInt, arrivals: seq<seq<Completion>>, n: nat, ghost k: nat, ghost start: seq<Completion>,
                ghost before: seq<Completion>)
      returns (more: bool, ghost todo: seq<Completion>)
      requires Valid(k) && Pending(k) == before == start + Posted(arrivals, n)
      requires |start| + |Posted(arrivals, |arrivals|)| <= |cqes|
      requires n <= |before| && h == Wrap(head + n)
      modifies `tail, `cqes
      ensures Valid(k) && |cqes| == old(|cqes|) && Pending(k) == todo == start + Posted(arrivals, n + 1)
      ensures n <= |todo| && First(todo, n) == First(before, n)
      ensures more <==> n < |todo|
      ensures !more ==> h == tail
      ensures LastLook(|start|, arrivals, n, |cqes|) == if more then LastLook(|start|, arrivals, n + 1, |cqes|) else n
    {
      PostedGrows(arrivals, n + 1);
      var cs := if n < |arrivals| then arrivals[n] else [];
      Assoc(start, Posted(arrivals, n), cs);
      FirstOfMore(Pending(k), cs, n);
      PostAll(cs, k);
      CounterAt(head, tail, n);
      more := h != tail;
      todo := Pending(k);
    }

    /** n of the completions in todo have been visited since visited was `seen`; h is the next one. */
    ghost predicate Draining(k: nat, todo: seq<Completion>, seen: seq<Completion>, h: UInt, n: nat)
      reads this
    {
      && Valid(k) && Reported() && Pending(k) == todo
      && n <= |todo| && h == Wrap(head + n) && visited == seen + First(todo, n)
    }

    /** One round of the drain: a look, and a visit unless it finds nothing. */
    method Round(h: UInt, arrivals: seq<seq<Completion>>, n: nat, ghost k: nat, ghost start: seq<Completion>,
                 ghost seen: seq<Completion>, ghost before: seq<Completion>)
      returns (more: bool, next: UInt, ghost todo: seq<Completion>)
      requires Draining(k, before, seen, h, n) && before == start + Posted(arrivals, n)
      requires |start| + |Posted(arrivals, |arrivals|)| <= |cqes|
      modifies `tail, `cqes, `stdout, `stderr, `visited
      ensures |cqes| == old(|cqes|) && todo == start + Posted(arrivals, n + 1)
      ensures more ==> Draining(k, todo, seen, next, n + 1)
      ensures !more ==> Draining(k, todo, seen, next, n) && next == tail && n == |todo|
      ensures LastLook(|start|, arrivals, n, |cqes|) == if more then LastLook(|start|, arrivals, n + 1, |cqes|) else n
    {
      next := h;
      more, todo := Look(h, arrivals, n, k, start, before);
      if more {
        FirstNext(seen, todo, n);
        next := Visit(h, k, n, todo);
      }
    }

    /** Tell the kernel how far the drain has come. */
    method Publish(h: UInt, ghost k: nat, ghost todo: seq<Completion>, ghost seen: seq<Completion>)
      requires Draining(k, todo, seen, h, |todo|) && h == tail
      modifies `head
      ensures Valid(k) && Reported() && head == tail && Pending(k) == [] && visited == seen + todo
    {
      FirstAll(todo);
      head := h;
    }

    /** Rounds until a look finds nothing new. */
    method Drain(arrivals: seq<seq<Completion>>, ghost k: nat, ghost start: seq<Completion>,
                 ghost seen: seq<Completion>)
      returns (h: UInt, n: nat, ghost all: seq<Completion>)
      requires Draining(k, start, seen, head, 0)
      requires |start| + |Posted(arrivals, |arrivals|)| <= |cqes|
      modifies `tail, `cqes, `stdout, `stderr, `visited
      ensures Draining(k, all, seen, h, n) && h == tail && n == |all| && |cqes| == old(|cqes|)
      ensures all == start + Posted(arrivals, n + 1)
      ensures n == LastLook(|start|, arrivals, 0, |cqes|)
    {
      h, n, all := head, 0, start;
      Unit(start);
      while true
        modifies `tail, `cqes, `stdout, `stderr, `visited
        invariant Draining(k, all, seen, h, n)
        invariant all == start + Posted(arrivals, n)
        invariant LastLook(|start|, arrivals, n, |cqes|) == LastLook(|start|, arrivals, 0, |cqes|)
        decreases |cqes| - n
      {
        var more;
        more, h, all := Round(h, arrivals, n, k, start, seen, all);
        if !more {
          break;
        }
        n := n + 1;
      }
    }

    /** The drain, while the kernel posts `arrivals[i]` before look number i at the tail. It visits every
        completion posted before its last look exactly once, in order, across counter wraparound, and the
        last look is the first that finds nothing new. */
    method ReadFromCq(arrivals: seq<seq<Completion>>, ghost k: nat) returns (n: nat, ghost all: seq<Completion>)
      requires Valid(k) && Reported()
      requires |Pending(k)| + |Posted(arrivals, |arrivals|)| <= |cqes|
      modifies this
      ensures Valid(k) && Reported() && head == tail && Pending(k) == []
      ensures stdout == Texts(visited) && stderr == Errors(visited)
      ensures all == old(Pending(k)) + Posted(arrivals, n + 1) && |all| == n
      ensures visited == old(visited) + all
      ensures n == LastLook(|old(Pending(k))|, arrivals, 0, |cqes|)
    {
      Unit(visited);
      CounterStart(head);
      var h;
      h, n, all := Drain(arrivals, k, Pending(k), visited);
      Publish(h, k, all, old(visited));
    }
  }

  /** The counter meets the tail after exactly the pending number of steps. */
  lemma CounterAt(head: nat, tail: nat, n: nat)
    requires head < UINT_RANGE && tail < UINT_RANGE && n <= Wrap(tail - head)
    ensures Wrap(head + n) == tail <==> n == Wrap(tail - head)
  {
  }

  lemma CounterStep(head: nat, n: nat)
    requires head < UINT_RANGE && n < UINT_RANGE
    ensures Wrap(Wrap(head + n) + 1) == Wrap(head + (n + 1))
  {
  }

  lemma CounterStart(head: nat)
    requires head < UINT_RANGE
    ensures Wrap(head + 0) == head
  {
  }

  lemma CounterPosts(head: nat, tail: nat)
    requires head < UINT_RANGE && tail < UINT_RANGE && Wrap(tail - head) < UINT_RANGE - 1
    ensures Wrap(Wrap(tail + 1) - head) == Wrap(tail - head) + 1
  {
  }
}
