/** cat_io_uring: splitting a file into blocks, and printing the blocks. */
module Uring {
  import opened Text
  import opened Machine

  const BLOCK_SZ := 1024

  // ---------- block counts ----------

  /** `(int) x`. */
  function ToInt32(x: nat): int {
    var y := x % UINT_RANGE;
    if y >= UINT_RANGE / 2 then y - UINT_RANGE else y
  }

  /** Division in C: towards zero. */
  function TruncDiv(x: int, d: nat): int
    requires d > 0
  {
    if x >= 0 then x / d else -((-x) / d)
  }

  /** How many blocks the original counts: the cast binds tighter than the division. */
  function Blocks(fileSz: nat): int {
    TruncDiv(ToInt32(fileSz), BLOCK_SZ) + if fileSz % BLOCK_SZ != 0 then 1 else 0
  }

  /** How many blocks there are. */
  function BlockCount(fileSz: nat): nat {
    (fileSz + BLOCK_SZ - 1) / BLOCK_SZ
  }

  /** The count is right if and only if the size is below 2^31; otherwise it is too small. */
  lemma BlocksExact(fileSz: nat)
    ensures Blocks(fileSz) == BlockCount(fileSz) <==> fileSz < 0x8000_0000
    ensures Blocks(fileSz) <= BlockCount(fileSz)
  {
    var j, y := fileSz / UINT_RANGE, fileSz % UINT_RANGE;
    assert fileSz == 0x40_0000 * BLOCK_SZ * j + y;
    assert fileSz / BLOCK_SZ == 0x40_0000 * j + y / BLOCK_SZ;
    assert BlockCount(fileSz) == fileSz / BLOCK_SZ + if fileSz % BLOCK_SZ != 0 then 1 else 0;
  }

  function Sum(ns: seq<nat>): nat {
    if ns == [] then 0 else Sum(ns[..|ns| - 1]) + ns[|ns| - 1]
  }

  const SIZEOF_FILE_INFO := 8
  const SIZEOF_IOVEC := 16

  /** The argument of malloc, a 64-bit `size_t`. */
  function AllocationSize(blocks: int): nat {
    (SIZEOF_FILE_INFO + SIZEOF_IOVEC * blocks) % ULONG_RANGE
  }

  /** malloc gives nothing larger than PTRDIFF_MAX; that is asked for exactly when the count is
      negative. */
  lemma TooMuchMemory(fileSz: nat)
    ensures AllocationSize(Blocks(fileSz)) > PTRDIFF_MAX <==> Blocks(fileSz) < 0
    ensures fileSz < 0x8000_0000 ==> Blocks(fileSz) >= 0
  {
    var blocks := Blocks(fileSz);
    assert -0x20_0000 <= blocks <= 0x20_0000;
    if blocks < 0 {
      assert AllocationSize(blocks) == ULONG_RANGE + SIZEOF_FILE_INFO + SIZEOF_IOVEC * blocks;
    }
  }

  lemma SumSnoc(ns: seq<nat>, n: nat)
    ensures Sum(ns + [n]) == Sum(ns) + n
  {
    assert (ns + [n])[..|ns|] == ns;
  }

  datatype SplitResult = Split | NoMemory | Overrun

  /** Every block is full. */
  ghost predicate AllFull(lens: seq<nat>) {
    forall i :: 0 <= i < |lens| ==> lens[i] == BLOCK_SZ
  }

  /** No block is empty, and all but the last are full. */
  ghost predicate WellSplit(lens: seq<nat>) {
    && (forall i :: 0 <= i < |lens| ==> 1 <= lens[i] <= BLOCK_SZ)
    && (forall i :: 0 <= i < |lens| - 1 ==> lens[i] == BLOCK_SZ)
  }

  /** One more block of m of the n bytes that remain. */
  lemma BlockStep(lens: seq<nat>, n: nat, m: nat)
    requires n > 0 && m == if n > BLOCK_SZ then BLOCK_SZ else n
    requires AllFull(lens)
    ensures BlockCount(n) == 1 + BlockCount(n - m) && BlockCount(0) == 0
    ensures Sum(lens + [m]) == Sum(lens) + m
    ensures WellSplit(lens + [m]) && (n > m ==> AllFull(lens + [m]))
  {
    SumSnoc(lens, m);
  }

  /** The splitting loop fills an array allocated for the counted blocks with lengths of 1 to 1024
      bytes that add up to the file size. It does so exactly for files below 2^31 bytes. Beyond that
      nothing is allocated when the count is negative, and otherwise the loop leaves its array. */
  method SplitIntoBlocks(fileSz: nat) returns (r: SplitResult, iovLens: array<nat>)
    ensures r == Split <==> fileSz < 0x8000_0000
    ensures r == NoMemory <==> Blocks(fileSz) < 0
    ensures r == Overrun <==> fileSz >= 0x8000_0000 && Blocks(fileSz) >= 0
    ensures r == Split ==> iovLens.Length == BlockCount(fileSz)
    ensures r == Split ==> Sum(iovLens[..]) == fileSz
    ensures r == Split ==> forall i :: 0 <= i < iovLens.Length ==> 1 <= iovLens[i] <= 1024
    ensures r == Split ==> forall i :: 0 <= i < iovLens.Length - 1 ==> iovLens[i] == 1024
  {
    BlocksExact(fileSz);
    TooMuchMemory(fileSz);
    var blocks := Blocks(fileSz);
    if AllocationSize(blocks) > PTRDIFF_MAX {
      iovLens := new nat[0];
      return NoMemory, iovLens;
    }
    var done: bool;
    done, iovLens := FillBlocks(fileSz, blocks);
    r := if done then Split else Overrun;
  }

  /** The loop itself, over an array of `blocks` lengths; it is `done` unless they are too few. */
  method FillBlocks(fileSz: nat, blocks: nat) returns (done: bool, iovLens: array<nat>)
    requires blocks <= BlockCount(fileSz)
    ensures done <==> blocks == BlockCount(fileSz)
    ensures done ==> iovLens.Length == blocks && Sum(iovLens[..]) == fileSz && WellSplit(iovLens[..])
  {
    iovLens := new nat[blocks];
    var bytesRemaining: nat := fileSz;
    var currentBlock := 0;
    ghost var lens := [];
    while bytesRemaining != 0
      invariant currentBlock <= iovLens.Length && lens == iovLens[..currentBlock]
      invariant Sum(lens) + bytesRemaining == fileSz
      invariant currentBlock + BlockCount(bytesRemaining) == BlockCount(fileSz)
      invariant WellSplit(lens) && (bytesRemaining != 0 ==> AllFull(lens))
      decreases bytesRemaining
    {
      var bytesToRead: nat := bytesRemaining;
      if bytesToRead > BLOCK_SZ {
        bytesToRead := BLOCK_SZ;
      }
      if currentBlock == iovLens.Length {
        return false, iovLens;
      }
      BlockStep(lens, bytesRemaining, bytesToRead);
      iovLens[currentBlock] := bytesToRead;
      lens := lens + [bytesToRead];
      currentBlock := currentBlock + 1;
      bytesRemaining := bytesRemaining - bytesToRead;
    }
    assert lens == iovLens[..];
    done := true;
  }

  /** At 2^31 bytes nothing is allocated; at 2^32 room for no block at all is. */
  lemma LargeFiles()
    ensures Blocks(0x8000_0000) == -0x20_0000 && AllocationSize(Blocks(0x8000_0000)) > PTRDIFF_MAX
    ensures Blocks(0x1_0000_0000) == 0 && AllocationSize(Blocks(0x1_0000_0000)) == SIZEOF_FILE_INFO
  {
  }

  // ---------- reading and printing ----------

  /** What readv leaves in buffers of these lengths: consecutive pieces of the file. */
  function ReadV(content: string, lens: seq<nat>): (bufs: seq<string>)
    requires Sum(lens) <= |content|
    ensures |bufs| == |lens|
  {
    if lens == [] then []
    else
      var before := lens[..|lens| - 1];
      ReadV(content, before) + [Slice(content, Sum(before), Sum(lens))]
  }

  lemma {:induction false} ReadVJoins(content: string, lens: seq<nat>)
    requires Sum(lens) <= |content|
    ensures Joined(ReadV(content, lens), |lens|) == Slice(content, 0, Sum(lens))
    decreases |lens|
  {
    if lens != [] {
      var before := lens[..|lens| - 1];
      ReadVJoins(content, before);
      JoinedPrefix(ReadV(content, before), [Slice(content, Sum(before), Sum(lens))], |before|);
      SliceSplit(content, 0, Sum(before), Sum(lens));
    }
  }

  lemma {:induction false} JoinedPrefix(a: seq<string>, b: seq<string>, n: nat)
    requires n <= |a|
    ensures Joined(a + b, n) == Joined(a, n)
  {
    if n > 0 {
      JoinedPrefix(a, b, n - 1);
    }
  }

  datatype FileInfoOf<+B> = FileInfo(fileSz: nat, iovecs: B)

  /** A submitted file: the buffers that will be printed are all there. */
  type FileInfo = f: FileInfoOf<seq<string>> | Blocks(f.fileSz) <= |f.iovecs| witness FileInfo(0, [])

  /** What is printed for a completed file: its first Blocks buffers. */
  function FileText(f: FileInfo): string {
    if Blocks(f.fileSz) <= 0 then "" else Joined(f.iovecs, Blocks(f.fileSz))
  }

  /** A file below 2^31 bytes, split into blocks and read by readv, is printed as it is. */
  lemma PrintsTheFile(content: string, lens: seq<nat>)
    requires |content| < 0x8000_0000
    requires Sum(lens) == |content| && |lens| == BlockCount(|content|)
    ensures Blocks(|content|) == |lens|
    ensures FileText(FileInfo(|content|, ReadV(content, lens))) == content
  {
    BlocksExact(|content|);
    ReadVJoins(content, lens);
    SliceIs(content, 0, |content|);
  }
}
