/** DynamicFmtBuf: an output buffer that doubles when the next piece does not fit. */
module FormatBuffer {
  import opened Text
  import opened Machine

  /** `allocator.max_size()` for char on a 64-bit platform. */
  const MAX_SIZE := PTRDIFF_MAX

  /** The capacity the doubling loop of ensureSpace stops at. */
  function Doubled(newCap: nat, need: nat): (r: nat)
    requires newCap > 0
    ensures newCap <= r
    decreases MAX_SIZE - newCap
  {
    if newCap < need && newCap < MAX_SIZE then Doubled(2 * newCap, need) else newCap
  }

  /** It stops with enough room or at the largest size, and below twice what is needed. */
  lemma {:induction false} DoublingStops(newCap: nat, need: nat)
    requires newCap > 0
    ensures need <= Doubled(newCap, need) || MAX_SIZE <= Doubled(newCap, need)
    ensures Doubled(newCap, need) == newCap || Doubled(newCap, need) < 2 * need
    decreases MAX_SIZE - newCap
  {
    if newCap < need && newCap < MAX_SIZE {
      DoublingStops(2 * newCap, need);
    }
  }

  /** Growing for a bytes and then for b is growing for the larger of the two. */
  lemma {:induction false} DoubledTwice(cap: nat, a: nat, b: nat)
    requires cap > 0
    ensures Doubled(Doubled(cap, a), b) == Doubled(cap, Max(a, b))
    decreases MAX_SIZE - cap
  {
    if cap < a && cap < MAX_SIZE {
      DoubledTwice(2 * cap, a, b);
    }
  }

  /** The capacity after asking for `need`, when the ones asked for before made it `cap`. */
  lemma SizeStep(first: nat, asked: nat, cap: nat, need: nat)
    requires first > 0 && cap == Doubled(first, asked)
    ensures need <= cap ==> Doubled(first, Max(asked, need)) == cap
    ensures need > cap && Doubled(2 * cap, need) < MAX_SIZE ==>
              Doubled(first, Max(asked, need)) == Doubled(2 * cap, need)
  {
    DoubledTwice(first, asked, need);
  }

  /** The accounts of a growth from `cap` to `newCap` that copies `used` bytes. */
  lemma GrowthAccounts(first: nat, asked: nat, cap: nat, used: nat, need: nat, copied: nat, newCap: nat, failed: bool)
    requires used <= cap < need && 0 < cap && copied + first <= cap
    requires newCap == Doubled(2 * cap, need) < MAX_SIZE
    requires first > 0 && !failed ==> cap == Doubled(first, asked)
    ensures copied + used + first <= newCap
    ensures first > 0 && !failed ==> newCap == Doubled(first, Max(asked, need))
  {
    if first > 0 && !failed {
      SizeStep(first, asked, cap, need);
    }
  }

  lemma CapacityBounds(cap: nat, need: nat)
    requires 0 < cap < need
    ensures 2 * cap <= Doubled(2 * cap, need) < 2 * need
    ensures need <= Doubled(2 * cap, need) || MAX_SIZE <= Doubled(2 * cap, need)
  {
    DoublingStops(2 * cap, need);
  }

  function Twice(cap: nat, k: nat): nat {
    if k == 0 then cap else 2 * Twice(cap, k - 1)
  }

  lemma {:induction false} TwiceOfZero(k: nat)
    ensures Twice(0, k) == 0
  {
    if k > 0 {
      TwiceOfZero(k - 1);
    }
  }

  lemma {:induction false} TwiceGrows(cap: nat, k: nat)
    requires cap > 0
    ensures Twice(cap, k) > k
  {
    if k > 0 {
      TwiceGrows(cap, k - 1);
    }
  }

  /** Doubling ever makes room for a missing byte if and only if there is some capacity to start
      with: a buffer of capacity zero would be doubled for ever. */
  lemma DoublingReaches(cap: nat, need: nat)
    requires need > 0
    ensures (exists k: nat :: Twice(cap, k) >= need) <==> cap > 0
  {
    if cap > 0 {
      TwiceGrows(cap, need);
      assert Twice(cap, need) >= need;
    } else {
      forall k: nat
        ensures Twice(cap, k) < need
      {
        TwiceOfZero(k);
      }
    }
  }

  class DynamicFmtBuf {
    const arena: nat       // size of the arena of its own allocator
    var data: array?<char>
    var bufBegin: nat      // offsets into data; bufEnd is its length
    var buf: nat
    var failed: bool
    ghost var copied: nat  // bytes copied by all growths so far
    ghost var first: nat   // capacity of the first allocation
    ghost var asked: nat   // the largest size that room was ever asked for

    ghost predicate Valid()
      reads this
    {
      && (data == null ==> bufBegin == buf == 0)
      && (data != null ==> bufBegin <= buf <= data.Length)
    }

    /** What the growths so far cost, and where they led; as long as none happened while bufBegin was
        displaced. */
    ghost predicate Accounted()
      reads this
    {
      && (data == null ==> copied == 0)
      && (data != null ==> copied + first <= data.Length)
      && (data != null && first > 0 && !failed ==> data.Length == Doubled(first, asked))
    }

    function Content(): string
      reads this, data
      requires Valid()
    {
      if data == null then "" else data[bufBegin..buf]
    }

    /** The allocation comes from the arena: it is the first one, and it fitted. */
    ghost predicate InArena()
      reads this
    {
      data != null && data.Length == first <= arena
    }

    /** A growth, if one is needed for n more bytes, is possible: there is some capacity to double, and
        the old allocation can be given back, either because bufBegin is where the allocator put it, or
        because it is the arena's (Arena.DisplacedFree). */
    ghost predicate CanGrow(n: nat)
      reads this
    {
      data != null && buf + n > data.Length ==> bufBegin < data.Length && (bufBegin == 0 || InArena())
    }

    constructor Empty(aArena: nat)
      ensures Valid() && Accounted() && Content() == "" && !failed && data == null && arena == aArena
    {
      arena := aArena;
      data, bufBegin, buf, failed, copied, first, asked := null, 0, 0, false, 0, 0, 0;
    }

    constructor (size: nat, aArena: nat)
      ensures Valid() && Accounted() && Content() == "" && !failed && arena == aArena
      ensures data != null && fresh(data) && data.Length == size == first && bufBegin == 0 && asked == 0
    {
      arena := aArena;
      data := new char[size];
      bufBegin, buf, failed, copied, first, asked := 0, 0, false, 0, size, 0;
    }

    /** The doubling loop. */
    method DoubleFor(cap: nat, sz: nat, aSize: nat) returns (newCap: nat)
      requires cap > 0 && sz <= cap
      ensures newCap == Doubled(2 * cap, sz + aSize)
    {
      newCap := cap * 2;
      while newCap - sz < aSize && newCap < MAX_SIZE
        invariant newCap >= 2 * cap
        invariant Doubled(newCap, sz + aSize) == Doubled(2 * cap, sz + aSize)
        decreases MAX_SIZE - newCap
      {
        newCap := newCap * 2;
      }
    }

    method EnsureSpace(aSize: nat)
      requires Valid() && CanGrow(aSize)
      modifies this
      ensures Valid() && Content() == old(Content())
      ensures data != null && (data == old(data) || fresh(data))
      ensures bufBegin == (if data == old(data) then old(bufBegin) else 0)
      ensures old(failed) ==> failed
      ensures !failed ==> buf + aSize <= data.Length
      ensures old(data) == null ==> data.Length == aSize && failed == old(failed)
      ensures old(data) != null && old(buf) + aSize <= old(data.Length) ==> data == old(data) && failed == old(failed)
      ensures old(data) != null && data != old(data) ==> data.Length < 2 * (|Content()| + aSize)
      ensures !old(failed) && 2 * (|Content()| + aSize) <= MAX_SIZE ==> !failed
      ensures old(Accounted()) && (old(bufBegin) == 0 || data == old(data)) ==> Accounted()
      ensures old(data) != null ==> first == old(first)
      ensures old(data) != null && old(bufBegin) == 0 ==> old(data.Length) <= data.Length
      ensures old(data) != null && !failed && (old(bufBegin) == 0 || data == old(data)) ==>
                asked == Max(old(asked), old(buf) + aSize)
    {
      if data == null {
        data := new char[aSize];
        bufBegin, buf, first, asked := 0, 0, aSize, 0;
        return;
      }
      if buf + aSize > data.Length {
        GrowFor(aSize);
      } else {
        if Accounted() && first > 0 && !failed {
          SizeStep(first, asked, data.Length, buf + aSize);
        }
        asked := Max(asked, buf + aSize);
      }
    }

    /** The branch that grows, or fails. */
    method GrowFor(aSize: nat)
      requires Valid() && data != null && buf + aSize > data.Length && CanGrow(aSize)
      modifies this
      ensures Valid() && Content() == old(Content()) && first == old(first)
      ensures data != null && (data == old(data) || fresh(data))
      ensures data == old(data) ==> buf == old(buf) && bufBegin == old(bufBegin) && failed
      ensures data != old(data) ==> bufBegin == 0 && buf + aSize <= data.Length < 2 * (|Content()| + aSize)
      ensures old(failed) ==> failed
      ensures !old(failed) && 2 * (|Content()| + aSize) <= MAX_SIZE ==> !failed
      ensures old(bufBegin) == 0 ==> old(data.Length) <= data.Length
      ensures old(bufBegin) == 0 && !failed ==> asked == Max(old(asked), old(buf) + aSize)
      ensures old(Accounted()) && (old(bufBegin) == 0 || data == old(data)) ==> Accounted()
    {
      var newCap := NewCapacity(aSize);
      if newCap >= MAX_SIZE {
        failed := true;
        return;
      }
      if bufBegin == 0 && Accounted() {
        GrowthAccounts(first, asked, data.Length, buf, buf + aSize, copied, newCap, failed);
      }
      asked := Max(asked, buf + aSize);
      Reallocate(newCap);
    }

    /** The capacity to grow to. */
    method NewCapacity(aSize: nat) returns (newCap: nat)
      requires Valid() && data != null && buf + aSize > data.Length > bufBegin
      ensures newCap == Doubled(2 * (data.Length - bufBegin), buf - bufBegin + aSize)
      ensures 2 * (data.Length - bufBegin) <= newCap < 2 * (buf - bufBegin + aSize)
      ensures buf - bufBegin + aSize <= newCap || MAX_SIZE <= newCap
    {
      var sz := buf - bufBegin;
      var cap := data.Length - bufBegin;
      newCap := DoubleFor(cap, sz, aSize);
      CapacityBounds(cap, sz + aSize);
    }

    /** Move the content to a new allocation and free the old one. */
    method Reallocate(newCap: nat)
      requires Valid() && data != null && buf - bufBegin <= newCap
      modifies this
      ensures Valid() && Content() == old(Content()) && bufBegin == 0
      ensures fresh(data) && data.Length == newCap
      ensures first == old(first) && asked == old(asked) && failed == old(failed)
      ensures copied == old(copied) + |Content()|
    {
      var sz := buf - bufBegin;
      var p := new char[newCap];
      forall i | 0 <= i < sz {
        p[i] := data[bufBegin + i];
      }
      copied := copied + sz;
      data := p;
      bufBegin := 0;
      buf := sz;
    }

    /** Append `s` after asking for `room` bytes. Where ensureSpace failed and there is no room, the
        original goes on to write behind the end; here nothing more happens. */
    method Put(s: string, room: nat)
      requires Valid() && CanGrow(room) && |s| <= room
      modifies this, data
      ensures Valid() && data != null && (data == old(data) || fresh(data))
      ensures bufBegin == (if data == old(data) then old(bufBegin) else 0)
      ensures old(failed) ==> failed
      ensures old(|Content()|) <= |Content()|
      ensures !failed ==> Content() == old(Content()) + s
      ensures old(data) != null && old(buf) + room <= old(data.Length) ==> data == old(data) && failed == old(failed)
      ensures old(data) != null && old(buf) + room > old(data.Length) ==> data != old(data) || failed
      ensures !old(failed) && 2 * (old(|Content()|) + room) <= MAX_SIZE ==> !failed
      ensures old(Accounted()) && (old(bufBegin) == 0 || data == old(data)) ==> Accounted()
      ensures old(data) != null ==> first == old(first)
      ensures old(data) != null && old(bufBegin) == 0 ==> old(data.Length) <= data.Length
      ensures old(data) != null && !failed && (old(bufBegin) == 0 || data == old(data)) ==>
                asked == Max(old(asked), old(buf) + room)
    {
      EnsureSpace(room);
      if buf + |s| > data.Length {
        return;
      }
      forall i | 0 <= i < |s| {
        data[buf + i] := s[i];
      }
      buf := buf + |s|;
    }

    method Append(s: string)
      requires Valid() && CanGrow(|s|)
      modifies this, data
      ensures Valid() && data != null && (data == old(data) || fresh(data))
      ensures bufBegin == (if data == old(data) then old(bufBegin) else 0)
      ensures old(failed) ==> failed
      ensures old(|Content()|) <= |Content()|
      ensures !failed ==> Content() == old(Content()) + s
      ensures old(data) != null && old(buf) + |s| <= old(data.Length) ==> data == old(data) && failed == old(failed)
      ensures old(data) != null && old(buf) + |s| > old(data.Length) ==> data != old(data) || failed
      ensures !old(failed) && 2 * (old(|Content()|) + |s|) <= MAX_SIZE ==> !failed
      ensures old(Accounted()) && (old(bufBegin) == 0 || data == old(data)) ==> Accounted()
      ensures old(data) != null ==> first == old(first)
    {
      Put(s, |s|);
    }

    /** Leave a gap of n bytes. */
    method Skip(n: nat)
      requires Valid() && CanGrow(n)
      modifies this
      ensures Valid() && data != null && (data == old(data) || fresh(data))
      ensures bufBegin == (if data == old(data) then old(bufBegin) else 0)
      ensures old(Content()) <= Content()
      ensures !failed ==> |Content()| == old(|Content()|) + n
      ensures old(data) != null && old(buf) + n <= old(data.Length) ==> data == old(data) && failed == old(failed)
      ensures old(Accounted()) && (old(bufBegin) == 0 || data == old(data)) ==> Accounted()
      ensures old(data) != null ==> first == old(first)
      ensures old(data) != null && !failed && (old(bufBegin) == 0 || data == old(data)) ==>
                asked == Max(old(asked), old(buf) + n)
    {
      EnsureSpace(n);
      if buf + n > data.Length {
        return;
      }
      buf := buf + n;
    }

    method Rewind()
      requires Valid()
      modifies `buf
      ensures Valid() && Content() == if failed then old(Content()) else ""
    {
      if !failed {
        buf := bufBegin;
      }
    }

    /** Any number of pieces, each with the room its operator asks for, across any number of growths: the
        content is their concatenation, and all growths together copied no more bytes than the capacity
        has grown by. */
    method AppendAll(pieces: seq<Piece>)
      requires Valid() && Accounted() && data != null && data.Length > 0 && bufBegin == 0
      modifies this, data
      ensures Valid() && Accounted() && data != null && first == old(first)
      ensures !failed ==> Content() == old(Content()) + Texts(pieces, |pieces|)
      ensures copied <= data.Length - first
    {
      Unit(Content());
      AppendEach(pieces, Content());
    }

    method AppendEach(pieces: seq<Piece>, ghost start: string)
      requires Appended(start, pieces, 0)
      modifies this, data
      ensures Appended(start, pieces, |pieces|) && first == old(first)
    {
      var i := 0;
      while i < |pieces|
        invariant i <= |pieces| && Appended(start, pieces, i)
        invariant first == old(first) && (data == old(data) || fresh(data))
      {
        PutNext(start, pieces, i);
        i := i + 1;
      }
    }

    /** The first i pieces have been appended, unless the buffer has failed. */
    ghost predicate Appended(start: string, pieces: seq<Piece>, i: nat)
      reads this, data
      requires i <= |pieces|
    {
      && Valid() && Accounted() && data != null && data.Length > 0 && bufBegin == 0
      && (!failed ==> Content() == start + Texts(pieces, i))
    }

    method PutNext(ghost start: string, pieces: seq<Piece>, i: nat)
      requires i < |pieces| && Appended(start, pieces, i)
      modifies this, data
      ensures Appended(start, pieces, i + 1) && first == old(first) && (data == old(data) || fresh(data))
    {
      TextsNext(start, pieces, i);
      Put(pieces[i].text, pieces[i].room);
    }
  }

  lemma TextsNext(start: string, pieces: seq<Piece>, n: nat)
    requires n < |pieces|
    ensures start + Texts(pieces, n) + pieces[n].text == start + Texts(pieces, n + 1)
  {
    Assoc(start, Texts(pieces, n), pieces[n].text);
  }

  /** What one operator appends, and the room it asks for beforehand, which is never less. */
  datatype PieceOf<+T> = Piece(text: T, room: nat)

  type Piece = p: PieceOf<string> | |p.text| <= p.room witness Piece("", 0)

  function Texts(pieces: seq<Piece>, n: nat): string
    requires n <= |pieces|
  {
    if n == 0 then "" else Texts(pieces, n - 1) + pieces[n - 1].text
  }

  /** A buffer reaches capacity zero when nothing is the first thing appended to an empty one; it can
      then never take another byte. */
  method ZeroCapacity(arena: nat) returns (b: DynamicFmtBuf)
    ensures b.Valid() && b.data != null && b.data.Length == 0 && !b.failed && !b.CanGrow(1)
  {
    b := new DynamicFmtBuf.Empty(arena);
    b.EnsureSpace(0);
  }
}
