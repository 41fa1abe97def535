/** FixBuilder: the body is written behind a gap; done() puts the header into the gap, right in
    front of the body, and appends the trailer. */
module Builder {
  import opened Text
  import opened Machine
  import opened FixMessage
  import opened Checksum
  import opened FixEncoding
  import opened FormatBuffer
  import opened RoundTrip

  const STACK_SIZE := 1100
  const FRONT_OFFSET := 100
  const INT_MAX_LEN := 11
  const UNSIGNED_LONG_MAX_LEN := 20

  lemma IntDigits(n: nat)
    ensures n < INT_RANGE ==> |Dec(n)| <= 10
    ensures n < ULONG_RANGE ==> |Dec(n)| <= 20
  {
    assert Pow10(5) == 100_000;
    assert Pow10(10) == 10_000_000_000;
    assert Pow10(15) == 1_000_000_000_000_000;
    assert Pow10(20) == 100_000_000_000_000_000_000;
    if n < INT_RANGE {
      DecLength(n, 10);
    }
    if n < ULONG_RANGE {
      DecLength(n, 20);
    }
  }

  class FixBuilder {
    const out: array<char>  // the caller's range
    const fmt: DynamicFmtBuf

    ghost predicate Valid()
      reads this, fmt
    {
      && fmt.Valid() && fmt.Accounted() && fmt.data != null && fmt.data != out && fmt.arena == STACK_SIZE
      && fmt.bufBegin == 0 && FRONT_OFFSET <= fmt.buf && fmt.first == STACK_SIZE <= fmt.data.Length
    }

    /** The body written so far. */
    function Body(): string
      reads this, fmt, fmt.data
      requires Valid()
    {
      fmt.data[FRONT_OFFSET..fmt.buf]
    }

    constructor (aOut: array<char>)
      ensures Valid() && fresh(fmt) && fresh(fmt.data) && out == aOut
      ensures !fmt.failed && Body() == "" && fmt.asked == FRONT_OFFSET
    {
      out := aOut;
      fmt := new DynamicFmtBuf(STACK_SIZE, STACK_SIZE);
      new;
      fmt.Skip(FRONT_OFFSET);
    }

    method Write(s: string, room: nat)
      requires Valid() && |s| <= room
      modifies fmt, fmt.data
      ensures Valid() && (fmt.data == old(fmt.data) || fresh(fmt.data))
      ensures old(fmt.failed) ==> fmt.failed
      ensures !fmt.failed ==> Body() == old(Body()) + s && fmt.buf == old(fmt.buf) + |s|
      ensures !fmt.failed ==> fmt.asked == Max(old(fmt.asked), old(fmt.buf) + room)
      ensures !old(fmt.failed) && 2 * (old(fmt.buf) + room) <= MAX_SIZE ==> !fmt.failed
    {
      ghost var before := fmt.Content();
      fmt.Put(s, room);
      if !fmt.failed {
        assert fmt.Content()[FRONT_OFFSET..] == before[FRONT_OFFSET..] + s;
      }
    }

    /** The tag, as text, and the '=' of a field. */
    method WriteTag(tag: string)
      requires Valid() && |tag| < INT_MAX_LEN
      modifies fmt, fmt.data
      ensures Valid() && (fmt.data == old(fmt.data) || fresh(fmt.data))
      ensures old(fmt.failed) ==> fmt.failed
      ensures !fmt.failed ==> Body() == old(Body()) + tag + [EQUALS] && fmt.buf == old(fmt.buf) + |tag| + 1
      ensures !fmt.failed ==> fmt.asked == Max(old(fmt.asked), old(fmt.buf) + INT_MAX_LEN)
      ensures !old(fmt.failed) && 2 * (old(fmt.buf) + INT_MAX_LEN + 1) <= MAX_SIZE ==> !fmt.failed
    {
      Write(tag, INT_MAX_LEN);
      Write([EQUALS], 1);
    }

    /** The value of a text field and the delimiter. */
    method WriteValue(value: string)
      requires Valid()
      modifies fmt, fmt.data
      ensures Valid() && (fmt.data == old(fmt.data) || fresh(fmt.data))
      ensures old(fmt.failed) ==> fmt.failed
      ensures !fmt.failed ==> Body() == old(Body()) + value + [SOH]
      ensures !fmt.failed ==> fmt.buf == old(fmt.buf) + |value| + 1
      ensures !fmt.failed ==> fmt.asked == Max(old(fmt.asked), old(fmt.buf) + |value| + 1)
      ensures !old(fmt.failed) && 2 * (old(fmt.buf) + |value| + 1) <= MAX_SIZE ==> !fmt.failed
    {
      Write(value, |value|);
      Write([SOH], 1);
    }

    /** Add a text field. */
    method BodyString(tag: nat, value: string)
      requires Valid() && tag < INT_RANGE
      modifies fmt, fmt.data
      ensures Valid() && (fmt.data == old(fmt.data) || fresh(fmt.data))
      ensures old(fmt.failed) ==> fmt.failed
      ensures !fmt.failed ==> Body() == old(Body()) + FieldText(tag, value)
      ensures !fmt.failed ==> fmt.buf == old(fmt.buf) + |Dec(tag)| + |value| + 2
      ensures !fmt.failed ==> fmt.asked == Max(old(fmt.asked), old(fmt.buf) + Room(|Dec(tag)|, |value|))
      ensures !old(fmt.failed) && 2 * (old(fmt.buf) + 2 * INT_MAX_LEN + |value|) <= MAX_SIZE ==> !fmt.failed
    {
      IntDigits(tag);
      ghost var b := Body();
      WriteTag(Dec(tag));
      WriteValue(value);
      FieldPieces(b, tag, value);
    }

    /** Add an unsigned number. */
    method BodyUnsigned(tag: nat, value: nat)
      requires Valid() && tag < INT_RANGE && value < ULONG_RANGE
      modifies fmt, fmt.data
      ensures Valid() && (fmt.data == old(fmt.data) || fresh(fmt.data))
      ensures old(fmt.failed) ==> fmt.failed
      ensures !fmt.failed ==> Body() == old(Body()) + FieldText(tag, Dec(value))
    {
      ghost var b := Body();
      IntDigits(tag);
      WriteTag(Dec(tag));
      IntDigits(value);
      Write(Dec(value), UNSIGNED_LONG_MAX_LEN);
      Write([SOH], 1);
      if !fmt.failed {
        FieldPieces(b, tag, Dec(value));
      }
    }

    /** Put the header right in front of the body and make the buffer start there. */
    method PlaceHeader(header: string)
      requires Valid() && |header| <= FRONT_OFFSET
      modifies fmt, fmt.data
      ensures fmt.Valid() && fmt.data == old(fmt.data) && fmt.buf == old(fmt.buf) && fmt.failed == old(fmt.failed)
      ensures fmt.Accounted() && fmt.first == old(fmt.first)
      ensures fmt.bufBegin == FRONT_OFFSET - |header| && fmt.Content() == header + old(Body())
    {
      var adjustedOffset := FRONT_OFFSET - |header|;
      CopyInto(fmt.data, adjustedOffset, header);
      fmt.bufBegin := adjustedOffset;
      ghost var d := fmt.data;
      assert d[adjustedOffset..FRONT_OFFSET] == header;
      assert d[FRONT_OFFSET..][..fmt.buf - FRONT_OFFSET] == old(Body()) == d[FRONT_OFFSET..fmt.buf];
    }

    /** Complete the message and copy it to the caller's range; the range that is returned starts there.
        `begin` is the address of the buffer's allocation and `other` where another one would be.
        With 7 bytes free the text and the range are right. Without, the buffer grows while its
        beginning is displaced: when the allocation is the arena's, the text is right and the range is
        wrong; when it is not, a pointer that was never handed out is given back. */
    method Done(version: string, begin: int, other: int) returns (r: Range)
      requires Valid() && !fmt.failed && Representable(version, Body())
      requires Apart(begin, fmt.data.Length, other, |Encode(version, Body())|)
      modifies fmt, fmt.data, out
      ensures var header, text := |Header(version, old(|Body()|))|, |Encode(version, old(Body()))|;
              var room := old(fmt.buf) + 7 <= old(fmt.data.Length);
              && (header > FRONT_OFFSET || text > out.Length ==> r == Broken)
              && (header < FRONT_OFFSET && !room && old(fmt.data.Length) != STACK_SIZE ==> r == Broken)
              && (header <= FRONT_OFFSET && text <= out.Length && room ==> r == Range(text))
              && (header <= FRONT_OFFSET && text <= out.Length && !room
                  && (header == FRONT_OFFSET || old(fmt.data.Length) == STACK_SIZE) ==>
                r.Range? && r.length != text)
      ensures r.Range? ==>
                var text := Encode(version, old(Body()));
                out[..|text|] == text && out[|text|..] == old(out[|text|..])
      ensures r.Range? && r.length == |Encode(version, old(Body()))| ==>
                && Valid() && fmt.data == old(fmt.data) && !fmt.failed
                && Body() == old(Body()) + Trailer(CheckSum(Header(version, old(|Body()|)) + old(Body())))
    {
      var header := MakeHeader(version, fmt.buf - FRONT_OFFSET);
      TrailerText(CheckSum(header + Body()));
      r := Complete(header, begin, other);
    }

    /** The same for a header that is there already. */
    method Complete(header: string, begin: int, other: int) returns (r: Range)
      requires Valid() && !fmt.failed && 2 * (|header + Body()| + 7) <= MAX_SIZE
      requires Apart(begin, fmt.data.Length, other, |header + Body()| + 7)
      modifies fmt, fmt.data, out
      ensures var text, room := |header + old(Body())| + 7, old(fmt.buf) + 7 <= old(fmt.data.Length);
              && (|header| > FRONT_OFFSET || text > out.Length ==> r == Broken)
              && (|header| < FRONT_OFFSET && !room && old(fmt.data.Length) != STACK_SIZE ==> r == Broken)
              && (|header| <= FRONT_OFFSET && text <= out.Length && room ==> r == Range(text))
              && (|header| <= FRONT_OFFSET && text <= out.Length && !room
                  && (|header| == FRONT_OFFSET || old(fmt.data.Length) == STACK_SIZE) ==>
                r.Range? && r.length != text)
      ensures r.Range? ==>
                var text := header + old(Body()) + Trailer(CheckSum(header + old(Body())));
                && |text| == |header + old(Body())| + 7
                && out[..|text|] == text && out[|text|..] == old(out[|text|..])
      ensures r.Range? && old(fmt.buf) + 7 <= old(fmt.data.Length) ==>
                && Valid() && fmt.data == old(fmt.data) && !fmt.failed
                && Body() == old(Body()) + Trailer(CheckSum(header + old(Body())))
    {
      ghost var body := Body();
      if |header| > FRONT_OFFSET {
        return Broken;
      }
      PlaceHeader(header);
      if fmt.buf + 7 > fmt.data.Length && fmt.bufBegin > 0 && fmt.data.Length != STACK_SIZE {
        return Broken;
      }
      ghost var offset, room := fmt.bufBegin, fmt.buf + 7 <= fmt.data.Length;
      TrailerText(CheckSum(header + body));
      r := Finish(begin, other);
      if r.Range? && room {
        assert fmt.data[..fmt.buf][offset..] == fmt.data[offset..fmt.buf];
        BehindHeader(fmt.data[..fmt.buf], offset, header, body, Trailer(CheckSum(header + body)));
      }
    }

    /** Header and body are in place: append the trailer, copy the message, and restore the beginning. */
    method Finish(begin: int, other: int) returns (r: Range)
      requires fmt.Valid() && fmt.Accounted() && fmt.data != null && fmt.data != out && !fmt.failed
      requires fmt.bufBegin < fmt.data.Length && fmt.CanGrow(7) && 2 * (|fmt.Content()| + 7) <= MAX_SIZE
      requires Apart(begin, fmt.data.Length, other, |fmt.Content()| + 7)
      modifies fmt, fmt.data, out
      ensures var text := old(fmt.Content()) + Trailer(CheckSum(old(fmt.Content())));
              var room := old(fmt.buf) + 7 <= old(fmt.data.Length);
              && (r.Broken? <==> |text| > out.Length)
              && (r.Range? ==>
                && out[..|text|] == text && out[|text|..] == old(out[|text|..])
                && (r.length == |text| <==> room))
              && (r.Range? && room ==>
                && fmt.Valid() && fmt.Accounted() && !fmt.failed && fmt.data == old(fmt.data)
                && fmt.first == old(fmt.first) && fmt.bufBegin == 0 && fmt.buf == old(fmt.buf) + 7
                && fmt.data[old(fmt.bufBegin)..fmt.buf] == text)
    {
      var adjustedOffset, data := fmt.bufBegin, fmt.data;
      var grown := AppendTrailer(fmt);
      var text := fmt.Content();
      if |text| > out.Length {
        return Broken;
      }
      CopyToFront(out, text);
      var buf := (if grown then other else begin) + fmt.buf;
      RangeEndIff(begin, data.Length, adjustedOffset, buf - |text|, |text|, grown);
      fmt.bufBegin := 0;
      r := Range(RangeLength(begin, buf, adjustedOffset));
    }
  }

  // ---------- the range that done() returns ----------

  /** The returned range by its length; or the buffer was left, or a wrong pointer given back. */
  datatype Range = Range(length: int) | Broken

  /** What is needed for `size` bytes of another allocation, while this one is live. */
  predicate Apart(begin: int, capacity: nat, other: int, size: nat) {
    other + size <= begin || begin + capacity <= other
  }

  /** Sizes that no allocation gets near to. */
  ghost predicate Representable(version: string, body: string) {
    |body| < ULONG_RANGE && 2 * (|Encode(version, body)| + UNSIGNED_LONG_MAX_LEN) <= MAX_SIZE
  }

  /** The length of the returned range: size() of the buffer with its beginning restored to the old
      allocation, less the offset. */
  function RangeLength(begin: int, buf: int, offset: nat): int {
    (if buf >= begin then buf - begin else 0) - offset
  }

  /** The message is at p: at its offset in the old allocation, or, when the buffer grew, in another. */
  lemma RangeEndIff(begin: int, capacity: nat, offset: nat, p: int, size: nat, grown: bool)
    requires offset < capacity && 0 < size
    requires if grown then Apart(begin, capacity, p, size) else p == begin + offset
    ensures RangeLength(begin, p + size, offset) == size <==> !grown
  {
  }

  lemma BehindHeader(d: string, offset: nat, h: string, b: string, t: string)
    requires offset <= |d| && d[offset..] == h + b + t
    ensures d[offset + |h|..] == b + t
  {
    assert d[offset + |h|..] == d[offset..][|h|..];
  }

  /** Three pieces one behind the other; the buffer grows exactly when they do not fit. */
  method AppendThree(fmt: DynamicFmtBuf, a: string, b: string, c: string) returns (grown: bool)
    requires fmt.Valid() && fmt.data != null && !fmt.failed && fmt.CanGrow(|a| + |b| + |c|)
    requires 2 * (|fmt.Content()| + |a| + |b| + |c|) <= MAX_SIZE
    modifies fmt, fmt.data
    ensures grown <==> old(fmt.buf) + |a| + |b| + |c| > old(fmt.data.Length)
    ensures fmt.Valid() && fmt.data != null && !fmt.failed && fmt.first == old(fmt.first)
    ensures if grown then fresh(fmt.data) && fmt.bufBegin == 0
            else fmt.data == old(fmt.data) && fmt.bufBegin == old(fmt.bufBegin)
    ensures fmt.Content() == old(fmt.Content()) + a + b + c
    ensures old(fmt.Accounted()) && !grown ==> fmt.Accounted()
  {
    var data := fmt.data;
    fmt.Append(a);
    fmt.Append(b);
    fmt.Append(c);
    grown := fmt.data != data;
  }

  lemma TrailerPieces(text: string, checksum: nat)
    requires checksum < 256
    ensures text + "10=" + ZeroPad(3, checksum) + [SOH] == text + Trailer(checksum)
    ensures |"10="| + |ZeroPad(3, checksum)| + |[SOH]| == |Trailer(checksum)| == 7
  {
    TrailerText(checksum);
    CheckSumDigits(checksum);
    Assoc(text, "10=", ZeroPad(3, checksum));
    Assoc(text, "10=" + ZeroPad(3, checksum), [SOH]);
  }

  /** Append "10=ddd<SOH>"; the buffer grows exactly when 7 bytes are not free. */
  method AppendTrailer(fmt: DynamicFmtBuf) returns (grown: bool)
    requires fmt.Valid() && fmt.data != null && !fmt.failed && fmt.CanGrow(7)
    requires 2 * (|fmt.Content()| + 7) <= MAX_SIZE
    modifies fmt, fmt.data
    ensures grown <==> old(fmt.buf) + 7 > old(fmt.data.Length)
    ensures fmt.Valid() && fmt.data != null && !fmt.failed && fmt.first == old(fmt.first)
    ensures if grown then fresh(fmt.data) && fmt.bufBegin == 0
            else fmt.data == old(fmt.data) && fmt.bufBegin == old(fmt.bufBegin)
    ensures fmt.Content() == old(fmt.Content()) + Trailer(CheckSum(old(fmt.Content())))
    ensures |fmt.Content()| == old(|fmt.Content()|) + 7
    ensures old(fmt.Accounted()) && !grown ==> fmt.Accounted()
  {
    var checksum := GenerateCheckSum(fmt.data, fmt.bufBegin, fmt.buf);
    TrailerPieces(fmt.Content(), checksum);
    grown := AppendThree(fmt, "10=", ZeroPad(3, checksum), [SOH]);
  }

  /** The most room that a tag of t digits, '=', a value of v characters and the delimiter ask for. */
  function Room(t: nat, v: nat): nat {
    Max(INT_MAX_LEN, t + 1 + v + 1)
  }

  /** The most that is ever asked for while the first n fields are added. */
  function Peak(fs: seq<NumberedField>, n: nat): nat
    requires n <= |fs|
  {
    if n == 0 then FRONT_OFFSET
    else
      var f := fs[n - 1];
      Max(Peak(fs, n - 1), FRONT_OFFSET + |BodyText(fs[..n - 1])| + Room(|Dec(f.tag)|, |f.value|))
  }

  lemma FieldPieces(b: string, tag: nat, value: string)
    ensures ((b + Dec(tag)) + [EQUALS]) + value + [SOH] == b + FieldText(tag, value)
  {
    var t := Dec(tag);
    Assoc(b, t, [EQUALS]);
    Assoc(b, t + [EQUALS], value);
    Assoc(b, t + [EQUALS] + value, [SOH]);
  }

  /** The header text, formatted in a buffer of its own, which grows when fewer than 20 bytes are
      left for the length. */
  method MakeHeader(version: string, bodyLength: nat) returns (header: string)
    requires bodyLength < ULONG_RANGE
    requires 2 * (|Header(version, bodyLength)| + UNSIGNED_LONG_MAX_LEN) <= MAX_SIZE
    ensures header == Header(version, bodyLength)
  {
    HeaderText(version, bodyLength);
    IntDigits(bodyLength);
    var headerBuf := new DynamicFmtBuf(FRONT_OFFSET, STACK_SIZE);
    PutField(headerBuf, "8=", version, |version|, "");
    var first := headerBuf.Content();
    PutField(headerBuf, "9=", Dec(bodyLength), UNSIGNED_LONG_MAX_LEN, first);
    header := headerBuf.Content();
    HeaderPieces(version, bodyLength, first, header);
  }

  lemma HeaderPieces(version: string, n: nat, first: string, header: string)
    requires first == "" + "8=" + version + [SOH] && header == first + "9=" + Dec(n) + [SOH]
    ensures header == "8=" + version + [SOH] + "9=" + Dec(n) + [SOH]
  {
  }

  /** A good buffer that holds `text` and can grow. */
  ghost predicate HoldsText(b: DynamicFmtBuf, text: string)
    reads b, b.data
  {
    b.Valid() && b.data != null && b.data.Length > 0 && b.bufBegin == 0 && !b.failed && b.Content() == text
  }

  method PutField(b: DynamicFmtBuf, name: string, value: string, room: nat, ghost text: string)
    requires HoldsText(b, text) && |value| <= room
    requires 2 * (|text| + |name| + room + 1) <= MAX_SIZE
    modifies b, b.data
    ensures HoldsText(b, text + name + value + [SOH]) && (b.data == old(b.data) || fresh(b.data))
  {
    PutText(b, name, |name|, text);
    PutText(b, value, room, text + name);
    PutText(b, [SOH], 1, text + name + value);
  }

  method PutText(b: DynamicFmtBuf, s: string, room: nat, ghost text: string)
    requires HoldsText(b, text) && |s| <= room && 2 * (|text| + room) <= MAX_SIZE
    modifies b, b.data
    ensures HoldsText(b, text + s) && (b.data == old(b.data) || fresh(b.data))
  {
    b.Put(s, room);
  }

  method CopyInto(a: array<char>, at: nat, s: string)
    requires at + |s| <= a.Length
    modifies a
    ensures a[at..at + |s|] == s
    ensures a[..at] == old(a[..at]) && a[at + |s|..] == old(a[at + |s|..])
  {
    forall i | 0 <= i < |s| {
      a[at + i] := s[i];
    }
  }

  method CopyToFront(a: array<char>, s: string)
    requires |s| <= a.Length
    modifies a
    ensures a[..|s|] == s && a[|s|..] == old(a[|s|..])
  {
    forall i | 0 <= i < |s| {
      a[i] := s[i];
    }
  }

  lemma BodySnoc(fs: seq<NumberedField>, i: nat)
    requires i < |fs|
    ensures BodyText(fs[..i + 1]) == BodyText(fs[..i]) + FieldText(fs[i].tag, fs[i].value)
  {
    assert ToItems(fs[..i + 1]) == ToItems(fs[..i]) + [ToItem(fs[i])];
    PrintAppend(ToItems(fs[..i]), [ToItem(fs[i])]);
    PrintOne(ToItem(fs[i]));
  }

  lemma BodyPrefix(fs: seq<NumberedField>, i: nat)
    requires i < |fs|
    ensures |BodyText(fs[..i])| + |fs[i].value| <= |BodyText(fs)|
  {
    BodySnoc(fs, i);
    assert ToItems(fs) == ToItems(fs[..i + 1]) + ToItems(fs[i + 1..]);
    PrintAppend(ToItems(fs[..i + 1]), ToItems(fs[i + 1..]));
  }

  lemma PeakNext(fs: seq<NumberedField>, i: nat, used: nat)
    requires i < |fs| && used == FRONT_OFFSET + |BodyText(fs[..i])|
    ensures Peak(fs, i + 1) == Max(Peak(fs, i), used + Room(|Dec(fs[i].tag)|, |fs[i].value|))
  {
  }

  /** The first i fields have been added. */
  ghost predicate Added(fix: FixBuilder, fs: seq<NumberedField>, i: nat)
    reads fix, fix.fmt, fix.fmt.data
  {
    && i <= |fs| && fix.Valid() && !fix.fmt.failed
    && fix.Body() == BodyText(fs[..i]) && fix.fmt.asked == Peak(fs, i)
  }

  /** Tags are ints, and no allocation reaches the largest size. */
  ghost predicate Sized(fs: seq<NumberedField>) {
    && (forall i :: 0 <= i < |fs| ==> fs[i].tag < INT_RANGE)
    && 2 * (FRONT_OFFSET + |BodyText(fs)| + 2 * INT_MAX_LEN) <= MAX_SIZE
  }

  method AddField(fix: FixBuilder, fs: seq<NumberedField>, i: nat)
    requires Added(fix, fs, i) && i < |fs| && Sized(fs)
    modifies fix.fmt, fix.fmt.data
    ensures Added(fix, fs, i + 1) && (fix.fmt.data == old(fix.fmt.data) || fresh(fix.fmt.data))
  {
    BodySnoc(fs, i);
    BodyPrefix(fs, i);
    PeakNext(fs, i, fix.fmt.buf);
    fix.BodyString(fs[i].tag, fs[i].value);
  }

  /** Add the fields one by one. */
  method AddFields(fix: FixBuilder, fs: seq<NumberedField>)
    requires Added(fix, fs, 0) && Sized(fs)
    modifies fix.fmt, fix.fmt.data
    ensures Added(fix, fs, |fs|) && (fix.fmt.data == old(fix.fmt.data) || fresh(fix.fmt.data))
  {
    var i := 0;
    while i < |fs|
      invariant Added(fix, fs, i) && (fix.fmt.data == old(fix.fmt.data) || fresh(fix.fmt.data))
    {
      AddField(fix, fs, i);
      i := i + 1;
    }
  }

  /** The capacity when all fields have been added. */
  function CapacityFor(fs: seq<NumberedField>): nat {
    Doubled(STACK_SIZE, Peak(fs, |fs|))
  }

  /** Feeding the fields of a message to a builder one by one. When the header fits its gap, the message
      fits the caller's range, and the capacity leaves 7 bytes for the trailer, exactly the wire text is
      written and exactly its range returned. When only the 7 bytes are missing, the text is written and
      the range is wrong as long as the buffer is in the arena, or the header fills its gap; otherwise,
      and when the header or the message does not fit, it breaks. */
  method Build(o: Outgoing, out: array<char>, begin: int, other: int) returns (r: Range)
    requires Sized(o.fields) && Representable(o.version, BodyText(o.fields))
    requires Apart(begin, CapacityFor(o.fields), other, |Wire(o)|)
    modifies out
    ensures var header, text := |Header(o.version, |BodyText(o.fields)|)|, |Wire(o)|;
            var cap := CapacityFor(o.fields);
            var room := FRONT_OFFSET + |BodyText(o.fields)| + 7 <= cap;
            && (header > FRONT_OFFSET || text > out.Length ==> r == Broken)
            && (header < FRONT_OFFSET && !room && cap != STACK_SIZE ==> r == Broken)
            && (header <= FRONT_OFFSET && text <= out.Length && room ==> r == Range(text))
            && (header <= FRONT_OFFSET && text <= out.Length && !room
                && (header == FRONT_OFFSET || cap == STACK_SIZE) ==>
              r.Range? && r.length != text)
    ensures r.Range? ==> out[..|Wire(o)|] == Wire(o) && out[|Wire(o)|..] == old(out[|Wire(o)|..])
  {
    var fix := new FixBuilder(out);
    AddFields(fix, o.fields);
    assert o.fields[..|o.fields|] == o.fields;
    r := fix.Done(o.version, begin, other);
  }

  /** In the reserved 1100 bytes there is room for the trailer whenever the text fits. */
  lemma SmallFits(o: Outgoing)
    requires FRONT_OFFSET + |BodyText(o.fields)| + 7 <= STACK_SIZE
    ensures FRONT_OFFSET + |BodyText(o.fields)| + 7 <= CapacityFor(o.fields)
  {
  }

  const TEXT := 58

  /** A message with one text of n characters. */
  lemma TextSize(f: NumberedField)
    requires 10 <= f.tag < 100 && 7 <= |f.value| < 10_000
    ensures |BodyText([f])| == |f.value| + 4 && Peak([f], 1) == FRONT_OFFSET + |f.value| + 4 && Sized([f])
  {
    var fs := [f];
    assert |Dec(f.tag)| == 2;
    assert fs[..0] == [] && fs[..1] == fs;
    BodySnoc(fs, 0);
  }

  lemma TextHeader(version: string, body: string)
    requires |version| == 7 && |body| < 100_000
    ensures |Header(version, |body|)| < FRONT_OFFSET && Representable(version, body)
  {
    HeaderText(version, |body|);
    IntDigits(|body|);
    TrailerText(CheckSum(Header(version, |body|) + body));
  }

  lemma OneText(n: nat) returns (o: Outgoing)
    requires 7 <= n < 10_000
    ensures o == Outgoing("FIX.4.4", [Field(TEXT, Repeat('x', n))])
    ensures |BodyText(o.fields)| == n + 4 && Peak(o.fields, 1) == FRONT_OFFSET + n + 4
    ensures |Header(o.version, |BodyText(o.fields)|)| < FRONT_OFFSET
    ensures Sized(o.fields) && Representable(o.version, BodyText(o.fields))
  {
    var f := Field(TEXT, Repeat('x', n));
    TextSize(f);
    o := Outgoing("FIX.4.4", [f]);
    TextHeader(o.version, BodyText(o.fields));
  }

  /** A message in the arena that leaves no room for the trailer: its range is wrong ... */
  lemma RangeWrong() returns (o: Outgoing)
    ensures o == Outgoing("FIX.4.4", [Field(58, Repeat('x', 992))])
    ensures |Header(o.version, |BodyText(o.fields)|)| < 100
    ensures CapacityFor(o.fields) == 1100 == STACK_SIZE && 100 + |BodyText(o.fields)| + 7 == 1103
  {
    o := OneText(992);
  }

  /** ... one beyond the arena that leaves none: it breaks ... */
  lemma PointerWrong() returns (o: Outgoing)
    ensures o == Outgoing("FIX.4.4", [Field(58, Repeat('x', 2092))])
    ensures |Header(o.version, |BodyText(o.fields)|)| < 100
    ensures CapacityFor(o.fields) == 2200 && 100 + |BodyText(o.fields)| + 7 == 2203
  {
    o := OneText(2092);
  }

  /** ... and one beyond the arena that leaves room. */
  lemma BeyondArena() returns (o: Outgoing)
    ensures o == Outgoing("FIX.4.4", [Field(58, Repeat('x', 1500))])
    ensures |Header(o.version, |BodyText(o.fields)|)| < 100
    ensures CapacityFor(o.fields) == 2200 && 100 + |BodyText(o.fields)| + 7 == 1611
  {
    o := OneText(1500);
  }
}
