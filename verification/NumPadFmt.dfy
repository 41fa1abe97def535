/** FmtPadNum: decimal digits are written into a scratch array from its end, padded, copied out. */
module PadNum {
  import opened Text
  import opened Machine

  /** The integer types, by size. */
  datatype Size = Bits8 | Bits16 | Bits32 | Bits64

  /** UIntDecMaxLen: the most digits an unsigned number of the type has. */
  function UIntDecMaxLen(t: Size): nat {
    match t
    case Bits8 => 3
    case Bits16 => 5
    case Bits32 => 10
    case Bits64 => 20
  }

  function Limit(t: Size): int {
    match t
    case Bits8 => 0x100
    case Bits16 => 0x1_0000
    case Bits32 => 0x1_0000_0000
    case Bits64 => 0x1_0000_0000_0000_0000
  }

  /** The constants are large enough: every value has at most that many digits. */
  lemma DigitsFit(t: Size, n: nat)
    requires n < Limit(t)
    ensures |Dec(n)| <= UIntDecMaxLen(t)
  {
    assert Pow10(3) == 1000;
    assert Pow10(5) == 100_000;
    assert Pow10(10) == 10_000_000_000;
    assert Pow10(15) == 1_000_000_000_000_000;
    assert Pow10(20) == 100_000_000_000_000_000_000;
    DecLength(n, UIntDecMaxLen(t));
  }

  /** A value of the signed type whose magnitude `sign * aVal` can be computed: the small types are
      promoted to int, for int and wider the most negative value overflows. */
  predicate HasMagnitude(t: Size, val: int) {
    && -Limit(t) <= 2 * val < Limit(t)
    && (t.Bits32? || t.Bits64? ==> -Limit(t) < 2 * val)
  }

  /** Every value of the small types has a magnitude, and every one of the others but the most negative. */
  lemma MagnitudeRange(val: int)
    ensures HasMagnitude(Bits8, val) <==> -128 <= val <= 127
    ensures HasMagnitude(Bits16, val) <==> -32_768 <= val <= 32_767
    ensures HasMagnitude(Bits32, val) <==> -2_147_483_647 <= val <= 2_147_483_647
    ensures HasMagnitude(Bits64, val) <==> -9_223_372_036_854_775_807 <= val <= 9_223_372_036_854_775_807
  {
  }

  /** What the formatter leaves in aBuf[at..end]: the text if it fits, else nothing new. */
  ghost predicate Written(before: string, after: string, at: nat, end: nat, text: string) {
    && |after| == |before|
    && if at < end && at + |text| <= end
       then at + |text| <= |before| && after == before[..at] + text + before[at + |text|..]
       else after == before
  }

  /** Fill scratch from its end with the digits of val; they start at the returned position. */
  method Digits(scratch: array<char>, val: nat, last: nat) returns (i: nat)
    requires |Dec(val)| + last <= scratch.Length
    modifies scratch
    ensures last <= i < scratch.Length && scratch[i..] == Dec(val)
  {
    var x := val;
    i := scratch.Length;
    while true
      invariant last < i <= scratch.Length
      invariant i == scratch.Length ==> x == val
      invariant i < scratch.Length ==> x > 0
      invariant Dec(val) == Dec(x) + scratch[i..]
      decreases i
    {
      ghost var done := scratch[i..];
      Prepend(scratch, i, DigitChar(x % 10));
      i := i - 1;
      if x >= 10 {
        Assoc(Dec(x / 10), [DigitChar(x % 10)], done);
      }
      x := x / 10;
      if x == 0 {
        break;
      }
      if !(i > last) {
        break;
      }
    }
  }

  /** One more character in front of position i. */
  method Prepend(scratch: array<char>, i: nat, c: char)
    requires 0 < i <= scratch.Length
    modifies scratch
    ensures scratch[i - 1..] == [c] + old(scratch[i..])
  {
    scratch[i - 1] := c;
  }

  lemma RepeatMore(c: char, n: nat, t: string)
    ensures Repeat(c, n + 1) + t == [c] + (Repeat(c, n) + t)
  {
    Assoc([c], Repeat(c, n), t);
  }

  lemma PadLeftIs(c: char, width: nat, n: nat, t: string)
    requires n == if |t| < width then width - |t| else 0
    ensures Repeat(c, n) + t == PadLeft(c, width, t)
  {
    Unit(t);
  }

  /** Put `padding` in front of position i until the text has `width` characters. */
  method Pad(scratch: array<char>, i0: nat, width: nat, padding: char) returns (i: nat)
    requires i0 <= scratch.Length && width <= scratch.Length
    modifies scratch
    ensures i <= scratch.Length && scratch[i..] == PadLeft(padding, width, old(scratch[i0..]))
  {
    i := i0;
    var n := scratch.Length - width;
    ghost var text := scratch[i0..];
    Unit(text);
    if i > n {
      while true
        invariant n < i <= i0
        invariant scratch[i..] == Repeat(padding, i0 - i) + text
        decreases i
      {
        RepeatMore(padding, i0 - i, text);
        Prepend(scratch, i, padding);
        i := i - 1;
        if !(i > n) {
          break;
        }
      }
    }
    PadLeftIs(padding, width, i0 - i, text);
  }

  method CopyOut(scratch: array<char>, i: nat, aBuf: array<char>, at: nat, end: nat) returns (next: nat)
    requires i <= scratch.Length && end <= aBuf.Length && at < end && scratch != aBuf
    modifies aBuf
    ensures next == at + |scratch[i..]|
    ensures Written(old(aBuf[..]), aBuf[..], at, end, scratch[i..])
  {
    var sz := scratch.Length - i;
    if at + sz > end {
      return at + sz;
    }
    forall k | 0 <= k < sz {
      aBuf[at + k] := scratch[i + k];
    }
    next := at + sz;
  }

  /** Unsigned numbers. */
  method FmtUnsigned(aBuf: array<char>, at: nat, end: nat, val: nat, width: nat, padding: char, t: Size)
    returns (next: nat)
    requires end <= aBuf.Length && val < Limit(t)
    modifies aBuf
    ensures next == if at >= end then at else at + |PadLeft(padding, width, Dec(val))|
    ensures var text := PadLeft(padding, width, Dec(val));
            if at < end && at + |text| <= end
            then aBuf[at..at + |text|] == text && aBuf[..at] == old(aBuf[..at])
                 && aBuf[at + |text|..] == old(aBuf[at + |text|..])
            else aBuf[..] == old(aBuf[..])
  {
    if at >= end {
      return at;
    }
    DigitsFit(t, val);
    var scratch := new char[Max(UIntDecMaxLen(t), width)];
    var i := Digits(scratch, val, 0);
    i := Pad(scratch, i, width, padding);
    next := CopyOut(scratch, i, aBuf, at, end);
  }

  function SignedText(val: int): string {
    if val < 0 then ['-'] + Dec(-val) else Dec(val)
  }

  /** Signed numbers. */
  method FmtSigned(aBuf: array<char>, at: nat, end: nat, val: int, width: nat, padding: char, t: Size)
    returns (next: nat)
    requires end <= aBuf.Length && HasMagnitude(t, val)
    modifies aBuf
    ensures next == if at >= end then at else at + |PadLeft(padding, width, SignedText(val))|
    ensures var text := PadLeft(padding, width, SignedText(val));
            if at < end && at + |text| <= end
            then aBuf[at..at + |text|] == text && aBuf[..at] == old(aBuf[..at])
                 && aBuf[at + |text|..] == old(aBuf[at + |text|..])
            else aBuf[..] == old(aBuf[..])
  {
    if at >= end {
      return at;
    }
    var sign := if val >= 0 then 1 else -1;
    var x := sign * val;
    DigitsFit(t, x);
    var scratch := new char[Max(UIntDecMaxLen(t) + 1, width)];
    var last := if sign < 0 then 1 else 0;
    var i := Digits(scratch, x, last);
    if sign < 0 {
      Prepend(scratch, i, '-');
      i := i - 1;
    }
    assert scratch[i..] == SignedText(val);
    i := Pad(scratch, i, width, padding);
    next := CopyOut(scratch, i, aBuf, at, end);
  }

  /** Reading the unsigned text back: zeros disappear in the value, other paddings can be taken off. */
  lemma UnsignedReadBack(val: nat, width: nat, padding: char)
    ensures NumParse(PadLeft('0', width, Dec(val))) == val
    ensures !IsDigit(padding) ==> NumParse(Strip(padding, PadLeft(padding, width, Dec(val)))) == val
  {
    ParseZeroPadded(width, val);
    ParseDec(val);
    if !IsDigit(padding) {
      assert IsDigit(Dec(val)[0]);
      StripPadLeft(padding, width, Dec(val));
    }
  }

  function ReadSigned(s: string): int {
    if s != "" && s[0] == '-' then -(NumParse(s[1..]) as int) else NumParse(s)
  }

  /** Reading the signed text back, for a padding that is neither digit nor sign. */
  lemma SignedReadBack(val: int, width: nat, padding: char)
    requires !IsDigit(padding) && padding != '-'
    ensures ReadSigned(Strip(padding, PadLeft(padding, width, SignedText(val)))) == val
  {
    var s := SignedText(val);
    var m := if val < 0 then -val else val;
    ParseDec(m);
    assert IsDigit(Dec(m)[0]);
    if val < 0 {
      assert s[1..] == Dec(m);
    }
    StripPadLeft(padding, width, s);
  }

  /** Zero padding goes in front of the sign, so a padded negative number reads as zero. */
  lemma ZeroPaddedNegative(val: int, width: nat)
    requires val < 0 && |SignedText(val)| < width
    ensures ReadSigned(PadLeft('0', width, SignedText(val))) == 0
  {
    var s := SignedText(val);
    var k := width - |s|;
    var t := PadLeft('0', width, s);
    assert t == Repeat('0', k) + s && t[0] == '0';
    PrefixOfZeros(k, s);
    ZerosValue(k);
  }

  /** With the default padding '0' a signed number is read back if and only if it is not negative
      or is not padded at all. */
  lemma ZeroPaddedReadBack(val: int, width: nat)
    ensures ReadSigned(PadLeft('0', width, SignedText(val))) == val <==> val >= 0 || |SignedText(val)| >= width
  {
    if val >= 0 {
      ParseZeroPadded(width, val);
      assert IsDigit(PadLeft('0', width, Dec(val))[0]);
    } else if |SignedText(val)| < width {
      ZeroPaddedNegative(val, width);
    } else {
      ParseDec(-val);
      assert SignedText(val)[1..] == Dec(-val);
    }
  }

  lemma {:induction false} PrefixOfZeros(k: nat, s: string)
    requires s == "" || !IsDigit(s[0])
    ensures DigitPrefix(Repeat('0', k) + s) == Repeat('0', k)
  {
    var t := Repeat('0', k) + s;
    if k == 0 {
      assert t == s;
    } else {
      assert t[1..] == Repeat('0', k - 1) + s;
      PrefixOfZeros(k - 1, s);
    }
  }
}
