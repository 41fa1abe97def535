/** The FIX CheckSum (Appendix B of FIX 4.2) and how the original accumulates it. */
module Checksum {
  import opened Text
  import opened Machine

  /** The sum of the unsigned values of the first n bytes. */
  function SumTo(s: string, n: nat): nat
    requires n <= |s|
  {
    if n == 0 then 0 else SumTo(s, n - 1) + s[n - 1] as int
  }

  /** The check sum the standard asks for. */
  function CheckSum(s: string): (c: nat)
    ensures c < 256
  {
    SumTo(s, |s|) % 256
  }

  lemma SameMod256(a: int, k: int)
    ensures (a + 256 * k) % 256 == a % 256
  {
  }

  /** Reducing to 32 bits does not show modulo 256. */
  lemma WrapMod256(x: int)
    ensures (x % UINT_RANGE) % 256 == x % 256
  {
    SameMod256(x % UINT_RANGE, (x / UINT_RANGE) * 0x100_0000);
  }

  /** Neither does sign extension. */
  lemma SignMod256(sum: int, c: char)
    ensures (sum + SignedChar(c)) % 256 == (sum + c as int) % 256
  {
    SameMod256(sum + SignedChar(c), 1);
  }

  lemma AddMod256(a: int, b: int, c: int)
    requires a % 256 == b % 256
    ensures (a + c) % 256 == (b + c) % 256
  {
    var k := a / 256 - b / 256;
    assert a == b + 256 * k;
    SameMod256(b + c, k);
  }

  lemma AccumulateStep(cks: nat, sum: nat, c: char)
    requires cks % 256 == sum % 256
    ensures ((cks + SignedChar(c) % UINT_RANGE) % UINT_RANGE) % 256 == (sum + c as int) % 256
  {
    var x := SignedChar(c);
    var y := x % UINT_RANGE;
    WrapMod256(cks + y);
    WrapMod256(x);
    AddMod256(y, x, cks);
    AddMod256(cks, sum, x);
    SignMod256(sum, c);
  }

  /** Each char is sign-extended by its conversion to unsigned int, and the sum wraps at 32 bits;
      modulo 256 neither can be seen. */
  method GenerateCheckSum(buf: array<char>, begin: nat, end: nat) returns (r: nat)
    requires begin <= end <= buf.Length
    ensures r == CheckSum(buf[begin..end])
  {
    ghost var s := buf[begin..end];
    var cks := 0;
    var idx := begin;
    while idx < end
      invariant begin <= idx <= end && 0 <= cks < UINT_RANGE
      invariant cks % 256 == SumTo(s, idx - begin) % 256
    {
      AccumulateStep(cks, SumTo(s, idx - begin), buf[idx]);
      cks := (cks + SignedChar(buf[idx]) % UINT_RANGE) % UINT_RANGE;
      idx := idx + 1;
    }
    r := cks % 256;
  }

  lemma {:induction false} SumAppend(a: string, b: string, n: nat)
    requires n <= |b|
    ensures SumTo(a + b, |a| + n) == SumTo(a, |a|) + SumTo(b, n)
    decreases |a| + n
  {
    if n > 0 {
      SumAppend(a, b, n - 1);
    } else {
      SumPrefix(a, b, |a|);
    }
  }

  lemma {:induction false} SumPrefix(a: string, b: string, n: nat)
    requires n <= |a|
    ensures SumTo(a + b, n) == SumTo(a, n)
  {
    if n > 0 {
      SumPrefix(a, b, n - 1);
    }
  }

  /** The check sum can be taken piece by piece. */
  lemma CheckSumAppend(a: string, b: string)
    ensures CheckSum(a + b) == (CheckSum(a) + CheckSum(b)) % 256
  {
    SumAppend(a, b, |b|);
  }

  /** Bytes more, with the sum so far. */
  lemma Summed(s: string, n: nat, t: string, m: nat) returns (u: string)
    requires SumTo(s, |s|) == n && SumTo(t, |t|) == m
    ensures u == s + t && SumTo(u, |u|) == n + m
  {
    u := s + t;
    SumAppend(s, t, |t|);
  }

  lemma SumOfThree(a: char, b: char, c: char) returns (t: string)
    ensures t == [a, b, c] && SumTo(t, |t|) == a as int + b as int + c as int
  {
    t := [a, b, c];
    assert SumTo(t, 1) == a as int;
    assert SumTo(t, 2) == a as int + b as int;
  }

  /** The check sum of nothing is 0, and each further byte adds its value. */
  lemma CheckSumBytes(s: string, c: char)
    ensures CheckSum("") == 0 && CheckSum([c]) == c as int % 256
    ensures CheckSum(s + [c]) == (CheckSum(s) + c as int) % 256
  {
    CheckSumAppend(s, [c]);
    assert SumTo([c], 1) == SumTo([c], 0) + c as int;
    AddMod256(CheckSum([c]), c as int, CheckSum(s));
  }

  // ---------- three digits ----------

  /** Zero-padded decimal text, as `zeroPadField<width>` and setw/setfill('0') print it. */
  function ZeroPad(width: nat, n: nat): (s: string) {
    PadLeft('0', width, Dec(n))
  }

  lemma CheckSumDigits(n: nat)
    requires n < 1000
    ensures |ZeroPad(3, n)| == 3 && AllDigits(ZeroPad(3, n))
  {
    ParseZeroPadded(3, n);
    assert n / 100 < 10;
    assert n >= 10 ==> |Dec(n)| == |Dec(n / 10)| + 1;
  }
}
