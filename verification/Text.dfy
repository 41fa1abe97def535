/** Byte strings shared by every layer: searching, concatenation and decimal numbers.
    A C++ `char` is modelled by a Dafny `char`. */
module Text {
  const SOH: char := '\U{01}'
  const EQUALS := '='
  const ZERO := '0' as int

  datatype Option<+T> = None | Some(value: T)

  /** A `char` seen as the signed 8-bit number it is in the original. */
  function SignedChar(c: char): int {
    if c as int < 128 then c as int else c as int - 256
  }

  /** The first position of `c` in `s` at or after i, or |s|. */
  function Find(s: string, i: nat, c: char): (k: nat)
    requires i <= |s|
    ensures i <= k <= |s|
    ensures k < |s| ==> s[k] == c
    decreases |s| - i
  {
    if i == |s| || s[i] == c then i else Find(s, i + 1, c)
  }

  lemma {:induction false} FindFirst(s: string, i: nat, c: char)
    requires i <= |s|
    ensures forall j :: i <= j < Find(s, i, c) ==> s[j] != c
    decreases |s| - i
  {
    if i < |s| && s[i] != c {
      FindFirst(s, i + 1, c);
    }
  }

  lemma {:induction false} FindAtMost(s: string, i: nat, c: char, k: nat)
    requires i <= k < |s| && s[k] == c
    ensures Find(s, i, c) <= k
    decreases |s| - i
  {
    if s[i] != c {
      FindAtMost(s, i + 1, c, k);
    }
  }

  lemma {:induction false} FindUnique(s: string, i: nat, c: char, k: nat)
    requires i <= k <= |s|
    requires k < |s| ==> s[k] == c
    requires forall j :: i <= j < k ==> s[j] != c
    ensures Find(s, i, c) == k
    decreases |s| - i
  {
    if i < k {
      FindUnique(s, i + 1, c, k);
    }
  }

  lemma {:induction false} FindSkips(s: string, i: nat, e: nat, c: char)
    requires i <= e <= |s|
    requires forall j :: i <= j < e ==> s[j] != c
    ensures Find(s, i, c) == Find(s, e, c)
    decreases e - i
  {
    if i < e {
      FindSkips(s, i + 1, e, c);
    }
  }

  /** Searching the slice u = s[i..] and searching s give the same place. */
  lemma {:induction false} FindShift(s: string, u: string, i: nat, j: nat, c: char)
    requires i <= j <= |s| && u == s[i..]
    ensures Find(s, j, c) == i + Find(u, j - i, c)
    decreases |s| - j
  {
    if j < |s| {
      assert u[j - i] == s[j];
      FindShift(s, u, i, j + 1, c);
    }
  }

  lemma Unit<T>(s: seq<T>)
    ensures s + [] == s && [] + s == s
  {
  }

  lemma TakeDrop<T>(s: seq<T>, n: nat)
    requires n <= |s|
    ensures s[..n] + s[n..] == s
  {
  }

  /** The characters from i up to j: `std::string(s + i, j - i)`. */
  function Slice(s: string, i: nat, j: nat): (t: string)
    requires i <= j <= |s|
    ensures |t| == j - i
    decreases j - i
  {
    if i == j then "" else Slice(s, i, j - 1) + [s[j - 1]]
  }

  lemma {:induction false} SliceIs(s: string, i: nat, j: nat)
    requires i <= j <= |s|
    ensures Slice(s, i, j) == s[i..j]
    decreases j - i
  {
    if i < j {
      SliceIs(s, i, j - 1);
      assert s[i..j - 1] + [s[j - 1]] == s[i..j];
    }
  }

  lemma Assoc<T>(a: seq<T>, b: seq<T>, c: seq<T>)
    ensures (a + b) + c == a + (b + c)
  {
  }

  lemma {:induction false} SliceSplit(s: string, i: nat, k: nat, j: nat)
    requires i <= k <= j <= |s|
    ensures Slice(s, i, k) + Slice(s, k, j) == Slice(s, i, j)
    decreases j - k
  {
    if k == j {
      Unit(Slice(s, i, k));
    } else {
      SliceSplit(s, i, k, j - 1);
      Assoc(Slice(s, i, k), Slice(s, k, j - 1), [s[j - 1]]);
    }
  }

  /** Taking the first of three pieces off the rest of s. */
  lemma Peel(s: string, i: nat, p: string, q: string, t: string)
    requires i <= |s| && Slice(s, i, |s|) == (p + q) + t
    ensures i + |p| <= |s|
    ensures Slice(s, i, i + |p|) == p && Slice(s, i + |p|, |s|) == q + t
  {
    Assoc(p, q, t);
    var k := i + |p|;
    assert |Slice(s, i, |s|)| == |p| + |q + t|;
    SliceSplit(s, i, k, |s|);
    Unappend(Slice(s, i, k), Slice(s, k, |s|), p, q + t);
  }

  lemma PeelFirst(s: string, i: nat, p: string, q: string)
    requires i <= |s| && Slice(s, i, |s|) == p + q
    ensures i + |p| <= |s| && Slice(s, i, i + |p|) == p && Slice(s, i + |p|, |s|) == q
  {
    Unit(p + q);
    Unit(q);
    Peel(s, i, p, q, "");
  }

  lemma Unappend(a: string, b: string, p: string, q: string)
    requires a + b == p + q && |a| == |p|
    ensures a == p && b == q
  {
    assert a == (a + b)[..|a|] == p;
    assert b == (a + b)[|a|..] == q;
  }

  function Concat(ss: seq<string>): string {
    if ss == [] then "" else ss[0] + Concat(ss[1..])
  }

  lemma ConcatCons(s: string, ss: seq<string>)
    ensures Concat([s] + ss) == s + Concat(ss)
  {
    assert ([s] + ss)[1..] == ss;
  }

  lemma {:induction false} ConcatAppend(a: seq<string>, b: seq<string>)
    ensures Concat(a + b) == Concat(a) + Concat(b)
  {
    if a == [] {
      assert a + b == b;
    } else {
      assert (a + b)[1..] == a[1..] + b;
      ConcatAppend(a[1..], b);
      Assoc(a[0], Concat(a[1..]), Concat(b));
    }
  }

  /** The first n pieces, joined. */
  function Joined(ss: seq<string>, n: nat): string
    requires n <= |ss|
  {
    if n == 0 then "" else Joined(ss, n - 1) + ss[n - 1]
  }

  // ---------- decimal numbers ----------

  predicate IsDigit(c: char) {
    '0' <= c <= '9'
  }

  ghost predicate AllDigits(s: string) {
    forall i :: 0 <= i < |s| ==> IsDigit(s[i])
  }

  function DigitChar(d: nat): (c: char)
    requires d < 10
    ensures IsDigit(c) && c as int == ZERO + d
  {
    '0' + d as char
  }

  function Dec(n: nat): (s: string)
    ensures 1 <= |s| && AllDigits(s)
  {
    if n < 10 then [DigitChar(n)] else Dec(n / 10) + [DigitChar(n % 10)]
  }

  function DigitPrefix(s: string): (p: string)
    ensures AllDigits(p)
  {
    if s == "" || !IsDigit(s[0]) then "" else [s[0]] + DigitPrefix(s[1..])
  }

  function DecValue(s: string): nat
    requires AllDigits(s)
  {
    if s == "" then 0 else DecValue(s[..|s| - 1]) * 10 + (s[|s| - 1] as int - ZERO)
  }

  /** The number the original's unseen `NumParse` reads: the value of the leading digits. */
  function NumParse(s: string): nat {
    DecValue(DigitPrefix(s))
  }

  lemma {:induction false} DigitPrefixAll(s: string)
    requires AllDigits(s)
    ensures DigitPrefix(s) == s
  {
    if s != "" {
      assert IsDigit(s[0]);
      DigitPrefixAll(s[1..]);
    }
  }

  lemma {:induction false} DecValueOfDec(n: nat)
    ensures DecValue(Dec(n)) == n
  {
    var s := Dec(n);
    if n < 10 {
      assert s[..|s| - 1] == "";
    } else {
      assert s[..|s| - 1] == Dec(n / 10);
      DecValueOfDec(n / 10);
    }
  }

  lemma ParseDec(n: nat)
    ensures NumParse(Dec(n)) == n
  {
    DigitPrefixAll(Dec(n));
    DecValueOfDec(n);
  }

  function Pow10(k: nat): nat {
    if k == 0 then 1 else 10 * Pow10(k - 1)
  }

  /** A number below 10^k has at most k digits. */
  lemma {:induction false} DecLength(n: nat, k: nat)
    requires n < Pow10(k) && k > 0
    ensures |Dec(n)| <= k
  {
    if n >= 10 {
      DecLength(n / 10, k - 1);
    }
  }

  // ---------- padding ----------

  function Repeat(c: char, n: nat): (z: string)
    ensures |z| == n && forall i :: 0 <= i < n ==> z[i] == c
  {
    if n == 0 then "" else [c] + Repeat(c, n - 1)
  }

  /** `s` extended on the left to at least `width` characters. */
  function PadLeft(c: char, width: nat, s: string): (p: string)
    ensures |p| == if |s| < width then width else |s|
  {
    if |s| < width then Repeat(c, width - |s|) + s else s
  }

  function Strip(c: char, s: string): string {
    if s == "" || s[0] != c then s else Strip(c, s[1..])
  }

  lemma {:induction false} StripRepeat(c: char, n: nat, s: string)
    requires s == "" || s[0] != c
    ensures Strip(c, Repeat(c, n) + s) == s
    decreases n
  {
    var t := Repeat(c, n) + s;
    if n == 0 {
      assert t == s;
    } else {
      assert t[1..] == Repeat(c, n - 1) + s;
      StripRepeat(c, n - 1, s);
    }
  }

  /** A padding that is not the text's own first character can be taken off again. */
  lemma StripPadLeft(c: char, width: nat, s: string)
    requires s == "" || s[0] != c
    ensures Strip(c, PadLeft(c, width, s)) == s
  {
    if |s| < width {
      StripRepeat(c, width - |s|, s);
    }
  }

  lemma {:induction false} ValueOfZeros(n: nat, s: string)
    requires AllDigits(s)
    ensures AllDigits(Repeat('0', n) + s) && DecValue(Repeat('0', n) + s) == DecValue(s)
    decreases |s|
  {
    var t := Repeat('0', n) + s;
    if s == "" {
      assert t == Repeat('0', n);
      ZerosValue(n);
    } else {
      var last := |s| - 1;
      ValueOfZeros(n, s[..last]);
      assert t[..|t| - 1] == Repeat('0', n) + s[..last];
    }
  }

  lemma {:induction false} ZerosValue(n: nat)
    ensures AllDigits(Repeat('0', n)) && DecValue(Repeat('0', n)) == 0
  {
    if n > 0 {
      assert Repeat('0', n)[..n - 1] == Repeat('0', n - 1);
      ZerosValue(n - 1);
    }
  }

  /** Zero padding does not change the number that is read back. */
  lemma ParseZeroPadded(width: nat, n: nat)
    ensures AllDigits(PadLeft('0', width, Dec(n))) && NumParse(PadLeft('0', width, Dec(n))) == n
  {
    var s := Dec(n);
    DecValueOfDec(n);
    if |s| < width {
      ValueOfZeros(width - |s|, s);
    }
    DigitPrefixAll(PadLeft('0', width, s));
  }
}
