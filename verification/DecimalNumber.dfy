/** The decimal numbers that lexical_cast<double> converts: how they are recognised character by
    character, and what they look like. */
module DecimalNumber {
  import opened Text

  datatype NumberState =
    Start | Signed | Whole | BarePoint | Fraction | Exponent | ExponentSigned | ExponentDigits | Bad

  predicate IsSign(c: char) {
    c == '+' || c == '-'
  }

  predicate IsE(c: char) {
    c == 'e' || c == 'E'
  }

  function NextNumberState(st: NumberState, c: char): NumberState {
    if IsDigit(c) then
      match st
      case Start => Whole
      case Signed => Whole
      case BarePoint => Fraction
      case Exponent => ExponentDigits
      case ExponentSigned => ExponentDigits
      case _ => st
    else if c == '.' then
      match st
      case Start => BarePoint
      case Signed => BarePoint
      case Whole => Fraction
      case _ => Bad
    else if IsSign(c) then
      match st
      case Start => Signed
      case Exponent => ExponentSigned
      case _ => Bad
    else if IsE(c) then
      if st.Whole? || st.Fraction? then Exponent else Bad
    else Bad
  }

  predicate NumberFrom(st: NumberState, s: string, i: nat)
    requires i <= |s|
    decreases |s| - i
  {
    if i == |s| then st.Whole? || st.Fraction? || st.ExponentDigits?
    else NumberFrom(NextNumberState(st, s[i]), s, i + 1)
  }

  /** Decimal text, with optional sign, fraction and exponent. */
  predicate IsNumber(s: string) {
    NumberFrom(Start, s, 0)
  }

  // ---------- what each state expects of the rest of the text ----------

  /** What follows the leading digits. */
  function AfterDigits(t: string): string {
    if t == "" || !IsDigit(t[0]) then t else AfterDigits(t[1..])
  }

  predicate OnlyDigits(t: string) {
    AfterDigits(t) == ""
  }

  predicate ExponentRest(t: string) {
    t != "" && if IsSign(t[0]) then t[1..] != "" && OnlyDigits(t[1..]) else OnlyDigits(t)
  }

  predicate MantissaEnds(t: string) {
    t == "" || (IsE(t[0]) && ExponentRest(t[1..]))
  }

  predicate FractionRest(t: string) {
    MantissaEnds(AfterDigits(t))
  }

  predicate WholeRest(t: string) {
    var u := AfterDigits(t);
    MantissaEnds(u) || (u != "" && u[0] == '.' && FractionRest(u[1..]))
  }

  predicate UnsignedRest(t: string) {
    && t != ""
    && if t[0] == '.' then t[1..] != "" && IsDigit(t[1]) && FractionRest(t[1..])
       else IsDigit(t[0]) && WholeRest(t)
  }

  predicate Expects(st: NumberState, t: string) {
    match st
    case Start => t != "" && UnsignedRest(if IsSign(t[0]) then t[1..] else t)
    case Signed => UnsignedRest(t)
    case Whole => WholeRest(t)
    case BarePoint => t != "" && IsDigit(t[0]) && FractionRest(t)
    case Fraction => FractionRest(t)
    case Exponent => ExponentRest(t)
    case ExponentSigned => t != "" && OnlyDigits(t)
    case ExponentDigits => OnlyDigits(t)
    case Bad => false
  }

  lemma ExpectsStep(st: NumberState, t: string)
    requires t != ""
    ensures Expects(st, t) <==> Expects(NextNumberState(st, t[0]), t[1..])
  {
  }

  lemma {:induction false} RecognisedIff(st: NumberState, s: string, i: nat, t: string)
    requires i <= |s| && t == s[i..]
    ensures NumberFrom(st, s, i) <==> Expects(st, t)
    decreases |s| - i
  {
    if i < |s| {
      ExpectsStep(st, t);
      assert t[1..] == s[i + 1..];
      RecognisedIff(NextNumberState(st, s[i]), s, i + 1, t[1..]);
    }
  }

  // ---------- what a number looks like ----------

  /** Nothing, or one sign. */
  predicate OptionalSign(s: string) {
    s == "" || s == "+" || s == "-"
  }

  /** Digits with at most one point, and at least one digit. */
  ghost predicate IsMantissa(s: string) {
    || (s != "" && AllDigits(s))
    || exists a, b :: AllDigits(a) && AllDigits(b) && (a != "" || b != "") && s == a + "." + b
  }

  /** Nothing, or e, an optional sign, and at least one digit. */
  ghost predicate OptionalExponent(s: string) {
    || s == ""
    || exists e, sign, digits :: (e == "e" || e == "E") && OptionalSign(sign) && digits != "" && AllDigits(digits)
                                 && s == e + sign + digits
  }

  ghost predicate LooksLikeNumber(s: string) {
    exists sign, mantissa, exponent ::
      && OptionalSign(sign) && IsMantissa(mantissa) && OptionalExponent(exponent)
      && s == sign + mantissa + exponent
  }

  lemma {:induction false} DigitsThenRest(a: string, r: string)
    requires AllDigits(a) && (r == "" || !IsDigit(r[0]))
    ensures AfterDigits(a + r) == r
    decreases |a|
  {
    if a == "" {
      assert a + r == r;
    } else {
      assert IsDigit(a[0]) && (a + r)[1..] == a[1..] + r;
      DigitsThenRest(a[1..], r);
    }
  }

  lemma {:induction false} SplitDigits(t: string) returns (a: string)
    ensures AllDigits(a) && t == a + AfterDigits(t)
    ensures AfterDigits(t) == "" || !IsDigit(AfterDigits(t)[0])
    ensures t != "" && IsDigit(t[0]) ==> a != ""
    decreases |t|
  {
    if t == "" || !IsDigit(t[0]) {
      a := "";
    } else {
      var b := SplitDigits(t[1..]);
      a := [t[0]] + b;
      assert t == [t[0]] + t[1..];
      Assoc([t[0]], b, AfterDigits(t[1..]));
    }
  }

  lemma OnlyDigitsIff(t: string)
    ensures OnlyDigits(t) <==> AllDigits(t)
  {
    var a := SplitDigits(t);
    if AllDigits(t) {
      DigitsThenRest(t, "");
      Unit(t);
    } else if OnlyDigits(t) {
      Unit(a);
    }
  }

  lemma ExponentParts(u: string)
    requires ExponentRest(u)
    ensures exists sign, digits :: OptionalSign(sign) && digits != "" && AllDigits(digits) && u == sign + digits
  {
    if IsSign(u[0]) {
      OnlyDigitsIff(u[1..]);
      assert u == [u[0]] + u[1..];
      assert OptionalSign([u[0]]);
    } else {
      OnlyDigitsIff(u);
      assert u == "" + u && OptionalSign("");
    }
  }

  lemma PartsAreExponent(sign: string, digits: string)
    requires OptionalSign(sign) && digits != "" && AllDigits(digits)
    ensures ExponentRest(sign + digits)
  {
    OnlyDigitsIff(digits);
    assert IsDigit(digits[0]);
    if sign == "" {
      Unit(digits);
    } else {
      assert (sign + digits)[1..] == digits;
    }
  }

  lemma EndIsExponent(t: string)
    requires MantissaEnds(t)
    ensures OptionalExponent(t)
  {
    if t != "" {
      var e, u := [t[0]], t[1..];
      ExponentParts(u);
      var sign, digits :| OptionalSign(sign) && digits != "" && AllDigits(digits) && u == sign + digits;
      Assoc(e, sign, digits);
      assert t == e + u;
    }
  }

  lemma ExponentIsEnd(t: string)
    requires OptionalExponent(t)
    ensures MantissaEnds(t)
  {
    if t != "" {
      var e, sign, digits :| (e == "e" || e == "E") && OptionalSign(sign) && digits != "" && AllDigits(digits)
                             && t == e + sign + digits;
      Assoc(e, sign, digits);
      PartsAreExponent(sign, digits);
      assert (e + (sign + digits))[1..] == sign + digits;
    }
  }

  /** Digits, if any, a point and digits. */
  lemma PointMantissa(a: string, t: string) returns (mantissa: string, exponent: string)
    requires AllDigits(a) && FractionRest(t) && (a != "" || (t != "" && IsDigit(t[0])))
    ensures IsMantissa(mantissa) && OptionalExponent(exponent) && a + ("." + t) == mantissa + exponent
  {
    var b := SplitDigits(t);
    exponent := AfterDigits(t);
    mantissa := a + "." + b;
    EndIsExponent(exponent);
    Assoc(a, ".", b);
    Assoc(a, "." + b, exponent);
    Assoc(".", b, exponent);
  }

  lemma UnsignedLooks(t: string) returns (mantissa: string, exponent: string)
    requires UnsignedRest(t)
    ensures IsMantissa(mantissa) && OptionalExponent(exponent) && t == mantissa + exponent
  {
    var a := SplitDigits(t);
    var u := AfterDigits(t);
    if MantissaEnds(u) {
      mantissa, exponent := a, u;
      EndIsExponent(u);
    } else {
      mantissa, exponent := PointMantissa(a, u[1..]);
      assert u == "." + u[1..];
    }
  }

  lemma ExponentFollows(x: string)
    requires OptionalExponent(x)
    ensures x == "" || (!IsDigit(x[0]) && x[0] != '.')
  {
  }

  lemma LooksUnsigned(mantissa: string, exponent: string)
    requires IsMantissa(mantissa) && OptionalExponent(exponent)
    ensures UnsignedRest(mantissa + exponent) && !IsSign((mantissa + exponent)[0])
  {
    var t := mantissa + exponent;
    ExponentIsEnd(exponent);
    ExponentFollows(exponent);
    if mantissa != "" && AllDigits(mantissa) {
      DigitsThenRest(mantissa, exponent);
      assert IsDigit(mantissa[0]) && t[0] == mantissa[0];
    } else {
      var a, b :| AllDigits(a) && AllDigits(b) && (a != "" || b != "") && mantissa == a + "." + b;
      PointFollows(a, b, exponent, t);
    }
  }

  lemma PointFollows(a: string, b: string, x: string, t: string)
    requires AllDigits(a) && AllDigits(b) && (a != "" || b != "") && t == a + "." + b + x
    requires MantissaEnds(x) && (x == "" || !IsDigit(x[0]))
    ensures UnsignedRest(t) && !IsSign(t[0])
  {
    var u := "." + (b + x);
    assert t == a + u && u[1..] == b + x;
    DigitsThenRest(b, x);
    if a == "" {
      assert t == u && IsDigit(b[0]) && t[1] == b[0];
    } else {
      DigitsThenRest(a, u);
      assert IsDigit(a[0]) && t[0] == a[0];
    }
  }

  lemma NumberLooks(s: string)
    requires Expects(Start, s)
    ensures LooksLikeNumber(s)
  {
    var sign, t := if IsSign(s[0]) then [s[0]] else "", if IsSign(s[0]) then s[1..] else s;
    var m, x := UnsignedLooks(t);
    assert s == sign + t;
    Assoc(sign, m, x);
    assert OptionalSign(sign);
  }

  lemma LooksNumber(sign: string, m: string, x: string)
    requires OptionalSign(sign) && IsMantissa(m) && OptionalExponent(x)
    ensures Expects(Start, sign + m + x)
  {
    LooksUnsigned(m, x);
    Assoc(sign, m, x);
    if sign == "" {
      Unit(m + x);
    } else {
      assert (sign + (m + x))[1..] == m + x;
    }
  }

  /** A text is a number if and only if it is an optional sign, digits with at most one point and at
      least one digit, and optionally e or E, an optional sign and at least one digit. */
  lemma NumberIff(s: string)
    ensures IsNumber(s) <==> LooksLikeNumber(s)
  {
    assert s == s[0..];
    RecognisedIff(Start, s, 0, s);
    if IsNumber(s) {
      NumberLooks(s);
    }
    if LooksLikeNumber(s) {
      var sign, m, x :| OptionalSign(sign) && IsMantissa(m) && OptionalExponent(x) && s == sign + m + x;
      LooksNumber(sign, m, x);
    }
  }

  /** Ordinary prices and sizes. */
  lemma OrdinaryNumbers(sign: string, a: string, b: string)
    requires OptionalSign(sign) && AllDigits(a) && AllDigits(b) && a != ""
    ensures IsNumber(sign + a) && IsNumber(sign + a + "." + b)
  {
    NumberIff(sign + a);
    NumberIff(sign + a + "." + b);
    assert sign + a == sign + a + "";
    assert IsMantissa(a) && OptionalExponent("");
    var m := a + "." + b;
    assert IsMantissa(m);
    assert sign + a + "." + b == sign + m + "";
  }
}
