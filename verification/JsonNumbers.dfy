/** Numbers as JSON text: every layout denotes the digits it was given and is read
    back whole. */
module JsonNumbers {
  import opened Basics
  import opened Json

  // ---- What digits stand for --------------------------------------------

  function Pow10(n: nat): nat {
    if n == 0 then 1 else 10 * Pow10(n - 1)
  }

  lemma {:induction false} ValueShown(n: nat)
    ensures Value(Shown(n)) == n
    ensures n > 0 ==> Shown(n)[0] != '0'
  {
    if n < 10 {
      assert Shown(n)[..0] == [];
    } else {
      ValueShown(n / 10);
      assert Shown(n)[..|Shown(n)| - 1] == Shown(n / 10);
    }
  }

  lemma {:induction false} ValueZerosAfter(t: Text, n: nat)
    requires AllDigits(t)
    ensures Value(t + Zeros(n)) == Value(t) * Pow10(n)
  {
    if n == 0 {
      assert t + Zeros(0) == t;
    } else {
      assert (t + Zeros(n))[..|t| + n - 1] == t + Zeros(n - 1);
      ValueZerosAfter(t, n - 1);
      TimesTen(Value(t), Pow10(n - 1));
    }
  }

  lemma TimesTen(a: nat, b: nat)
    ensures 10 * (a * b) == a * (10 * b)
  {
  }

  lemma {:induction false} ValueZerosBefore(n: nat, t: Text)
    requires AllDigits(t)
    ensures Value(Zeros(n) + t) == Value(t)
  {
    if t != [] {
      assert (Zeros(n) + t)[..n + |t| - 1] == Zeros(n) + t[..|t| - 1];
      ValueZerosBefore(n, t[..|t| - 1]);
    } else {
      assert Zeros(n) + t == Zeros(n);
      ValueZeros(n);
    }
  }

  lemma {:induction false} ValueZeros(n: nat)
    ensures Value(Zeros(n)) == 0
  {
    if n > 0 {
      assert Zeros(n)[..n - 1] == Zeros(n - 1);
      ValueZeros(n - 1);
    }
  }

  /** `m` times ten to the `e`. */
  datatype Scaled = Scaled(m: nat, e: int)

  predicate SameNumber(a: Scaled, b: Scaled) {
    if a.e >= b.e then a.m * Pow10(a.e - b.e) == b.m else a.m == b.m * Pow10(b.e - a.e)
  }

  // ---- Lexemes ----------------------------------------------------------

  predicate IsIntegral(t: Text) {
    t != [] && AllDigits(t) && (t == "0" || t[0] != '0')
  }

  predicate IsFraction(t: Text) {
    t == "" || (|t| > 1 && t[0] == '.' && AllDigits(t[1..]))
  }

  /** As written: always signed. */
  predicate IsExponent(t: Text) {
    t == "" || (|t| > 2 && t[0] == 'e' && (t[1] == '+' || t[1] == '-') && AllDigits(t[2..]))
  }

  predicate IsLexeme(x: Lexeme) {
    (x.sign == "" || x.sign == "-") && IsIntegral(x.integral) && IsFraction(x.fraction) && IsExponent(x.exponent)
  }

  function FractionDigits(x: Lexeme): (t: Text)
    requires IsLexeme(x)
    ensures AllDigits(t)
  {
    if x.fraction == "" then "" else x.fraction[1..]
  }

  function ExponentValue(t: Text): int
    requires IsExponent(t)
  {
    if t == "" then 0 else if t[1] == '-' then 0 - Value(t[2..]) else Value(t[2..])
  }

  /** The magnitude a lexeme denotes. */
  function Denotes(x: Lexeme): Scaled
    requires IsLexeme(x)
  {
    Scaled(Value(x.integral + FractionDigits(x)), ExponentValue(x.exponent) - |FractionDigits(x)|)
  }

  /** Text that cannot go on a number. */
  predicate Delimited(tail: Text) {
    tail == [] || (!IsDigit(tail[0]) && tail[0] != '.' && tail[0] != 'e' && tail[0] != 'E')
  }

  lemma {:induction false} DigitRunReads(ds: Text, tail: Text)
    requires AllDigits(ds) && (tail == [] || !IsDigit(tail[0]))
    ensures DigitRun(ds + tail) == |ds| && (ds + tail)[..|ds|] == ds && (ds + tail)[|ds|..] == tail
  {
    if ds == [] {
      assert ds + tail == tail;
    } else {
      assert (ds + tail)[1..] == ds[1..] + tail;
      DigitRunReads(ds[1..], tail);
    }
  }

  lemma IntegralReads(t: Text, tail: Text)
    requires IsIntegral(t) && (tail == [] || !IsDigit(tail[0]))
    ensures IntegerPart(t + tail) == Success(t, tail)
  {
    DigitRunReads(t, tail);
  }

  lemma FractionReads(t: Text, tail: Text)
    requires IsFraction(t) && (tail == [] || (!IsDigit(tail[0]) && tail[0] != '.'))
    ensures FractionPart(t + tail) == Success(t, tail)
  {
    if t == "" {
      assert t + tail == tail;
    } else {
      DigitRunReads(t[1..], tail);
      assert (t + tail)[1..] == t[1..] + tail && t == "." + t[1..];
    }
  }

  lemma ExponentReads(t: Text, tail: Text)
    requires IsExponent(t) && Delimited(tail)
    ensures ExponentPart(t + tail) == Success(t, tail)
  {
    if t == "" {
      assert t + tail == tail;
    } else {
      DigitRunReads(t[2..], tail);
      assert (t + tail)[2..] == t[2..] + tail && (t + tail)[..2] == t[..2] && t == t[..2] + t[2..];
    }
  }

  lemma UnsignedReads(x: Lexeme, tail: Text)
    requires IsLexeme(x) && Delimited(tail)
    ensures ScanUnsigned(x.sign, x.integral + (x.fraction + (x.exponent + tail))) == Success(x, tail)
  {
    IntegralReads(x.integral, x.fraction + (x.exponent + tail));
    FractionReads(x.fraction, x.exponent + tail);
    ExponentReads(x.exponent, tail);
  }

  /** A lexeme is scanned whole, into its parts. */
  lemma ScanReads(x: Lexeme, tail: Text)
    requires IsLexeme(x) && Delimited(tail)
    ensures Scan(x.Text() + tail) == Success(x, tail)
  {
    var unsigned := x.integral + (x.fraction + (x.exponent + tail));
    UnsignedReads(x, tail);
    RegroupParts(x.sign, x.integral, x.fraction, x.exponent, tail);
    assert unsigned[0] == x.integral[0] != '-';
    SignReads(x.sign, unsigned);
  }

  lemma RegroupParts(a: Text, b: Text, c: Text, d: Text, e: Text)
    ensures a + b + c + d + e == a + (b + (c + (d + e)))
  {
  }

  lemma SignReads(sign: Text, unsigned: Text)
    requires (sign == "" || sign == "-") && unsigned != [] && unsigned[0] != '-'
    ensures Scan(sign + unsigned) == ScanUnsigned(sign, unsigned)
  {
    if sign == "" {
      assert sign + unsigned == unsigned;
    } else {
      assert (sign + unsigned)[1..] == unsigned;
    }
  }

  // ---- Integers ---------------------------------------------------------

  function DecimalLexeme(n: int): (x: Lexeme)
    ensures x.Text() == Decimal(n) && !x.IsFloat() && AllDigits(x.integral)
  {
    if n < 0 then Lexeme("-", Shown(-n), "", "") else Lexeme("", Shown(n), "", "")
  }

  lemma DecimalReads(n: int)
    ensures IsLexeme(DecimalLexeme(n))
    ensures var x := DecimalLexeme(n); n == if x.sign == "" then Value(x.integral) else 0 - Value(x.integral)
  {
    ValueShown(if n < 0 then -n else n);
  }

  // ---- Layouts ----------------------------------------------------------

  /** The parts of a layout. */
  function LayoutParts(digits: Text, point: int): Lexeme
    requires digits != []
  {
    if |digits| <= point <= MAX_POINT then Lexeme("", digits + Zeros(point - |digits|), ".0", "")
    else if 0 < point <= MAX_POINT then Lexeme("", digits[..point], "." + digits[point..], "")
    else if MIN_POINT < point <= 0 then Lexeme("", "0", "." + (Zeros(-point) + digits), "")
    else Lexeme("", digits[..1], if |digits| == 1 then "" else "." + digits[1..], "e" + ExponentText(point - 1))
  }

  /** A lexeme that is a float and denotes digits with their point at `point`. */
  predicate LaysOut(x: Lexeme, digits: Text, point: int)
    requires AllDigits(digits)
  {
    IsLexeme(x) && x.IsFloat() && SameNumber(Denotes(x), Scaled(Value(digits), point - |digits|))
  }

  lemma PlainDenotes(digits: Text, n: nat)
    requires IsIntegral(digits) && digits[0] != '0'
    ensures LaysOut(Lexeme("", digits + Zeros(n), ".0", ""), digits, |digits| + n)
  {
    var x := Lexeme("", digits + Zeros(n), ".0", "");
    assert x.fraction[1..] == "0";
    assert x.integral + "0" == digits + Zeros(n + 1);
    ValueZerosAfter(digits, n + 1);
    assert Denotes(x) == Scaled(Value(digits) * Pow10(n + 1), -1);
  }

  lemma InsideDenotes(digits: Text, point: nat)
    requires IsIntegral(digits) && digits[0] != '0' && 0 < point < |digits|
    ensures LaysOut(Lexeme("", digits[..point], "." + digits[point..], ""), digits, point)
  {
    var x := Lexeme("", digits[..point], "." + digits[point..], "");
    assert x.fraction[1..] == digits[point..];
    assert digits[..point] + digits[point..] == digits;
    assert Denotes(x) == Scaled(Value(digits), point - |digits|);
  }

  lemma SmallDenotes(digits: Text, n: nat)
    requires IsIntegral(digits)
    ensures LaysOut(Lexeme("", "0", "." + (Zeros(n) + digits), ""), digits, 0 - n)
  {
    var x := Lexeme("", "0", "." + (Zeros(n) + digits), "");
    assert x.fraction[1..] == Zeros(n) + digits;
    assert "0" + (Zeros(n) + digits) == Zeros(n + 1) + digits;
    ValueZerosBefore(n + 1, digits);
    assert Denotes(x) == Scaled(Value(digits), 0 - (n + |digits|));
  }

  lemma ScientificDenotes(digits: Text, point: int)
    requires IsIntegral(digits) && digits[0] != '0'
    ensures LaysOut(Lexeme("", digits[..1], if |digits| == 1 then "" else "." + digits[1..],
                           "e" + ExponentText(point - 1)),
                    digits, point)
  {
    var x := Lexeme("", digits[..1], if |digits| == 1 then "" else "." + digits[1..], "e" + ExponentText(point - 1));
    ExponentDenotes(point - 1);
    assert FractionDigits(x) == digits[1..] by {
      if |digits| > 1 {
        assert x.fraction[1..] == digits[1..];
      }
    }
    assert digits[..1] + digits[1..] == digits;
    assert Denotes(x) == Scaled(Value(digits), point - |digits|);
  }

  /** Whichever way a nonzero magnitude's digits are laid out, the text is a float
      lexeme that denotes the digits with their point where it was asked for. */
  lemma LayoutDenotes(digits: Text, point: int)
    requires digits != [] && AllDigits(digits) && digits[0] != '0'
    ensures LaysOut(LayoutParts(digits, point), digits, point)
  {
    if |digits| <= point <= MAX_POINT {
      PlainDenotes(digits, point - |digits|);
    } else if 0 < point <= MAX_POINT {
      InsideDenotes(digits, point);
    } else if MIN_POINT < point <= 0 {
      SmallDenotes(digits, -point);
    } else {
      ScientificDenotes(digits, point);
    }
  }

  /** The point stays plain exactly at positions -3 to 15; no digit more than that
      takes is written, and an exponent has two digits or the fewest it needs. */
  lemma LayoutIsShortest(digits: Text, point: int)
    requires digits != [] && AllDigits(digits) && digits[0] != '0'
    ensures var x := LayoutParts(digits, point);
            && IsLexeme(x) && (x.exponent == "" <==> -3 <= point <= 15)
            && (x.exponent == "" ==> |FractionDigits(x)| == if point < |digits| then |digits| - point else 1)
            && (x.exponent != "" ==>
                  |FractionDigits(x)| == |digits| - 1
                    && (|x.exponent| == 4 || (|x.exponent| > 4 && x.exponent[2] != '0')))
  {
    LayoutDenotes(digits, point);
    var e := point - 1;
    ValueShown(if e < 0 then -e else e);
    ShownIsShort(if e < 0 then -e else e);
  }

  lemma {:induction false} ShownIsShort(n: nat)
    ensures |Shown(n)| == 1 <==> n < 10
  {
    if n >= 10 {
      ShownIsShort(n / 10);
    }
  }

  lemma LayoutIsParts(digits: Text, point: int)
    requires digits != []
    ensures Layout(digits, point) == LayoutParts(digits, point).Text()
  {
    var x := LayoutParts(digits, point);
    UnsignedText(x.integral, x.fraction, x.exponent);
    if |digits| <= point <= MAX_POINT || 0 < point <= MAX_POINT || MIN_POINT < point <= 0 {
      assert x.fraction + "" == x.fraction;
      if |digits| <= point {
      } else if 0 < point {
        Regroup(digits[..point], ".", digits[point..]);
      } else {
        SmallText(Zeros(-point), digits);
      }
    } else {
      MantissaIsParts(digits);
      Regroup(x.integral, x.fraction, x.exponent);
      Regroup(Mantissa(digits), "e", ExponentText(point - 1));
    }
  }

  lemma UnsignedText(integral: Text, fraction: Text, exponent: Text)
    ensures Lexeme("", integral, fraction, exponent).Text() == integral + (fraction + exponent)
  {
    assert "" + integral == integral;
    Regroup(integral, fraction, exponent);
  }

  lemma SmallText(zeros: Text, digits: Text)
    ensures "0." + zeros + digits == "0" + ("." + (zeros + digits))
  {
    assert "0." == "0" + ".";
    Nested("0", ".", zeros, digits);
  }

  lemma MantissaIsParts(digits: Text)
    requires digits != []
    ensures Mantissa(digits) == digits[..1] + if |digits| == 1 then "" else "." + digits[1..]
  {
    if |digits| == 1 {
      assert digits[..1] == digits && digits + "" == digits;
    } else {
      assert digits[..1] == [digits[0]];
      assert [digits[0]] + "." + digits[1..] == [digits[0]] + ("." + digits[1..]);
    }
  }

  lemma ExponentDenotes(e: int)
    ensures IsExponent("e" + ExponentText(e)) && ExponentValue("e" + ExponentText(e)) == e
  {
    var n := if e < 0 then -e else e;
    ValueShown(n);
    assert ("e" + ExponentText(e))[2..] == Padded(n);
    if n < 10 {
      assert Padded(n) == Zeros(1) + Shown(n);
      ValueZerosBefore(1, Shown(n));
    }
  }

  // ---- Doubles ----------------------------------------------------------

  function DoubleLexeme(num: Numerics, d: Double): Lexeme
    requires num.WellFormed() && d != NotFinite
  {
    match d
    case Zero(negative) => Lexeme(if negative then "-" else "", "0", ".0", "")
    case Nonzero(negative, m) =>
      LayoutParts(DigitText(num.digits(m).0), num.digits(m).1).(sign := if negative then "-" else "")
  }

  /** A finite double is written as one float lexeme. */
  lemma DoubleIsLexeme(num: Numerics, d: Double)
    requires num.WellFormed() && d != NotFinite
    ensures var x := DoubleLexeme(num, d); FormatDouble(num, d) == x.Text() && IsLexeme(x) && x.IsFloat()
  {
    match d
    case Zero(negative) =>
      SignedText(Lexeme("", "0", ".0", ""), negative);
      assert ".0"[1..] == "0";
    case Nonzero(negative, m) =>
      var (digits, point) := num.digits(m);
      LayoutDenotes(DigitText(digits), point);
      LayoutIsParts(DigitText(digits), point);
      SignedText(LayoutParts(DigitText(digits), point), negative);
  }

  lemma SignedText(x: Lexeme, negative: bool)
    requires x.sign == ""
    ensures var sign := if negative then "-" else ""; x.(sign := sign).Text() == sign + x.Text()
  {
    assert "" + x.integral == x.integral;
    if negative {
      assert "-" + (x.integral + x.fraction + x.exponent) == "-" + x.integral + x.fraction + x.exponent;
    } else {
      assert "" + x.Text() == x.Text();
    }
  }
}
