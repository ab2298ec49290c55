/** What the accepted spellings of numbers are and what they mean, said without the parser:
    an optional sign, digits with an optional point, and an optional exponent. */
module Numerals {
  import opened Common
  import opened Decimals

  datatype Exponent = Exponent(mark: char, sign: string, digits: string)

  datatype Numeral = Numeral(sign: string, whole: string, fraction: Option<string>, exponent: Option<Exponent>)

  predicate IsSign(s: string) {
    s == "" || s == "-" || s == "+"
  }

  function Fraction(n: Numeral): string {
    if n.fraction.Some? then n.fraction.value else ""
  }

  predicate WellSpelled(n: Numeral) {
    && IsSign(n.sign) && AllDigits(n.whole) && AllDigits(Fraction(n)) && n.whole + Fraction(n) != ""
    && (n.exponent.Some? ==>
          var x := n.exponent.value;
          (x.mark == 'e' || x.mark == 'E') && IsSign(x.sign) && x.digits != "" && AllDigits(x.digits))
  }

  function Mantissa(n: Numeral): string {
    n.whole + if n.fraction.Some? then "." + n.fraction.value else ""
  }

  function Tail(n: Numeral): string {
    if n.exponent.Some? then [n.exponent.value.mark] + (n.exponent.value.sign + n.exponent.value.digits) else ""
  }

  function Text(n: Numeral): string {
    n.sign + (Mantissa(n) + Tail(n))
  }

  /** The power of ten the written exponent stands for. */
  function Shift(n: Numeral): int
    requires WellSpelled(n)
  {
    if n.exponent == None then 0
    else if n.exponent.value.sign == "-" then -(NatOf(n.exponent.value.digits) as int)
    else NatOf(n.exponent.value.digits)
  }

  /** d is the number m * 10^e, or its negative. */
  predicate Denotes(d: Decimal, negative: bool, m: nat, e: int) {
    if m == 0 then d.coeff == 0
    else (d.coeff < 0 <==> negative) && d.exp >= e && Abs(d.coeff) * Pow10(d.exp - e) == m
  }

  // ---- Normal form keeps the number ------------------------------------------

  lemma {:induction false} NormaliseKeeps(m: nat, e: int)
    requires m > 0
    ensures var (c, x) := Normalise(m, e); c > 0 && x >= e && c * Pow10(x - e) == m
    decreases m
  {
    if m % 10 == 0 {
      NormaliseKeeps(m / 10, e + 1);
      var (c, x) := Normalise(m / 10, e + 1);
      TenTimes(c, x - e - 1);
    } else {
      assert Pow10(0) == 1;
    }
  }

  lemma NormalisedDenotes(negative: bool, m: nat, e: int)
    ensures Denotes(Normalised(negative, m, e), negative, m, e)
  {
    if m > 0 {
      NormaliseKeeps(m, e);
    }
    hide Normalise;
  }

  // ---- Every spelling is read as what it says --------------------------------

  lemma Cut(a: string, b: string)
    ensures (a + b)[..|a|] == a && (a + b)[|a|..] == b
    ensures b != "" ==> (a + b)[|a| + 1..] == b[1..]
  {
  }

  lemma PlainText(whole: string, fraction: string, point: bool)
    requires AllDigits(whole) && AllDigits(fraction) && whole + fraction != "" && (!point ==> fraction == "")
    ensures var s := whole + (if point then "." + fraction else "");
            s != "" && forall i | 0 <= i < |s| :: IsDigit(s[i]) || s[i] == '.'
  {
  }

  lemma NoMark(s: string)
    requires forall i | 0 <= i < |s| :: IsDigit(s[i]) || s[i] == '.'
    ensures forall i | 0 <= i < |s| :: !IsExponentMark()(s[i])
  {
  }

  lemma MantissaIs(n: Numeral)
    requires WellSpelled(n)
    ensures AllDigits(n.whole) && AllDigits(Fraction(n)) && n.whole + Fraction(n) != ""
    ensures n.fraction == None ==> Fraction(n) == ""
    ensures Mantissa(n) == n.whole + (if n.fraction.Some? then "." + Fraction(n) else "")
  {
    hide AllDigits;
  }

  lemma MantissaRead(n: Numeral)
    requires WellSpelled(n)
    ensures AllDigits(n.whole + Fraction(n))
    ensures ParseMantissa(Mantissa(n)) == Some((NatOf(n.whole + Fraction(n)), |Fraction(n)|))
    ensures forall i | 0 <= i < |Mantissa(n)| :: !IsExponentMark()(Mantissa(n)[i])
    ensures Mantissa(n) != "" && (IsDigit(Mantissa(n)[0]) || Mantissa(n)[0] == '.')
  {
    hide *;
    MantissaIs(n);
    MantissaOf(n.whole, Fraction(n), n.fraction.Some?);
    PlainText(n.whole, Fraction(n), n.fraction.Some?);
    NoMark(Mantissa(n));
  }

  lemma ExponentRead(sign: string, digits: string)
    requires IsSign(sign) && digits != "" && AllDigits(digits)
    ensures ParseExponent(sign + digits) == Some(if sign == "-" then -(NatOf(digits) as int) else NatOf(digits))
  {
    Cut(sign, digits);
    assert IsDigit(digits[0]);
    hide NatOf, AllDigits;
    if sign == "" {
      assert sign + digits == digits;
    } else {
      assert (sign + digits)[0] == sign[0];
    }
  }

  lemma TailRead(n: Numeral)
    requires WellSpelled(n) && n.exponent.Some?
    ensures Tail(n) != "" && IsExponentMark()(Tail(n)[0])
    ensures ParseExponent(Tail(n)[1..]) == Some(Shift(n))
  {
    var x := n.exponent.value;
    ExponentRead(x.sign, x.digits);
    hide ParseExponent, NatOf, AllDigits;
    Cut([x.mark], x.sign + x.digits);
  }

  lemma TailedUnsigned(mantissa: string, tail: string, m: nat, places: nat, e: int)
    requires ParseMantissa(mantissa) == Some((m, places))
    requires forall i | 0 <= i < |mantissa| :: !IsExponentMark()(mantissa[i])
    requires if tail == "" then e == 0 else IsExponentMark()(tail[0]) && ParseExponent(tail[1..]) == Some(e)
    ensures ParseUnsigned(mantissa + tail) == Some((m, e - places))
  {
    hide ParseMantissa, ParseExponent, IndexOf, IsExponentMark;
    IndexOfAfter(mantissa, tail, IsExponentMark());
    Cut(mantissa, tail);
  }

  lemma UnsignedRead(n: Numeral)
    requires WellSpelled(n)
    ensures AllDigits(n.whole + Fraction(n))
    ensures ParseUnsigned(Mantissa(n) + Tail(n)) == Some((NatOf(n.whole + Fraction(n)), Shift(n) - |Fraction(n)|))
  {
    hide *;
    MantissaRead(n);
    NoTail(n);
    if n.exponent.Some? {
      TailRead(n);
    }
    TailedUnsigned(Mantissa(n), Tail(n), NatOf(n.whole + Fraction(n)), |Fraction(n)|, Shift(n));
  }

  lemma NoTail(n: Numeral)
    requires WellSpelled(n)
    ensures n.exponent == None ==> Tail(n) == "" && Shift(n) == 0
  {
  }

  lemma SignRead(n: Numeral)
    requires WellSpelled(n)
    ensures Text(n) != "" && (Text(n)[0] == '-' <==> n.sign == "-") && Unsigned(Text(n)) == Mantissa(n) + Tail(n)
  {
    MantissaRead(n);
    hide Mantissa, Tail, ParseMantissa, NatOf;
    var body := Mantissa(n) + Tail(n);
    if n.sign == "" {
      assert Text(n) == body && body[0] == Mantissa(n)[0];
    } else {
      assert Text(n)[1..] == body && Text(n)[0] == n.sign[0];
    }
  }

  lemma ParseIs(s: string, negative: bool, m: nat, e: int)
    requires s != "" && (s[0] == '-' <==> negative) && ParseUnsigned(Unsigned(s)) == Some((m, e))
    ensures var d := Normalised(negative, m, e); Parse(s) == if InRange(d) then Some(d) else None
  {
    hide ParseUnsigned, Unsigned, Normalised, InRange;
  }

  /** A spelling stands for its digits without the point, times ten to the written exponent
      less the number of digits after the point; it is accepted exactly when that number is
      in range. */
  lemma Spelled(n: Numeral) returns (d: Decimal)
    requires WellSpelled(n)
    ensures AllDigits(n.whole + Fraction(n))
    ensures Canonical(d) && Denotes(d, n.sign == "-", NatOf(n.whole + Fraction(n)), Shift(n) - |Fraction(n)|)
    ensures Parse(Text(n)) == if InRange(d) then Some(d) else None
  {
    hide *;
    SignRead(n);
    UnsignedRead(n);
    ParseIs(Text(n), n.sign == "-", NatOf(n.whole + Fraction(n)), Shift(n) - |Fraction(n)|);
    d := Normalised(n.sign == "-", NatOf(n.whole + Fraction(n)), Shift(n) - |Fraction(n)|);
    NormalisedDenotes(n.sign == "-", NatOf(n.whole + Fraction(n)), Shift(n) - |Fraction(n)|);
  }

  // ---- Nothing else is accepted ----------------------------------------------

  lemma SignOf(s: string) returns (sign: string)
    ensures IsSign(sign) && s == sign + Unsigned(s)
  {
    sign := if s != "" && (s[0] == '-' || s[0] == '+') then [s[0]] else "";
    assert s == sign + Unsigned(s);
  }

  lemma DigitsAfterSign(s: string)
    requires ParseExponent(s).Some?
    ensures Unsigned(s) != "" && AllDigits(Unsigned(s))
  {
    hide NatOf, AllDigits;
  }

  lemma MarkIs(c: char)
    ensures IsExponentMark()(c) <==> c == 'e' || c == 'E'
  {
  }

  lemma ExponentOf(s: string) returns (x: Exponent)
    requires s != "" && IsExponentMark()(s[0]) && ParseExponent(s[1..]).Some?
    ensures (x.mark == 'e' || x.mark == 'E') && IsSign(x.sign) && x.digits != "" && AllDigits(x.digits)
    ensures s == [x.mark] + (x.sign + x.digits)
  {
    hide *;
    MarkIs(s[0]);
    DigitsAfterSign(s[1..]);
    var sign := SignOf(s[1..]);
    x := Exponent(s[0], sign, Unsigned(s[1..]));
    assert s == [s[0]] + s[1..];
  }

  lemma MantissaSplit(s: string) returns (whole: string, fraction: Option<string>)
    requires ParseMantissa(s).Some?
    ensures var f := if fraction.Some? then fraction.value else "";
            AllDigits(whole) && AllDigits(f) && whole + f != ""
    ensures s == whole + if fraction.Some? then "." + fraction.value else ""
  {
    var p := IndexOf(s, IsPoint());
    whole, fraction := s[..p], if p < |s| then Some(s[p + 1..]) else None;
    if p < |s| {
      assert s == s[..p] + ([s[p]] + s[p + 1..]);
    }
  }

  lemma UnsignedParts(body: string) returns (x: nat)
    requires ParseUnsigned(body).Some?
    ensures x <= |body| && body == body[..x] + body[x..]
    ensures ParseMantissa(body[..x]).Some?
    ensures x < |body| ==> IsExponentMark()(body[x..][0]) && ParseExponent(body[x..][1..]).Some?
  {
    hide ParseMantissa, ParseExponent;
    x := IndexOf(body, IsExponentMark());
    if x < |body| {
      assert body[x..][1..] == body[x + 1..];
    }
  }

  lemma TextIs(n: Numeral, s: string, mantissa: string, tail: string)
    requires Mantissa(n) == mantissa && Tail(n) == tail && s == n.sign + (mantissa + tail)
    ensures Text(n) == s
  {
  }

  lemma OnlySpelled(s: string) returns (n: Numeral)
    requires Parse(s).Some?
    ensures WellSpelled(n) && Text(n) == s
  {
    assert ParseUnsigned(Unsigned(s)).Some?;
    hide ParseMantissa, ParseExponent, ParseUnsigned, Unsigned, Parse, Text, AllDigits, IsExponentMark;
    var sign := SignOf(s);
    var body := Unsigned(s);
    var x := UnsignedParts(body);
    var whole, fraction := MantissaSplit(body[..x]);
    n := Numeral(sign, whole, fraction, None);
    if x < |body| {
      var e := ExponentOf(body[x..]);
      n := n.(exponent := Some(e));
    }
    TextIs(n, s, body[..x], body[x..]);
  }

  // ---- The range -------------------------------------------------------------

  lemma {:induction false} DigitCount(n: nat)
    ensures n < Pow10(|Digits(n)|) && (n > 0 ==> Pow10(|Digits(n)| - 1) <= n)
    decreases n
  {
    if n < 10 {
      assert Pow10(0) == 1 && Pow10(1) == 10;
    } else {
      DigitCount(n / 10);
      var k := |Digits(n / 10)|;
      TenTimes(1, k);
      TenTimes(1, k - 1);
    }
  }

  lemma {:induction false} PowMonotone(i: nat, j: nat)
    requires i <= j
    ensures Pow10(i) <= Pow10(j)
    decreases j
  {
    if i == j {
    } else {
      PowMonotone(i, j - 1);
      PowPositive(j - 1);
    }
  }

  /** The number of decimal digits of a positive number. */
  predicate HasDigits(n: nat, k: nat) {
    k >= 1 && Pow10(k - 1) <= n < Pow10(k)
  }

  lemma DigitsAre(n: nat, k: nat)
    requires n > 0
    ensures HasDigits(n, k) <==> k == |Digits(n)|
  {
    DigitCount(n);
    var c := |Digits(n)|;
    if k >= 1 && k < c {
      PowMonotone(k, c - 1);
    } else if k > c {
      PowMonotone(c, k - 1);
    }
  }

  /** At most 38 significant digits, and a leading digit between 10^-130 and 10^125. */
  lemma RangeMeans(d: Decimal)
    ensures InRange(d) <==>
            d.coeff == 0 || exists k :: HasDigits(Abs(d.coeff), k) && k <= 38 && -130 <= d.exp + k - 1 <= 125
  {
    if d.coeff != 0 {
      hide Digits, Pow10, HasDigits;
      var c := Abs(d.coeff);
      DigitsAre(c, |Digits(c)|);
      forall k ensures HasDigits(c, k) <==> k == |Digits(c)| {
        if k >= 0 {
          DigitsAre(c, k);
        }
      }
    }
  }

  // ---- Examples --------------------------------------------------------------

  lemma Examples()
    ensures Parse("1.50") == Some(Decimal(15, -1)) && Print(Decimal(15, -1)) == "1.5"
    ensures Parse("42.0") == Some(Decimal(42, 0)) && Print(Decimal(42, 0)) == "42"
    ensures Parse("1e-2") == Some(Decimal(1, -2)) && Print(Decimal(1, -2)) == "0.01"
  {
    OneAndAHalf();
    FortyTwo();
    OneHundredth();
  }

  lemma OneAndAHalf()
    ensures Parse("1.50") == Some(Decimal(15, -1)) && Print(Decimal(15, -1)) == "1.5"
  {
    ReadDigits("1", 1, '5', "15");
    ReadDigits("15", 15, '0', "150");
    assert "1" + "50" == "150";
    assert Digits(15) == "15";
    hide NatOf;
    Example(Numeral("", "1", Some("50"), None), "1.50", 150, -2, Decimal(15, -1));
  }

  lemma FortyTwo()
    ensures Parse("42.0") == Some(Decimal(42, 0)) && Print(Decimal(42, 0)) == "42"
  {
    ReadDigits("4", 4, '2', "42");
    ReadDigits("42", 42, '0', "420");
    assert "42" + "0" == "420";
    assert Digits(42) == "42";
    hide NatOf;
    Example(Numeral("", "42", Some("0"), None), "42.0", 420, -1, Decimal(42, 0));
  }

  lemma OneHundredth()
    ensures Parse("1e-2") == Some(Decimal(1, -2)) && Print(Decimal(1, -2)) == "0.01"
  {
    ReadDigits("", 0, '1', "1");
    ReadDigits("", 0, '2', "2");
    PrintHundredth();
    hide NatOf, Print;
    Example(Numeral("", "1", None, Some(Exponent('e', "-", "2"))), "1e-2", 1, -2, Decimal(1, -2));
  }

  lemma PrintHundredth()
    ensures Print(Decimal(1, -2)) == "0.01"
  {
    assert Digits(1) == "1" && Zeros(0) == "" && Zeros(1) == "0";
  }

  lemma ReadDigits(s: string, n: nat, c: char, s': string)
    requires AllDigits(s) && IsDigit(c) && s' == s + [c]
    requires NatOf(s) == n || (|s| == 1 && n == (s[0] as int) - ('0' as int))
    ensures AllDigits(s') && NatOf(s') == n * 10 + ((c as int) - ('0' as int))
  {
    assert s'[..|s'| - 1] == s;
    if |s| == 1 {
      assert s[..0] == "";
    }
  }

  lemma Example(n: Numeral, s: string, m: nat, e: int, d: Decimal)
    requires WellSpelled(n) && Text(n) == s
    requires AllDigits(n.whole + Fraction(n)) && NatOf(n.whole + Fraction(n)) == m && Shift(n) - |Fraction(n)| == e
    requires Normalised(n.sign == "-", m, e) == d && InRange(d)
    ensures Parse(s) == Some(d)
  {
    hide *;
    SignRead(n);
    UnsignedRead(n);
    ParseIs(s, n.sign == "-", m, e);
  }
}
