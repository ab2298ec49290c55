/** DynamoDB numbers: canonical decimals, their plain spelling, and the spellings that
    are accepted on input. */
module Decimals {
  import opened Common

  /** coeff * 10^exp. */
  datatype Decimal = Decimal(coeff: int, exp: int)

  const MAX_DIGITS := 38
  const MIN_MAGNITUDE := -130
  const MAX_MAGNITUDE := 125

  function Abs(n: int): nat {
    if n < 0 then -n else n
  }

  /** No redundant zeros: zero is 0 * 10^0, and any other coefficient ends in a non-zero digit. */
  predicate Canonical(d: Decimal) {
    if d.coeff == 0 then d.exp == 0 else d.coeff % 10 != 0
  }

  /** At most 38 significant digits, and magnitude between 1E-130 and 9.99E+125. */
  predicate InRange(d: Decimal) {
    d.coeff == 0 ||
    (|Digits(Abs(d.coeff))| <= MAX_DIGITS
     && MIN_MAGNITUDE <= d.exp + |Digits(Abs(d.coeff))| - 1 <= MAX_MAGNITUDE)
  }

  predicate Valid(d: Decimal) {
    Canonical(d) && InRange(d)
  }

  // ---- Digits ----------------------------------------------------------------

  predicate IsDigit(c: char) {
    '0' <= c <= '9'
  }

  predicate AllDigits(s: string) {
    forall i | 0 <= i < |s| :: IsDigit(s[i])
  }

  function DigitOf(n: nat): (c: char)
    requires n < 10
    ensures IsDigit(c) && (c as int) - ('0' as int) == n
  {
    ('0' as int + n) as char
  }

  function Digits(n: nat): (s: string)
    ensures s != [] && AllDigits(s)
  {
    if n < 10 then [DigitOf(n)] else Digits(n / 10) + [DigitOf(n % 10)]
  }

  function NatOf(s: string): nat
    requires AllDigits(s)
  {
    if s == [] then 0 else NatOf(s[..|s| - 1]) * 10 + ((s[|s| - 1] as int) - ('0' as int))
  }

  function Zeros(k: nat): (s: string)
    ensures |s| == k && AllDigits(s)
  {
    if k == 0 then [] else Zeros(k - 1) + ['0']
  }

  function Pow10(k: nat): nat {
    if k == 0 then 1 else Pow10(k - 1) * 10
  }

  lemma {:induction false} NatOfDigits(n: nat)
    ensures NatOf(Digits(n)) == n
  {
    if n < 10 {
    } else {
      NatOfDigits(n / 10);
      assert Digits(n)[..|Digits(n)| - 1] == Digits(n / 10);
    }
  }

  lemma {:induction false} NatOfTrailingZeros(s: string, k: nat)
    requires AllDigits(s)
    ensures AllDigits(s + Zeros(k)) && NatOf(s + Zeros(k)) == NatOf(s) * Pow10(k)
  {
    if k == 0 {
      assert s + Zeros(0) == s;
    } else {
      NatOfTrailingZeros(s, k - 1);
      assert (s + Zeros(k))[..|s + Zeros(k)| - 1] == s + Zeros(k - 1);
    }
  }

  lemma {:induction false} NatOfLeadingZeros(k: nat, s: string)
    requires AllDigits(s)
    ensures AllDigits(Zeros(k) + s) && NatOf(Zeros(k) + s) == NatOf(s)
    decreases |s|, k
  {
    if s == [] {
      assert Zeros(k) + s == Zeros(k);
      if k > 0 {
        NatOfLeadingZeros(k - 1, s);
        assert Zeros(k)[..k - 1] == Zeros(k - 1) == Zeros(k - 1) + s;
      }
    } else {
      NatOfLeadingZeros(k, s[..|s| - 1]);
      var init, last := s[..|s| - 1], s[|s| - 1];
      hide Zeros;
      assert Zeros(k) + s == (Zeros(k) + init) + [last];
      assert (Zeros(k) + s)[..|Zeros(k) + s| - 1] == Zeros(k) + init;
    }
  }

  // ---- Normal form -----------------------------------------------------------

  function Normalise(m: nat, e: int): (r: (nat, int))
    ensures if r.0 == 0 then m == 0 && r.1 == 0 else r.0 % 10 != 0
    decreases m
  {
    if m == 0 then (0, 0) else if m % 10 == 0 then Normalise(m / 10, e + 1) else (m, e)
  }

  lemma NormaliseTen(x: nat, e: int)
    requires x > 0
    ensures Normalise(x * 10, e) == Normalise(x, e + 1)
  {
  }

  /** Factors of ten move between coefficient and exponent without changing the number. */
  lemma {:induction false} NormaliseShift(m: nat, e: int, k: nat)
    ensures Normalise(m * Pow10(k), e) == Normalise(m, if m == 0 then e else e + k)
    decreases k
  {
    if k == 0 {
    } else if m == 0 {
      assert m * Pow10(k) == 0;
    } else {
      hide Normalise, Pow10;
      TenTimes(m, k - 1);
      PowPositive(k - 1);
      NormaliseTen(m * Pow10(k - 1), e);
      NormaliseShift(m, e + 1, k - 1);
    }
  }

  lemma TenTimes(m: nat, k: nat)
    ensures m * Pow10(k + 1) == (m * Pow10(k)) * 10
  {
    assert m * (Pow10(k) * 10) == m * Pow10(k) * 10;
  }

  lemma {:induction false} PowPositive(k: nat)
    ensures Pow10(k) > 0
  {
    if k == 0 {
    } else {
      PowPositive(k - 1);
    }
  }

  // ---- Printing --------------------------------------------------------------

  /** Plain notation, without an exponent. */
  function PrintNat(c: nat, e: int): string {
    var ds := Digits(c);
    if e >= 0 then ds + Zeros(e)
    else if |ds| > -e then ds[..|ds| + e] + "." + ds[|ds| + e..]
    else "0." + (Zeros(-e - |ds|) + ds)
  }

  function Print(d: Decimal): string {
    (if d.coeff < 0 then "-" else "") + PrintNat(Abs(d.coeff), d.exp)
  }

  // ---- Parsing ---------------------------------------------------------------

  /** The first position at which p holds, or the length. */
  function IndexOf(s: string, p: char -> bool): (i: nat)
    ensures i <= |s| && (i < |s| ==> p(s[i])) && forall j | 0 <= j < i :: !p(s[j])
  {
    if s == [] || p(s[0]) then 0 else 1 + IndexOf(s[1..], p)
  }

  function Signed(negative: bool, m: nat): (n: int)
    ensures Abs(n) == m && (m % 10 != 0 ==> n % 10 != 0)
  {
    if negative then 0 - m else m
  }

  function ParseExponent(s: string): Option<int> {
    var negative := s != [] && s[0] == '-';
    var ds := if s != [] && (s[0] == '-' || s[0] == '+') then s[1..] else s;
    if ds == [] || !AllDigits(ds) then None
    else Some(Signed(negative, NatOf(ds)))
  }

  function IsPoint(): char -> bool {
    (c: char) => c == '.'
  }

  function IsExponentMark(): char -> bool {
    (c: char) => c == 'e' || c == 'E'
  }

  /** Digits with an optional point: the digits as a number, and how many follow the point. */
  function ParseMantissa(s: string): Option<(nat, nat)> {
    var p := IndexOf(s, IsPoint());
    var whole := s[..p];
    var fraction := if p < |s| then s[p + 1..] else [];
    if AllDigits(whole) && AllDigits(fraction) && whole + fraction != []
    then Some((NatOf(whole + fraction), |fraction|)) else None
  }

  /** A mantissa with an optional exponent, as (m, e) for m * 10^e. */
  function ParseUnsigned(s: string): Option<(nat, int)> {
    var x := IndexOf(s, IsExponentMark());
    var exponent := if x < |s| then ParseExponent(s[x + 1..]) else Some(0);
    match ParseMantissa(s[..x])
    case Some((m, places)) => if exponent.Some? then Some((m, exponent.value - places)) else None
    case None => None
  }

  function Unsigned(s: string): string {
    if s != [] && (s[0] == '-' || s[0] == '+') then s[1..] else s
  }

  function Normalised(negative: bool, m: nat, e: int): (d: Decimal)
    ensures Canonical(d)
  {
    Decimal(Signed(negative, Normalise(m, e).0), Normalise(m, e).1)
  }

  /** NewNumberString: None stands for a spelling, precision or range error. */
  function Parse(s: string): (r: Option<Decimal>)
    ensures r.Some? ==> Valid(r.value)
  {
    match ParseUnsigned(Unsigned(s))
    case None => None
    case Some((m, e)) =>
      var d := Normalised(s != [] && s[0] == '-', m, e);
      if InRange(d) then Some(d) else None
  }

  // ---- Printing and parsing again --------------------------------------------

  lemma {:induction false} IndexOfAfter(a: string, b: string, p: char -> bool)
    requires forall i | 0 <= i < |a| :: !p(a[i])
    requires b == [] || p(b[0])
    ensures IndexOf(a + b, p) == |a|
  {
    if a == [] {
      assert a + b == b;
    } else {
      assert (a + b)[0] == a[0] && (a + b)[1..] == a[1..] + b;
      IndexOfAfter(a[1..], b, p);
    }
  }

  lemma MantissaOf(whole: string, fraction: string, point: bool)
    requires AllDigits(whole) && AllDigits(fraction) && whole + fraction != [] && (!point ==> fraction == [])
    ensures var s := whole + (if point then "." + fraction else "");
            AllDigits(whole + fraction) && ParseMantissa(s) == Some((NatOf(whole + fraction), |fraction|))
  {
    var tail := if point then "." + fraction else "";
    var s := whole + tail;
    IndexOfAfter(whole, tail, IsPoint());
    assert s[..|whole|] == whole;
    assert point ==> s[|whole| + 1..] == fraction;
  }

  lemma NoExponent(s: string)
    requires forall i | 0 <= i < |s| :: IsDigit(s[i]) || s[i] == '.'
    requires ParseMantissa(s).Some?
    ensures ParseUnsigned(s) == Some((ParseMantissa(s).value.0, -(ParseMantissa(s).value.1 as int)))
  {
    assert s + [] == s;
    hide ParseMantissa;
    IndexOfAfter(s, [], IsExponentMark());
    assert s[..|s|] == s;
  }

  lemma PlainChars(whole: string, fraction: string, point: bool)
    requires AllDigits(whole) && AllDigits(fraction) && whole != []
    ensures var s := whole + (if point then "." + fraction else "");
            && s != [] && IsDigit(s[0])
            && forall i | 0 <= i < |s| :: IsDigit(s[i]) || s[i] == '.'
  {
  }

  lemma PlainUnsigned(s: string, m: nat, places: nat)
    requires s != [] && IsDigit(s[0]) && forall i | 0 <= i < |s| :: IsDigit(s[i]) || s[i] == '.'
    requires ParseMantissa(s) == Some((m, places))
    ensures ParseUnsigned(s) == Some((m, -(places as int)))
  {
    hide ParseMantissa, ParseUnsigned, IsDigit;
    NoExponent(s);
  }

  lemma ParsePlain(whole: string, fraction: string, point: bool)
    requires AllDigits(whole) && AllDigits(fraction) && whole != [] && (!point ==> fraction == [])
    ensures var s := whole + (if point then "." + fraction else "");
            AllDigits(whole + fraction) && ParseUnsigned(s) == Some((NatOf(whole + fraction), -(|fraction| as int)))
            && s != [] && IsDigit(s[0])
  {
    hide *;
    MantissaOf(whole, fraction, point);
    PlainChars(whole, fraction, point);
    PlainUnsigned(whole + (if point then "." + fraction else ""), NatOf(whole + fraction), |fraction|);
  }

  lemma ParsePrintNat(c: nat, e: int)
    requires if c == 0 then e == 0 else c % 10 != 0
    ensures var s := PrintNat(c, e);
            && s != [] && IsDigit(s[0])
            && ParseUnsigned(s).Some?
            && Normalise(ParseUnsigned(s).value.0, ParseUnsigned(s).value.1) == (c, e)
  {
    var ds := Digits(c);
    NatOfDigits(c);
    hide Digits, NatOf, ParseUnsigned;
    if e >= 0 {
      NatOfTrailingZeros(ds, e);
      ParsePlain(ds + Zeros(e), [], false);
      assert ds + Zeros(e) + [] == ds + Zeros(e);
      NormaliseShift(c, 0, e);
    } else if |ds| > -e {
      var k := |ds| + e;
      assert ds[..k] + ds[k..] == ds;
      ParsePlain(ds[..k], ds[k..], true);
      assert ds[..k] + ("." + ds[k..]) == ds[..k] + "." + ds[k..];
    } else {
      var fraction := Zeros(-e - |ds|) + ds;
      NatOfLeadingZeros(-e - |ds|, ds);
      NatOfLeadingZeros(1, fraction);
      assert Zeros(1) == "0" by { assert Zeros(0) == []; }
      ParsePlain("0", fraction, true);
      assert "0" + ("." + fraction) == "0." + fraction;
    }
  }

  function Admitted(d: Decimal): Option<Decimal> {
    if InRange(d) then Some(d) else None
  }

  lemma ParseSigned(negative: bool, body: string, m: nat, e: int)
    requires body != [] && IsDigit(body[0]) && ParseUnsigned(body) == Some((m, e))
    ensures Parse((if negative then "-" else "") + body) == Admitted(Normalised(negative, m, e))
  {
    hide ParseUnsigned, InRange, Normalised;
    assert ("-" + body)[1..] == body && "" + body == body;
  }

  lemma NormalisedBack(d: Decimal, m: nat, e: int)
    requires Canonical(d) && Normalise(m, e) == (Abs(d.coeff), d.exp)
    ensures Normalised(d.coeff < 0, m, e) == d
  {
  }

  lemma LastDigit(d: Decimal)
    requires Canonical(d)
    ensures if Abs(d.coeff) == 0 then d.exp == 0 else Abs(d.coeff) % 10 != 0
  {
  }

  /** The canonical spelling of every valid number reads back as that number. */
  lemma ParsePrint(d: Decimal)
    requires Valid(d)
    ensures Parse(Print(d)) == Some(d)
  {
    LastDigit(d);
    hide Canonical, Signed, ParseUnsigned, PrintNat, Normalise, InRange, Parse, Digits;
    ParsePrintNat(Abs(d.coeff), d.exp);
    var body := PrintNat(Abs(d.coeff), d.exp);
    var r := ParseUnsigned(body).value;
    NormalisedBack(d, r.0, r.1);
    ParseSigned(d.coeff < 0, body, r.0, r.1);
  }

  lemma SameNumber(whole: string, fraction: string, k: nat)
    requires AllDigits(whole) && AllDigits(fraction)
    ensures AllDigits(whole + fraction) && AllDigits(whole + (fraction + Zeros(k)))
    ensures Normalise(NatOf(whole + (fraction + Zeros(k))), -(|fraction + Zeros(k)| as int)) ==
            Normalise(NatOf(whole + fraction), -(|fraction| as int))
  {
    NatOfTrailingZeros(whole + fraction, k);
    assert whole + (fraction + Zeros(k)) == whole + fraction + Zeros(k);
    NormaliseShift(NatOf(whole + fraction), -(|fraction| as int) - k, k);
  }

  /** Zeros at the end of the fraction do not matter: 1.50 is 1.5. */
  lemma RedundantZeros(whole: string, fraction: string, k: nat)
    requires AllDigits(whole) && AllDigits(fraction) && whole != []
    ensures Parse(whole + ("." + (fraction + Zeros(k)))) == Parse(whole + ("." + fraction))
  {
    hide Parse, ParseUnsigned, InRange, NatOf, Digits, Zeros, IndexOf, Normalise, Signed, Unsigned;
    var longer := fraction + Zeros(k);
    ParsePlain(whole, fraction, true);
    ParsePlain(whole, longer, true);
    SameNumber(whole, fraction, k);
    ParseSigned(false, whole + ("." + fraction), NatOf(whole + fraction), -(|fraction| as int));
    ParseSigned(false, whole + ("." + longer), NatOf(whole + longer), -(|longer| as int));
    assert "" + (whole + ("." + fraction)) == whole + ("." + fraction);
    assert "" + (whole + ("." + longer)) == whole + ("." + longer);
  }
}
