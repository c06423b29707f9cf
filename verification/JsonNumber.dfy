/**
 JSON numbers: printed in the layouts of Number::toString (section 6.1.6.1.20 of ECMA-262) and read by
 section 6 of RFC 8259. A number is identified with the shortest decimal that denotes it, which is
 the one ECMAScript prints; the two zeros are one.
 */
module JsonNumber {
  import opened Sequences
  import opened Text

  datatype Read<+T> = Fail | Read(value: T, rest: string)

  /** digits * 10^exponent, with a sign. */
  datatype Decimal = Decimal(negative: bool, digits: nat, exponent: int)

  const ZERO: Decimal := Decimal(false, 0, 0)

  /** No trailing zero among the digits; zero in one way only. */
  predicate Canonical(d: Decimal) {
    if d.digits == 0 then d == ZERO else d.digits % 10 != 0
  }

  type Number = d: Decimal | Canonical(d) witness ZERO

  const ONE: Number := Decimal(false, 1, 0)

  function Pow10(n: nat): (r: nat)
    ensures r > 0
  {
    if n == 0 then 1 else 10 * Pow10(n - 1)
  }

  function ValueOf(d: Decimal): real {
    var size := if d.exponent >= 0 then (d.digits * Pow10(d.exponent)) as real else d.digits as real / Pow10(0 - d.exponent) as real;
    if d.negative then -size else size
  }

  lemma {:induction false} TenthOf(x: real, p: real)
    requires p > 0.0
    ensures 10.0 * (x / (10.0 * p)) == x / p
  {
  }

  /** The value in decimal places: the digits themselves at exponent 0, ten times as much at the next one. */
  lemma {:induction false} ValueScales(negative: bool, digits: nat, exponent: int)
    ensures ValueOf(Decimal(negative, digits, 0)) == if negative then -(digits as real) else digits as real
    ensures ValueOf(Decimal(negative, digits, exponent + 1)) == 10.0 * ValueOf(Decimal(negative, digits, exponent))
  {
    assert Pow10(0) == 1;
    if exponent >= 0 {
      var p := Pow10(exponent);
      assert digits * Pow10(exponent + 1) == 10 * (digits * p);
    } else {
      var p := Pow10(0 - exponent - 1);
      assert Pow10(0 - exponent) == 10 * p;
      TenthOf(digits as real, p as real);
      assert (10 * p) as real == 10.0 * p as real;
    }
  }

  /** The number of some digits and an exponent. */
  function Normal(digits: nat, exponent: int): Number
    decreases digits
  {
    if digits == 0 then ZERO
    else if digits % 10 == 0 then Normal(digits / 10, exponent + 1)
    else Decimal(false, digits, exponent)
  }

  function Negated(n: Number): Number {
    if n == ZERO then ZERO else n.(negative := !n.negative)
  }

  // ---- Printing ----

  /** The point stands after so many of the digits d; zeros fill the space up to it. */
  function Layout(d: string, point: int): string
    requires d != []
    decreases if -6 < point <= 0 then 1 - point else if |d| < point <= 21 then point - |d| else 0
  {
    if point <= -6 || 21 < point then d[..1] + (PrintFraction(d[1..]) + PrintExponent(point - 1))
    else if point <= 0 then Layout(['0'] + d, point + 1)
    else if |d| < point then Layout(d + ['0'], point)
    else d[..point] + PrintFraction(d[point..])
  }

  function PrintFraction(f: string): string {
    if f == [] then [] else ['.'] + f
  }

  function Size(e: int): nat {
    if e < 0 then 0 - e else e
  }

  function PrintExponent(e: int): string {
    ['e', if e < 0 then '-' else '+'] + Digits(Size(e))
  }

  function PrintUnsigned(n: Number): string {
    Layout(Digits(n.digits), |Digits(n.digits)| + n.exponent)
  }

  function PrintNumber(n: Number): string {
    if n.negative then ['-'] + PrintUnsigned(n) else PrintUnsigned(n)
  }

  /** An exponent is printed exactly when the point stands more than six places before or 21 places after the first digit. */
  lemma {:induction false} ExponentialExact(d: string, point: int)
    requires d != [] && AllDigits(d)
    ensures 'e' in Layout(d, point) <==> point < -5 || point > 21
    decreases if -6 < point <= 0 then 1 - point else if |d| < point <= 21 then point - |d| else 0
  {
    if point <= -6 || 21 < point {
      var tail := PrintExponent(point - 1);
      assert tail[0] == 'e';
      assert Layout(d, point)[|d[..1] + PrintFraction(d[1..])|] == 'e';
    } else if point <= 0 {
      ExponentialExact(['0'] + d, point + 1);
    } else if |d| < point {
      ExponentialExact(d + ['0'], point);
    }
  }

  // ---- Reading ----

  /** The digits of the fraction part, none if there is no such part. */
  function ReadFraction(s: string): (r: Read<string>)
    ensures r.Read? ==> |r.rest| <= |s| && AllDigits(r.value)
  {
    if s == [] || s[0] != '.' then Read([], s)
    else
      var k := DigitRun(s[1..]);
      if k == 0 then Fail else Read(s[1..][..k], s[1..][k..])
  }

  /** The exponent part, if there is one. */
  function ReadExponent(s: string): (r: Read<int>)
    ensures r.Read? ==> |r.rest| <= |s|
  {
    if s == [] || (s[0] != 'e' && s[0] != 'E') then Read(0, s)
    else
      var signed := |s| > 1 && (s[1] == '+' || s[1] == '-');
      var t := if signed then s[2..] else s[1..];
      var k := DigitRun(t);
      if k == 0 then Fail
      else
        var e: int := DigitsValue(t[..k]);
        Read(if signed && s[1] == '-' then -e else e, t[k..])
  }

  function Denoted(whole: string, fraction: string, exponent: int): Number
    requires AllDigits(whole) && AllDigits(fraction)
  {
    Normal(DigitsValue(whole + fraction), exponent - |fraction|)
  }

  /** No leading zeros. */
  function ReadUnsigned(s: string): (r: Read<Number>)
    ensures r.Read? ==> |r.rest| < |s|
  {
    var run := DigitRun(s);
    if run == 0 then Fail
    else
      var k := if s[0] == '0' then 1 else run;
      assert AllDigits(s[..k]) by { assert forall i :: 0 <= i < k ==> s[..k][i] == s[..run][i]; }
      match ReadFraction(s[k..])
      case Fail => Fail
      case Read(f, rest) =>
        match ReadExponent(rest)
        case Fail => Fail
        case Read(e, rest') => Read(Denoted(s[..k], f, e), rest')
  }

  function ReadNumber(s: string): (r: Read<Number>)
    ensures r.Read? ==> |r.rest| < |s|
  {
    if s != [] && s[0] == '-' then
      match ReadUnsigned(s[1..])
      case Fail => Fail
      case Read(n, rest) => Read(Negated(n), rest)
    else ReadUnsigned(s)
  }

  // ---- Round trip ----

  /** What follows does not go on with the number. */
  predicate NumberEnds(rest: string) {
    rest == [] || (!IsDigit(rest[0]) && rest[0] != '.' && rest[0] != 'e' && rest[0] != 'E')
  }

  predicate NoDigit(rest: string) {
    rest == [] || !IsDigit(rest[0])
  }

  lemma {:induction false} LeadingZero(d: string)
    requires AllDigits(d)
    ensures DigitsValue(['0'] + d) == DigitsValue(d)
  {
    if d == [] {
      assert ['0'][..0] == [];
    } else {
      LeadingZero(d[..|d| - 1]);
      assert (['0'] + d)[..|d|] == ['0'] + d[..|d| - 1];
    }
  }

  lemma {:induction false} TrailingZero(d: string, exponent: int)
    requires AllDigits(d)
    ensures Normal(DigitsValue(d + ['0']), exponent) == Normal(DigitsValue(d), exponent + 1)
  {
    assert (d + ['0'])[..|d|] == d;
  }

  /** Canonical digits are their own normal form. */
  lemma {:induction false} NormalOf(n: Number)
    ensures Normal(n.digits, n.exponent) == n.(negative := false)
  {
  }

  lemma {:induction false} UnsignedOf(whole: string, tail: string, f: string, tail2: string, e: int, rest: string)
    requires whole != [] && AllDigits(whole) && (whole[0] != '0' || |whole| == 1) && NoDigit(tail) && AllDigits(f)
    requires ReadFraction(tail) == Read(f, tail2) && ReadExponent(tail2) == Read(e, rest)
    ensures ReadUnsigned(whole + tail) == Read(Denoted(whole, f, e), rest)
  {
    DigitRunOf(whole, tail);
    assert (whole + tail)[0] == whole[0];
  }

  lemma {:induction false} FractionOf(f: string, tail: string)
    requires AllDigits(f) && NoDigit(tail) && (tail == [] || tail[0] != '.')
    ensures ReadFraction(PrintFraction(f) + tail) == Read(f, tail) && NoDigit(PrintFraction(f) + tail)
  {
    if f == [] {
      assert PrintFraction(f) + tail == tail;
    } else {
      DigitRunOf(f, tail);
      assert (PrintFraction(f) + tail)[1..] == f + tail;
    }
  }

  lemma {:induction false} ExponentOf(e: int, rest: string)
    requires NoDigit(rest)
    ensures ReadExponent(PrintExponent(e) + rest) == Read(e, rest)
  {
    var d := Digits(Size(e));
    var s := PrintExponent(e) + rest;
    DigitRunOf(d, rest);
    DigitsRoundTrip(Size(e));
    assert s[2..] == d + rest;
  }

  type Reader = string -> Read<Number>

  ghost predicate ReadsPlain(read: Reader, whole: string, f: string, rest: string)
    requires AllDigits(whole) && AllDigits(f)
  {
    read(whole + PrintFraction(f) + rest) == Read(Denoted(whole, f, 0), rest)
  }

  ghost predicate ReadsExponent(read: Reader, first: string, f: string, e: int, rest: string)
    requires AllDigits(first) && AllDigits(f)
  {
    read(first + (PrintFraction(f) + PrintExponent(e)) + rest) == Read(Denoted(first, f, e), rest)
  }

  /** What reading has to do with the two kinds of text. */
  ghost predicate IsReader(read: Reader) {
    && (forall whole, f, rest | whole != [] && AllDigits(whole) && (whole[0] != '0' || |whole| == 1) && AllDigits(f) && NumberEnds(rest) ::
          ReadsPlain(read, whole, f, rest))
    && (forall first, f, e, rest | |first| == 1 && AllDigits(first) && AllDigits(f) && NumberEnds(rest) ::
          ReadsExponent(read, first, f, e, rest))
  }

  lemma {:induction false} PlainText(whole: string, f: string, rest: string)
    requires whole != [] && AllDigits(whole) && (whole[0] != '0' || |whole| == 1) && AllDigits(f) && NumberEnds(rest)
    ensures ReadUnsigned(whole + PrintFraction(f) + rest) == Read(Denoted(whole, f, 0), rest)
  {
    FractionOf(f, rest);
    UnsignedOf(whole, PrintFraction(f) + rest, f, rest, 0, rest);
    Assoc(whole, PrintFraction(f), rest);
  }

  lemma {:induction false} ExponentText(first: string, f: string, exponent: string, e: int, rest: string)
    requires |first| == 1 && AllDigits(first) && AllDigits(f) && exponent == PrintExponent(e) && NumberEnds(rest)
    ensures ReadUnsigned(first + (PrintFraction(f) + exponent) + rest) == Read(Denoted(first, f, e), rest)
  {
    var tail := exponent + rest;
    ExponentOf(e, rest);
    assert tail[0] == 'e';
    FractionOf(f, tail);
    UnsignedOf(first, PrintFraction(f) + tail, f, tail, e, rest);
    Assoc(first, PrintFraction(f) + exponent, rest);
    Assoc(PrintFraction(f), exponent, rest);
  }

  lemma {:induction false} UnsignedReader()
    ensures IsReader(ReadUnsigned)
  {
    forall whole, f, rest | whole != [] && AllDigits(whole) && (whole[0] != '0' || |whole| == 1) && AllDigits(f) && NumberEnds(rest)
      ensures ReadsPlain(ReadUnsigned, whole, f, rest)
    {
      PlainText(whole, f, rest);
    }
    forall first, f, e, rest | |first| == 1 && AllDigits(first) && AllDigits(f) && NumberEnds(rest)
      ensures ReadsExponent(ReadUnsigned, first, f, e, rest)
    {
      ExponentText(first, f, PrintExponent(e), e, rest);
    }
  }

  ghost predicate ReadsBack(read: Reader, text: string, d: string, point: int, rest: string)
    requires AllDigits(d)
  {
    read(text + rest) == Read(Normal(DigitsValue(d), point - |d|), rest)
  }

  /** No leading zero but the one before the point. */
  ghost predicate WellLed(d: string, point: int) {
    d != [] && AllDigits(d) && (d[0] != '0' || -6 < point <= 1)
  }

  lemma {:induction false} WithLeadingZero(read: Reader, text: string, d: string, point: int, rest: string)
    requires AllDigits(d) && ReadsBack(read, text, ['0'] + d, point + 1, rest)
    ensures ReadsBack(read, text, d, point, rest)
  {
    LeadingZero(d);
  }

  lemma {:induction false} WithTrailingZero(read: Reader, text: string, d: string, point: int, rest: string)
    requires AllDigits(d) && ReadsBack(read, text, d + ['0'], point, rest)
    ensures ReadsBack(read, text, d, point, rest)
  {
    TrailingZero(d, point - |d| - 1);
  }

  lemma {:induction false} UsePlain(read: Reader, d: string, point: nat, rest: string)
    requires IsReader(read) && WellLed(d, point) && 0 < point <= |d| && NumberEnds(rest)
    ensures ReadsBack(read, d[..point] + PrintFraction(d[point..]), d, point, rest)
  {
    var whole, f := d[..point], d[point..];
    assert whole + f == d;
    assert ReadsPlain(read, whole, f, rest);
  }

  lemma {:induction false} UseExponent(read: Reader, d: string, point: int, rest: string)
    requires IsReader(read) && d != [] && AllDigits(d) && NumberEnds(rest)
    ensures ReadsBack(read, d[..1] + (PrintFraction(d[1..]) + PrintExponent(point - 1)), d, point, rest)
  {
    var first, f := d[..1], d[1..];
    assert first + f == d;
    assert ReadsExponent(read, first, f, point - 1, rest);
    SameDigits(read, first + (PrintFraction(f) + PrintExponent(point - 1)), first, f, d, point, rest);
  }

  lemma {:induction false} SameDigits(
    read: Reader, text: string, first: string, f: string, d: string, point: int, rest: string)
    requires AllDigits(first) && AllDigits(f) && AllDigits(d) && d == first + f && |first| == 1
    requires read(text + rest) == Read(Denoted(first, f, point - 1), rest)
    ensures ReadsBack(read, text, d, point, rest)
  {
  }

  /** Every layout reads back as the number whose digits were laid out. */
  lemma {:induction false} LayoutRoundTrip(read: Reader, d: string, point: int, rest: string)
    requires IsReader(read) && WellLed(d, point) && NumberEnds(rest)
    ensures ReadsBack(read, Layout(d, point), d, point, rest)
    decreases if -6 < point <= 0 then 1 - point else if |d| < point <= 21 then point - |d| else 0
  {
    if point <= -6 || 21 < point {
      UseExponent(read, d, point, rest);
    } else if point <= 0 {
      LayoutRoundTrip(read, ['0'] + d, point + 1, rest);
      WithLeadingZero(read, Layout(d, point), d, point, rest);
    } else if |d| < point {
      LayoutRoundTrip(read, d + ['0'], point, rest);
      WithTrailingZero(read, Layout(d, point), d, point, rest);
    } else {
      UsePlain(read, d, point, rest);
    }
  }

  lemma {:induction false} OwnLayout(read: Reader, n: Number, rest: string)
    requires IsReader(read) && NumberEnds(rest)
    ensures read(PrintUnsigned(n) + rest) == Read(n.(negative := false), rest)
  {
    DigitsRoundTrip(n.digits);
    NormalOf(n);
    LayoutRoundTrip(read, Digits(n.digits), |Digits(n.digits)| + n.exponent, rest);
  }

  lemma {:induction false} UnsignedRoundTrip(n: Number, rest: string)
    requires NumberEnds(rest)
    ensures ReadUnsigned(PrintUnsigned(n) + rest) == Read(n.(negative := false), rest)
  {
    UnsignedReader();
    OwnLayout(ReadUnsigned, n, rest);
  }

  lemma {:induction false} LayoutStarts(d: string, point: int)
    requires d != [] && AllDigits(d)
    ensures Layout(d, point) != [] && IsDigit(Layout(d, point)[0])
    decreases if -6 < point <= 0 then 1 - point else if |d| < point <= 21 then point - |d| else 0
  {
    if -6 < point <= 0 {
      LayoutStarts(['0'] + d, point + 1);
    } else if |d| < point <= 21 {
      LayoutStarts(d + ['0'], point);
    }
  }

  lemma {:induction false} UnsignedStarts(n: Number)
    ensures PrintUnsigned(n) != [] && IsDigit(PrintUnsigned(n)[0])
  {
    LayoutStarts(Digits(n.digits), |Digits(n.digits)| + n.exponent);
  }

  lemma {:induction false} MinusNext(s: string, n: Number, rest: string)
    requires ReadUnsigned(s) == Read(n, rest)
    ensures ReadNumber(['-'] + s) == Read(Negated(n), rest)
  {
    assert (['-'] + s)[1..] == s;
  }

  /** Every number is read back from its own printed form, followed by anything that ends a number. */
  lemma {:induction false} NumberRoundTrip(n: Number, rest: string)
    requires NumberEnds(rest)
    ensures ReadNumber(PrintNumber(n) + rest) == Read(n, rest)
  {
    UnsignedRoundTrip(n, rest);
    UnsignedStarts(n);
    var s := PrintUnsigned(n) + rest;
    if n.negative {
      MinusNext(s, n.(negative := false), rest);
      Assoc(['-'], PrintUnsigned(n), rest);
    } else {
      assert s[0] == PrintUnsigned(n)[0];
    }
  }
}
