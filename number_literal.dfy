/** A reference for well-formed decimal literals, independent of the
    scanner: their text and the value positional notation gives them, and
    the proof that `parseFloat` reads that value back from the text. */
module NumberLiteral {
  import opened Wrappers
  import opened JsText
  import opened JsNumber

  datatype Exponent = Exponent(upper: bool, sign: Sign, digits: string)

  /** A decimal literal `[sign] whole [. fraction] [e|E [sign] digits]`. */
  datatype Literal = Literal(sign: Sign, whole: string, fraction: string, exponent: Option<Exponent>)

  predicate WellFormed(lit: Literal) {
    && AllDigits(lit.whole)
    && AllDigits(lit.fraction)
    && (lit.whole != [] || lit.fraction != [])
    && (lit.exponent.Some? ==> lit.exponent.value.digits != [] && AllDigits(lit.exponent.value.digits))
  }

  function SignText(s: Sign): string {
    match s
    case NoSign => ""
    case Plus => "+"
    case Minus => "-"
  }

  function ExponentText(e: Option<Exponent>): string {
    match e
    case None => ""
    case Some(Exponent(upper, sign, digits)) => (if upper then "E" else "e") + SignText(sign) + digits
  }

  function FractionText(fraction: string): string {
    if fraction == [] then "" else "." + fraction
  }

  /** The text of a literal. */
  function Render(lit: Literal): string {
    SignText(lit.sign) + lit.whole + FractionText(lit.fraction) + ExponentText(lit.exponent)
  }

  /** 0.d1 d2 d3 ... as a real: (d1 + 0.d2 d3 ...) / 10. */
  function FractionValue(f: string): real
    requires AllDigits(f)
  {
    if f == [] then 0.0 else (DigitValue(f[0]) as real + FractionValue(f[1..])) / 10.0
  }

  function Signed(s: Sign, v: real): real {
    if s == Minus then -v else v
  }

  function ExponentOf(e: Option<Exponent>): int
    requires e.Some? ==> AllDigits(e.value.digits)
  {
    match e
    case None => 0
    case Some(Exponent(_, sign, digits)) => if sign == Minus then -(DigitsValue(digits) as int) else DigitsValue(digits)
  }

  /** The value a literal denotes: sign x (whole + fraction) x 10^exponent. */
  function LiteralValue(lit: Literal): real
    requires WellFormed(lit)
  {
    Signed(lit.sign, Shift(DigitsValue(lit.whole) as real + FractionValue(lit.fraction), ExponentOf(lit.exponent)))
  }

  /** Characters that could continue a numeric literal. */
  predicate IsNumberChar(c: char) {
    IsDigit(c) || c == '.' || c == 'e' || c == 'E'
  }

  // ---------------------------------------------------------------------
  // Arithmetic facts.

  lemma ShiftUp(v: real, k: int)
    ensures Shift(10.0 * v, k - 1) == Shift(v, k)
  {
    if k <= 0 {
      assert 10.0 * v / 10.0 == v;
    }
  }

  lemma ShiftDown(v: real, k: int)
    ensures Shift(v / 10.0, k + 1) == Shift(v, k)
  {
    if k >= 0 {
      assert 10.0 * (v / 10.0) == v;
    }
  }

  /** Shifting by `a` places and then by `b` places shifts by `a + b`. */
  lemma {:induction false} ShiftAdd(v: real, a: int, b: int)
    ensures Shift(Shift(v, a), b) == Shift(v, a + b)
    decreases if a < 0 then -a else a
  {
    if a > 0 {
      ShiftAdd(10.0 * v, a - 1, b);
      ShiftUp(v, a + b);
    } else if a < 0 {
      ShiftAdd(v / 10.0, a + 1, b);
      ShiftDown(v, a + b);
    }
  }

  /** Appending the fraction digits to the integer part and shifting back by
      |f| places gives the positional value integer part + fraction. */
  lemma {:induction false} HornerFraction(acc: nat, f: string)
    requires AllDigits(f)
    ensures Shift(Horner(acc, f) as real, -|f|) == acc as real + FractionValue(f)
    decreases |f|
  {
    if f != [] {
      var d := DigitValue(f[0]);
      var h := Horner(acc * 10 + d, f[1..]) as real;
      HornerFraction(acc * 10 + d, f[1..]);
      ShiftAdd(h, -|f[1..]|, -1);
      assert -|f[1..]| + -1 == -|f|;
    }
  }

  /** The scanner's value (all digits as one integer, shifted by the
      exponent minus the number of fraction digits) is the positional value. */
  lemma LiteralMagnitude(w: string, f: string, x: int)
    requires AllDigits(w) && AllDigits(f) && (w != [] || f != [])
    ensures DecimalValue(Decimal(w, f, x)) == Shift(DigitsValue(w) as real + FractionValue(f), x)
  {
    HornerFraction(DigitsValue(w), f);
    ShiftAdd(Horner(DigitsValue(w), f) as real, -|f|, x);
    assert -|f| + x == x - |f|;
  }

  // ---------------------------------------------------------------------
  // Parsing a rendered literal.

  lemma SignTextOf(sign: Sign, t: string)
    requires t != [] && t[0] != '+' && t[0] != '-'
    ensures SignOf(SignText(sign) + t) == sign
    ensures Unsigned(SignText(sign) + t) == t
  {
    if sign != NoSign {
      assert (SignText(sign) + t)[1..] == t;
    }
  }

  /** A digit run ends where a non-digit starts. */
  lemma DigitsThen(d: string, tail: string)
    requires AllDigits(d)
    requires tail == [] || !IsDigit(tail[0])
    ensures LeadingRun(d + tail, IsDigit) == |d|
    ensures (d + tail)[..|d|] == d && (d + tail)[|d|..] == tail
  {
    LeadingRunAcross(d, tail, IsDigit);
    LeadingRunUnique(tail, IsDigit, 0);
  }

  lemma ExponentTextValue(e: Option<Exponent>, rest: string)
    requires e.Some? ==> e.value.digits != [] && AllDigits(e.value.digits)
    requires rest == [] || !IsNumberChar(rest[0])
    ensures ExponentValue(ExponentText(e) + rest) == ExponentOf(e)
  {
    match e
    case None =>
      assert ExponentText(e) + rest == rest;
    case Some(Exponent(upper, sign, digits)) =>
      var x := ExponentText(e) + rest;
      assert x[0] == (if upper then 'E' else 'e');
      assert x[1..] == SignText(sign) + (digits + rest);
      assert (digits + rest)[0] == digits[0];
      SignTextOf(sign, digits + rest);
      DigitsThen(digits, rest);
  }

  /** The text of a literal followed by `rest`, associated to the right. */
  lemma RenderedText(lit: Literal, rest: string)
    ensures Render(lit) + rest
         == SignText(lit.sign) + (lit.whole + (FractionText(lit.fraction) + (ExponentText(lit.exponent) + rest)))
  {
  }

  /** The scan, once the ends of the whole-number digits and of the fraction
      are known. */
  lemma ScanDecimalIs(b: string, w: string, f: string, x: int, k: nat)
    requires LeadingRun(b, IsDigit) == |w| && FractionEnd(b, |w|) == k
    requires |w| > 0 || k > 1
    requires b[..|w|] == w
    requires k > |w| ==> b[|w| + 1..k] == f
    requires k == |w| ==> f == []
    requires ExponentValue(b[k..]) == x
    ensures ScanDecimal(b) == Some(Decimal(w, f, x))
  {
    ScanDecimalAt(b, |w|, k);
  }

  /** A rendered literal with a fraction: the point, then the fraction
      digits, then the exponent text. */
  lemma ScanWithPoint(b: string, w: string, f: string, et: string, x: int)
    requires AllDigits(w) && AllDigits(f) && f != []
    requires et == [] || (et[0] != '.' && !IsDigit(et[0]))
    requires b == w + (['.'] + (f + et))
    requires ExponentValue(et) == x
    ensures ScanDecimal(b) == Some(Decimal(w, f, x))
  {
    var k := |w| + 1 + |f|;
    assert LeadingRun(b, IsDigit) == |w| && b[..|w|] == w by {
      DigitsThen(w, ['.'] + (f + et));
    }
    assert b[|w|] == '.' && b[|w| + 1..] == f + et;
    assert FractionEnd(b, |w|) == k by {
      DigitsThen(f, et);
    }
    assert b[|w| + 1..k] == f && b[k..] == et by {
      SliceOfAppend(f, et, 0, |f|);
    }
    ScanDecimalIs(b, w, f, x, k);
  }

  /** A rendered literal without a fraction: the exponent text follows the
      whole-number digits directly. */
  lemma ScanWithoutPoint(b: string, w: string, et: string, x: int)
    requires AllDigits(w)
    requires et == [] || (et[0] != '.' && !IsDigit(et[0]))
    requires b == w + et
    requires w != [] && ExponentValue(et) == x
    ensures ScanDecimal(b) == Some(Decimal(w, [], x))
  {
    DigitsThen(w, et);
    assert |w| < |b| ==> b[|w|] == et[0];
    ScanDecimalIs(b, w, [], x, |w|);
  }

  lemma FractionThen(f: string, et: string)
    ensures f != [] ==> FractionText(f) + et == ['.'] + (f + et)
    ensures f == [] ==> FractionText(f) + et == et
  {
  }

  /** Scanning digits, an optional fraction, and then text that cannot
      continue the fraction. */
  lemma ScanParts(b: string, w: string, f: string, et: string, x: int)
    requires AllDigits(w) && AllDigits(f) && (w != [] || f != [])
    requires et == [] || (et[0] != '.' && !IsDigit(et[0]))
    requires b == w + (FractionText(f) + et)
    requires ExponentValue(et) == x
    ensures ScanDecimal(b) == Some(Decimal(w, f, x))
  {
    FractionThen(f, et);
    if f != [] {
      ScanWithPoint(b, w, f, et, x);
    } else {
      ScanWithoutPoint(b, w, et, x);
    }
  }

  /** Scanning the text of an unsigned finite literal followed by text that
      cannot continue it finds exactly the literal's parts. */
  lemma ScanRendered(lit: Literal, rest: string)
    requires WellFormed(lit) && lit.sign == NoSign
    requires rest == [] || !IsNumberChar(rest[0])
    ensures ScanDecimal(Render(lit) + rest) == Some(Decimal(lit.whole, lit.fraction, ExponentOf(lit.exponent)))
  {
    var e := lit.exponent;
    var et := ExponentText(e) + rest;
    RenderedText(lit, rest);
    assert Render(lit) + rest == lit.whole + (FractionText(lit.fraction) + et);
    ExponentTextValue(e, rest);
    assert e.Some? ==> et[0] == 'e' || et[0] == 'E';
    assert e.None? ==> et == rest;
    ScanParts(Render(lit) + rest, lit.whole, lit.fraction, et, ExponentOf(e));
  }

  /** The unsigned text of a finite literal never starts with `Infinity`. */
  lemma RenderedIsFinite(lit: Literal, rest: string)
    requires WellFormed(lit) && lit.sign == NoSign
    ensures !(InfinityText <= Render(lit) + rest)
  {
    var b := Render(lit) + rest;
    assert Magnitude(lit) == lit;
    MagnitudeStart(lit, rest);
    assert b[0] != 'I' by {
      if lit.whole != [] {
        assert IsDigit(lit.whole[0]);
      }
    }
    assert InfinityText[0] == 'I';
  }

  lemma ParseUnsignedRendered(lit: Literal, rest: string)
    requires WellFormed(lit) && lit.sign == NoSign
    requires rest == [] || !IsNumberChar(rest[0])
    ensures ParseUnsigned(Render(lit) + rest) == Some(Finite(LiteralValue(lit)))
  {
    RenderedIsFinite(lit, rest);
    ScanRendered(lit, rest);
    LiteralMagnitude(lit.whole, lit.fraction, ExponentOf(lit.exponent));
  }

  /** Reading a sign, then the unsigned literal after it. */
  lemma ParseFloatSigned(sign: Sign, body: string)
    requires body != [] && IsVisible(body[0]) && body[0] != '+' && body[0] != '-'
    ensures ParseFloat(SignText(sign) + body) == ApplySign(sign == Minus, ParseUnsigned(body))
  {
    SignTextOf(sign, body);
    var t := SignText(sign) + body;
    assert t[0] == (if sign == NoSign then body[0] else SignText(sign)[0]);
    LeadingRunUnique(t, IsWhitespace, 0);
    assert t[0..] == t;
  }

  /** The literal without its sign. */
  function Magnitude(lit: Literal): Literal {
    Literal(NoSign, lit.whole, lit.fraction, lit.exponent)
  }

  /** The unsigned text of a well-formed literal starts with a digit or the point. */
  lemma MagnitudeStart(lit: Literal, rest: string)
    requires WellFormed(lit)
    ensures Render(Magnitude(lit)) + rest != []
    ensures (Render(Magnitude(lit)) + rest)[0] == if lit.whole != [] then lit.whole[0] else '.'
  {
    RenderedText(Magnitude(lit), rest);
  }

  /** A literal's text followed by `rest` is its sign, then its unsigned text and `rest`. */
  lemma SignThenMagnitude(ws: string, lit: Literal, rest: string)
    ensures ws + Render(lit) + rest == ws + (SignText(lit.sign) + (Render(Magnitude(lit)) + rest))
  {
    RenderedText(lit, rest);
    RenderedText(Magnitude(lit), rest);
    Associate3(ws, Render(lit), rest);
  }

  /** `parseFloat` skips the whitespace and reads the sign, then the unsigned
      rest of a rendered literal. */
  lemma ParseFloatRenderedText(ws: string, lit: Literal, rest: string)
    requires AllWhitespace(ws) && WellFormed(lit)
    ensures ParseFloat(ws + Render(lit) + rest)
         == ApplySign(lit.sign == Minus, ParseUnsigned(Render(Magnitude(lit)) + rest))
  {
    var body := Render(Magnitude(lit)) + rest;
    var t := SignText(lit.sign) + body;
    SignThenMagnitude(ws, lit, rest);
    assert ParseFloat(ws + t) == ParseFloat(t) by {
      ParseFloatSkips(ws, t);
    }
    assert ParseFloat(t) == ApplySign(lit.sign == Minus, ParseUnsigned(body)) by {
      MagnitudeStart(lit, rest);
      ParseFloatSigned(lit.sign, body);
    }
  }

  lemma SignedLiteralValue(lit: Literal)
    requires WellFormed(lit)
    ensures Some(Finite(LiteralValue(lit))) == ApplySign(lit.sign == Minus, Some(Finite(LiteralValue(Magnitude(lit)))))
  {
  }

  /** `parseFloat` reads back a rendered literal after any leading whitespace
      and ignores whatever follows it, as long as that cannot continue the
      literal: `"28 mpg"` reads 28 and `"2.5L"` reads 2.5. */
  lemma ParseFloatRendered(ws: string, lit: Literal, rest: string)
    requires AllWhitespace(ws) && WellFormed(lit)
    requires rest == [] || !IsNumberChar(rest[0])
    ensures ParseFloat(ws + Render(lit) + rest) == Some(Finite(LiteralValue(lit)))
  {
    ParseFloatRenderedText(ws, lit, rest);
    ParseUnsignedRendered(Magnitude(lit), rest);
    SignedLiteralValue(lit);
  }

  /** `Infinity`, with an optional sign, is a number whatever follows it. */
  lemma ParseFloatInfinity(ws: string, sign: Sign, rest: string)
    requires AllWhitespace(ws)
    ensures ParseFloat(ws + SignText(sign) + InfinityText + rest) == Some(Infinite(sign == Minus))
  {
    var body := InfinityText + rest;
    var t := SignText(sign) + body;
    assert ws + SignText(sign) + InfinityText + rest == ws + t;
    assert ParseFloat(ws + t) == ParseFloat(t) by {
      ParseFloatSkips(ws, t);
    }
    assert ParseFloat(t) == ApplySign(sign == Minus, ParseUnsigned(body)) by {
      assert body[0] == 'I';
      ParseFloatSigned(sign, body);
    }
    assert InfinityText <= body;
  }
}
