/** ECMAScript's global `parseFloat`: skip leading whitespace, then read the
    longest prefix that is a StrDecimalLiteral (an optional sign, then
    `Infinity`, or digits with an optional fraction and an optional
    exponent); with no such prefix the result is NaN, here `None`.
    Values are exact reals, not binary64 doubles. */
module JsNumber {
  import opened Wrappers
  import opened JsText

  /** A number `parseFloat` can return: a finite value or a signed infinity. */
  datatype Number = Finite(value: real) | Infinite(negative: bool)

  datatype Sign = NoSign | Plus | Minus

  predicate IsDigit(c: char) {
    '0' <= c <= '9'
  }

  predicate AllDigits(s: string) {
    forall k :: 0 <= k < |s| ==> IsDigit(s[k])
  }

  function DigitValue(c: char): (d: nat)
    requires IsDigit(c)
    ensures d < 10
  {
    c as int - '0' as int
  }

  /** The value of the digits of `acc` followed by the digit string `ds`,
      read in base ten. */
  function Horner(acc: nat, ds: string): nat
    requires AllDigits(ds)
    decreases |ds|
  {
    if ds == [] then acc else Horner(acc * 10 + DigitValue(ds[0]), ds[1..])
  }

  /** The value of a digit string read in base ten, most significant digit first. */
  function DigitsValue(ds: string): nat
    requires AllDigits(ds)
  {
    Horner(0, ds)
  }

  /** `v` x 10^`e`, for any integer `e`, one decimal place at a time. */
  function Shift(v: real, e: int): real
    decreases if e < 0 then -e else e
  {
    if e == 0 then v else if e > 0 then Shift(10.0 * v, e - 1) else Shift(v / 10.0, e + 1)
  }

  const InfinityText: string := "Infinity"

  /** The sign character, if any, that starts `t`. */
  function SignOf(t: string): Sign {
    if t != [] && t[0] == '+' then Plus
    else if t != [] && t[0] == '-' then Minus
    else NoSign
  }

  /** `t` without its leading sign character. */
  function Unsigned(t: string): (u: string)
    ensures t == (if SignOf(t) == NoSign then [] else [t[0]]) + u
  {
    if SignOf(t) == NoSign then t else t[1..]
  }

  /** The value of the ExponentPart that starts `x` (`e` or `E`, an optional
      sign, at least one digit), or zero when `x` does not start with one. */
  function ExponentValue(x: string): int {
    if x == [] || (x[0] != 'e' && x[0] != 'E') then 0
    else
      var z := Unsigned(x[1..]);
      var k := LeadingRun(z, IsDigit);
      if k == 0 then 0
      else if SignOf(x[1..]) == Minus then -(DigitsValue(z[..k]) as int)
      else DigitsValue(z[..k])
  }

  /** What the scan of a finite literal finds: the digits before the point,
      the digits after it, and the exponent's value. */
  datatype Decimal = Decimal(whole: string, fraction: string, exponent: int)

  predicate IsDecimal(d: Decimal) {
    AllDigits(d.whole) && AllDigits(d.fraction) && (d.whole != [] || d.fraction != [])
  }

  /** Where the fraction of a literal whose whole-number digits end at `i`
      ends: after the point and its digits, or at `i` when no point follows. */
  function FractionEnd(b: string, i: nat): (k: nat)
    requires i <= |b|
    ensures i <= k <= |b|
    ensures k > i ==> b[i] == '.' && AllDigits(b[i + 1..k])
  {
    if i < |b| && b[i] == '.' then i + 1 + LeadingRun(b[i + 1..], IsDigit) else i
  }

  /** The longest finite StrUnsignedDecimalLiteral prefix of `b`: digits, an
      optional point with optional digits, an optional exponent; at least one
      digit before or after the point. */
  function ScanDecimal(b: string): (r: Option<Decimal>)
    ensures r.None? <==> !(b != [] && IsDigit(b[0])) && !(|b| >= 2 && b[0] == '.' && IsDigit(b[1]))
    ensures r.Some? ==> IsDecimal(r.value) && r.value.whole <= b
  {
    var i := LeadingRun(b, IsDigit);
    var k := FractionEnd(b, i);
    assert i == 0 && k > 0 && |b| >= 2 && IsDigit(b[1]) ==> b[1..][0] == b[1];
    if i == 0 && k <= 1 then None
    else Some(Decimal(b[..i], if k > i then b[i + 1..k] else [], ExponentValue(b[k..])))
  }

  /** The exact value of a scanned literal: all its digits read as one
      integer, times ten to the exponent minus the number of fraction digits. */
  function DecimalValue(d: Decimal): real
    requires IsDecimal(d)
  {
    Shift(Horner(DigitsValue(d.whole), d.fraction) as real, d.exponent - |d.fraction|)
  }

  /** Does `b` begin with a StrUnsignedDecimalLiteral? That is `Infinity`, a
      digit, or a point followed by a digit. */
  predicate StartsUnsignedLiteral(b: string) {
    || InfinityText <= b
    || (b != [] && IsDigit(b[0]))
    || (|b| >= 2 && b[0] == '.' && IsDigit(b[1]))
  }

  /** The longest StrUnsignedDecimalLiteral prefix of `b`, evaluated. */
  function ParseUnsigned(b: string): (r: Option<Number>)
    ensures r.None? <==> !StartsUnsignedLiteral(b)
    ensures (r.Some? && r.value.Infinite?) <==> InfinityText <= b
    ensures r.Some? && r.value.Infinite? ==> !r.value.negative
  {
    if InfinityText <= b then Some(Infinite(false))
    else
      match ScanDecimal(b)
      case None => None
      case Some(d) => Some(Finite(DecimalValue(d)))
  }

  function ApplySign(negative: bool, r: Option<Number>): Option<Number> {
    match r
    case None => None
    case Some(Finite(v)) => Some(Finite(if negative then -v else v))
    case Some(Infinite(_)) => Some(Infinite(negative))
  }

  /** What `parseFloat` reads after skipping whitespace and a sign. */
  function NumberBody(s: string): string {
    Unsigned(s[LeadingRun(s, IsWhitespace)..])
  }

  /** `parseFloat(s)`: `None` stands for NaN. */
  function ParseFloat(s: string): (r: Option<Number>)
    ensures r.None? <==> !StartsUnsignedLiteral(NumberBody(s))
  {
    var t := s[LeadingRun(s, IsWhitespace)..];
    ApplySign(SignOf(t) == Minus, ParseUnsigned(Unsigned(t)))
  }

  // ---------------------------------------------------------------------
  // parseFloat looks only at the first whitespace-delimited word.

  lemma InfinityTextIsVisible()
    ensures NoWhitespace(InfinityText)
  {
    assert InfinityText == ['I', 'n', 'f', 'i', 'n', 'i', 't', 'y'];
  }

  lemma SignLocal(x: string, y: string)
    requires y == [] || IsWhitespace(y[0])
    ensures x != [] ==> SignOf(x + y) == SignOf(x) && Unsigned(x + y) == Unsigned(x) + y
    ensures x == [] ==> SignOf(x + y) == NoSign && Unsigned(x + y) == y
  {
    if x != [] {
      assert (x + y)[0] == x[0];
      assert (x + y)[1..] == x[1..] + y;
    } else {
      assert x + y == y;
    }
  }

  lemma DigitRunLocal(x: string, y: string)
    requires y == [] || IsWhitespace(y[0])
    ensures LeadingRun(x + y, IsDigit) == LeadingRun(x, IsDigit)
    ensures (x + y)[..LeadingRun(x, IsDigit)] == x[..LeadingRun(x, IsDigit)]
  {
    LeadingRunAppend(x, y, IsDigit);
  }

  /** The signed digit run after `e` or `E` stops at the first whitespace. */
  lemma ExponentTailLocal(x1: string, y: string)
    requires NoWhitespace(x1)
    requires y == [] || IsWhitespace(y[0])
    ensures SignOf(x1 + y) == SignOf(x1)
    ensures LeadingRun(Unsigned(x1 + y), IsDigit) == LeadingRun(Unsigned(x1), IsDigit)
    ensures Unsigned(x1 + y)[..LeadingRun(Unsigned(x1), IsDigit)] == Unsigned(x1)[..LeadingRun(Unsigned(x1), IsDigit)]
  {
    SignLocal(x1, y);
    if x1 == [] {
      LeadingRunUnique(y, IsDigit, 0);
    } else {
      var z := Unsigned(x1);
      assert NoWhitespace(z) by {
        assert SignOf(x1) != NoSign ==> z == x1[1..];
      }
      DigitRunLocal(z, y);
    }
  }

  lemma ExponentLocal(x: string, y: string)
    requires NoWhitespace(x)
    requires y == [] || IsWhitespace(y[0])
    ensures ExponentValue(x + y) == ExponentValue(x)
  {
    if x == [] {
      assert x + y == y;
    } else {
      assert (x + y)[0] == x[0];
      if x[0] == 'e' || x[0] == 'E' {
        assert (x + y)[1..] == x[1..] + y;
        ExponentTailLocal(x[1..], y);
      }
    }
  }

  lemma InfinityLocal(w: string, y: string)
    requires y == [] || IsWhitespace(y[0])
    ensures InfinityText <= w + y <==> InfinityText <= w
  {
    if |w| < 8 && y != [] {
      InfinityTextIsVisible();
      assert (w + y)[|w|] == y[0];
      assert InfinityText[|w|] != (w + y)[|w|];
    }
  }

  lemma FractionEndLocal(w: string, y: string, i: nat)
    requires i <= |w|
    requires y == [] || IsWhitespace(y[0])
    ensures FractionEnd(w + y, i) == FractionEnd(w, i)
  {
    var b := w + y;
    if i < |w| {
      assert b[i] == w[i];
      if w[i] == '.' {
        assert b[i + 1..] == w[i + 1..] + y;
        DigitRunLocal(w[i + 1..], y);
      }
    } else if y != [] {
      assert b[i] == y[0];
    }
  }

  lemma SliceOfAppend(w: string, y: string, i: nat, j: nat)
    requires i <= j <= |w|
    ensures (w + y)[i..j] == w[i..j]
    ensures (w + y)[j..] == w[j..] + y
  {
  }

  /** The scan, in terms of where the whole-number digits and the fraction end. */
  lemma ScanDecimalAt(b: string, i: nat, k: nat)
    requires i == LeadingRun(b, IsDigit) && k == FractionEnd(b, i)
    ensures ScanDecimal(b) == if i == 0 && k <= 1 then None
                              else Some(Decimal(b[..i], if k > i then b[i + 1..k] else [], ExponentValue(b[k..])))
  {
  }

  /** The scan of a finite literal stops at the first whitespace. */
  lemma ScanLocal(w: string, y: string)
    requires NoWhitespace(w)
    requires y == [] || IsWhitespace(y[0])
    ensures ScanDecimal(w + y) == ScanDecimal(w)
  {
    var i := LeadingRun(w, IsDigit);
    var k := FractionEnd(w, i);
    assert LeadingRun(w + y, IsDigit) == i by {
      DigitRunLocal(w, y);
    }
    assert FractionEnd(w + y, i) == k by {
      FractionEndLocal(w, y, i);
    }
    ScanDecimalAt(w, i, k);
    ScanDecimalAt(w + y, i, k);
    SliceOfAppend(w, y, 0, i);
    SliceOfAppend(w, y, if k > i then i + 1 else k, k);
    ExponentLocal(w[k..], y);
  }

  /** Text after the first whitespace never affects the unsigned parse. */
  lemma ParseUnsignedLocal(w: string, y: string)
    requires NoWhitespace(w)
    requires y == [] || IsWhitespace(y[0])
    ensures ParseUnsigned(w + y) == ParseUnsigned(w)
  {
    InfinityLocal(w, y);
    ScanLocal(w, y);
  }

  /** `parseFloat` skips leading whitespace. */
  lemma ParseFloatSkips(ws: string, t: string)
    requires AllWhitespace(ws)
    ensures ParseFloat(ws + t) == ParseFloat(t)
  {
    var n := LeadingRun(t, IsWhitespace);
    assert (ws + t)[LeadingRun(ws + t, IsWhitespace)..] == t[n..] by {
      LeadingRunAcross(ws, t, IsWhitespace);
      assert (ws + t)[|ws| + n..] == t[n..];
    }
  }

  /** `parseFloat(s)` depends only on the first whitespace-delimited word of `s`. */
  lemma ParseFloatFirstWord(s: string)
    ensures ParseFloat(s) == ParseFloat(FirstWord(s))
  {
    var a, rest := FirstWordSplit(s);
    var w := FirstWord(s);
    var lead := s[..a];
    if w == [] {
      assert s == lead;
      LeadingRunUnique(s, IsWhitespace, |s|);
      assert s[|s|..] == [];
      LeadingRunUnique(w, IsWhitespace, 0);
    } else {
      assert IsVisible(w[0]);
      assert s == lead + (w + rest);
      assert (w + rest)[0] == w[0];
      LeadingRunAcross(lead, w + rest, IsWhitespace);
      LeadingRunUnique(w + rest, IsWhitespace, 0);
      LeadingRunUnique(w, IsWhitespace, 0);
      assert s[a..] == w + rest;
      assert w[0..] == w;
      SignLocal(w, rest);
      var u := Unsigned(w);
      assert NoWhitespace(u) by {
        assert SignOf(w) != NoSign ==> u == w[1..];
      }
      if SignOf(w) == NoSign {
        ParseUnsignedLocal(w, rest);
      } else {
        ParseUnsignedLocal(u, rest);
      }
    }
  }
}
