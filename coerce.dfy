/** `toNumber` (main.js:19-25): absent values are invalid; a string loses
    every `$`, `,`, `(` and `)`, is trimmed, has its whitespace runs
    collapsed to one space, and is read with `parseFloat`. NaN is `Invalid`. */
module Coercion {
  import opened Wrappers
  import opened JsText
  import opened JsNumber
  import opened NumberLiteral
  import opened JsValues

  /** The outcome of a coercion: NaN, or a number. */
  datatype Numeric = Invalid | Valid(n: Number)

  /** The cleaning chain `.replace(/[$,()]/g, "").trim().replace(/\s+/g, " ")`. */
  function CleanText(s: string): (r: string)
    ensures r == [] || (IsVisible(r[0]) && IsVisible(r[|r| - 1]))
    ensures forall k :: 0 <= k < |r| && IsWhitespace(r[k]) ==> r[k] == ' '
    ensures forall k :: 0 <= k < |r| - 1 ==> !(IsWhitespace(r[k]) && IsWhitespace(r[k + 1]))
    ensures NoSymbols(r)
    ensures VisibleChars(r) == VisibleChars(StripSymbols(s))
    ensures Words(r) == Words(StripSymbols(s))
  {
    CleanKeepsNoSymbols(s);
    CleanKeepsText(s);
    CollapseWhitespace(Trim(StripSymbols(s)))
  }

  /** `isNaN(n) ? NaN : n` on the result of `parseFloat`. */
  function FromParse(r: Option<Number>): Numeric {
    match r
    case None => Invalid
    case Some(n) => Valid(n)
  }

  /** `toNumber(val)`. */
  function ToNumber(v: JsValue): (r: Numeric)
    ensures v.Undefined? || v.Null? ==> r == Invalid
  {
    match v
    case Undefined => Invalid
    case Null => Invalid
    case Text(s) => FromParse(ParseFloat(CleanText(s)))
  }

  /** Trimming and collapsing whitespace never change what `parseFloat`
      reads: `toNumber` of a string is `parseFloat` of the string with the
      four symbols removed. */
  lemma ToNumberReadsStripped(s: string)
    ensures ToNumber(Text(s)) == FromParse(ParseFloat(StripSymbols(s)))
  {
    var x := StripSymbols(s);
    ParseFloatFirstWord(CleanText(s));
    CollapseKeepsFirstWord(Trim(x));
    TrimKeepsFirstWord(x);
    ParseFloatFirstWord(x);
  }

  /** `toNumber` is invalid exactly for absent values and for strings whose
      stripped text, after leading whitespace and a sign, does not start a
      numeric literal. */
  lemma ToNumberInvalidIff(v: JsValue)
    ensures ToNumber(v) == Invalid
        <==> v.Undefined? || v.Null? || !StartsUnsignedLiteral(NumberBody(StripSymbols(v.s)))
  {
    if v.Text? {
      ToNumberReadsStripped(v.s);
    }
  }

  predicate NoSymbols(s: string) {
    forall k :: 0 <= k < |s| ==> !IsStrippedSymbol(s[k])
  }

  lemma CleanKeepsNoSymbols(s: string)
    ensures NoSymbols(CollapseWhitespace(Trim(StripSymbols(s))))
  {
    StrippedHasNoSymbols(s);
    TrimKeepsNoSymbols(StripSymbols(s));
    CollapseKeepsNoSymbols(Trim(StripSymbols(s)));
  }

  lemma CleanKeepsText(s: string)
    ensures VisibleChars(CollapseWhitespace(Trim(StripSymbols(s)))) == VisibleChars(StripSymbols(s))
    ensures Words(CollapseWhitespace(Trim(StripSymbols(s)))) == Words(StripSymbols(s))
  {
    var t := Trim(StripSymbols(s));
    TrimKeepsVisibleChars(StripSymbols(s));
    CollapseKeepsVisibleChars(t);
    TrimKeepsWords(StripSymbols(s));
    CollapseKeepsWords(t);
  }

  /** No `$`, `,`, `(` or `)` survives the global replacement. */
  lemma StrippedHasNoSymbols(s: string)
    ensures NoSymbols(StripSymbols(s))
  {
    StripSymbolsChars(s);
    var r := StripSymbols(s);
    forall k | 0 <= k < |r| ensures !IsStrippedSymbol(r[k]) {
      assert r[k] in r;
    }
  }

  lemma TrimKeepsNoSymbols(s: string)
    requires NoSymbols(s)
    ensures NoSymbols(Trim(s))
  {
    var a, b := TrimSplit(s);
    var t := Trim(s);
    forall k | 0 <= k < |t| ensures !IsStrippedSymbol(t[k]) {
      assert t[k] == s[|a| + k];
    }
  }

  lemma {:induction false} CollapseKeepsNoSymbols(s: string)
    requires NoSymbols(s)
    ensures NoSymbols(CollapseWhitespace(s))
    decreases |s|
  {
    if s != [] {
      var n := if IsWhitespace(s[0]) then LeadingRun(s, IsWhitespace) else 1;
      var t := s[n..];
      assert NoSymbols(t) by {
        assert forall k :: 0 <= k < |t| ==> t[k] == s[n + k];
      }
      CollapseKeepsNoSymbols(t);
      var c := CollapseWhitespace(s);
      assert c == [if n == 1 && !IsWhitespace(s[0]) then s[0] else ' '] + CollapseWhitespace(t) by {
        if !IsWhitespace(s[0]) {
          assert n == 1;
        }
      }
    }
  }

  predicate OnlySymbols(s: string) {
    forall k :: 0 <= k < |s| ==> IsStrippedSymbol(s[k])
  }

  lemma {:induction false} StripOnlySymbols(s: string)
    requires OnlySymbols(s)
    ensures StripSymbols(s) == []
  {
    if s != [] {
      StripOnlySymbols(s[1..]);
    }
  }

  /** Currency signs, thousands separators and accounting parentheses
      around a value are dropped, so `"(500)"` reads as +500, not -500. */
  lemma SymbolsAroundIgnored(a: string, s: string, b: string)
    requires OnlySymbols(a) && OnlySymbols(b)
    ensures ToNumber(Text(a + s + b)) == ToNumber(Text(s))
  {
    StripSymbolsAppend(a + s, b);
    StripSymbolsAppend(a, s);
    StripOnlySymbols(a);
    StripOnlySymbols(b);
    assert StripSymbols(a + s + b) == StripSymbols(s);
    ToNumberReadsStripped(a + s + b);
    ToNumberReadsStripped(s);
  }

  /** A symbol anywhere in the text is dropped: `"45,990"` reads as `"45990"`. */
  lemma SymbolDropped(a: string, c: char, b: string)
    requires IsStrippedSymbol(c)
    ensures ToNumber(Text(a + [c] + b)) == ToNumber(Text(a + b))
  {
    StripSymbolsAppend(a + [c], b);
    StripSymbolsAppend(a, [c]);
    StripSymbolsAppend(a, b);
    assert StripSymbols([c]) == [];
    assert StripSymbols(a) + [] == StripSymbols(a);
    ToNumberReadsStripped(a + [c] + b);
    ToNumberReadsStripped(a + b);
  }

  lemma ParenthesesDoNotNegate(s: string)
    ensures ToNumber(Text("(" + s + ")")) == ToNumber(Text(s))
  {
    SymbolsAroundIgnored("(", s, ")");
  }

  /** What `StripSymbols` leaves at the front of a text whose first
      character is not a symbol. */
  lemma StripKeepsFirst(s: string)
    requires s != [] && !IsStrippedSymbol(s[0])
    ensures StripSymbols(s) != [] && StripSymbols(s)[0] == s[0]
  {
  }

  /** A well-formed literal after leading whitespace reads as its value, and
      any text after it is ignored as long as its first character could not
      continue the literal: `"28 mpg"` is 28 and `"2.5L"` is 2.5. */
  lemma ToNumberLiteral(ws: string, lit: Literal, rest: string)
    requires AllWhitespace(ws) && WellFormed(lit)
    requires rest == [] || (!IsNumberChar(rest[0]) && !IsStrippedSymbol(rest[0]))
    ensures ToNumber(Text(ws + Render(lit) + rest)) == Valid(Finite(LiteralValue(lit)))
  {
    var t := ws + Render(lit);
    assert NoSymbols(t) by {
      RenderHasNoSymbols(lit);
      forall k | 0 <= k < |t| ensures !IsStrippedSymbol(t[k]) {
        if k < |ws| {
          assert t[k] == ws[k];
        } else {
          assert t[k] == Render(lit)[k - |ws|];
        }
      }
    }
    StripSymbolsNone(t);
    StripSymbolsAppend(t, rest);
    if rest != [] {
      StripKeepsFirst(rest);
    }
    ParseFloatRendered(ws, lit, StripSymbols(rest));
    ToNumberReadsStripped(t + rest);
  }

  lemma RenderHasNoSymbols(lit: Literal)
    requires WellFormed(lit)
    ensures NoSymbols(Render(lit))
  {
    var r := Render(lit);
    forall k | 0 <= k < |r| ensures !IsStrippedSymbol(r[k]) {
      assert r[k] in r;
      RenderChars(lit, r[k]);
    }
  }

  /** A rendered literal is made of signs, digits, a point and `e`/`E`. */
  lemma RenderChars(lit: Literal, c: char)
    requires WellFormed(lit)
    requires c in Render(lit)
    ensures c == '+' || c == '-' || IsNumberChar(c)
  {
    var e := ExponentText(lit.exponent);
    assert Render(lit) == SignText(lit.sign) + lit.whole + FractionText(lit.fraction) + e;
    if c in lit.whole {
      var k :| 0 <= k < |lit.whole| && lit.whole[k] == c;
    } else if c in lit.fraction {
      var k :| 0 <= k < |lit.fraction| && lit.fraction[k] == c;
    } else if c in e {
      match lit.exponent
      case Some(Exponent(upper, sign, digits)) =>
        assert e == (if upper then "E" else "e") + SignText(sign) + digits;
        if c in digits {
          var k :| 0 <= k < |digits| && digits[k] == c;
        }
    }
  }

  // ---------------------------------------------------------------------
  // The cells the pipeline is written for.

  /** A price written with a currency sign and a thousands separator reads
      as the digits without them. */
  lemma CurrencyWithSeparator(high: string, low: string, cents: string)
    requires AllDigits(high) && AllDigits(low) && AllDigits(cents) && high != []
    ensures ToNumber(Text("$" + high + "," + low + FractionText(cents)))
         == Valid(Finite(LiteralValue(Literal(NoSign, high + low, cents, None))))
  {
    var lit := Literal(NoSign, high + low, cents, None);
    var tail := low + FractionText(cents);
    var priced := "$" + high + "," + low + FractionText(cents);
    assert ToNumber(Text(priced)) == ToNumber(Text(high + [','] + tail)) by {
      assert priced == "$" + (high + [','] + tail) + "" by {
        Associate3("$" + high, [','], tail);
      }
      SymbolsAroundIgnored("$", high + [','] + tail, "");
    }
    assert ToNumber(Text(high + [','] + tail)) == ToNumber(Text(high + tail)) by {
      SymbolDropped(high, ',', tail);
    }
    assert ToNumber(Text(high + tail)) == Valid(Finite(LiteralValue(lit))) by {
      assert high + tail == "" + Render(lit) + "" by {
        Associate3(high, low, FractionText(cents));
        RenderUnsignedPlain(lit);
        BareText(Render(lit));
      }
      ToNumberLiteral("", lit, "");
    }
  }

  lemma RenderUnsignedPlain(lit: Literal)
    requires lit.sign == NoSign && lit.exponent == None
    ensures Render(lit) == lit.whole + FractionText(lit.fraction)
  {
  }

  lemma BareText(x: string)
    ensures "" + x + "" == x
  {
  }

  lemma PriceValue()
    ensures LiteralValue(Literal(NoSign, "45990", "00", None)) == 45990.0
  {
    assert DigitsValue("45990") == 45990 by {
      assert Horner(0, "45990") == Horner(4, "5990") by {
        assert "45990"[1..] == "5990";
      }
      assert Horner(4, "5990") == Horner(45, "990") by {
        assert "5990"[1..] == "990";
      }
      assert Horner(45, "990") == Horner(459, "90") by {
        assert "990"[1..] == "90";
      }
      assert Horner(459, "90") == Horner(4599, "0") by {
        assert "90"[1..] == "0";
      }
    }
    assert FractionValue("00") == 0.0 by {
      assert "00"[1..] == "0";
      assert FractionValue("0") == 0.0;
    }
  }

  /** `"$45,990.00"` is 45990. */
  lemma PriceExample()
    ensures ToNumber(Text("$45,990.00")) == Valid(Finite(45990.0))
  {
    assert "$45,990.00" == "$" + "45" + "," + "990" + FractionText("00");
    assert "45" + "990" == "45990";
    CurrencyWithSeparator("45", "990", "00");
    PriceValue();
  }

  /** A cell of plain digits, then text that could not continue a number,
      reads as the digits' value. */
  lemma ToNumberDigits(w: string, rest: string)
    requires AllDigits(w) && w != []
    requires rest == [] || (!IsNumberChar(rest[0]) && !IsStrippedSymbol(rest[0]))
    ensures ToNumber(Text(w + rest)) == Valid(Finite(DigitsValue(w) as real))
  {
    var lit := Literal(NoSign, w, "", None);
    assert Render(lit) == w && "" + w + rest == w + rest by {
      RenderUnsignedPlain(lit);
    }
    assert LiteralValue(lit) == DigitsValue(w) as real;
    ToNumberLiteral("", lit, rest);
  }

  /** Digits in accounting parentheses read as the positive value of the digits. */
  lemma ParenthesizedDigits(w: string)
    requires AllDigits(w) && w != []
    ensures ToNumber(Text("(" + w + ")")) == Valid(Finite(DigitsValue(w) as real))
  {
    assert w + "" == w;
    ToNumberDigits(w, "");
    ParenthesesDoNotNegate(w);
  }

  /** `"(500)"` is +500. */
  lemma ParenthesesExample()
    ensures ToNumber(Text("(500)")) == Valid(Finite(500.0))
  {
    assert DigitsValue("500") == 500 by {
      assert Horner(0, "500") == Horner(5, "00") by {
        assert "500"[1..] == "00";
      }
      assert Horner(5, "00") == Horner(50, "0") by {
        assert "00"[1..] == "0";
      }
    }
    assert "(500)" == "(" + "500" + ")";
    ParenthesizedDigits("500");
  }

  /** `"28 mpg"` is 28: trailing text is ignored. */
  lemma UnitSuffixExample()
    ensures ToNumber(Text("28 mpg")) == Valid(Finite(28.0))
  {
    assert DigitsValue("28") == 28 by {
      assert Horner(0, "28") == Horner(2, "8") by {
        assert "28"[1..] == "8";
      }
    }
    assert "28 mpg" == "28" + " mpg";
    ToNumberDigits("28", " mpg");
  }

  /** Digits, a point and fraction digits, then text that could not
      continue a number, read as whole part plus fraction. */
  lemma ToNumberDecimal(w: string, f: string, rest: string)
    requires AllDigits(w) && AllDigits(f) && w != [] && f != []
    requires rest == [] || (!IsNumberChar(rest[0]) && !IsStrippedSymbol(rest[0]))
    ensures ToNumber(Text(w + "." + f + rest)) == Valid(Finite(LiteralValue(Literal(NoSign, w, f, None))))
  {
    var lit := Literal(NoSign, w, f, None);
    var text := w + "." + f + rest;
    assert text == "" + Render(lit) + rest by {
      RenderUnsignedPlain(lit);
      assert FractionText(f) == "." + f;
      Associate3(w, ".", f);
      BareText(Render(lit));
    }
    assert ToNumber(Text(text)) == Valid(Finite(LiteralValue(lit))) by {
      ToNumberLiteral("", lit, rest);
    }
  }

  /** `"2.5L"` is 2.5. */
  lemma LitreSuffixExample()
    ensures ToNumber(Text("2.5L")) == Valid(Finite(2.5))
  {
    assert DigitsValue("2") == 2;
    assert FractionValue("5") == 0.5 by {
      assert "5"[1..] == "";
    }
    assert LiteralValue(Literal(NoSign, "2", "5", None)) == 2.5;
    assert "2.5L" == "2" + "." + "5" + "L";
    ToNumberDecimal("2", "5", "L");
  }

  /** `"0"` is a valid zero, not the invalid result. */
  lemma ZeroIsValid()
    ensures ToNumber(Text("0")) == Valid(Finite(0.0))
    ensures ToNumber(Text("0")) != Invalid
  {
    assert DigitsValue("0") == 0;
    assert "0" == "0" + "";
    ToNumberDigits("0", "");
  }

  /** A cell whose first character after stripping could not start a
      number (not whitespace, sign, digit, point or the `I` of `Infinity`)
      is invalid. */
  lemma NonNumericIsInvalid(s: string)
    requires s != [] && !IsStrippedSymbol(s[0])
    requires IsVisible(s[0]) && !IsNumberChar(s[0]) && s[0] != '+' && s[0] != '-' && s[0] != 'I'
    ensures ToNumber(Text(s)) == Invalid
  {
    StripKeepsFirst(s);
    var x := StripSymbols(s);
    LeadingRunUnique(x, IsWhitespace, 0);
    assert x[0..] == x;
    assert NumberBody(x) == x;
    assert !(InfinityText <= x) by {
      assert InfinityText[0] == 'I';
    }
    ToNumberInvalidIff(Text(s));
  }

  /** `"N/A"` is invalid. */
  lemma NotAvailableIsInvalid()
    ensures ToNumber(Text("N/A")) == Invalid
  {
    NonNumericIsInvalid("N/A");
  }

  /** An empty cell is invalid, not zero. */
  lemma EmptyIsInvalid()
    ensures ToNumber(Text("")) == Invalid
  {
    ToNumberInvalidIff(Text(""));
  }

  /** `Infinity` is not NaN, so `toNumber` keeps it. */
  lemma InfinityIsValid()
    ensures ToNumber(Text("Infinity")) == Valid(Infinite(false))
  {
    assert "Infinity" == "" + SignText(NoSign) + InfinityText + "";
    StripSymbolsNone("Infinity");
    ParseFloatInfinity("", NoSign, "");
    ToNumberReadsStripped("Infinity");
  }

  lemma NegativeInfinityIsValid()
    ensures ToNumber(Text("-Infinity")) == Valid(Infinite(true))
  {
    assert "-Infinity" == "" + SignText(Minus) + InfinityText + "";
    StripSymbolsNone("-Infinity");
    ParseFloatInfinity("", Minus, "");
    ToNumberReadsStripped("-Infinity");
  }
}
