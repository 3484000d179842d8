# Car-data row normalisation, modelled in Dafny

This project models the row pipeline of the car scatter-plot page
(`main.js`). The pipeline runs after the CSV has been loaded and before
any chart scale is built. It has four stages:

1. **Header alias resolution** (`getField`). A row is searched for the
   first of several candidate header names whose first trimmed-matching
   header holds a non-empty, defined cell.
2. **Numeric coercion** (`toNumber`). The value is cleaned and then read
   with `parseFloat`:
   - `undefined` and `null` give NaN, modelled as `Invalid`;
   - every `$`, `,`, `(` and `)` is removed;
   - the text is trimmed and its whitespace runs become one space;
   - `parseFloat` reads the leading numeric literal.
3. **Record normalisation** (`rawData.map`). Every row becomes a `Car`
   record of fixed shape, using the seven alias tables:
   - the name and body type default to `"Unknown"`;
   - five numbers come from `toNumber(getField(...))`.
4. **Filter and empty check** (`data.filter`). Only records whose
   horsepower, retail price, engine size and city MPG are not NaN are kept,
   in order. The dealer cost is not consulted. When nothing is kept, the
   pipeline stops with "No valid data found. Check CSV headers.".

Modules, one per file:

- `JsValues` (values.dfy) — the values a cell can hold: `Undefined`,
  `Null` or `Text(s)`.
- `JsText` (text.dfy) — the string primitives, over the ECMAScript
  whitespace set:
  - `trim`;
  - the two regular-expression replacements;
  - the "first word" view that `parseFloat` depends on.
- `JsNumber` (parse_float.dfy) — `parseFloat` as the longest-prefix reader
  of a StrDecimalLiteral, the numeric-string grammar of ECMA-262:
  - an optional sign;
  - digits, a point and a fraction;
  - an exponent;
  - `Infinity`.

  Numbers are exact: `Finite(real)` or `Infinite(negative)`.
- `NumberLiteral` (number_literal.dfy) — a reference grammar for decimal
  literals, with their text and their positional value. The fraction has
  its own positional definition; the whole part and the exponent share the
  scanner's digit-string value (`DigitsValue`) and its power-of-ten shift
  (`Shift`). It proves that `parseFloat` reads that value back.
- `Coercion` (coerce.dfy) — `toNumber` and what it promises for the cells
  the page is written for.
- `FieldResolver` (fields.dfy) — `getField`:
  - the reference function `GetField`;
  - the loop-based methods `SearchKey` and `ResolveField`, proved equal to
    it;
  - the lemmas on priority, shadowing and trimming.
- `Normalization` (normalize.dfy) — the alias tables, `Car`, the map, the
  filter and the empty-result exit.
- `Wrappers` (wrappers.dfy) — `Option`.

Two places where the code does something other than a natural reading of
its intent. The model follows the code in both:

- Only the record's header is trimmed (`k.trim() === key`), not the
  candidate. A header `" Horsepower "` matches `"Horsepower"`. A candidate
  with surrounding whitespace matches nothing (`PaddedCandidateNeverMatches`).
- The filter tests `!isNaN`, not finiteness. A cell reading `Infinity`
  survives coercion (`InfinityIsValid`) and the filter.

## Model

| member | source | states |
|---|---|---|
| JsText.Trim | main.js:10 | the trimmed text neither starts nor ends with whitespace and is no longer than the input |
| JsText.TrimSplit | main.js:10 | every text is its leading whitespace, then its trimmed form, then its trailing whitespace |
| JsText.TrimPadded | main.js:10 | trimming text padded with whitespace on either side gives back exactly the text inside the padding |
| JsText.TrimTrimmed | main.js:10 | text that neither starts nor ends with whitespace is unchanged by trim |
| JsText.StripSymbols | main.js:21 | the `/[$,()]/g -> ""` removal, one character at a time; never longer than its input. What it promises is stated by `StripSymbolsChars`, `StripSymbolsAppend`, `StripSymbolsNone`, `Coercion.StripOnlySymbols` and `Coercion.StrippedHasNoSymbols` |
| JsText.StripSymbolsChars | main.js:21 | a character survives the `/[$,()]/g` removal exactly when it is not one of the four symbols |
| JsText.StripSymbolsAppend | main.js:21 | the removal works on every occurrence, so it distributes over concatenation |
| JsText.StripSymbolsNone | main.js:21 | text without the four symbols is unchanged |
| JsText.CollapseWhitespace | main.js:22 | the `/\s+/g -> " "` result is empty exactly when the input is, starts with whitespace exactly when the input does, ends with whitespace exactly when the input does, holds only `' '` as whitespace and never two whitespace characters in a row |
| JsText.CollapseKeepsVisibleChars | main.js:22 | collapsing keeps every non-whitespace character of the input, in order, and adds none |
| JsText.CollapseKeepsWords | main.js:22 | collapsing keeps the whitespace-delimited words of the input, in order: a run of whitespace between two words stays a separator. With the contract of `CollapseWhitespace` this fixes the result: the same words, one `' '` between neighbours, and a leading or trailing space exactly where the input has whitespace |
| JsText.TrimKeepsWords | main.js:21 | trimming keeps the whitespace-delimited words of the input, in order |
| JsText.WordsSkipWhitespace | main.js:21-22 | leading whitespace does not change the words |
| JsText.WordsPadded | main.js:21 | whitespace padding on both sides does not change the words |
| JsText.TrimKeepsVisibleChars | main.js:21 | trimming keeps every non-whitespace character of the input, in order, and adds none |
| JsText.CollapseKeepsFirstWord | main.js:22-23 | collapsing whitespace does not change the first whitespace-delimited word |
| JsText.TrimKeepsFirstWord | main.js:21-23 | trimming does not change the first whitespace-delimited word |
| JsNumber.ParseUnsigned | main.js:23 | no value exactly when the text does not start an unsigned literal; infinite exactly when it starts with `Infinity`, and then positive |
| JsNumber.ParseFloat | main.js:23-24 | NaN exactly when, after leading whitespace and one sign, no unsigned literal starts |
| JsNumber.ParseFloatSkips | main.js:23 | leading whitespace does not change what `parseFloat` reads |
| JsNumber.ParseFloatFirstWord | main.js:23 | `parseFloat` reads only the first whitespace-delimited word |
| NumberLiteral.LiteralMagnitude | main.js:23 | the scanner's value of digits, fraction and exponent is their positional value |
| NumberLiteral.HornerFraction | main.js:23 | fraction digits read as an integer and shifted back by their count give the positional fraction |
| NumberLiteral.ScanRendered | main.js:23 | the scanner splits a rendered literal into its own digits, fraction and exponent, whatever non-continuing text follows |
| NumberLiteral.ParseFloatRendered | main.js:23 | `parseFloat` of whitespace, a well-formed literal and text that cannot continue it is the literal's value |
| NumberLiteral.ParseFloatInfinity | main.js:23 | `Infinity` with an optional sign reads as the signed infinity whatever follows |
| Coercion.CleanText | main.js:21-22 | the cleaned text neither starts nor ends with whitespace, holds only `' '` as whitespace and never two whitespace characters in a row, contains none of `$ , ( )`, keeps every other non-whitespace character of the input, in order, and has the same whitespace-delimited words as the input with the symbols removed (so `"12 34"` stays `"12 34"`) |
| Coercion.StrippedHasNoSymbols | main.js:21 | no `$`, `,`, `(` or `)` survives the removal |
| Coercion.TrimKeepsNoSymbols | main.js:21 | trimming text without the four symbols introduces none |
| Coercion.CollapseKeepsNoSymbols | main.js:22 | collapsing text without the four symbols introduces none |
| Coercion.FromParse | main.js:24 | `isNaN(n) ? NaN : n`: no number is `Invalid`, a number (finite or infinite) is kept as `Valid`; its consequences are stated by `ToNumberInvalidIff`, `InfinityIsValid` and `NegativeInfinityIsValid` |
| Coercion.ToNumber | main.js:20 | `undefined` and `null` are invalid |
| Coercion.ToNumberReadsStripped | main.js:21-23 | trimming and collapsing never change the result: `toNumber` of a string is `parseFloat` of the string with the four symbols removed |
| Coercion.ToNumberInvalidIff | main.js:20-24 | invalid exactly for absent values and for strings whose stripped text, after whitespace and a sign, starts no literal |
| Coercion.StripOnlySymbols | main.js:21 | text made only of the four symbols is removed entirely |
| Coercion.SymbolsAroundIgnored | main.js:21 | symbols before and after a cell do not change its number |
| Coercion.SymbolDropped | main.js:21 | one symbol anywhere in a cell does not change its number |
| Coercion.ParenthesesDoNotNegate | main.js:21 | accounting parentheses are dropped: `(s)` is the number of `s`, not its negation |
| Coercion.ToNumberLiteral | main.js:19-25 | whitespace, a well-formed literal, then text that could not continue it, is valid with the literal's value |
| Coercion.CurrencyWithSeparator | main.js:21-23 | `$` + digits + `,` + digits + an optional fraction is the value of the digits without the separator |
| Coercion.ToNumberDigits | main.js:19-25 | a cell of digits followed by text that could not continue a number (a unit, or nothing) is valid with the value of the digits |
| Coercion.ParenthesizedDigits | main.js:21-24 | digits in accounting parentheses are valid with the positive value of the digits |
| Coercion.ToNumberDecimal | main.js:19-25 | digits, a point and fraction digits, followed by text that could not continue a number, are valid with the value of that decimal literal |
| Coercion.PriceExample | main.js:21-24 | `"$45,990.00"` is 45990 |
| Coercion.ParenthesesExample | main.js:21-24 | `"(500)"` is +500 |
| Coercion.UnitSuffixExample | main.js:22-24 | `"28 mpg"` is 28 |
| Coercion.LitreSuffixExample | main.js:23-24 | `"2.5L"` is 2.5 |
| Coercion.ZeroIsValid | main.js:23-24 | `"0"` is a valid zero, distinct from invalid |
| Coercion.NonNumericIsInvalid | main.js:23-24 | a cell starting with a character that cannot begin a number is invalid |
| Coercion.NotAvailableIsInvalid | main.js:23-24 | `"N/A"` is invalid |
| Coercion.EmptyIsInvalid | main.js:23-24 | the empty string is invalid, not zero |
| Coercion.InfinityIsValid | main.js:23-24 | `"Infinity"` is not NaN and is kept as positive infinity |
| Coercion.NegativeInfinityIsValid | main.js:23-24 | `"-Infinity"` is kept as negative infinity |
| FieldResolver.FindKey | main.js:10 | the position found holds the first header whose trim is the candidate; nothing is found exactly when no header's trim is the candidate |
| FieldResolver.FindKeyFirst | main.js:10 | a matching header with no match before it is the one `find` returns |
| FieldResolver.SearchKey | main.js:10 | the linear search over the headers returns what `find` returns |
| FieldResolver.Usable | main.js:11 | the test of a found header: the header is non-empty (truthy) and its cell is neither `""` nor `undefined`; through it `GetField` never yields `""` and `EmptyFirstMatchShadows` holds |
| FieldResolver.GetField | main.js:7-16 | the result is never the empty string; a defined result is the cell of a candidate that resolves |
| FieldResolver.ResolveField | main.js:7-16 | the loop over the candidates, with its early return, computes `GetField` |
| FieldResolver.UnresolvedIff | main.js:8-15 | the result is `undefined` exactly when no candidate resolves |
| FieldResolver.ResolvingIsDefined | main.js:8-13 | one resolving candidate is enough for a defined result |
| FieldResolver.FirstResolvingWins | main.js:8-13 | the first resolving candidate in list order supplies the result |
| FieldResolver.EarlierCandidateWins | main.js:8-13 | once a candidate resolves, the candidates after it never matter |
| FieldResolver.GetFieldAppend | main.js:8-15 | appending candidates changes nothing once one resolves, and otherwise the appended ones decide |
| FieldResolver.FindKeySameHeaders | main.js:10 | `find` looks only at the headers, never at the cells |
| FieldResolver.ShadowedCell | main.js:10-11 | a header shadowed by an earlier one with the same trimmed name is never the one found |
| FieldResolver.ShadowedHeaderIgnored | main.js:10-11 | whatever a shadowed header's cell holds, the result does not change |
| FieldResolver.GetFieldSameCells | main.js:8-13 | two rows on which every candidate resolves alike, to the same cell, give the same result |
| FieldResolver.EmptyFirstMatchShadows | main.js:10-11 | when the first matching header's cell is empty, a later same-named header with a value is not tried |
| FieldResolver.PaddedHeaderMatches | main.js:10 | a header padded with whitespace matches the bare candidate |
| FieldResolver.PaddedCandidateNeverMatches | main.js:10 | a candidate that starts or ends with whitespace matches no header |
| Normalization.OrUnknown | main.js:56-57 | a truthy value is shown as is; anything else becomes `"Unknown"`; the label is never empty |
| Normalization.NormalizeAll | main.js:53-64 | one record per row, in row order, each built from its own row |
| Normalization.LabelsDefault | main.js:56-57 | name and type are `"Unknown"` when no alias resolves, and otherwise are the resolved text |
| Normalization.UnresolvedNumberIsInvalid | main.js:58-62 | a number field whose aliases all fail to resolve is invalid |
| Normalization.PaddedHeaderFeedsHorsepower | main.js:58 | a header `" Horsepower "`, with any whitespace padding and a non-empty cell, supplies the horsepower when no earlier header of the row trims to `Horsepower` |
| Normalization.IsComplete | main.js:67-72 | the filter predicate: horsepower, retail price, engine size and city MPG are all not NaN, and nothing else is tested; its meaning for the filter is stated by `FilterSelection`, `FilterEmptyIff` and `DealerCostIgnored` |
| Normalization.FilterComplete | main.js:67-72 | every kept record has all four required numbers valid, and none is added |
| Normalization.FilterSelection | main.js:67-72 | the filter keeps, in increasing position order, exactly the records whose four required numbers are valid |
| Normalization.FilterEmptyIff | main.js:67-72 | nothing is kept exactly when no record is complete |
| Normalization.FilterIdempotent | main.js:67-72 | filtering the filtered records keeps them all |
| Normalization.DealerCostIgnored | main.js:67-72 | records differing only in their dealer cost are kept or dropped alike |
| Normalization.FilterIgnoresDealerCost | main.js:67-72 | data sets differing only in dealer costs keep the same records, position by position |
| Normalization.Prepare | main.js:53-82 | normalise every row, filter, and stop with the message when nothing is left; what it promises is stated by `PrepareOutcome` and `WrongHeadersGiveNoData` |
| Normalization.PrepareOutcome | main.js:76-82 | the pipeline stops with the message exactly when no row normalises to a complete record; otherwise it passes on the non-empty filtered records |
| Normalization.WrongHeadersGiveNoData | main.js:76-82 | a CSV in which no row has a header matching a horsepower alias stops with the message |

The seven alias tables (main.js:28-34) are the constants `HP_KEYS` to
`TYPE_KEYS` in `Normalization`, copied in their priority order. The
message at main.js:79 is `NO_DATA_MESSAGE`.

## Left out

- D3 scales, the legend arithmetic, SVG and DOM construction, the event
  handlers and `showDetails` are outside the modelled pipeline: they are
  rendering and foreign library calls.
- The asynchronous `d3.csv` load, its `.catch` display and `console.log`
  are I/O. The model takes the already-parsed rows as its input.
- CSV parsing itself is not modelled. A row is given as its (header,
  cell) pairs in `Object.keys` order. JavaScript lists integer-like keys
  first; the model takes the order as given.
- `String(val)` for values other than strings is not modelled. A cell is
  `Undefined`, `Null` or a string, which covers everything `d3.csv` and
  `getField` produce.
- NumberLiteral.ParseFloatRendered: covers a literal followed by text that
  cannot continue it. Cells such as `"45."`, `"1.5.2"`, `"3e"` or `"2e+"`,
  where a point or an exponent marker follows without completing a longer
  literal, are handled by the scanner's definition (`ScanDecimal`,
  `FractionEnd`, `ExponentValue`) but no lemma states their value.
- JsNumber.ParseFloat: values are exact. It does not model binary64
  rounding, overflow of huge literals to `Infinity`, or negative zero.
  `"1e400"` reads as a finite real and `"-0"` as zero.
- Normalization.Normalize has no contract of its own. What it promises is
  stated by `LabelsDefault`, `UnresolvedNumberIsInvalid` and
  `PaddedHeaderFeedsHorsepower`, and through `NormalizeAll`, `GetField`
  and `ToNumber`.
- The star (radar) chart, `tutorial 2/main _ starplot.js`, is outside the
  model. It carries its own copies of `getField` and `toNumber`, its filter
  also requires highway MPG and weight, and its empty-result message
  (line 89) is `"No valid data found."`.
