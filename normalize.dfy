/** The row pipeline after loading: every raw row becomes a car record of
    fixed shape (the `rawData.map`), the rows lacking one of the four
    plotted numbers are dropped (the `filter`), and an empty result stops
    the pipeline with an error message. */
module Normalization {
  import opened JsText
  import opened JsValues
  import opened Coercion
  import opened FieldResolver

  /** The header aliases, in priority order. */
  const HP_KEYS: seq<string> := ["Horsepower", "Horsepower(HP)", "Horsepower (HP)", "HP"]
  const RETAIL_KEYS: seq<string> := ["Retail Price", "RetailPrice", "Retail_Price"]
  const DEALER_KEYS: seq<string> := ["Dealer Cost", "DealerCost", "Dealer_Cost"]
  const ENGINE_KEYS: seq<string> := ["Engine Size", "EngineSize", "Engine Size (l)", "Engine Size (L)"]
  const CITYMPG_KEYS: seq<string> := ["City Miles Per Gallon", "CityMPG", "City Miles Per\nGallon"]
  const NAME_KEYS: seq<string> := ["Name", "Model", "Vehicle"]
  const TYPE_KEYS: seq<string> := ["Type", "Body Type", "BodyType"]

  /** The text shown when no row survives the filter. */
  const NO_DATA_MESSAGE: string := "No valid data found. Check CSV headers."

  /** A normalised row: the raw row kept alongside, two labels and five numbers. */
  datatype Car = Car(
    raw: RawRecord,
    name: string,
    bodyType: string,
    horsepower: Numeric,
    retailPrice: Numeric,
    dealerCost: Numeric,
    engineSize: Numeric,
    cityMpg: Numeric)

  /** JavaScript truthiness of a value `getField` can return. */
  predicate Truthy(v: JsValue) {
    v.Text? && v.s != ""
  }

  /** `getField(...) || "Unknown"`. */
  function OrUnknown(v: JsValue): (shown: string)
    ensures Truthy(v) ==> shown == v.s
    ensures !Truthy(v) ==> shown == "Unknown"
    ensures shown != ""
  {
    if Truthy(v) then v.s else "Unknown"
  }

  /** The record built for one raw row. */
  function Normalize(d: RawRecord): Car {
    Car(
      raw := d,
      name := OrUnknown(GetField(d, NAME_KEYS)),
      bodyType := OrUnknown(GetField(d, TYPE_KEYS)),
      horsepower := ToNumber(GetField(d, HP_KEYS)),
      retailPrice := ToNumber(GetField(d, RETAIL_KEYS)),
      dealerCost := ToNumber(GetField(d, DEALER_KEYS)),
      engineSize := ToNumber(GetField(d, ENGINE_KEYS)),
      cityMpg := ToNumber(GetField(d, CITYMPG_KEYS)))
  }

  /** `rawData.map(...)`: one record per row, in row order. */
  function NormalizeAll(rows: seq<RawRecord>): (cars: seq<Car>)
    ensures |cars| == |rows|
    ensures forall i :: 0 <= i < |rows| ==> cars[i] == Normalize(rows[i])
  {
    seq(|rows|, i requires 0 <= i < |rows| => Normalize(rows[i]))
  }

  /** The filter predicate: the four plotted numbers are not NaN. The dealer
      cost is not consulted. */
  predicate IsComplete(c: Car) {
    && c.horsepower.Valid?
    && c.retailPrice.Valid?
    && c.engineSize.Valid?
    && c.cityMpg.Valid?
  }

  /** `data.filter(...)`. */
  function FilterComplete(cars: seq<Car>): (kept: seq<Car>)
    ensures |kept| <= |cars|
    ensures forall k :: 0 <= k < |kept| ==> IsComplete(kept[k])
  {
    if cars == [] then []
    else
      var first := if IsComplete(cars[0]) then [cars[0]] else [];
      var rest := FilterComplete(cars[1..]);
      assert forall k :: |first| <= k < |first| + |rest| ==> (first + rest)[k] == rest[k - |first|];
      first + rest
  }

  /** Where the pipeline goes after the filter: the error message, or the
      rows passed on to the scales. */
  datatype Outcome = NoValidData(message: string) | Ready(rows: seq<Car>)

  /** Normalise, filter, and stop when nothing is left. */
  function Prepare(rows: seq<RawRecord>): Outcome {
    var filtered := FilterComplete(NormalizeAll(rows));
    if |filtered| == 0 then NoValidData(NO_DATA_MESSAGE) else Ready(filtered)
  }

  /** Every position moved one place on. */
  function Later(idx: seq<nat>): (r: seq<nat>)
    ensures |r| == |idx|
    ensures forall k :: 0 <= k < |idx| ==> r[k] == idx[k] + 1
  {
    seq(|idx|, k requires 0 <= k < |idx| => idx[k] + 1)
  }

  lemma LaterContains(idx: seq<nat>, j: nat)
    ensures j + 1 in Later(idx) <==> j in idx
    ensures 0 !in Later(idx)
  {
    if j in idx {
      var k :| 0 <= k < |idx| && idx[k] == j;
      assert Later(idx)[k] == j + 1;
    }
  }

  /** Positions moved on stay increasing, also behind a leading 0. */
  lemma LaterIncreasing(head: seq<nat>, rest: seq<nat>)
    requires head == [] || head == [0]
    requires forall k, l :: 0 <= k < l < |rest| ==> rest[k] < rest[l]
    ensures forall k, l :: 0 <= k < l < |head + Later(rest)| ==> (head + Later(rest))[k] < (head + Later(rest))[l]
  {
    var idx := head + Later(rest);
    forall k, l | 0 <= k < l < |idx|
      ensures idx[k] < idx[l]
    {
      assert idx[l] == rest[l - |head|] + 1;
      if k >= |head| {
        assert idx[k] == rest[k - |head|] + 1;
      }
    }
  }

  /** The positions `idx` pick, in order, the records of `kept` out of `cars`. */
  predicate Picks(idx: seq<nat>, kept: seq<Car>, cars: seq<Car>) {
    |idx| == |kept| && forall k :: 0 <= k < |idx| ==> idx[k] < |cars| && kept[k] == cars[idx[k]]
  }

  /** Picking from the tail, then possibly the first record. */
  lemma PicksStep(cars: seq<Car>, rest: seq<nat>, head: seq<nat>, first: seq<Car>)
    requires cars != [] && Picks(rest, FilterComplete(cars[1..]), cars[1..])
    requires (head == [0] && first == [cars[0]]) || (head == [] && first == [])
    ensures Picks(head + Later(rest), first + FilterComplete(cars[1..]), cars)
  {
    var kept := FilterComplete(cars[1..]);
    var idx := head + Later(rest);
    forall k | 0 <= k < |idx|
      ensures idx[k] < |cars| && (first + kept)[k] == cars[idx[k]]
    {
      if k < |head| {
        assert idx[k] == 0 && (first + kept)[k] == cars[0];
      } else {
        var m := k - |head|;
        assert idx[k] == rest[m] + 1 && (first + kept)[k] == kept[m];
        assert cars[1..][rest[m]] == cars[rest[m] + 1];
      }
    }
  }

  /** The listed positions are exactly the complete ones, also after a step. */
  lemma MembersStep(cars: seq<Car>, rest: seq<nat>, head: seq<nat>)
    requires cars != []
    requires forall j :: 0 <= j < |cars| - 1 ==> (j in rest <==> IsComplete(cars[1..][j]))
    requires head == (if IsComplete(cars[0]) then [0] else [])
    ensures forall j :: 0 <= j < |cars| ==> (j in head + Later(rest) <==> IsComplete(cars[j]))
  {
    forall j | 0 <= j < |cars|
      ensures j in head + Later(rest) <==> IsComplete(cars[j])
    {
      LaterContains(rest, if j == 0 then 0 else j - 1);
      if j > 0 {
        assert cars[1..][j - 1] == cars[j];
      }
    }
  }

  /** The filter is an order-preserving selection of exactly the complete
      records: `idx` lists, in increasing order, the positions it keeps, and
      a position is listed exactly when its record is complete. */
  lemma {:induction false} FilterSelection(cars: seq<Car>) returns (idx: seq<nat>)
    ensures Picks(idx, FilterComplete(cars), cars)
    ensures forall k, l :: 0 <= k < l < |idx| ==> idx[k] < idx[l]
    ensures forall j :: 0 <= j < |cars| ==> (j in idx <==> IsComplete(cars[j]))
  {
    if cars == [] {
      idx := [];
    } else {
      var rest := FilterSelection(cars[1..]);
      var head: seq<nat> := if IsComplete(cars[0]) then [0] else [];
      var first: seq<Car> := if IsComplete(cars[0]) then [cars[0]] else [];
      idx := head + Later(rest);
      assert FilterComplete(cars) == first + FilterComplete(cars[1..]);
      PicksStep(cars, rest, head, first);
      LaterIncreasing(head, rest);
      MembersStep(cars, rest, head);
    }
  }

  /** Nothing survives the filter exactly when no record is complete. */
  lemma {:induction false} FilterEmptyIff(cars: seq<Car>)
    ensures FilterComplete(cars) == [] <==> forall i :: 0 <= i < |cars| ==> !IsComplete(cars[i])
  {
    if cars != [] {
      FilterEmptyIff(cars[1..]);
      assert forall i :: 1 <= i < |cars| ==> cars[1..][i - 1] == cars[i];
    }
  }

  /** Filtering twice keeps what filtering once keeps. */
  lemma {:induction false} FilterIdempotent(cars: seq<Car>)
    ensures FilterComplete(FilterComplete(cars)) == FilterComplete(cars)
  {
    if cars != [] {
      FilterIdempotent(cars[1..]);
      var tail := FilterComplete(cars[1..]);
      if IsComplete(cars[0]) {
        var kept := [cars[0]] + tail;
        assert kept[0] == cars[0] && kept[1..] == tail;
      } else {
        assert FilterComplete(cars) == tail;
      }
    }
  }

  /** The two records agree on everything but the dealer cost. */
  predicate SameButCost(x: Car, y: Car) {
    x.(dealerCost := y.dealerCost) == y
  }

  /** The dealer cost never decides whether a record is kept. */
  lemma DealerCostIgnored(x: Car, y: Car)
    requires SameButCost(x, y)
    ensures IsComplete(x) == IsComplete(y)
  {
  }

  /** ... so data sets that differ only in dealer costs keep the same records. */
  lemma {:induction false} FilterIgnoresDealerCost(a: seq<Car>, b: seq<Car>)
    requires |a| == |b| && forall i :: 0 <= i < |a| ==> SameButCost(a[i], b[i])
    ensures |FilterComplete(a)| == |FilterComplete(b)|
    ensures forall k :: 0 <= k < |FilterComplete(a)| ==> SameButCost(FilterComplete(a)[k], FilterComplete(b)[k])
  {
    if a != [] {
      assert SameButCost(a[0], b[0]);
      assert forall i :: 0 <= i < |a| - 1 ==> a[1..][i] == a[i + 1] && b[1..][i] == b[i + 1];
      FilterIgnoresDealerCost(a[1..], b[1..]);
      DealerCostIgnored(a[0], b[0]);
    }
  }

  /** The pipeline stops with the message exactly when no row normalises to
      a complete record; otherwise it passes on the non-empty filtered rows. */
  lemma PrepareOutcome(rows: seq<RawRecord>)
    ensures Prepare(rows).NoValidData? <==> forall i :: 0 <= i < |rows| ==> !IsComplete(Normalize(rows[i]))
    ensures Prepare(rows).NoValidData? ==> Prepare(rows).message == NO_DATA_MESSAGE
    ensures Prepare(rows).Ready? ==> Prepare(rows).rows != [] && Prepare(rows).rows == FilterComplete(NormalizeAll(rows))
  {
    FilterEmptyIff(NormalizeAll(rows));
  }

  /** A field whose aliases all fail to resolve reads as NaN. */
  lemma UnresolvedNumberIsInvalid(d: RawRecord, keys: seq<string>)
    requires forall i :: 0 <= i < |keys| ==> !Resolves(d, keys[i])
    ensures ToNumber(GetField(d, keys)) == Invalid
  {
    UnresolvedIff(d, keys);
  }

  /** The labels default to "Unknown" when no alias resolves, and otherwise
      carry the resolved text. */
  lemma LabelsDefault(d: RawRecord)
    ensures (forall i :: 0 <= i < |NAME_KEYS| ==> !Resolves(d, NAME_KEYS[i])) ==> Normalize(d).name == "Unknown"
    ensures (forall i :: 0 <= i < |TYPE_KEYS| ==> !Resolves(d, TYPE_KEYS[i])) ==> Normalize(d).bodyType == "Unknown"
    ensures GetField(d, NAME_KEYS).Text? ==> Normalize(d).name == GetField(d, NAME_KEYS).s
    ensures GetField(d, TYPE_KEYS).Text? ==> Normalize(d).bodyType == GetField(d, TYPE_KEYS).s
  {
    UnresolvedIff(d, NAME_KEYS);
    UnresolvedIff(d, TYPE_KEYS);
  }

  /** A CSV whose headers match none of the horsepower aliases yields no data. */
  lemma WrongHeadersGiveNoData(rows: seq<RawRecord>)
    requires forall j, i :: 0 <= j < |rows| && 0 <= i < |HP_KEYS| ==> !Resolves(rows[j], HP_KEYS[i])
    ensures Prepare(rows) == NoValidData(NO_DATA_MESSAGE)
  {
    forall j | 0 <= j < |rows|
      ensures !IsComplete(Normalize(rows[j]))
    {
      UnresolvedNumberIsInvalid(rows[j], HP_KEYS);
    }
    PrepareOutcome(rows);
  }

  /** A header written `" Horsepower "` (any whitespace padding) supplies the
      horsepower when no earlier header trims to `Horsepower`, whatever
      follows it in the row. */
  lemma PaddedHeaderFeedsHorsepower(front: RawRecord, a: string, b: string, v: string, rest: RawRecord)
    requires AllWhitespace(a) && AllWhitespace(b) && v != ""
    requires forall j :: 0 <= j < |front| ==> Trim(front[j].0) != "Horsepower"
    ensures Normalize(front + [(a + "Horsepower" + b, Text(v))] + rest).horsepower == ToNumber(Text(v))
  {
    var d := front + [(a + "Horsepower" + b, Text(v))] + rest;
    var key := HP_KEYS[0];
    var i := |front|;
    assert key == "Horsepower" && IsVisible(key[0]) && IsVisible(key[|key| - 1]);
    assert d[i] == (a + key + b, Text(v));
    TrimPadded(a, key, b);
    assert forall j :: 0 <= j < i ==> d[j] == front[j];
    FindKeyFirst(d, key, i);
    assert d[i].0 != "" by {
      assert |d[i].0| >= |key|;
    }
    assert Resolves(d, key) && CellOf(d, key) == Text(v);
    FirstResolvingWins(d, HP_KEYS, 0);
  }
}
