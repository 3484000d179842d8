/** Header alias resolution (`getField`): a row parsed from the CSV is
    searched for the first of several candidate header names that carries
    a value. */
module FieldResolver {
  import opened Wrappers
  import opened JsText
  import opened JsValues

  /** A parsed CSV row: its (header, cell) pairs in `Object.keys` order. */
  type RawRecord = seq<(string, JsValue)>

  /** `Object.keys(d).find(k => k.trim() === key)`: the position of the first
      header whose trimmed text is `key`. Only the header is trimmed. */
  function FindKey(d: RawRecord, key: string): (r: Option<nat>)
    ensures r.Some? ==> r.value < |d| && Trim(d[r.value].0) == key
    ensures r.Some? ==> forall j :: 0 <= j < r.value ==> Trim(d[j].0) != key
    ensures r.None? <==> forall j :: 0 <= j < |d| ==> Trim(d[j].0) != key
  {
    if d == [] then None
    else if Trim(d[0].0) == key then Some(0)
    else match FindKey(d[1..], key)
      case None => None
      case Some(i) => Some(i + 1)
  }

  /** The test `foundKey && d[foundKey] !== "" && d[foundKey] !== undefined`:
      the empty header is falsy, and an empty or missing cell does not count. */
  predicate Usable(entry: (string, JsValue)) {
    entry.0 != "" && entry.1 != Text("") && entry.1 != Undefined
  }

  /** The candidate `key` yields a value: its first matching header exists
      and holds a usable cell. */
  predicate Resolves(d: RawRecord, key: string) {
    FindKey(d, key).Some? && Usable(d[FindKey(d, key).value])
  }

  /** The cell a resolving candidate yields. */
  function CellOf(d: RawRecord, key: string): JsValue
    requires Resolves(d, key)
  {
    d[FindKey(d, key).value].1
  }

  /** `getField(d, candidates)`: the cell of the first candidate, in list
      order, that resolves; `Undefined` when none does. An empty cell is
      never the result. */
  function GetField(d: RawRecord, candidates: seq<string>): (r: JsValue)
    ensures r != Text("")
    ensures r != Undefined ==> exists i :: 0 <= i < |candidates| && Resolves(d, candidates[i]) && r == CellOf(d, candidates[i])
  {
    if candidates == [] then Undefined
    else if Resolves(d, candidates[0]) then CellOf(d, candidates[0])
    else
      var r := GetField(d, candidates[1..]);
      assert r != Undefined ==> exists i :: 1 <= i < |candidates| && Resolves(d, candidates[i]) && r == CellOf(d, candidates[i]) by {
        if r != Undefined {
          var i :| 0 <= i < |candidates[1..]| && Resolves(d, candidates[1..][i]) && r == CellOf(d, candidates[1..][i]);
          assert candidates[1..][i] == candidates[i + 1];
        }
      }
      r
  }

  /** `getField` is unresolved exactly when no candidate resolves. */
  lemma {:induction false} UnresolvedIff(d: RawRecord, candidates: seq<string>)
    ensures GetField(d, candidates) == Undefined <==> forall i :: 0 <= i < |candidates| ==> !Resolves(d, candidates[i])
  {
    if candidates != [] {
      UnresolvedIff(d, candidates[1..]);
      assert forall i :: 1 <= i < |candidates| ==> candidates[i] == candidates[1..][i - 1];
    }
  }

  /** A single resolving candidate is enough for a result. */
  lemma {:induction false} ResolvingIsDefined(d: RawRecord, candidates: seq<string>, i: nat)
    requires i < |candidates| && Resolves(d, candidates[i])
    ensures GetField(d, candidates) != Undefined
  {
    if i > 0 && !Resolves(d, candidates[0]) {
      assert candidates[1..][i - 1] == candidates[i];
      ResolvingIsDefined(d, candidates[1..], i - 1);
    }
  }

  /** The first resolving candidate, in list order, supplies the result. */
  lemma {:induction false} FirstResolvingWins(d: RawRecord, candidates: seq<string>, i: nat)
    requires i < |candidates| && Resolves(d, candidates[i])
    requires forall j :: 0 <= j < i ==> !Resolves(d, candidates[j])
    ensures GetField(d, candidates) == CellOf(d, candidates[i])
  {
    if i > 0 {
      assert !Resolves(d, candidates[0]);
      assert candidates[1..][i - 1] == candidates[i];
      assert forall j :: 0 <= j < i - 1 ==> candidates[1..][j] == candidates[j + 1];
      FirstResolvingWins(d, candidates[1..], i - 1);
    }
  }

  /** The contract of FindKey pins its result down: a matching header with
      no match before it is the one found. */
  lemma FindKeyFirst(d: RawRecord, key: string, i: nat)
    requires i < |d| && Trim(d[i].0) == key
    requires forall j :: 0 <= j < i ==> Trim(d[j].0) != key
    ensures FindKey(d, key) == Some(i)
  {
    var r := FindKey(d, key);
    assert r.Some?;
    assert !(r.value < i) && !(i < r.value);
  }

  /** The `find` call as a linear search over the headers. */
  method SearchKey(d: RawRecord, key: string) returns (found: Option<nat>)
    ensures found == FindKey(d, key)
  {
    var i := 0;
    while i < |d|
      invariant 0 <= i <= |d|
      invariant forall j :: 0 <= j < i ==> Trim(d[j].0) != key
    {
      if Trim(d[i].0) == key {
        FindKeyFirst(d, key, i);
        return Some(i);
      }
      i := i + 1;
    }
    return None;
  }

  /** The `for (let key of candidates)` loop with its early `return`. */
  method ResolveField(d: RawRecord, candidates: seq<string>) returns (r: JsValue)
    ensures r == GetField(d, candidates)
  {
    for i := 0 to |candidates|
      invariant GetField(d, candidates[i..]) == GetField(d, candidates)
    {
      var key := candidates[i];
      var found := SearchKey(d, key);
      assert candidates[i..][0] == key && candidates[i..][1..] == candidates[i + 1..];
      if found.Some? && Usable(d[found.value]) {
        assert Resolves(d, key);
        return d[found.value].1;
      }
      assert !Resolves(d, key);
    }
    assert candidates[|candidates|..] == [];
    return Undefined;
  }

  /** Once some candidate resolves, the candidates after the list never matter;
      while none does, the result is that of the candidates that follow. */
  lemma {:induction false} GetFieldAppend(d: RawRecord, first: seq<string>, more: seq<string>)
    ensures GetField(d, first) != Undefined ==> GetField(d, first + more) == GetField(d, first)
    ensures GetField(d, first) == Undefined ==> GetField(d, first + more) == GetField(d, more)
  {
    if first != [] {
      assert (first + more)[0] == first[0];
      assert (first + more)[1..] == first[1..] + more;
      GetFieldAppend(d, first[1..], more);
    } else {
      assert first + more == more;
    }
  }

  /** An earlier candidate wins over a later one: when candidate `i` resolves,
      the result is decided by the candidates up to `i`. */
  lemma {:induction false} EarlierCandidateWins(d: RawRecord, candidates: seq<string>, i: nat)
    requires i < |candidates| && Resolves(d, candidates[i])
    ensures GetField(d, candidates) == GetField(d, candidates[..i + 1])
  {
    var first := candidates[..i + 1];
    assert first[0] == candidates[0];
    if !Resolves(d, candidates[0]) {
      assert candidates[1..][i - 1] == candidates[i];
      EarlierCandidateWins(d, candidates[1..], i - 1);
      assert first[1..] == candidates[1..][..i];
    }
  }

  /** `find` looks only at the headers. */
  lemma {:induction false} FindKeySameHeaders(e: RawRecord, d: RawRecord, key: string)
    requires |e| == |d| && forall k :: 0 <= k < |d| ==> e[k].0 == d[k].0
    ensures FindKey(e, key) == FindKey(d, key)
  {
    if d != [] {
      assert forall k :: 0 <= k < |d| - 1 ==> e[1..][k].0 == d[1..][k].0 by {
        forall k | 0 <= k < |d| - 1 ensures e[1..][k].0 == d[1..][k].0 {
          assert e[1..][k] == e[k + 1] && d[1..][k] == d[k + 1];
        }
      }
      FindKeySameHeaders(e[1..], d[1..], key);
    }
  }

  /** A header that matches the same trimmed name as an earlier header is
      shadowed: whatever its cell holds, the result does not change. */
  lemma ShadowedHeaderIgnored(d: RawRecord, candidates: seq<string>, i: nat, j: nat, v: JsValue)
    requires i < j < |d| && Trim(d[i].0) == Trim(d[j].0)
    ensures GetField(d[j := (d[j].0, v)], candidates) == GetField(d, candidates)
  {
    var e := d[j := (d[j].0, v)];
    forall k | 0 <= k < |candidates|
      ensures Resolves(e, candidates[k]) == Resolves(d, candidates[k])
      ensures Resolves(d, candidates[k]) ==> CellOf(e, candidates[k]) == CellOf(d, candidates[k])
    {
      ShadowedCell(d, candidates[k], i, j, v);
    }
    GetFieldSameCells(e, d, candidates);
  }

  lemma ShadowedCell(d: RawRecord, key: string, i: nat, j: nat, v: JsValue)
    requires i < j < |d| && Trim(d[i].0) == Trim(d[j].0)
    ensures FindKey(d[j := (d[j].0, v)], key) == FindKey(d, key)
    ensures FindKey(d, key).Some? ==> FindKey(d, key).value != j
  {
    var e := d[j := (d[j].0, v)];
    assert forall k :: 0 <= k < |d| ==> e[k].0 == d[k].0;
    FindKeySameHeaders(e, d, key);
  }

  /** Two rows on which every candidate resolves alike to the same cell give
      the same result. */
  lemma {:induction false} GetFieldSameCells(e: RawRecord, d: RawRecord, candidates: seq<string>)
    requires forall k :: 0 <= k < |candidates| ==> Resolves(e, candidates[k]) == Resolves(d, candidates[k])
    requires forall k :: 0 <= k < |candidates| && Resolves(d, candidates[k]) ==> CellOf(e, candidates[k]) == CellOf(d, candidates[k])
    ensures GetField(e, candidates) == GetField(d, candidates)
  {
    if candidates != [] {
      assert forall k :: 1 <= k < |candidates| ==> candidates[1..][k - 1] == candidates[k];
      GetFieldSameCells(e, d, candidates[1..]);
    }
  }

  /** The first header matching a candidate decides for that candidate: when
      its cell is empty, a later header with the same trimmed name is not
      tried, even if it has a value. */
  lemma EmptyFirstMatchShadows(d: RawRecord, key: string, i: nat, j: nat)
    requires i < j < |d| && Trim(d[i].0) == key && Trim(d[j].0) == key
    requires forall k :: 0 <= k < i ==> Trim(d[k].0) != key
    requires d[i].1 == Text("") && Usable(d[j])
    ensures GetField(d, [key]) == Undefined
  {
    FindKeyFirst(d, key, i);
    assert !Resolves(d, key);
    assert [key][0] == key && [key][1..] == [];
  }

  /** Only the header is trimmed: a header padded with whitespace matches the
      bare candidate. */
  lemma PaddedHeaderMatches(a: string, key: string, b: string, v: JsValue, rest: RawRecord)
    requires AllWhitespace(a) && AllWhitespace(b)
    requires key == [] || (IsVisible(key[0]) && IsVisible(key[|key| - 1]))
    ensures FindKey([(a + key + b, v)] + rest, key) == Some(0)
  {
    TrimPadded(a, key, b);
    assert ([(a + key + b, v)] + rest)[0].0 == a + key + b;
  }

  /** ... and the candidate is not trimmed: one that starts or ends with
      whitespace matches no header at all. */
  lemma PaddedCandidateNeverMatches(d: RawRecord, key: string)
    requires key != [] && (IsWhitespace(key[0]) || IsWhitespace(key[|key| - 1]))
    ensures FindKey(d, key) == None
    ensures GetField(d, [key]) == Undefined
  {
  }
}
