/** The JavaScript string operations the row pipeline relies on:
    `String.prototype.trim`, the regular-expression replacements
    `/[$,()]/g -> ""` and `/\s+/g -> " "`, and the leading-whitespace skip
    of `parseFloat`. */
module JsText {

  /** The code points of ECMAScript's WhiteSpace and LineTerminator
      productions: exactly what `trim` removes, what `\s` matches and what
      `parseFloat` skips before the number. */
  predicate IsWhitespace(c: char) {
    || c == '\t' || c == '\n' || c == '\U{000B}' || c == '\U{000C}' || c == '\r'
    || c == ' ' || c == '\U{00A0}' || c == '\U{1680}'
    || ('\U{2000}' <= c <= '\U{200A}')
    || c == '\U{2028}' || c == '\U{2029}' || c == '\U{202F}' || c == '\U{205F}'
    || c == '\U{3000}' || c == '\U{FEFF}'
  }

  predicate IsVisible(c: char) {
    !IsWhitespace(c)
  }

  predicate AllWhitespace(s: string) {
    forall k :: 0 <= k < |s| ==> IsWhitespace(s[k])
  }

  predicate NoWhitespace(s: string) {
    forall k :: 0 <= k < |s| ==> !IsWhitespace(s[k])
  }

  /** Length of the longest prefix of `s` whose characters all satisfy `p`. */
  function LeadingRun(s: string, p: char -> bool): (n: nat)
    ensures n <= |s|
    ensures forall k :: 0 <= k < n ==> p(s[k])
    ensures n == |s| || !p(s[n])
  {
    if s != [] && p(s[0]) then 1 + LeadingRun(s[1..], p) else 0
  }

  /** The three facts of LeadingRun's contract pin the run down uniquely. */
  lemma LeadingRunUnique(s: string, p: char -> bool, n: nat)
    requires n <= |s|
    requires forall k :: 0 <= k < n ==> p(s[k])
    requires n == |s| || !p(s[n])
    ensures LeadingRun(s, p) == n
  {
  }

  /** A run is not lengthened by text that starts with a character outside
      the run's class. */
  lemma LeadingRunAppend(a: string, b: string, p: char -> bool)
    requires b == [] || !p(b[0])
    ensures LeadingRun(a + b, p) == LeadingRun(a, p)
  {
    var n := LeadingRun(a, p);
    assert forall k :: 0 <= k < n ==> (a + b)[k] == a[k];
    if n < |a| {
      assert (a + b)[n] == a[n];
    } else if b != [] {
      assert (a + b)[n] == b[0];
    }
    LeadingRunUnique(a + b, p, n);
  }

  /** A run that covers all of `a` continues into `b`. */
  lemma LeadingRunAcross(a: string, b: string, p: char -> bool)
    requires forall k :: 0 <= k < |a| ==> p(a[k])
    ensures LeadingRun(a + b, p) == |a| + LeadingRun(b, p)
  {
    var m := LeadingRun(b, p);
    var s := a + b;
    forall k | 0 <= k < |a| + m
      ensures p(s[k])
    {
      if k < |a| {
        assert s[k] == a[k];
      } else {
        assert s[k] == b[k - |a|];
      }
    }
    if m < |b| {
      assert s[|a| + m] == b[m];
    }
    LeadingRunUnique(s, p, |a| + m);
  }

  /** `String.prototype.trim`: remove leading and trailing whitespace. */
  function Trim(s: string): (r: string)
    ensures |r| <= |s|
    ensures r == [] || (IsVisible(r[0]) && IsVisible(r[|r| - 1]))
    decreases |s|
  {
    if s == [] then []
    else if IsWhitespace(s[0]) then Trim(s[1..])
    else if IsWhitespace(s[|s| - 1]) then Trim(s[..|s| - 1])
    else s
  }

  /** The text splits into leading whitespace, its trimmed form and trailing
      whitespace. */
  lemma {:induction false} TrimSplit(s: string) returns (a: string, b: string)
    ensures AllWhitespace(a) && AllWhitespace(b)
    ensures s == a + Trim(s) + b
    decreases |s|
  {
    if s == [] {
      a, b := [], [];
    } else if IsWhitespace(s[0]) {
      var a', b' := TrimSplit(s[1..]);
      var r := Trim(s[1..]);
      assert Trim(s) == r;
      a, b := [s[0]] + a', b';
      assert AllWhitespace(a) by {
        assert forall k :: 1 <= k < |a| ==> a[k] == a'[k - 1];
      }
      assert s == a + r + b by {
        assert s == [s[0]] + s[1..];
        Associate3([s[0]], a', r);
      }
    } else if IsWhitespace(s[|s| - 1]) {
      var a', b' := TrimSplit(s[..|s| - 1]);
      var r := Trim(s[..|s| - 1]);
      assert Trim(s) == r;
      a, b := a', b' + [s[|s| - 1]];
      assert AllWhitespace(b) by {
        assert forall k :: 0 <= k < |b'| ==> b[k] == b'[k];
      }
      assert s == a + r + b by {
        assert s == s[..|s| - 1] + [s[|s| - 1]];
      }
    } else {
      a, b := [], [];
    }
  }

  lemma Associate3(a: string, b: string, c: string)
    ensures a + (b + c) == a + b + c
  {
  }

  lemma ConcatSplit(s: string, n: nat)
    requires n <= |s|
    ensures s == s[..n] + s[n..]
  {
  }

  /** Trim removes exactly the whitespace padding around text that neither
      starts nor ends with whitespace. */
  lemma {:induction false} TrimPadded(a: string, t: string, b: string)
    requires AllWhitespace(a) && AllWhitespace(b)
    requires t == [] || (IsVisible(t[0]) && IsVisible(t[|t| - 1]))
    ensures Trim(a + t + b) == t
    decreases |a| + |b|
  {
    var s := a + t + b;
    if a != [] {
      assert s[0] == a[0] && s[1..] == a[1..] + t + b;
      TrimPadded(a[1..], t, b);
    } else if b != [] {
      assert s == t + b;
      if t == [] {
        assert s[0] == b[0] && s[1..] == [] + [] + b[1..];
        TrimPadded([], [], b[1..]);
      } else {
        assert s[0] == t[0] && s[|s| - 1] == b[|b| - 1];
        assert s[..|s| - 1] == [] + t + b[..|b| - 1];
        TrimPadded([], t, b[..|b| - 1]);
      }
    } else {
      assert s == t;
      TrimTrimmed(t);
    }
  }

  /** Trim of text that neither starts nor ends with whitespace is the identity. */
  lemma TrimTrimmed(s: string)
    requires s == [] || (IsVisible(s[0]) && IsVisible(s[|s| - 1]))
    ensures Trim(s) == s
  {
  }

  /** The regular expression `[$,()]`: the characters stripped from a cell. */
  predicate IsStrippedSymbol(c: char) {
    c == '$' || c == ',' || c == '(' || c == ')'
  }

  /** `.replace(/[$,()]/g, "")`: delete every `$`, `,`, `(` and `)`. */
  function StripSymbols(s: string): (r: string)
    ensures |r| <= |s|
  {
    if s == [] then []
    else (if IsStrippedSymbol(s[0]) then [] else [s[0]]) + StripSymbols(s[1..])
  }

  /** Stripping keeps exactly the characters that are not symbols. */
  lemma {:induction false} StripSymbolsChars(s: string)
    ensures forall c :: c in StripSymbols(s) <==> c in s && !IsStrippedSymbol(c)
  {
    if s != [] {
      StripSymbolsChars(s[1..]);
      assert s == [s[0]] + s[1..];
    }
  }

  lemma {:induction false} StripSymbolsAppend(a: string, b: string)
    ensures StripSymbols(a + b) == StripSymbols(a) + StripSymbols(b)
  {
    if a == [] {
      assert a + b == b;
    } else {
      assert (a + b)[0] == a[0];
      assert (a + b)[1..] == a[1..] + b;
      StripSymbolsAppend(a[1..], b);
    }
  }

  /** Text without any of the four symbols is left unchanged. */
  lemma {:induction false} StripSymbolsNone(s: string)
    requires forall k :: 0 <= k < |s| ==> !IsStrippedSymbol(s[k])
    ensures StripSymbols(s) == s
  {
    if s != [] {
      StripSymbolsNone(s[1..]);
    }
  }

  /** `.replace(/\s+/g, " ")`: every maximal run of whitespace becomes one space. */
  function CollapseWhitespace(s: string): (r: string)
    ensures |r| <= |s|
    ensures r == [] <==> s == []
    ensures r != [] ==> (IsWhitespace(r[0]) <==> IsWhitespace(s[0]))
    ensures r != [] ==> (IsWhitespace(r[|r| - 1]) <==> IsWhitespace(s[|s| - 1]))
    ensures forall k :: 0 <= k < |r| && IsWhitespace(r[k]) ==> r[k] == ' '
    ensures forall k :: 0 <= k < |r| - 1 ==> !(IsWhitespace(r[k]) && IsWhitespace(r[k + 1]))
    decreases |s|
  {
    if s == [] then []
    else if IsWhitespace(s[0]) then
      var n := LeadingRun(s, IsWhitespace);
      assert s[n..] == [] || IsVisible(s[n..][0]);
      [' '] + CollapseWhitespace(s[n..])
    else
      [s[0]] + CollapseWhitespace(s[1..])
  }

  /** Collapsing leaves a whitespace-free prefix in place. */
  lemma {:induction false} CollapseKeepsVisiblePrefix(w: string, y: string)
    requires NoWhitespace(w)
    ensures CollapseWhitespace(w + y) == w + CollapseWhitespace(y)
  {
    if w == [] {
      assert w + y == y;
    } else {
      assert (w + y)[0] == w[0];
      assert (w + y)[1..] == w[1..] + y;
      CollapseKeepsVisiblePrefix(w[1..], y);
    }
  }

  /** The visible characters of `s`, in order: `s` with its whitespace dropped. */
  function VisibleChars(s: string): (v: string)
    ensures |v| <= |s|
  {
    if s == [] then []
    else (if IsWhitespace(s[0]) then [] else [s[0]]) + VisibleChars(s[1..])
  }

  lemma {:induction false} VisibleCharsAppend(a: string, b: string)
    ensures VisibleChars(a + b) == VisibleChars(a) + VisibleChars(b)
  {
    if a == [] {
      assert a + b == b;
    } else {
      assert (a + b)[0] == a[0];
      assert (a + b)[1..] == a[1..] + b;
      VisibleCharsAppend(a[1..], b);
    }
  }

  lemma {:induction false} VisibleCharsOfWhitespace(a: string)
    requires AllWhitespace(a)
    ensures VisibleChars(a) == []
  {
    if a != [] {
      VisibleCharsOfWhitespace(a[1..]);
    }
  }

  /** Collapsing changes only whitespace: the visible characters stay, in order. */
  lemma {:induction false} CollapseKeepsVisibleChars(s: string)
    ensures VisibleChars(CollapseWhitespace(s)) == VisibleChars(s)
    decreases |s|
  {
    if s == [] {
    } else if IsWhitespace(s[0]) {
      var t := CollapseSkipsRun(s);
      CollapseKeepsVisibleChars(t);
    } else {
      CollapseKeepsVisible(s);
      CollapseKeepsVisibleChars(s[1..]);
    }
  }

  /** One step of CollapseKeepsVisibleChars: a leading run of whitespace
      holds no visible character and collapses to one space. */
  lemma CollapseSkipsRun(s: string) returns (t: string)
    requires s != [] && IsWhitespace(s[0])
    ensures |t| < |s|
    ensures VisibleChars(CollapseWhitespace(s)) == VisibleChars(CollapseWhitespace(t))
    ensures VisibleChars(s) == VisibleChars(t)
  {
    var n := LeadingRun(s, IsWhitespace);
    t := s[n..];
    VisibleCharsAfterSpace(CollapseWhitespace(t));
    VisibleCharsAfterRun(s, n);
  }

  lemma VisibleCharsAfterSpace(c: string)
    ensures VisibleChars([' '] + c) == VisibleChars(c)
  {
    assert ([' '] + c)[1..] == c;
  }

  lemma VisibleCharsAfterRun(s: string, n: nat)
    requires n <= |s| && forall k :: 0 <= k < n ==> IsWhitespace(s[k])
    ensures VisibleChars(s) == VisibleChars(s[n..])
  {
    var a := s[..n];
    assert AllWhitespace(a) by {
      assert forall k :: 0 <= k < n ==> a[k] == s[k];
    }
    VisibleCharsOfWhitespace(a);
    ConcatSplit(s, n);
    VisibleCharsAppend(a, s[n..]);
  }

  /** The other step: a visible first character is kept. */
  lemma CollapseKeepsVisible(s: string)
    requires s != [] && !IsWhitespace(s[0])
    ensures VisibleChars(CollapseWhitespace(s)) == [s[0]] + VisibleChars(CollapseWhitespace(s[1..]))
    ensures VisibleChars(s) == [s[0]] + VisibleChars(s[1..])
  {
    var c := CollapseWhitespace(s[1..]);
    assert CollapseWhitespace(s) == [s[0]] + c;
    VisibleCharsAppend([s[0]], c);
    assert [s[0]][1..] == [];
  }

  /** Trimming removes only whitespace: the visible characters stay, in order. */
  lemma TrimKeepsVisibleChars(s: string)
    ensures VisibleChars(Trim(s)) == VisibleChars(s)
  {
    var a, b := TrimSplit(s);
    VisibleCharsAppend(a + Trim(s), b);
    VisibleCharsAppend(a, Trim(s));
    VisibleCharsOfWhitespace(a);
    VisibleCharsOfWhitespace(b);
  }

  /** The first whitespace-delimited word of `s`: skip leading whitespace,
      then take characters up to the next whitespace. */
  function FirstWord(s: string): (w: string)
    ensures NoWhitespace(w)
  {
    var t := s[LeadingRun(s, IsWhitespace)..];
    t[..LeadingRun(t, IsVisible)]
  }

  /** `s` splits into leading whitespace, its first word, and a remainder
      that is empty or starts with whitespace. */
  lemma FirstWordSplit(s: string) returns (a: nat, rest: string)
    ensures a <= |s| && AllWhitespace(s[..a])
    ensures s == s[..a] + FirstWord(s) + rest
    ensures rest == [] || IsWhitespace(rest[0])
    ensures FirstWord(s) == [] ==> rest == []
  {
    a := LeadingRun(s, IsWhitespace);
    var t := s[a..];
    var m := LeadingRun(t, IsVisible);
    var w := t[..m];
    rest := t[m..];
    assert FirstWord(s) == w;
    assert AllWhitespace(s[..a]) by {
      forall k | 0 <= k < a ensures IsWhitespace(s[..a][k]) {
        assert s[..a][k] == s[k];
      }
    }
    assert s == s[..a] + w + rest by {
      ConcatSplit(s, a);
      ConcatSplit(t, m);
      Associate3(s[..a], w, rest);
    }
    assert t == [] || IsVisible(t[0]) by {
      if t != [] {
        assert t[0] == s[a];
      }
    }
    assert rest == [] || IsWhitespace(rest[0]) by {
      if rest != [] {
        assert rest[0] == t[m];
      }
    }
  }

  /** Leading whitespace does not change the first word. */
  lemma FirstWordSkipsWhitespace(a: string, x: string)
    requires AllWhitespace(a)
    ensures FirstWord(a + x) == FirstWord(x)
  {
    var n := LeadingRun(x, IsWhitespace);
    assert LeadingRun(a + x, IsWhitespace) == |a| + n by {
      LeadingRunAcross(a, x, IsWhitespace);
    }
    assert (a + x)[|a| + n..] == x[n..] by {
      DropAppend(a, x, n);
    }
  }

  lemma DropAppend(a: string, x: string, n: nat)
    requires n <= |x|
    ensures (a + x)[|a| + n..] == x[n..]
  {
  }

  /** Trailing whitespace does not change the first word. */
  lemma FirstWordAppendWhitespace(x: string, b: string)
    requires AllWhitespace(b)
    ensures FirstWord(x + b) == FirstWord(x)
  {
    var a := LeadingRun(x, IsWhitespace);
    if a == |x| {
      assert LeadingRun(x + b, IsWhitespace) == |x + b| by {
        LeadingRunAcross(x, b, IsWhitespace);
        LeadingRunUnique(b, IsWhitespace, |b|);
      }
    } else {
      assert LeadingRun(x + b, IsWhitespace) == a by {
        forall k | 0 <= k < a ensures IsWhitespace((x + b)[k]) {
          assert (x + b)[k] == x[k];
        }
        assert (x + b)[a] == x[a];
        LeadingRunUnique(x + b, IsWhitespace, a);
      }
      var t := x[a..];
      assert (x + b)[a..] == t + b;
      var m := LeadingRun(t, IsVisible);
      assert LeadingRun(t + b, IsVisible) == m by {
        LeadingRunAppend(t, b, IsVisible);
      }
      assert (t + b)[..m] == t[..m];
    }
  }

  lemma FirstWordOfWordThen(w: string, y: string)
    requires NoWhitespace(w)
    requires w != []
    requires y == [] || IsWhitespace(y[0])
    ensures FirstWord(w + y) == w
  {
    LeadingRunUnique(w + y, IsWhitespace, 0);
    assert (w + y)[0] == w[0];
    assert (w + y)[0..] == w + y;
    forall k | 0 <= k < |w| ensures IsVisible((w + y)[k]) {
      assert (w + y)[k] == w[k];
    }
    if y != [] {
      assert (w + y)[|w|] == y[0];
    }
    LeadingRunUnique(w + y, IsVisible, |w|);
  }

  /** Trimming does not change the first word. */
  lemma TrimKeepsFirstWord(s: string)
    ensures FirstWord(Trim(s)) == FirstWord(s)
  {
    var a, b := TrimSplit(s);
    var r := Trim(s);
    Associate3(a, r, b);
    FirstWordSkipsWhitespace(a, r + b);
    FirstWordAppendWhitespace(r, b);
  }

  /** Collapsing whitespace does not change the first word. */
  lemma {:induction false} CollapseKeepsFirstWord(s: string)
    ensures FirstWord(CollapseWhitespace(s)) == FirstWord(s)
    decreases |s|
  {
    if s == [] {
    } else if IsWhitespace(s[0]) {
      var n := LeadingRun(s, IsWhitespace);
      var x := s[n..];
      assert s == s[..n] + x;
      FirstWordSkipsWhitespace(s[..n], x);
      var c := CollapseWhitespace(x);
      assert CollapseWhitespace(s) == [' '] + c;
      FirstWordSkipsWhitespace([' '], c);
      CollapseKeepsFirstWord(x);
    } else {
      var a, rest := FirstWordSplit(s);
      LeadingRunUnique(s, IsWhitespace, 0);
      var w := FirstWord(s);
      assert s == w + rest;
      assert w != [] by {
        assert s[0..] == s;
        assert IsVisible(s[0]);
      }
      CollapseKeepsVisiblePrefix(w, rest);
      FirstWordOfWordThen(w, CollapseWhitespace(rest));
    }
  }

  // ---------------------------------------------------------------------
  // The words of a text: its maximal whitespace-free runs, in order.

  /** The whitespace-delimited words of `s`, in order. */
  function Words(s: string): (ws: seq<string>)
    decreases |s|
  {
    var t := s[LeadingRun(s, IsWhitespace)..];
    var m := LeadingRun(t, IsVisible);
    if m == 0 then [] else [t[..m]] + Words(t[m..])
  }

  /** Leading whitespace does not change the words. */
  lemma WordsSkipWhitespace(a: string, x: string)
    requires AllWhitespace(a)
    ensures Words(a + x) == Words(x)
  {
    var n := LeadingRun(x, IsWhitespace);
    assert (a + x)[LeadingRun(a + x, IsWhitespace)..] == x[n..] by {
      LeadingRunAcross(a, x, IsWhitespace);
      DropAppend(a, x, n);
    }
  }

  /** A word followed by nothing or by whitespace is the first word. */
  lemma WordsOfWordThen(w: string, y: string)
    requires w != [] && NoWhitespace(w)
    requires y == [] || IsWhitespace(y[0])
    ensures Words(w + y) == [w] + Words(y)
  {
    var s := w + y;
    assert s[LeadingRun(s, IsWhitespace)..] == s by {
      assert s[0] == w[0];
      LeadingRunUnique(s, IsWhitespace, 0);
    }
    assert LeadingRun(s, IsVisible) == |w| by {
      LeadingRunAcross(w, y, IsVisible);
      LeadingRunUnique(y, IsVisible, 0);
    }
    assert s[..|w|] == w && s[|w|..] == y;
  }

  /** `x` splits into leading whitespace, its first word and the text after
      that word, where the words continue. */
  lemma WordsSplit(x: string) returns (a: string, w: string, rest: string)
    ensures AllWhitespace(a) && NoWhitespace(w)
    ensures x == a + (w + rest)
    ensures rest == [] || IsWhitespace(rest[0])
    ensures w == [] ==> rest == [] && Words(x) == []
    ensures w != [] ==> |rest| < |x| && Words(x) == [w] + Words(rest)
  {
    var n := LeadingRun(x, IsWhitespace);
    var t := x[n..];
    var m := LeadingRun(t, IsVisible);
    a, w, rest := x[..n], t[..m], t[m..];
    RunPrefixes(x, n, t, m);
  }

  /** The facts about the two leading runs that WordsSplit needs. */
  lemma RunPrefixes(x: string, n: nat, t: string, m: nat)
    requires n == LeadingRun(x, IsWhitespace) && t == x[n..] && m == LeadingRun(t, IsVisible)
    ensures AllWhitespace(x[..n]) && NoWhitespace(t[..m])
    ensures x == x[..n] + (t[..m] + t[m..])
    ensures t[m..] == [] || IsWhitespace(t[m..][0])
    ensures m == 0 ==> t == []
  {
    assert AllWhitespace(x[..n]) by {
      assert forall k :: 0 <= k < n ==> x[..n][k] == x[k];
    }
    assert NoWhitespace(t[..m]) by {
      assert forall k :: 0 <= k < m ==> t[..m][k] == t[k];
    }
    assert x == x[..n] + (t[..m] + t[m..]) by {
      ConcatSplit(t, m);
      ConcatSplit(x, n);
    }
    assert m == 0 ==> t == [] by {
      if t != [] {
        assert t[0] == x[n];
      }
    }
    assert t[m..] == [] || IsWhitespace(t[m..][0]) by {
      if m < |t| {
        assert t[m..][0] == t[m];
      }
    }
  }

  lemma WhitespaceThenWhitespace(x: string, b: string)
    requires AllWhitespace(x) && AllWhitespace(b)
    ensures AllWhitespace(x + b)
  {
    assert forall k :: 0 <= k < |x| ==> (x + b)[k] == x[k];
    assert forall k :: |x| <= k < |x + b| ==> (x + b)[k] == b[k - |x|];
  }

  lemma WordsOfWhitespace(a: string)
    requires AllWhitespace(a)
    ensures Words(a) == []
  {
    assert a + [] == a;
    WordsSkipWhitespace(a, []);
  }

  /** Trailing whitespace does not change the words. */
  lemma {:induction false} WordsTrailingWhitespace(x: string, b: string)
    requires AllWhitespace(b)
    ensures Words(x + b) == Words(x)
    decreases |x|
  {
    var a, w, rest := WordsSplit(x);
    if w == [] {
      assert x + b == a + b;
      WhitespaceThenWhitespace(a, b);
      WordsOfWhitespace(a + b);
    } else {
      TrailingStep(a, w, rest, b);
      WordsTrailingWhitespace(rest, b);
    }
  }

  lemma TrailingStep(a: string, w: string, rest: string, b: string)
    requires AllWhitespace(a) && AllWhitespace(b) && NoWhitespace(w) && w != []
    requires rest == [] || IsWhitespace(rest[0])
    ensures Words(a + (w + rest) + b) == [w] + Words(rest + b)
  {
    assert a + (w + rest) + b == a + (w + (rest + b));
    WordsSkipWhitespace(a, w + (rest + b));
    assert rest + b == [] || IsWhitespace((rest + b)[0]) by {
      if rest != [] {
        assert (rest + b)[0] == rest[0];
      }
    }
    WordsOfWordThen(w, rest + b);
  }

  /** Whitespace padding on both sides does not change the words. */
  lemma WordsPadded(a: string, r: string, b: string)
    requires AllWhitespace(a) && AllWhitespace(b)
    ensures Words(a + r + b) == Words(r)
  {
    assert a + r + b == a + (r + b);
    WordsSkipWhitespace(a, r + b);
    WordsTrailingWhitespace(r, b);
  }

  /** Trimming keeps the words. */
  lemma TrimKeepsWords(s: string)
    ensures Words(Trim(s)) == Words(s)
  {
    var a, b := TrimSplit(s);
    WordsPadded(a, Trim(s), b);
  }

  /** Collapsing keeps the words: each run of whitespace between two
      words stays a separator. */
  lemma {:induction false} CollapseKeepsWords(s: string)
    ensures Words(CollapseWhitespace(s)) == Words(s)
    decreases |s|
  {
    if s == [] {
    } else if IsWhitespace(s[0]) {
      var t := CollapseWordsSkipRun(s);
      CollapseKeepsWords(t);
    } else {
      var w, rest := CollapseWordsKeepWord(s);
      CollapseKeepsWords(rest);
    }
  }

  /** One step of CollapseKeepsWords: a leading run of whitespace
      separates no words and collapses to one space. */
  lemma CollapseWordsSkipRun(s: string) returns (t: string)
    requires s != [] && IsWhitespace(s[0])
    ensures |t| < |s|
    ensures Words(CollapseWhitespace(s)) == Words(CollapseWhitespace(t))
    ensures Words(s) == Words(t)
  {
    var n := LeadingRun(s, IsWhitespace);
    t := s[n..];
    WordsAfterSpace(CollapseWhitespace(t));
    WordsAfterRun(s, n);
  }

  lemma WordsAfterSpace(c: string)
    ensures Words([' '] + c) == Words(c)
  {
    WordsSkipWhitespace([' '], c);
  }

  lemma WordsAfterRun(s: string, n: nat)
    requires n <= |s| && forall k :: 0 <= k < n ==> IsWhitespace(s[k])
    ensures Words(s) == Words(s[n..])
  {
    var a := s[..n];
    assert AllWhitespace(a) by {
      assert forall k :: 0 <= k < n ==> a[k] == s[k];
    }
    ConcatSplit(s, n);
    WordsSkipWhitespace(a, s[n..]);
  }

  /** The other step: a leading word is kept as it is, and is the first word
      of both texts. */
  lemma CollapseWordsKeepWord(s: string) returns (w: string, rest: string)
    requires s != [] && !IsWhitespace(s[0])
    ensures |rest| < |s|
    ensures Words(CollapseWhitespace(s)) == [w] + Words(CollapseWhitespace(rest))
    ensures Words(s) == [w] + Words(rest)
  {
    w, rest := LeadingWord(s);
    var c := CollapseWhitespace(rest);
    assert CollapseWhitespace(s) == w + c by {
      CollapseKeepsVisiblePrefix(w, rest);
    }
    WordsOfWordThen(w, c);
    WordsOfWordThen(w, rest);
  }

  /** A text starting with a visible character splits into its first word
      and a remainder that is empty or starts with whitespace. */
  lemma LeadingWord(s: string) returns (w: string, rest: string)
    requires s != [] && !IsWhitespace(s[0])
    ensures w != [] && NoWhitespace(w) && s == w + rest
    ensures rest == [] || IsWhitespace(rest[0])
  {
    var m := LeadingRun(s, IsVisible);
    w, rest := s[..m], s[m..];
    assert NoWhitespace(w) by {
      assert forall k :: 0 <= k < m ==> w[k] == s[k];
    }
    ConcatSplit(s, m);
    assert rest == [] || IsWhitespace(rest[0]) by {
      if m < |s| {
        assert rest[0] == s[m];
      }
    }
  }
}
