/** Models of the Python `str` operations the log parser relies on:
    the `in` operator, `find`, `split`, `rfind`, `strip`, and the ASCII
    core of the regular-expression class `\d`, `int()` and `float()`. */
module PyStr {
  import opened Wrappers

  /** `c.isspace()`: the characters `str.strip()` removes. */
  predicate IsSpace(c: char) {
    || ('\t' <= c <= '\r')
    || ('\U{1C}' <= c <= '\U{1F}')
    || c == ' ' || c == '\U{85}' || c == '\U{A0}' || c == '\U{1680}'
    || ('\U{2000}' <= c <= '\U{200A}')
    || c == '\U{2028}' || c == '\U{2029}' || c == '\U{202F}' || c == '\U{205F}' || c == '\U{3000}'
  }

  /** An ASCII decimal digit, the part of `\d` this model covers. */
  predicate IsDigit(c: char) {
    '0' <= c <= '9'
  }

  predicate AllDigits(s: string) {
    forall i :: 0 <= i < |s| ==> IsDigit(s[i])
  }

  predicate AllSpace(s: string) {
    forall i :: 0 <= i < |s| ==> IsSpace(s[i])
  }

  /** `pat` occurs in `s` starting at index `i`. */
  predicate OccursAt(s: string, pat: string, i: int) {
    0 <= i && i + |pat| <= |s| && s[i..i + |pat|] == pat
  }

  /** An occurrence in a suffix is an occurrence in the whole string, shifted. */
  lemma OccursShift(s: string, pat: string, a: nat, k: nat)
    requires a <= |s|
    ensures OccursAt(s[a..], pat, k) <==> OccursAt(s, pat, a + k)
  {
    if k + |pat| <= |s| - a {
      assert s[a..][k..k + |pat|] == s[a + k..a + k + |pat|];
    }
  }

  /** An occurrence in a prefix is an occurrence in the whole string. */
  lemma OccursInPrefix(s: string, pat: string, m: nat, k: nat)
    requires m <= |s| && k + |pat| <= m
    ensures OccursAt(s[..m], pat, k) <==> OccursAt(s, pat, k)
  {
    assert s[..m][k..k + |pat|] == s[k..k + |pat|];
  }

  /** `s.find(pat, from)`: the leftmost occurrence of `pat` at or after `from`. */
  function FindFrom(s: string, pat: string, from: nat): (r: Option<nat>)
    ensures r.Some? ==> from <= r.value && OccursAt(s, pat, r.value)
    ensures r.Some? ==> forall k :: from <= k < r.value ==> !OccursAt(s, pat, k)
    ensures r.None? ==> forall k :: from <= k ==> !OccursAt(s, pat, k)
    decreases |s| - from
  {
    if from + |pat| > |s| then None
    else if s[from..from + |pat|] == pat then Some(from)
    else FindFrom(s, pat, from + 1)
  }

  /** Python's `pat in s`. */
  function Contains(s: string, pat: string): (r: bool)
    ensures r <==> exists k :: OccursAt(s, pat, k)
  {
    FindFrom(s, pat, 0).Some?
  }

  /** `sep.join(parts)`, the inverse of `Split`. */
  function Join(parts: seq<string>, sep: string): string {
    if |parts| == 0 then []
    else if |parts| == 1 then parts[0]
    else parts[0] + sep + Join(parts[1..], sep)
  }

  /** `s.split(sep)` for a non-empty separator: the pieces between the
      non-overlapping occurrences of `sep`, found scanning left to right. */
  function Split(s: string, sep: string): (r: seq<string>)
    requires sep != []
    ensures SplitSpec(s, sep, r)
    ensures |r| >= 2 ==> SplitSpec(s[|r[0]| + |sep|..], sep, r[1..])
    decreases |s|
  {
    match FindFrom(s, sep, 0)
    case None =>
      assert !Contains(s, sep);
      [s]
    case Some(i) =>
      var rest := s[i + |sep|..];
      var tail := Split(rest, sep);
      assert TailFacts(rest, sep, tail);
      SplitStep(s, sep, i, rest, tail);
      assert ([s[..i]] + tail)[1..] == tail;
      [s[..i]] + tail
  }

  /** The pieces after the first are the split of the text after the first
      separator, so every piece of `s.split(sep)` is determined. */
  lemma SplitRest(s: string, sep: string)
    requires sep != []
    ensures var r := Split(s, sep);
            |r| >= 2 ==> r == [s[..|r[0]|]] + Split(s[|r[0]| + |sep|..], sep)
  {
  }

  /** What `Split` promises: joining the pieces gives `s` back, no piece
      contains the separator, there are at least two pieces exactly when
      `s` contains it, and the first piece ends at its first occurrence. */
  predicate SplitSpec(s: string, sep: string, r: seq<string>) {
    && |r| >= 1
    && Join(r, sep) == s
    && (forall i :: 0 <= i < |r| ==> !Contains(r[i], sep))
    && (|r| >= 2 <==> Contains(s, sep))
    && (forall k :: 0 <= k < |r[0]| ==> !OccursAt(s, sep, k))
    && (|r| >= 2 ==> OccursAt(s, sep, |r[0]|))
  }

  /** `piece` lies in `s` at `p` and is followed by the next occurrence of `sep` or by the end. */
  predicate SecondPiece(s: string, sep: string, p: nat, piece: string) {
    && p + |piece| <= |s| && s[p..p + |piece|] == piece
    && (forall k :: p <= k < p + |piece| ==> !OccursAt(s, sep, k))
    && (p + |piece| == |s| || OccursAt(s, sep, p + |piece|))
  }

  /** The inductive step of `Split`: cutting at the first occurrence `i`. */
  lemma SplitStep(s: string, sep: string, i: nat, rest: string, tail: seq<string>)
    requires sep != [] && OccursAt(s, sep, i)
    requires forall k :: 0 <= k < i ==> !OccursAt(s, sep, k)
    requires rest == s[i + |sep|..]
    requires TailFacts(rest, sep, tail)
    ensures SplitSpec(s, sep, [s[..i]] + tail)
  {
    var r := [s[..i]] + tail;
    assert |r[0]| == i && r[1] == tail[0] && |r| >= 2;
    assert Join(r, sep) == s by {
      JoinStep(s, sep, i, rest, tail);
    }
    assert forall j :: 0 <= j < |r| ==> !Contains(r[j], sep) by {
      PiecesStep(s, sep, i, tail);
    }
    assert Contains(s, sep);
  }

  /** The second piece of a split runs from the end of the first occurrence
      to the next occurrence or to the end. */
  lemma SplitSecondPiece(s: string, sep: string, r: seq<string>)
    requires sep != [] && |r| >= 2 && OccursAt(s, sep, |r[0]|)
    requires SplitSpec(s[|r[0]| + |sep|..], sep, r[1..])
    ensures SecondPiece(s, sep, |r[0]| + |sep|, r[1])
  {
    var i := |r[0]|;
    var rest := s[i + |sep|..];
    var tail := r[1..];
    assert tail[0] == r[1];
    assert TailFacts(rest, sep, tail);
    SecondPieceStep(s, sep, i, rest, tail);
  }

  lemma PiecesStep(s: string, sep: string, i: nat, tail: seq<string>)
    requires sep != [] && i <= |s|
    requires forall k :: 0 <= k < i ==> !OccursAt(s, sep, k)
    requires forall j :: 0 <= j < |tail| ==> !Contains(tail[j], sep)
    ensures forall j :: 0 <= j < |[s[..i]] + tail| ==> !Contains(([s[..i]] + tail)[j], sep)
  {
    var r := [s[..i]] + tail;
    NoOccurrenceBefore(s, sep, i);
    forall j | 0 <= j < |r| ensures !Contains(r[j], sep) {
      if j > 0 {
        assert r[j] == tail[j - 1];
      }
    }
  }

  lemma JoinStep(s: string, sep: string, i: nat, rest: string, tail: seq<string>)
    requires OccursAt(s, sep, i) && rest == s[i + |sep|..]
    requires |tail| >= 1 && Join(tail, sep) == rest
    ensures Join([s[..i]] + tail, sep) == s
  {
    JoinCons(s[..i], tail, sep);
    CutAround(s, sep, i);
  }

  lemma JoinCons(x: string, tail: seq<string>, sep: string)
    requires |tail| >= 1
    ensures Join([x] + tail, sep) == x + sep + Join(tail, sep)
  {
    assert ([x] + tail)[1..] == tail;
  }

  /** A string is the text before an occurrence, the occurrence, and the text after it. */
  lemma CutAround(s: string, sep: string, i: nat)
    requires OccursAt(s, sep, i)
    ensures s[..i] + sep + s[i + |sep|..] == s
  {
    assert s[..i + |sep|] == s[..i] + s[i..i + |sep|];
    assert s == s[..i + |sep|] + s[i + |sep|..];
  }

  lemma NoOccurrenceBefore(s: string, sep: string, i: nat)
    requires sep != [] && i <= |s|
    requires forall k :: 0 <= k < i ==> !OccursAt(s, sep, k)
    ensures !Contains(s[..i], sep)
  {
    forall k: nat ensures !OccursAt(s[..i], sep, k) {
      if k + |sep| <= i { OccursInPrefix(s, sep, i, k); }
    }
  }

  /** The parts of `SplitSpec(rest, sep, tail)` the inductive step of `Split` uses. */
  predicate TailFacts(rest: string, sep: string, tail: seq<string>) {
    && |tail| >= 1
    && Join(tail, sep) == rest
    && (forall j :: 0 <= j < |tail| ==> !Contains(tail[j], sep))
    && (forall k :: 0 <= k < |tail[0]| ==> !OccursAt(rest, sep, k))
    && (|tail| >= 2 ==> OccursAt(rest, sep, |tail[0]|))
  }

  lemma SecondPieceStep(s: string, sep: string, i: nat, rest: string, tail: seq<string>)
    requires OccursAt(s, sep, i) && rest == s[i + |sep|..]
    requires TailFacts(rest, sep, tail)
    ensures SecondPiece(s, sep, i + |sep|, tail[0])
  {
    var p := i + |sep|;
    var t := tail[0];
    FirstPiecePrefix(rest, sep, tail);
    assert s[p..p + |t|] == t by {
      assert s[p..p + |t|] == rest[..|t|];
    }
    assert p + |t| == |s| || OccursAt(s, sep, p + |t|) by {
      if |tail| >= 2 {
        OccursShift(s, sep, p, |t|);
      }
    }
    forall k | p <= k < p + |t| ensures !OccursAt(s, sep, k) {
      OccursShift(s, sep, p, k - p);
    }
  }

  /** The first piece is a prefix of the string, the whole of it when there is only one. */
  lemma FirstPiecePrefix(s: string, sep: string, r: seq<string>)
    requires |r| >= 1 && Join(r, sep) == s
    ensures |r[0]| <= |s| && s[..|r[0]|] == r[0]
    ensures |r| == 1 ==> r[0] == s
  {
    if |r| >= 2 {
      assert s == r[0] + (sep + Join(r[1..], sep));
    }
  }

  /** `s.rfind(c)`: the index of the last occurrence of `c`. */
  function RFind(s: string, c: char): (r: Option<nat>)
    ensures r.Some? ==> r.value < |s| && s[r.value] == c
    ensures r.Some? ==> forall k :: r.value < k < |s| ==> s[k] != c
    ensures r.None? ==> c !in s
  {
    if s == [] then None
    else if s[|s| - 1] == c then Some(|s| - 1)
    else RFind(s[..|s| - 1], c)
  }

  /** `s.lstrip()`. */
  function TrimStart(s: string): (r: string)
    ensures |r| <= |s| && r == s[|s| - |r|..]
    ensures AllSpace(s[..|s| - |r|])
    ensures r == [] || !IsSpace(r[0])
  {
    if s != [] && IsSpace(s[0]) then
      var r := TrimStart(s[1..]);
      TrimStartStep(s, r);
      r
    else s
  }

  lemma TrimStartStep(s: string, r: string)
    requires s != [] && IsSpace(s[0])
    requires |r| <= |s| - 1 && r == s[1..][|s| - 1 - |r|..] && AllSpace(s[1..][..|s| - 1 - |r|])
    ensures r == s[|s| - |r|..] && AllSpace(s[..|s| - |r|])
  {
    var n := |s| - |r|;
    assert s[1..][n - 1..] == s[n..];
    forall k | 0 <= k < n ensures IsSpace(s[..n][k]) {
      if k > 0 {
        assert s[..n][k] == s[1..][..n - 1][k - 1];
      }
    }
  }

  /** `s.rstrip()`. */
  function TrimEnd(s: string): (r: string)
    ensures |r| <= |s| && r == s[..|r|]
    ensures AllSpace(s[|r|..])
    ensures r == [] || !IsSpace(r[|r| - 1])
  {
    if s != [] && IsSpace(s[|s| - 1]) then
      var r := TrimEnd(s[..|s| - 1]);
      TrimEndStep(s, r);
      r
    else s
  }

  lemma TrimEndStep(s: string, r: string)
    requires s != [] && IsSpace(s[|s| - 1])
    requires |r| <= |s| - 1 && r == s[..|s| - 1][..|r|] && AllSpace(s[..|s| - 1][|r|..])
    ensures r == s[..|r|] && AllSpace(s[|r|..])
  {
    var init := s[..|s| - 1];
    assert init[..|r|] == s[..|r|];
    forall k | 0 <= k < |s| - |r| ensures IsSpace(s[|r|..][k]) {
      if k < |s| - 1 - |r| {
        assert s[|r|..][k] == init[|r|..][k];
      }
    }
  }

  /** `s.strip()`: `s` without its leading and trailing white space. */
  function Strip(s: string): (r: string)
    ensures r == [] || (!IsSpace(r[0]) && !IsSpace(r[|r| - 1]))
    ensures exists a :: StrippedAt(s, r, a)
  {
    var t := TrimStart(s);
    var r := TrimEnd(t);
    StripFacts(s, t, r);
    r
  }

  /** Trimming both sides leaves a slice of `s` with no white space at either end. */
  lemma StripFacts(s: string, t: string, r: string)
    requires |t| <= |s| && t == s[|s| - |t|..] && AllSpace(s[..|s| - |t|])
    requires t == [] || !IsSpace(t[0])
    requires |r| <= |t| && r == t[..|r|] && AllSpace(t[|r|..])
    requires r == [] || !IsSpace(r[|r| - 1])
    ensures r == [] || (!IsSpace(r[0]) && !IsSpace(r[|r| - 1]))
    ensures exists a :: StrippedAt(s, r, a)
  {
    var a := |s| - |t|;
    assert s[a..a + |r|] == r;
    assert s[a + |r|..] == t[|r|..];
    assert StrippedAt(s, r, a);
    if r != [] {
      assert r[0] == t[0];
    }
  }

  /** `r` is the slice of `s` at `a` and everything around it is white space. */
  predicate StrippedAt(s: string, r: string, a: int) {
    && 0 <= a && a + |r| <= |s| && s[a..a + |r|] == r
    && AllSpace(s[..a]) && AllSpace(s[a + |r|..])
  }

  /** Stripping only removes characters: every character of the result is one of `s`. */
  lemma StripKeeps(s: string, c: char)
    ensures c in Strip(s) ==> c in s
  {
    var r := Strip(s);
    var a :| StrippedAt(s, r, a);
    SliceKeeps(s, r, a, c);
  }

  lemma SliceKeeps(s: string, r: string, a: nat, c: char)
    requires a + |r| <= |s| && s[a..a + |r|] == r
    ensures c in r ==> c in s
  {
    if c in r {
      var k :| 0 <= k < |r| && r[k] == c;
      assert s[a..a + |r|][k] == s[a + k];
    }
  }

  lemma {:induction false} TrimStartOver(a: string, t: string)
    requires AllSpace(a) && (t == [] || !IsSpace(t[0]))
    ensures TrimStart(a + t) == t
    decreases |a|
  {
    if a == [] {
      assert a + t == t;
    } else {
      assert (a + t)[1..] == a[1..] + t;
      TrimStartOver(a[1..], t);
    }
  }

  lemma {:induction false} TrimEndOver(t: string, b: string)
    requires AllSpace(b) && (t == [] || !IsSpace(t[|t| - 1]))
    ensures TrimEnd(t + b) == t
    decreases |b|
  {
    if b == [] {
      assert t + b == t;
    } else {
      assert (t + b)[..|t + b| - 1] == t + b[..|b| - 1];
      TrimEndOver(t, b[..|b| - 1]);
    }
  }

  /** White space around a core that starts and ends with a non-space is what `strip` removes. */
  lemma StripAround(a: string, core: string, b: string)
    requires AllSpace(a) && AllSpace(b)
    requires core != [] && !IsSpace(core[0]) && !IsSpace(core[|core| - 1])
    ensures Strip(a + core + b) == core
  {
    assert a + core + b == a + (core + b);
    TrimStartOver(a, core + b);
    TrimEndOver(core, b);
  }

  /** Stripping the left side of a string followed by a text that starts with a non-space. */
  lemma {:induction false} TrimStartAppend(s: string, t: string)
    requires t != [] && !IsSpace(t[0])
    ensures TrimStart(s + t) == TrimStart(s) + t
    decreases |s|
  {
    if s == [] {
      assert s + t == t;
    } else if IsSpace(s[0]) {
      assert (s + t)[1..] == s[1..] + t;
      TrimStartAppend(s[1..], t);
    }
  }

  /** `strip()` after `lstrip()` is `strip()`. */
  lemma StripTrimStart(s: string)
    ensures Strip(TrimStart(s)) == Strip(s)
  {
    var t := TrimStart(s);
    assert TrimStart(t) == t;
  }

  /** Length of the longest all-digit prefix of `s`: what a greedy `\d+` consumes. */
  function DigitRun(s: string): (r: nat)
    ensures r <= |s| && AllDigits(s[..r])
    ensures r == |s| || !IsDigit(s[r])
  {
    if s != [] && IsDigit(s[0]) then
      var r := 1 + DigitRun(s[1..]);
      assert forall i :: 1 <= i < r ==> s[..r][i] == s[1..][..r - 1][i - 1];
      r
    else 0
  }

  /** A digit string followed by a non-digit is exactly what `\d+` consumes. */
  lemma {:induction false} DigitRunOf(ds: string, rest: string)
    requires AllDigits(ds) && (rest == [] || !IsDigit(rest[0]))
    ensures DigitRun(ds + rest) == |ds|
    decreases |ds|
  {
    if ds == [] {
      assert ds + rest == rest;
    } else {
      var t := ds + rest;
      assert t[0] == ds[0] && IsDigit(t[0]);
      assert t[1..] == ds[1..] + rest;
      assert AllDigits(ds[1..]) by {
        forall k | 0 <= k < |ds[1..]| ensures IsDigit(ds[1..][k]) {
          assert ds[1..][k] == ds[k + 1];
        }
      }
      DigitRunOf(ds[1..], rest);
    }
  }

  function Pow10(k: nat): (r: nat)
    ensures r >= 1
  {
    if k == 0 then 1 else 10 * Pow10(k - 1)
  }

  function DigitValue(c: char): nat
    requires IsDigit(c)
  {
    c as int - '0' as int
  }

  /** `int(ds)` for a non-empty string of ASCII digits: its value in base ten. */
  function DigitsValue(ds: string): (n: nat)
    requires AllDigits(ds)
    ensures n < Pow10(|ds|)
  {
    if ds == [] then 0
    else
      var init := ds[..|ds| - 1];
      var n := 10 * DigitsValue(init) + DigitValue(ds[|ds| - 1]);
      assert DigitsValue(init) + 1 <= Pow10(|init|);
      assert 10 * (DigitsValue(init) + 1) <= 10 * Pow10(|init|);
      n
  }

  lemma FractionBelowOne(x: real, y: real)
    requires 0.0 <= x < y
    ensures 0.0 <= x / y < 1.0
  {
    assert x / y * y == x;
  }

  /** `float(i + "." + f)`, as an exact rational number: the whole part is
      the value of `i` and the fraction below one comes from `f`. */
  function DecimalValue(i: string, f: string): (v: real)
    requires AllDigits(i) && AllDigits(f)
    ensures DigitsValue(i) as real <= v < DigitsValue(i) as real + 1.0
  {
    var frac := DigitsValue(f) as real / Pow10(|f|) as real;
    FractionBelowOne(DigitsValue(f) as real, Pow10(|f|) as real);
    DigitsValue(i) as real + frac
  }
}
