/** The analysis step of the timing-log viewer (dataview.py, lines 102-125):
    total time per component, sorted by descending total, and the
    layer-by-component table of mean times restricted to the display order. */
module Aggregate {
  import opened LogLine

  /** `component_order` (line 120): the display order of the stacked chart. */
  const ComponentOrder: seq<string> :=
    ["RMSNorm", "in_proj", "Convolution", "SSM parameters", "SSM scan/update", "out_proj"]

  predicate Distinct<T(==)>(s: seq<T>) {
    forall i, j :: 0 <= i < j < |s| ==> s[i] != s[j]
  }

  /** Cancelling one occurrence on both sides of a multiset equality. */
  lemma MultisetRemove<T>(init: seq<T>, b: seq<T>, k: int)
    requires 0 <= k < |b|
    requires multiset(b) == multiset(init) + multiset{b[k]}
    ensures multiset(init) == multiset(b[..k] + b[k + 1..])
  {
    var x := b[k];
    var rest := b[..k] + b[k + 1..];
    assert b == b[..k] + [x] + b[k + 1..];
    assert multiset(b) == multiset(rest) + multiset{x};
    assert multiset(init) == multiset(init) + multiset{x} - multiset{x};
    assert multiset(rest) == multiset(rest) + multiset{x} - multiset{x};
  }

  predicate HasComponent(records: seq<Record>, c: string) {
    exists k :: 0 <= k < |records| && records[k].component == c
  }

  predicate HasLayer(records: seq<Record>, l: nat) {
    exists k :: 0 <= k < |records| && records[k].layer == l
  }

  predicate InCell(r: Record, l: nat, c: string) {
    r.layer == l && r.component == c
  }

  predicate HasCell(records: seq<Record>, l: nat, c: string) {
    exists k :: 0 <= k < |records| && InCell(records[k], l, c)
  }

  lemma HasSnoc(records: seq<Record>)
    requires records != []
    ensures var init, last := records[..|records| - 1], records[|records| - 1];
      && (forall c :: HasComponent(records, c) <==> HasComponent(init, c) || last.component == c)
      && (forall l :: HasLayer(records, l) <==> HasLayer(init, l) || last.layer == l)
      && (forall l, c :: HasCell(records, l, c) <==> HasCell(init, l, c) || InCell(last, l, c))
  {
    var init := records[..|records| - 1];
    assert forall k :: 0 <= k < |init| ==> init[k] == records[k];
  }

  // ---------------------------------------------------------------------
  // Line 108: df.groupby('component')['time_ms'].sum().sort_values(ascending=False)
  // ---------------------------------------------------------------------

  /** The sum of `time_ms` over the records of component `c`. */
  function SumFor(records: seq<Record>, c: string): real {
    if records == [] then 0.0
    else
      var last := records[|records| - 1];
      SumFor(records[..|records| - 1], c) + (if last.component == c then last.timeMs else 0.0)
  }

  /** Sums split over concatenation. */
  lemma {:induction false} SumForAppend(a: seq<Record>, b: seq<Record>, c: string)
    ensures SumFor(a + b, c) == SumFor(a, c) + SumFor(b, c)
    decreases |b|
  {
    if b == [] {
      assert a + b == a;
    } else {
      var init := b[..|b| - 1];
      assert (a + b)[..|a + b| - 1] == a + init;
      SumForAppend(a, init, c);
    }
  }

  /** The total of a component does not depend on the order of the log lines. */
  lemma {:induction false} SumForPermutation(a: seq<Record>, b: seq<Record>, c: string)
    requires multiset(a) == multiset(b)
    ensures SumFor(a, c) == SumFor(b, c)
    decreases |a|
  {
    if a == [] {
      assert |b| == |multiset(b)| == 0;
    } else {
      var x := a[|a| - 1];
      var init := a[..|a| - 1];
      assert a == init + [x];
      assert multiset(a) == multiset(init) + multiset{x};
      assert x in multiset(b);
      var k :| 0 <= k < |b| && b[k] == x;
      MultisetRemove(init, b, k);
      SumForPermutation(init, b[..k] + b[k + 1..], c);
      SumForRemove(b, k, c);
    }
  }

  /** Taking out the `k`-th record takes its time out of its component's sum. */
  lemma SumForRemove(b: seq<Record>, k: int, c: string)
    requires 0 <= k < |b|
    ensures SumFor(b, c) == SumFor(b[..k] + b[k + 1..], c) + (if b[k].component == c then b[k].timeMs else 0.0)
  {
    var x := b[k];
    assert b == b[..k] + [x] + b[k + 1..];
    SumForAppend(b[..k] + [x], b[k + 1..], c);
    SumForAppend(b[..k], [x], c);
    SumForAppend(b[..k], b[k + 1..], c);
    assert [x][..0] == [];
  }

  /** The components present, each once, in order of first appearance. */
  function Components(records: seq<Record>): (cs: seq<string>)
    ensures Distinct(cs)
    ensures forall c :: c in cs <==> HasComponent(records, c)
  {
    if records == [] then []
    else
      var init := Components(records[..|records| - 1]);
      var c := records[|records| - 1].component;
      HasSnoc(records);
      if c in init then init else init + [c]
  }

  predicate SortedDesc(s: seq<(string, real)>) {
    forall i, j :: 0 <= i < j < |s| ==> s[i].1 >= s[j].1
  }

  /** Insert `x` before the first entry with a smaller total. */
  function InsertDesc(x: (string, real), s: seq<(string, real)>): (r: seq<(string, real)>)
    requires SortedDesc(s)
    ensures SortedDesc(r)
    ensures multiset(r) == multiset(s) + multiset{x}
    ensures forall y :: y in r <==> y in s || y == x
    ensures Distinct(s) && x !in s ==> Distinct(r)
  {
    if s == [] || x.1 >= s[0].1 then
      InsertFront(x, s);
      [x] + s
    else
      var tail := InsertDesc(x, s[1..]);
      InsertBehind(x, s, tail);
      [s[0]] + tail
  }

  lemma InsertFront(x: (string, real), s: seq<(string, real)>)
    requires SortedDesc(s) && (s == [] || x.1 >= s[0].1)
    ensures SortedDesc([x] + s)
    ensures Distinct(s) && x !in s ==> Distinct([x] + s)
  {
    var r := [x] + s;
    forall i, j | 0 <= i < j < |r| ensures r[i].1 >= r[j].1 {
      if i > 0 {
        assert r[i] == s[i - 1] && r[j] == s[j - 1];
      } else if j > 1 {
        assert r[j] == s[j - 1];
      }
    }
  }

  lemma InsertBehind(x: (string, real), s: seq<(string, real)>, tail: seq<(string, real)>)
    requires SortedDesc(s) && s != [] && x.1 < s[0].1
    requires SortedDesc(tail)
    requires multiset(tail) == multiset(s[1..]) + multiset{x}
    requires forall y :: y in tail <==> y in s[1..] || y == x
    requires Distinct(s[1..]) && x !in s[1..] ==> Distinct(tail)
    ensures SortedDesc([s[0]] + tail)
    ensures multiset([s[0]] + tail) == multiset(s) + multiset{x}
    ensures forall y :: y in [s[0]] + tail <==> y in s || y == x
    ensures Distinct(s) && x !in s ==> Distinct([s[0]] + tail)
  {
    assert s == [s[0]] + s[1..];
    forall k | 0 <= k < |tail| ensures s[0].1 >= tail[k].1 {
      if tail[k] != x {
        assert tail[k] in s[1..];
        var m :| 0 <= m < |s[1..]| && s[1..][m] == tail[k];
        assert s[m + 1] == tail[k];
      }
    }
    ConsSorted(s[0], tail);
    if Distinct(s) && x !in s {
      assert Distinct(s[1..]) by {
        forall i, j | 0 <= i < j < |s[1..]| ensures s[1..][i] != s[1..][j] {
          assert s[1..][i] == s[i + 1] && s[1..][j] == s[j + 1];
        }
      }
      assert s[0] !in tail by {
        assert s[0] !in s[1..];
      }
      ConsDistinct(s[0], tail);
    }
  }

  /** A head no smaller than every later total keeps the order descending. */
  lemma ConsSorted(h: (string, real), t: seq<(string, real)>)
    requires SortedDesc(t)
    requires forall k :: 0 <= k < |t| ==> h.1 >= t[k].1
    ensures SortedDesc([h] + t)
  {
    var r := [h] + t;
    forall i, j | 0 <= i < j < |r| ensures r[i].1 >= r[j].1 {
      assert r[j] == t[j - 1];
      if i > 0 {
        assert r[i] == t[i - 1];
      }
    }
  }

  /** A new head keeps the names distinct. */
  lemma ConsDistinct<T>(h: T, t: seq<T>)
    requires Distinct(t) && h !in t
    ensures Distinct([h] + t)
  {
    var r := [h] + t;
    forall i, j | 0 <= i < j < |r| ensures r[i] != r[j] {
      assert r[j] == t[j - 1];
      if i > 0 {
        assert r[i] == t[i - 1];
      }
    }
  }

  /** Sorting by descending total: a sorted permutation. */
  function SortDesc(s: seq<(string, real)>): (r: seq<(string, real)>)
    ensures SortedDesc(r)
    ensures multiset(r) == multiset(s)
    ensures forall y :: y in r <==> y in s
    ensures Distinct(s) ==> Distinct(r)
  {
    if s == [] then []
    else
      assert s == [s[0]] + s[1..];
      InsertDesc(s[0], SortDesc(s[1..]))
  }

  /** One (component, total) pair per component name in `cs`. */
  function Groups(records: seq<Record>, cs: seq<string>): (g: seq<(string, real)>)
    ensures |g| == |cs|
    ensures forall i :: 0 <= i < |g| ==> g[i] == (cs[i], SumFor(records, cs[i]))
  {
    seq(|cs|, i requires 0 <= i < |cs| => (cs[i], SumFor(records, cs[i])))
  }

  /** `aggregated_time`: each component present once, with the sum of its
      times, listed from the largest total to the smallest. */
  function AggregatedTime(records: seq<Record>): (r: seq<(string, real)>)
    ensures SortedDesc(r)
    ensures |r| == |Components(records)|
    ensures forall i :: 0 <= i < |r| ==> r[i].1 == SumFor(records, r[i].0)
    ensures forall i :: 0 <= i < |r| ==> HasComponent(records, r[i].0)
    ensures forall c :: HasComponent(records, c) ==> exists i :: 0 <= i < |r| && r[i].0 == c
    ensures forall i, j :: 0 <= i < j < |r| ==> r[i].0 != r[j].0
  {
    var cs := Components(records);
    var g := Groups(records, cs);
    var r := SortDesc(g);
    GroupsSorted(records, cs, g, r);
    r
  }

  lemma GroupsSorted(records: seq<Record>, cs: seq<string>, g: seq<(string, real)>, r: seq<(string, real)>)
    requires Distinct(cs) && forall c :: c in cs <==> HasComponent(records, c)
    requires |g| == |cs| && forall i :: 0 <= i < |g| ==> g[i] == (cs[i], SumFor(records, cs[i]))
    requires multiset(r) == multiset(g) && (forall y :: y in r <==> y in g) && (Distinct(g) ==> Distinct(r))
    ensures |r| == |cs|
    ensures forall i :: 0 <= i < |r| ==> r[i].1 == SumFor(records, r[i].0) && HasComponent(records, r[i].0)
    ensures forall c :: HasComponent(records, c) ==> exists i :: 0 <= i < |r| && r[i].0 == c
    ensures forall i, j :: 0 <= i < j < |r| ==> r[i].0 != r[j].0
  {
    assert |multiset(r)| == |multiset(g)|;
    forall i | 0 <= i < |r| ensures r[i].1 == SumFor(records, r[i].0) && HasComponent(records, r[i].0) {
      assert r[i] in g;
      var k :| 0 <= k < |g| && g[k] == r[i];
      assert cs[k] in cs;
    }
    forall c | HasComponent(records, c) ensures exists i :: 0 <= i < |r| && r[i].0 == c {
      var k :| 0 <= k < |cs| && cs[k] == c;
      assert g[k] in r;
    }
    assert Distinct(g) by {
      forall i, j | 0 <= i < j < |g| ensures g[i] != g[j] {
        assert g[i].0 == cs[i] && g[j].0 == cs[j];
      }
    }
  }

  /** The time of all records together. */
  function Total(records: seq<Record>): real {
    if records == [] then 0.0
    else Total(records[..|records| - 1]) + records[|records| - 1].timeMs
  }

  /** The sum of the totals of a list of (component, total) pairs. */
  function SumTotals(g: seq<(string, real)>): real {
    if g == [] then 0.0 else g[0].1 + SumTotals(g[1..])
  }

  lemma {:induction false} SumTotalsAppend(a: seq<(string, real)>, b: seq<(string, real)>)
    ensures SumTotals(a + b) == SumTotals(a) + SumTotals(b)
    decreases |a|
  {
    if a == [] {
      assert a + b == b;
    } else {
      assert (a + b)[1..] == a[1..] + b;
      SumTotalsAppend(a[1..], b);
    }
  }

  /** Reordering the pairs does not change the sum of the totals. */
  lemma {:induction false} SumTotalsPermutation(a: seq<(string, real)>, b: seq<(string, real)>)
    requires multiset(a) == multiset(b)
    ensures SumTotals(a) == SumTotals(b)
    decreases |a|
  {
    if a == [] {
      assert |b| == |multiset(b)| == 0;
    } else {
      var x := a[0];
      assert a == [x] + a[1..];
      assert multiset(a) == multiset(a[1..]) + multiset{x};
      assert x in multiset(b);
      var k :| 0 <= k < |b| && b[k] == x;
      MultisetRemove(a[1..], b, k);
      SumTotalsPermutation(a[1..], b[..k] + b[k + 1..]);
      SumTotalsRemove(b, k);
    }
  }

  /** Taking out the `k`-th pair takes its total out of the sum. */
  lemma SumTotalsRemove(b: seq<(string, real)>, k: int)
    requires 0 <= k < |b|
    ensures SumTotals(b) == SumTotals(b[..k] + b[k + 1..]) + b[k].1
  {
    var x := b[k];
    assert b == b[..k] + ([x] + b[k + 1..]);
    SumTotalsAppend(b[..k], [x] + b[k + 1..]);
    SumTotalsAppend(b[..k], b[k + 1..]);
    assert ([x] + b[k + 1..])[1..] == b[k + 1..];
  }

  /** The sum over the names in `cs` of each name's total. */
  function SumOver(records: seq<Record>, cs: seq<string>): real {
    if cs == [] then 0.0 else SumFor(records, cs[0]) + SumOver(records, cs[1..])
  }

  lemma {:induction false} SumOverAppend(a: seq<Record>, b: seq<Record>, cs: seq<string>)
    ensures SumOver(a + b, cs) == SumOver(a, cs) + SumOver(b, cs)
    decreases |cs|
  {
    if cs != [] {
      SumForAppend(a, b, cs[0]);
      SumOverAppend(a, b, cs[1..]);
    }
  }

  /** A single record counts once, under its own name, when the names are distinct. */
  lemma {:induction false} SumOverOne(x: Record, cs: seq<string>)
    requires Distinct(cs)
    ensures SumOver([x], cs) == if x.component in cs then x.timeMs else 0.0
    decreases |cs|
  {
    if cs != [] {
      assert [x][..0] == [];
      assert SumFor([x], cs[0]) == if x.component == cs[0] then x.timeMs else 0.0;
      assert forall i :: 0 <= i < |cs[1..]| ==> cs[1..][i] == cs[i + 1];
      SumOverOne(x, cs[1..]);
      assert x.component in cs <==> x.component == cs[0] || x.component in cs[1..];
    }
  }

  /** Summing each name's total over a list of distinct names covering every
      record gives the time of all records. */
  lemma {:induction false} SumOverAll(records: seq<Record>, cs: seq<string>)
    requires Distinct(cs) && forall k :: 0 <= k < |records| ==> records[k].component in cs
    ensures SumOver(records, cs) == Total(records)
    decreases |records|
  {
    if records == [] {
      SumOverEmpty(cs);
    } else {
      var init := records[..|records| - 1];
      var x := records[|records| - 1];
      assert records == init + [x];
      SumOverAll(init, cs);
      SumOverAppend(init, [x], cs);
      SumOverOne(x, cs);
    }
  }

  lemma {:induction false} SumOverEmpty(cs: seq<string>)
    ensures SumOver([], cs) == 0.0
    decreases |cs|
  {
    if cs != [] {
      SumOverEmpty(cs[1..]);
    }
  }

  lemma {:induction false} GroupsSum(records: seq<Record>, cs: seq<string>)
    ensures SumTotals(Groups(records, cs)) == SumOver(records, cs)
    decreases |cs|
  {
    if cs != [] {
      assert Groups(records, cs)[1..] == Groups(records, cs[1..]);
      GroupsSum(records, cs[1..]);
    }
  }

  /** No time is lost or counted twice: the component totals add up to the
      time of all timing records. */
  lemma TotalsAddUp(records: seq<Record>)
    ensures SumTotals(AggregatedTime(records)) == Total(records)
  {
    var cs := Components(records);
    var g := Groups(records, cs);
    assert AggregatedTime(records) == SortDesc(g);
    SumTotalsPermutation(SortDesc(g), g);
    GroupsSum(records, cs);
    forall k | 0 <= k < |records| ensures records[k].component in cs {
      assert HasComponent(records, records[k].component);
    }
    SumOverAll(records, cs);
  }

  // ---------------------------------------------------------------------
  // Line 116: df.pivot_table(index='layer', columns='component', values='time_ms', fill_value=0)
  // ---------------------------------------------------------------------

  predicate StrictlyIncreasing(s: seq<nat>) {
    forall i, j :: 0 <= i < j < |s| ==> s[i] < s[j]
  }

  function InsertLayer(l: nat, s: seq<nat>): (r: seq<nat>)
    requires StrictlyIncreasing(s)
    ensures StrictlyIncreasing(r)
    ensures forall x :: x in r <==> x in s || x == l
  {
    if s == [] || l < s[0] then
      assert forall x :: x in [l] + s <==> x == l || x in s;
      [l] + s
    else if l == s[0] then s
    else
      assert s == [s[0]] + s[1..];
      var tail := InsertLayer(l, s[1..]);
      assert forall k :: 0 <= k < |tail| ==> tail[k] in tail;
      assert forall x :: x in s[1..] ==> s[0] < x;
      [s[0]] + tail
  }

  /** The pivot's index: the layers present, in increasing order, each once. */
  function Layers(records: seq<Record>): (ls: seq<nat>)
    ensures StrictlyIncreasing(ls)
    ensures forall l :: l in ls <==> HasLayer(records, l)
  {
    if records == [] then []
    else
      HasSnoc(records);
      InsertLayer(records[|records| - 1].layer, Layers(records[..|records| - 1]))
  }

  /** The number of records of layer `l` and component `c`. */
  function CountCell(records: seq<Record>, l: nat, c: string): (n: nat)
    ensures n <= |records|
    ensures n == 0 <==> !HasCell(records, l, c)
  {
    if records == [] then 0
    else
      HasSnoc(records);
      CountCell(records[..|records| - 1], l, c) + (if InCell(records[|records| - 1], l, c) then 1 else 0)
  }

  /** The sum of `time_ms` over the records of layer `l` and component `c`. */
  function SumCell(records: seq<Record>, l: nat, c: string): real {
    if records == [] then 0.0
    else
      var last := records[|records| - 1];
      SumCell(records[..|records| - 1], l, c) + (if InCell(last, l, c) then last.timeMs else 0.0)
  }

  /** A cell of the pivot: pandas' default aggregation, the mean, and the
      fill value 0 where no record has this layer and component. */
  function Cell(records: seq<Record>, l: nat, c: string): (v: real)
    ensures !HasCell(records, l, c) ==> v == 0.0
    ensures HasCell(records, l, c) ==> v * (CountCell(records, l, c) as real) == SumCell(records, l, c)
  {
    var n := CountCell(records, l, c);
    if n == 0 then 0.0 else SumCell(records, l, c) / n as real
  }

  /** The cell's sum lies between the count times any lower and upper bound of its times. */
  lemma {:induction false} SumCellBounds(records: seq<Record>, l: nat, c: string, lo: real, hi: real)
    requires forall k :: 0 <= k < |records| && InCell(records[k], l, c) ==> lo <= records[k].timeMs <= hi
    ensures Bracketed(CountCell(records, l, c) as real, SumCell(records, l, c), lo, hi)
    decreases |records|
  {
    if records != [] {
      var init := records[..|records| - 1];
      assert forall k :: 0 <= k < |init| ==> init[k] == records[k];
      var last := records[|records| - 1];
      SumCellBounds(init, l, c, lo, hi);
      var n := CountCell(init, l, c) as real;
      var sum := SumCell(init, l, c);
      if InCell(last, l, c) {
        assert lo <= last.timeMs <= hi;
        StepBounds(n, sum, last.timeMs, lo, hi);
        assert CountCell(records, l, c) as real == n + 1.0;
        assert SumCell(records, l, c) == sum + last.timeMs;
      } else {
        assert CountCell(records, l, c) as real == n;
        assert SumCell(records, l, c) == sum;
      }
    }
  }

  /** `sum` lies between `n` times `lo` and `n` times `hi`. */
  predicate Bracketed(n: real, sum: real, lo: real, hi: real) {
    n * lo <= sum <= n * hi
  }

  lemma StepBounds(n: real, sum: real, t: real, lo: real, hi: real)
    requires Bracketed(n, sum, lo, hi) && lo <= t <= hi
    ensures Bracketed(n + 1.0, sum + t, lo, hi)
  {
    assert (n + 1.0) * lo == n * lo + lo;
    assert (n + 1.0) * hi == n * hi + hi;
  }

  /** A mean lies between the smallest and the largest time it averages. */
  lemma CellWithinBounds(records: seq<Record>, l: nat, c: string, lo: real, hi: real)
    requires HasCell(records, l, c)
    requires forall k :: 0 <= k < |records| && InCell(records[k], l, c) ==> lo <= records[k].timeMs <= hi
    ensures lo <= Cell(records, l, c) <= hi
  {
    SumCellBounds(records, l, c, lo, hi);
    MeanBounds(SumCell(records, l, c), CountCell(records, l, c) as real, lo, hi);
  }

  lemma MeanBounds(sum: real, n: real, lo: real, hi: real)
    requires n > 0.0 && Bracketed(n, sum, lo, hi)
    ensures lo <= sum / n <= hi
  {
    assert sum / n * n == sum;
    assert (sum / n - lo) * n == sum - n * lo;
    assert (hi - sum / n) * n == n * hi - sum;
  }

  /** A layer-by-component table: `cells[i][j]` belongs to `layers[i]` and `columns[j]`. */
  datatype Table = Table(layers: seq<nat>, columns: seq<string>, cells: seq<seq<real>>)

  predicate Shaped(t: Table) {
    |t.cells| == |t.layers| && forall i :: 0 <= i < |t.cells| ==> |t.cells[i]| == |t.columns|
  }

  /** `pivot_df`: every layer present as a row, every component present as
      a column, every cell the mean of its records or 0. */
  function PivotTable(records: seq<Record>): (t: Table)
    ensures Shaped(t)
    ensures StrictlyIncreasing(t.layers) && forall l :: l in t.layers <==> HasLayer(records, l)
    ensures Distinct(t.columns) && forall c :: c in t.columns <==> HasComponent(records, c)
    ensures forall i, j :: 0 <= i < |t.layers| && 0 <= j < |t.columns| ==>
              t.cells[i][j] == Cell(records, t.layers[i], t.columns[j])
  {
    var ls := Layers(records);
    var cs := Components(records);
    Table(ls, cs, seq(|ls|, i requires 0 <= i < |ls| =>
                        seq(|cs|, j requires 0 <= j < |cs| => Cell(records, ls[i], cs[j]))))
  }

  // ---------------------------------------------------------------------
  // Lines 120-125: the display columns
  // ---------------------------------------------------------------------

  /** `a` can be obtained from `b` by deleting elements. */
  predicate IsSubsequence(a: seq<string>, b: seq<string>)
    decreases |b|
  {
    if a == [] then true
    else if b == [] then false
    else if a[0] == b[0] then IsSubsequence(a[1..], b[1..])
    else IsSubsequence(a, b[1..])
  }

  /** `[c for c in order if c in present]`. */
  function FilterPresent(order: seq<string>, present: seq<string>): (r: seq<string>)
    ensures IsSubsequence(r, order)
    ensures forall c :: c in r <==> c in order && c in present
    ensures Distinct(order) ==> Distinct(r)
  {
    if order == [] then []
    else
      var rest := FilterPresent(order[1..], present);
      assert forall c :: c in order <==> c == order[0] || c in order[1..];
      if order[0] in present then [order[0]] + rest else rest
  }

  /** `ordered_columns` (line 124): the display order cut down to the columns present. */
  function OrderedColumns(present: seq<string>): (cols: seq<string>)
    ensures IsSubsequence(cols, ComponentOrder)
    ensures Distinct(cols)
    ensures forall c :: c in cols <==> c in ComponentOrder && c in present
  {
    FilterPresent(ComponentOrder, present)
  }

  function IndexOf(s: seq<string>, x: string): (k: nat)
    requires x in s
    ensures k < |s| && s[k] == x
  {
    if s[0] == x then 0 else 1 + IndexOf(s[1..], x)
  }

  /** `pivot_df[cols]` (line 125): the same rows, only the columns named, in that order. */
  function SelectColumns(t: Table, cols: seq<string>): (r: Table)
    requires Shaped(t) && forall c :: c in cols ==> c in t.columns
    ensures Shaped(r) && r.layers == t.layers && r.columns == cols
    ensures Distinct(t.columns) ==>
              forall i, j, k :: 0 <= i < |r.layers| && 0 <= j < |cols| && 0 <= k < |t.columns| && t.columns[k] == cols[j]
                ==> r.cells[i][j] == t.cells[i][k]
  {
    Table(t.layers, cols, seq(|t.layers|, i requires 0 <= i < |t.layers| =>
                              seq(|cols|, j requires 0 <= j < |cols| => t.cells[i][IndexOf(t.columns, cols[j])])))
  }

  /** The table behind the stacked bar chart: rows are the layers present in
      increasing order, columns the display-order components present, and each
      cell the mean time of its layer and component, or 0. */
  function LayerBreakdown(records: seq<Record>): (t: Table)
    ensures Shaped(t)
    ensures StrictlyIncreasing(t.layers) && forall l :: l in t.layers <==> HasLayer(records, l)
    ensures IsSubsequence(t.columns, ComponentOrder) && Distinct(t.columns)
    ensures forall c :: c in t.columns <==> c in ComponentOrder && HasComponent(records, c)
    ensures forall i, j :: 0 <= i < |t.layers| && 0 <= j < |t.columns| ==>
              t.cells[i][j] == Cell(records, t.layers[i], t.columns[j])
  {
    var p := PivotTable(records);
    var cols := OrderedColumns(p.columns);
    var t := SelectColumns(p, cols);
    forall i, j | 0 <= i < |t.layers| && 0 <= j < |t.columns|
      ensures t.cells[i][j] == Cell(records, t.layers[i], t.columns[j])
    {
      var k := IndexOf(p.columns, cols[j]);
    }
    t
  }

  /** The normalised name of `selective_state_update` is "SSM scan", but the
      display order lists "SSM scan/update": that column is never shown. */
  lemma ScanColumnNeverShown(records: seq<Record>)
    ensures Normalise("selective_state_update") == "SSM scan"
    ensures "SSM scan" !in LayerBreakdown(records).columns
  {
  }

  /** A cell with no record is 0 in the displayed table. */
  lemma MissingCellIsZero(records: seq<Record>, i: nat, j: nat)
    requires var t := LayerBreakdown(records); i < |t.layers| && j < |t.columns|
    requires var t := LayerBreakdown(records); !HasCell(records, t.layers[i], t.columns[j])
    ensures LayerBreakdown(records).cells[i][j] == 0.0
  {
  }
}
