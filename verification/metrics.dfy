/**
 The dashboard's figures over the filtered rows: the headline counts
 (main.py lines 301-327), the per-column coverage percentages (lines
 425-441), the monthly registration timeline (lines 385-387), the managers
 reaching the most depositaries (line 706) and the market-concentration
 measures (lines 743-754). Percentages and shares are exact reals; the
 script's floating point and its display rounding are not modelled.
 */
module Metrics {
  import opened Optional
  import opened Seqs
  import opened Records

  // ---------------------------------------------------------------- coverage

  /** `notna().sum()`: how many cells hold a value. */
  function CountPresent(cells: seq<Cell>): (n: nat)
    ensures n + multiset(cells)[Missing] == |cells|
    ensures n == |cells| <==> forall i :: 0 <= i < |cells| ==> cells[i] != Missing
    ensures n == 0 <==> forall i :: 0 <= i < |cells| ==> cells[i] == Missing
    decreases |cells|
  {
    if cells == [] then 0
    else
      assert cells == [cells[0]] + cells[1..];
      var rest := CountPresent(cells[1..]);
      assert forall i :: 1 <= i < |cells| ==> cells[i] == cells[1..][i - 1];
      (if cells[0] != Missing then 1 else 0) + rest
  }

  /** `p` is `n` out of `d` expressed as a percentage. */
  predicate PercentOf(p: real, n: nat, d: nat) {
    p * d as real == 100.0 * n as real
  }

  /** `n / d * 100` for a count `n` out of `d`. */
  function Percent(n: nat, d: nat): (p: real)
    requires 0 < d && n <= d
    ensures 0.0 <= p <= 100.0
    ensures p * d as real == 100.0 * n as real
    ensures PercentOf(p, n, d)
    ensures p == 100.0 <==> n == d
    ensures p == 0.0 <==> n == 0
  {
    var q := n as real / d as real;
    Ratio(n as real, d as real);
    assert (q * 100.0) * d as real == 100.0 * (q * d as real);
    q * 100.0
  }

  lemma Ratio(x: real, z: real)
    requires 0.0 < z && 0.0 <= x <= z
    ensures (x / z) * z == x
    ensures 0.0 <= x / z <= 1.0
    ensures x / z == 1.0 <==> x == z
    ensures x / z == 0.0 <==> x == 0.0
  {
    var q := x / z;
    assert q * z == x;
  }

  /**
   The share of rows with a value in the column, as a percentage; an empty
   selection reports 0.
   */
  function Coverage(rows: seq<Record>, c: Column): (p: real)
    ensures 0.0 <= p <= 100.0
    ensures |rows| > 0 ==> p == Percent(|rows| - multiset(Cells(rows, c))[Missing], |rows|)
    ensures |rows| > 0 ==> (p == 100.0 <==> forall i :: 0 <= i < |rows| ==> Field(rows[i], c) != Missing)
    ensures p == 0.0 <==> forall i :: 0 <= i < |rows| ==> Field(rows[i], c) == Missing
  {
    var cells := Cells(rows, c);
    var n := CountPresent(cells);
    if |rows| > 0 then
      Percent(n, |rows|)
    else 0.0
  }

  lemma PercentComplement(n: nat, m: nat, d: nat)
    requires 0 < d && n + m == d
    ensures Percent(n, d) + Percent(m, d) == 100.0
  {
    var p, q, z := Percent(n, d), Percent(m, d), d as real;
    assert p * z == 100.0 * n as real && q * z == 100.0 * m as real;
    var a, b := 100.0 * n as real, 100.0 * m as real;
    assert a + b == 100.0 * z;
    assert p * z + q * z == a + b;
    assert (p + q - 100.0) * z == 0.0;
  }

  /** The missing share complements the coverage: together they make the whole. */
  lemma CoverageComplement(rows: seq<Record>, c: Column)
    requires |rows| > 0
    ensures Coverage(rows, c) + Percent(multiset(Cells(rows, c))[Missing], |rows|) == 100.0
  {
    var m := multiset(Cells(rows, c))[Missing];
    PercentComplement(|rows| - m, m, |rows|);
  }

  // ---------------------------------------------------------------- headline counts

  /** `nunique()`: the number of distinct present values. */
  function NUnique(vals: seq<Option<string>>): (n: nat)
    ensures n == |PresentSet(vals)|
    ensures n <= |vals|
    ensures n == 0 <==> forall i :: 0 <= i < |vals| ==> vals[i].None?
  {
    DistinctPresentCard(vals);
    var d := DistinctPresent(vals);
    assert forall i :: 0 <= i < |vals| && vals[i].Some? ==> vals[i].value in d by {
      forall i | 0 <= i < |vals| && vals[i].Some?
        ensures vals[i].value in d
      {
        assert Some(vals[i].value) in vals;
      }
    }
    |d|
  }

  /** `entity_type.nunique()`: the number of distinct entity types. */
  function TypeCount(rows: seq<Record>): (n: nat)
    ensures n == |set x | x in rows :: x.kind|
    ensures n <= |rows|
    ensures n == 0 <==> rows == []
  {
    var kinds := seq(|rows|, i requires 0 <= i < |rows| => rows[i].kind);
    var d := Distinct(kinds);
    NoDupsCard(d);
    assert (set k | k in d) == set x | x in rows :: x.kind by {
      forall k | k in d
        ensures k in set x | x in rows :: x.kind
      {
        var i :| 0 <= i < |kinds| && kinds[i] == k;
        assert rows[i] in rows;
      }
      forall x | x in rows
        ensures x.kind in d
      {
        var i :| 0 <= i < |rows| && rows[i] == x;
        assert kinds[i] == x.kind;
      }
    }
    assert rows != [] ==> kinds[0] in d;
    |d|
  }

  /** `fecha_registro.max()`: the latest registration day, `None` (NaT) when no row has one. */
  function Latest(rows: seq<Record>): (r: Option<Date>)
    ensures r.None? <==> forall i :: 0 <= i < |rows| ==> rows[i].registered.None?
    ensures r.Some? ==> r in Registrations(rows)
    ensures r.Some? ==> forall i :: 0 <= i < |rows| && rows[i].registered.Some? ==> DateLe(rows[i].registered.value, r.value)
    decreases |rows|
  {
    if rows == [] then None
    else
      var rest := Latest(rows[1..]);
      assert forall i :: 1 <= i < |rows| ==> rows[i] == rows[1..][i - 1];
      assert Registrations(rows) == [rows[0].registered] + Registrations(rows[1..]);
      var first := rows[0].registered;
      if first.None? then rest
      else if rest.None? || DateLe(rest.value, first.value) then first
      else rest
  }

  /** The five headline figures and the record count shown beside the first. */
  datatype Summary = Summary(
    records: nat,           // len(filtered_df)
    entities: nat,          // entity_name.nunique()
    types: nat,             // entity_type.nunique()
    gestoras: nat,          // gestora_nombre.nunique()
    depositarias: nat,      // depositaria_nombre.nunique()
    latest: Option<Date>)   // fecha_registro.max()

  function Summarize(rows: seq<Record>): (s: Summary)
    ensures s.records == |rows|
    ensures s.entities == |PresentSet(EntityNames(rows))| <= s.records
    ensures s.types == |set x | x in rows :: x.kind| <= s.records
    ensures s.gestoras == |PresentSet(Gestoras(rows))| <= s.records
    ensures s.depositarias == |PresentSet(Depositarias(rows))| <= s.records
    ensures s.types == 0 <==> s.records == 0
    ensures s.latest.None? <==> forall i :: 0 <= i < |rows| ==> rows[i].registered.None?
  {
    Summary(|rows|, NUnique(EntityNames(rows)), TypeCount(rows),
      NUnique(Gestoras(rows)), NUnique(Depositarias(rows)), Latest(rows))
  }

  // ---------------------------------------------------------------- timeline

  /** The positions of the rows registered in month `m`. */
  ghost function RegisteredIn(rows: seq<Record>, m: YearMonth): set<nat> {
    set i: nat | i < |rows| && rows[i].registered.Some? && MonthOf(rows[i].registered.value) == m
  }

  /** Adding a last row adds its own position to its month and nothing else. */
  lemma RegisteredInSnoc(rows: seq<Record>)
    requires rows != []
    ensures var n := |rows| - 1;
      forall m :: |RegisteredIn(rows, m)| == |RegisteredIn(rows[..n], m)| +
        if rows[n].registered.Some? && MonthOf(rows[n].registered.value) == m then 1 else 0
  {
    var n := |rows| - 1;
    forall m
      ensures |RegisteredIn(rows, m)| == |RegisteredIn(rows[..n], m)| +
        if rows[n].registered.Some? && MonthOf(rows[n].registered.value) == m then 1 else 0
    {
      var before := RegisteredIn(rows[..n], m);
      assert n !in before;
      if rows[n].registered.Some? && MonthOf(rows[n].registered.value) == m {
        assert RegisteredIn(rows, m) == before + {n};
      } else {
        assert RegisteredIn(rows, m) == before;
      }
    }
  }

  /**
   The registration month of every dated row, in row order: each month
   occurs once per row registered in it.
   */
  function Months(rows: seq<Record>): (ms: seq<YearMonth>)
    ensures forall m :: m in ms <==> exists x :: x in rows && x.registered.Some? && MonthOf(x.registered.value) == m
    ensures forall m :: multiset(ms)[m] == |RegisteredIn(rows, m)|
    decreases |rows|
  {
    if rows == [] then []
    else
      var n := |rows| - 1;
      var rest := Months(rows[..n]);
      assert forall x :: x in rows <==> x == rows[n] || x in rows[..n];
      RegisteredInSnoc(rows);
      rest + (if rows[n].registered.Some? then [MonthOf(rows[n].registered.value)] else [])
  }

  /** Every row with a registration date contributes exactly one month. */
  lemma {:induction false} MonthsCount(rows: seq<Record>)
    ensures |Months(rows)| + multiset(Registrations(rows))[None] == |rows|
    decreases |rows|
  {
    if rows != [] {
      var n := |rows| - 1;
      MonthsCount(rows[..n]);
      assert Registrations(rows) == Registrations(rows[..n]) + [rows[n].registered];
    }
  }

  function MonthOrder(): (le: (YearMonth, YearMonth) -> bool)
    ensures forall a, b :: le(a, b) == MonthLe(a, b)
  {
    (a: YearMonth, b: YearMonth) => MonthLe(a, b)
  }

  lemma MonthOrderIsTotal()
    ensures TotalPreorder(MonthOrder())
  {
  }

  /** One point of the timeline: a month and how many rows were registered in it. */
  datatype Bucket = Bucket(month: YearMonth, count: nat)

  function BucketsOf(keys: seq<YearMonth>, ms: seq<YearMonth>): (r: seq<Bucket>)
    ensures |r| == |keys|
    ensures forall i :: 0 <= i < |keys| ==> r[i] == Bucket(keys[i], multiset(ms)[keys[i]])
    decreases |keys|
  {
    if keys == [] then []
    else [Bucket(keys[0], multiset(ms)[keys[0]])] + BucketsOf(keys[1..], ms)
  }

  function BucketTotal(r: seq<Bucket>): nat
    decreases |r|
  {
    if r == [] then 0 else r[0].count + BucketTotal(r[1..])
  }

  lemma {:induction false} BucketsOfTotal(keys: seq<YearMonth>, ms: seq<YearMonth>)
    ensures BucketTotal(BucketsOf(keys, ms)) == SumCounts(keys, ms)
    decreases |keys|
  {
    if keys != [] {
      BucketsOfTotal(keys[1..], ms);
    }
  }

  /** The months, each once, earliest first. */
  function SortedMonths(ms: seq<YearMonth>): (keys: seq<YearMonth>)
    ensures NoDups(keys)
    ensures forall m :: m in keys <==> m in ms
    ensures forall i, j :: 0 <= i < j < |keys| ==> MonthLe(keys[i], keys[j])
  {
    var d := Distinct(ms);
    MonthOrderIsTotal();
    var keys := Sort(d, MonthOrder());
    PermutationNoDups(keys, d);
    assert forall m :: m in keys <==> m in multiset(d);
    keys
  }

  /** The months a list of buckets covers, in bucket order. */
  function BucketMonths(r: seq<Bucket>): (ms: seq<YearMonth>)
    ensures |ms| == |r|
    ensures forall i :: 0 <= i < |r| ==> ms[i] == r[i].month
  {
    seq(|r|, i requires 0 <= i < |r| => r[i].month)
  }

  /** `groupby(...).size()` on a list of months: one bucket per month, in month order. */
  function Buckets(ms: seq<YearMonth>): (r: seq<Bucket>)
    ensures NoDups(BucketMonths(r))
    ensures forall i, j :: 0 <= i < j < |r| ==> MonthLe(r[i].month, r[j].month)
    ensures forall m :: m in BucketMonths(r) <==> m in ms
    ensures forall i :: 0 <= i < |r| ==> r[i].count == multiset(ms)[r[i].month] >= 1
  {
    var keys := SortedMonths(ms);
    var r := BucketsOf(keys, ms);
    assert BucketMonths(r) == keys;
    assert forall i :: 0 <= i < |keys| ==> keys[i] in multiset(ms) by {
      forall i | 0 <= i < |keys| ensures keys[i] in multiset(ms) {
        assert keys[i] in keys;
      }
    }
    r
  }

  /**
   The registration timeline over the dated rows: one bucket per month that
   has a registration, months strictly increasing, each counting the rows
   registered in it.
   */
  function Timeline(rows: seq<Record>): (r: seq<Bucket>)
    ensures NoDups(BucketMonths(r))
    ensures forall i, j :: 0 <= i < j < |r| ==> MonthLe(r[i].month, r[j].month)
    ensures forall m :: m in BucketMonths(r) <==>
      exists x :: x in rows && x.registered.Some? && MonthOf(x.registered.value) == m
    ensures forall i :: 0 <= i < |r| ==> r[i].count == |RegisteredIn(rows, r[i].month)| >= 1
  {
    Buckets(Months(rows))
  }

  /** The buckets account for every dated row exactly once. */
  lemma TimelineTotal(rows: seq<Record>)
    ensures BucketTotal(Timeline(rows)) == |rows| - multiset(Registrations(rows))[None]
  {
    var ms := Months(rows);
    var keys := SortedMonths(ms);
    MonthsCount(rows);
    BucketsOfTotal(keys, ms);
    SumCountsPartition(keys, ms);
  }

  // ---------------------------------------------------------------- rankings

  /** A name with the number it is ranked by. */
  datatype Tally = Tally(name: string, count: nat)

  function TallyNames(ts: seq<Tally>): (r: seq<string>)
    ensures |r| == |ts|
    ensures forall i :: 0 <= i < |ts| ==> r[i] == ts[i].name
  {
    seq(|ts|, i requires 0 <= i < |ts| => ts[i].name)
  }

  /** Descending count order, as `value_counts()` and `sort_values(ascending=False)` use. */
  function ByCountDesc(): (le: (Tally, Tally) -> bool)
    ensures forall a, b :: le(a, b) == (a.count >= b.count)
  {
    (a: Tally, b: Tally) => a.count >= b.count
  }

  lemma ByCountDescIsTotal()
    ensures TotalPreorder(ByCountDesc())
  {
  }

  function Tallies(names: seq<string>, f: string -> nat): (ts: seq<Tally>)
    ensures |ts| == |names|
    ensures forall i :: 0 <= i < |names| ==> ts[i] == Tally(names[i], f(names[i]))
  {
    seq(|names|, i requires 0 <= i < |names| => Tally(names[i], f(names[i])))
  }

  /** Tallies whose count is a function of the name repeat no name once they repeat no tally. */
  lemma TallyNamesNoDups(r: seq<Tally>, f: string -> nat)
    requires NoDups(r)
    requires forall i :: 0 <= i < |r| ==> r[i].count == f(r[i].name)
    ensures NoDups(TallyNames(r))
  {
  }

  /**
   Every name paired with its count, largest count first; names with equal
   counts may come in any order, as pandas' unstable sort leaves them.
   */
  function Rank(names: seq<string>, f: string -> nat): (r: seq<Tally>)
    requires NoDups(names)
    ensures |r| == |names|
    ensures NoDups(TallyNames(r))
    ensures forall v :: v in TallyNames(r) <==> v in names
    ensures forall i :: 0 <= i < |r| ==> r[i].count == f(r[i].name)
    ensures forall i, j :: 0 <= i < j < |r| ==> r[i].count >= r[j].count
  {
    var ts := Tallies(names, f);
    ByCountDescIsTotal();
    var r := Sort(ts, ByCountDesc());
    assert |r| == |multiset(r)| == |multiset(ts)| == |ts|;
    assert forall t :: t in r <==> t in ts by {
      forall t ensures t in r <==> t in ts {
        assert t in r <==> t in multiset(r);
        assert t in ts <==> t in multiset(ts);
      }
    }
    assert forall i :: 0 <= i < |r| ==> r[i].count == f(r[i].name) by {
      forall i | 0 <= i < |r| ensures r[i].count == f(r[i].name) {
        assert r[i] in ts;
      }
    }
    assert NoDups(ts) by {
      forall i, j | 0 <= i < j < |ts| ensures ts[i] != ts[j] {
        assert names[i] != names[j];
      }
    }
    PermutationNoDups(r, ts);
    TallyNamesNoDups(r, f);
    RankNames(names, f, ts, r);
    r
  }

  lemma RankNames(names: seq<string>, f: string -> nat, ts: seq<Tally>, r: seq<Tally>)
    requires ts == Tallies(names, f)
    requires forall t :: t in r <==> t in ts
    ensures forall v :: v in TallyNames(r) <==> v in names
  {
    var ns := TallyNames(r);
    forall v | v in ns
      ensures v in names
    {
      var i :| 0 <= i < |ns| && ns[i] == v;
      assert r[i] in ts;
    }
    forall v | v in names
      ensures v in ns
    {
      var k :| 0 <= k < |names| && names[k] == v;
      assert ts[k] in r;
      var i :| 0 <= i < |r| && r[i] == ts[k];
      assert ns[i] == v;
    }
  }

  /** A name left out of the first `k` ranks counts no more than any name kept. */
  lemma RankPrefix(r: seq<Tally>, k: nat, v: string)
    requires k <= |r|
    requires forall i, j :: 0 <= i < j < |r| ==> r[i].count >= r[j].count
    requires v in TallyNames(r) && v !in TallyNames(r[..k])
    ensures forall j :: 0 <= j < k ==> r[j].count >= r[IndexOf(TallyNames(r), v)].count
  {
    var p := IndexOf(TallyNames(r), v);
    assert TallyNames(r[..k]) == TallyNames(r)[..k];
  }

  function Total(ts: seq<Tally>): nat
    decreases |ts|
  {
    if ts == [] then 0 else ts[0].count + Total(ts[1..])
  }

  lemma {:induction false} TotalSplit(ts: seq<Tally>, k: nat)
    requires k <= |ts|
    ensures Total(ts) == Total(ts[..k]) + Total(ts[k..])
    decreases k
  {
    if k > 0 {
      TotalSplit(ts[1..], k - 1);
      assert ts[..k][1..] == ts[1..][..k - 1];
      assert ts[k..] == ts[1..][k - 1..];
    }
  }

  lemma {:induction false} TotalIsSumCounts(ts: seq<Tally>, xs: seq<string>)
    requires forall i :: 0 <= i < |ts| ==> ts[i].count == multiset(xs)[ts[i].name]
    ensures Total(ts) == SumCounts(TallyNames(ts), xs)
    decreases |ts|
  {
    if ts != [] {
      TotalIsSumCounts(ts[1..], xs);
      assert TallyNames(ts)[1..] == TallyNames(ts[1..]);
    }
  }

  lemma {:induction false} TotalAtLeastLength(ts: seq<Tally>)
    requires forall i :: 0 <= i < |ts| ==> ts[i].count >= 1
    ensures Total(ts) >= |ts|
    decreases |ts|
  {
    if ts != [] {
      TotalAtLeastLength(ts[1..]);
    }
  }

  // ---------------------------------------------------------------- concentration

  /** How often each value occurs, as a function. */
  function Occurrences(xs: seq<string>): (f: string -> nat)
    ensures forall v :: f(v) == multiset(xs)[v]
  {
    v => multiset(xs)[v]
  }

  /**
   `value_counts()`: each distinct present value with the number of rows
   holding it, most frequent first.
   */
  function ValueCounts(vals: seq<Option<string>>): (r: seq<Tally>)
    ensures |r| == |PresentSet(vals)|
    ensures NoDups(TallyNames(r))
    ensures forall v :: v in TallyNames(r) <==> Some(v) in vals
    ensures forall i :: 0 <= i < |r| ==> r[i].count == multiset(vals)[Some(r[i].name)] && r[i].count >= 1
    ensures forall i, j :: 0 <= i < j < |r| ==> r[i].count >= r[j].count
  {
    DistinctPresentCard(vals);
    Counted(Present(vals))
  }

  /** Each distinct value of `xs` with its number of occurrences, most frequent first. */
  function Counted(xs: seq<string>): (r: seq<Tally>)
    ensures |r| == |Distinct(xs)|
    ensures NoDups(TallyNames(r))
    ensures forall v :: v in TallyNames(r) <==> v in xs
    ensures forall i :: 0 <= i < |r| ==> r[i].count == multiset(xs)[r[i].name] >= 1
    ensures forall i, j :: 0 <= i < j < |r| ==> r[i].count >= r[j].count
  {
    var r := Rank(Distinct(xs), Occurrences(xs));
    forall i | 0 <= i < |r|
      ensures r[i].count >= 1
    {
      assert TallyNames(r)[i] == r[i].name;
      assert r[i].name in xs;
    }
    r
  }

  /** The counts add up to the number of rows that have a value. */
  lemma ValueCountsTotal(vals: seq<Option<string>>)
    ensures Total(ValueCounts(vals)) == |vals| - multiset(vals)[None]
  {
    var r := ValueCounts(vals);
    var present := Present(vals);
    TotalIsSumCounts(r, present);
    SumCountsPartition(TallyNames(r), present);
  }

  /** `notna().sum()`: the number of present values, which the value counts add up to. */
  function PresentCount(vals: seq<Option<string>>): (n: nat)
    ensures n + multiset(vals)[None] == |vals|
    ensures n == Total(ValueCounts(vals))
  {
    ValueCountsTotal(vals);
    |vals| - multiset(vals)[None]
  }

  /** There is no manager to count exactly when no row names one. */
  lemma NoManagers(rows: seq<Record>)
    ensures |ValueCounts(Gestoras(rows))| == 0 <==> forall i :: 0 <= i < |rows| ==> rows[i].gestora.None?
  {
    var n := NUnique(Gestoras(rows));
  }

  /** With at least one count, each at least one: the first `min(10, n)` sum to something positive, and to everything exactly when n <= 10. */
  lemma TopCount(vc: seq<Tally>)
    requires |vc| >= 1
    requires forall i :: 0 <= i < |vc| ==> vc[i].count >= 1
    ensures 1 <= Total(vc[..Min(10, |vc|)]) <= Total(vc)
    ensures Total(vc[..Min(10, |vc|)]) == Total(vc) <==> |vc| <= 10
  {
    var k := Min(10, |vc|);
    TotalSplit(vc, k);
    TotalAtLeastLength(vc[..k]);
    TotalAtLeastLength(vc[k..]);
  }

  /**
   The share of managed rows held by the ten most frequent managers, as a
   percentage; `None` where the script divides zero by zero (no row has a
   manager). It is 100 exactly when there are at most ten managers.
   */
  function TopShare(rows: seq<Record>): (r: Option<real>)
    ensures r.None? <==> forall i :: 0 <= i < |rows| ==> rows[i].gestora.None?
    ensures r.Some? ==> 0.0 < r.value <= 100.0
    ensures r.Some? ==> (r.value == 100.0 <==> |PresentSet(Gestoras(rows))| <= 10)
    ensures r.Some? ==>
      PercentOf(r.value, Total(ValueCounts(Gestoras(rows))[..Min(10, |ValueCounts(Gestoras(rows))|)]), PresentCount(Gestoras(rows)))
  {
    var g := Gestoras(rows);
    NoManagers(rows);
    assert |ValueCounts(g)| == |PresentSet(g)|;
    TopShareOf(g)
  }

  /** The top-ten share of any column: `None` when no value is present. */
  function TopShareOf(vals: seq<Option<string>>): (r: Option<real>)
    ensures r.None? <==> |PresentSet(vals)| == 0
    ensures r.Some? ==> 0.0 < r.value <= 100.0
    ensures r.Some? ==> (r.value == 100.0 <==> |PresentSet(vals)| <= 10)
    ensures r.Some? ==> PercentOf(r.value, Total(ValueCounts(vals)[..Min(10, |ValueCounts(vals)|)]), PresentCount(vals))
  {
    var vc := ValueCounts(vals);
    TopShareFacts(vals);
    if |vc| == 0 then None
    else
      var top, n := Total(vc[..Min(10, |vc|)]), Total(vc);
      var p := Percent(top, n);
      assert n == PresentCount(vals);
      Some(p)
  }

  lemma TopShareFacts(vals: seq<Option<string>>)
    ensures var vc := ValueCounts(vals);
      |vc| > 0 ==>
        1 <= Total(vc[..Min(10, |vc|)]) <= Total(vc) &&
        var p := Percent(Total(vc[..Min(10, |vc|)]), Total(vc));
        0.0 < p <= 100.0 && (p == 100.0 <==> |PresentSet(vals)| <= 10)
  {
    var vc := ValueCounts(vals);
    if |vc| > 0 {
      TopPercent(vc);
    }
  }

  lemma TopPercent(vc: seq<Tally>)
    requires |vc| >= 1
    requires forall i :: 0 <= i < |vc| ==> vc[i].count >= 1
    ensures 1 <= Total(vc[..Min(10, |vc|)]) <= Total(vc)
    ensures var p := Percent(Total(vc[..Min(10, |vc|)]), Total(vc));
      0.0 < p <= 100.0 && (p == 100.0 <==> |vc| <= 10)
  {
    TopCount(vc);
  }

  function ShareSquares(ts: seq<Tally>, total: nat): real
    requires total > 0
    decreases |ts|
  {
    if ts == [] then 0.0
    else
      var share := ts[0].count as real / total as real;
      share * share + ShareSquares(ts[1..], total)
  }

  function SumSquares(ts: seq<Tally>): nat
    decreases |ts|
  {
    if ts == [] then 0 else ts[0].count * ts[0].count + SumSquares(ts[1..])
  }

  /** `h` is the sum of squared counts `squares` over the square of their total. */
  predicate SquaredSharesOf(h: real, squares: nat, total: nat) {
    total > 0 && h == squares as real / (total * total) as real
  }

  lemma SquareOfRatio(c: nat, t: nat)
    requires t > 0
    ensures (c as real / t as real) * (c as real / t as real) == (c * c) as real / (t * t) as real
  {
    var x, y := c as real, t as real;
    assert (c * c) as real == x * x;
    assert (t * t) as real == y * y;
  }

  lemma AddRatios(a: nat, b: nat, d: nat)
    requires d > 0
    ensures a as real / d as real + b as real / d as real == (a + b) as real / d as real
  {
  }

  lemma {:induction false} ShareSquaresRatio(ts: seq<Tally>, total: nat)
    requires total > 0
    ensures ShareSquares(ts, total) == SumSquares(ts) as real / (total * total) as real
    decreases |ts|
  {
    if ts != [] {
      ShareSquaresRatio(ts[1..], total);
      SquareOfRatio(ts[0].count, total);
      AddRatios(ts[0].count * ts[0].count, SumSquares(ts[1..]), total * total);
    }
  }

  /**
   With every count at least one, the squares add up to at most the square
   of the total, and to exactly that only with a single term.
   */
  lemma {:induction false} SumSquaresBound(ts: seq<Tally>)
    requires forall i :: 0 <= i < |ts| ==> ts[i].count >= 1
    ensures SumSquares(ts) <= Total(ts) * Total(ts)
    ensures |ts| >= 1 ==> SumSquares(ts) >= 1
    ensures SumSquares(ts) == Total(ts) * Total(ts) <==> |ts| <= 1
    decreases |ts|
  {
    if ts != [] {
      var rest := ts[1..];
      SumSquaresBound(rest);
      TotalAtLeastLength(rest);
      var c, t := ts[0].count, Total(rest);
      assert Total(ts) * Total(ts) == c * c + 2 * c * t + t * t;
      if rest != [] {
        assert 2 * c * t >= 2;
      }
    }
  }

  lemma ConcentrationBounds(s: nat, t: nat)
    requires 1 <= s <= t * t
    ensures 0.0 < s as real / (t * t) as real <= 1.0
    ensures s as real / (t * t) as real == 1.0 <==> s == t * t
  {
  }

  lemma SquaredShares(vc: seq<Tally>)
    requires |vc| >= 1
    requires forall i :: 0 <= i < |vc| ==> vc[i].count >= 1
    ensures Total(vc) > 0
    ensures 0.0 < ShareSquares(vc, Total(vc)) <= 1.0
    ensures ShareSquares(vc, Total(vc)) == 1.0 <==> |vc| == 1
  {
    TotalAtLeastLength(vc);
    ShareSquaresRatio(vc, Total(vc));
    SumSquaresBound(vc);
    ConcentrationBounds(SumSquares(vc), Total(vc));
  }

  /**
   The Herfindahl index of the manager market: the sum of squared shares of
   managed rows. It is 0 when no row has a manager (the script sums an empty
   series), otherwise in (0, 1], and exactly 1 for a single manager.
   */
  function Herfindahl(rows: seq<Record>): (h: real)
    ensures (forall i :: 0 <= i < |rows| ==> rows[i].gestora.None?) ==> h == 0.0
    ensures (exists i :: 0 <= i < |rows| && rows[i].gestora.Some?) ==> 0.0 < h <= 1.0
    ensures h == 1.0 <==> |PresentSet(Gestoras(rows))| == 1
    ensures (exists i :: 0 <= i < |rows| && rows[i].gestora.Some?) ==>
      SquaredSharesOf(h, SumSquares(ValueCounts(Gestoras(rows))), PresentCount(Gestoras(rows)))
  {
    var g := Gestoras(rows);
    NoManagers(rows);
    assert |ValueCounts(g)| == |PresentSet(g)|;
    HerfindahlOf(g)
  }

  /** The Herfindahl index of any column: 0 when no value is present. */
  function HerfindahlOf(vals: seq<Option<string>>): (h: real)
    ensures |PresentSet(vals)| == 0 ==> h == 0.0
    ensures |PresentSet(vals)| > 0 ==> 0.0 < h <= 1.0
    ensures h == 1.0 <==> |PresentSet(vals)| == 1
    ensures |PresentSet(vals)| > 0 ==> SquaredSharesOf(h, SumSquares(ValueCounts(vals)), PresentCount(vals))
  {
    var vc := ValueCounts(vals);
    HerfindahlFacts(vals);
    if |vc| == 0 then 0.0
    else
      var h := ShareSquares(vc, Total(vc));
      ShareSquaresRatio(vc, Total(vc));
      assert SquaredSharesOf(h, SumSquares(vc), Total(vc));
      assert Total(vc) == PresentCount(vals);
      h
  }

  lemma HerfindahlFacts(vals: seq<Option<string>>)
    ensures var vc := ValueCounts(vals);
      |vc| > 0 ==>
        Total(vc) > 0 && 0.0 < ShareSquares(vc, Total(vc)) <= 1.0 &&
        (ShareSquares(vc, Total(vc)) == 1.0 <==> |vc| == 1)
  {
    var vc := ValueCounts(vals);
    if |vc| > 0 {
      SquaredShares(vc);
    }
  }

  /** When every manager has the same number of rows, the index is one over their number. */
  lemma HerfindahlEqualShares(rows: seq<Record>, n: nat)
    requires forall v :: Some(v) in Gestoras(rows) ==> multiset(Gestoras(rows))[Some(v)] == n
    requires |PresentSet(Gestoras(rows))| > 0
    ensures Herfindahl(rows) == 1.0 / |PresentSet(Gestoras(rows))| as real
  {
    EqualValueCounts(Gestoras(rows), n);
  }

  /** With every present value equally frequent, the squared shares add up to one over their number. */
  lemma EqualValueCounts(vals: seq<Option<string>>, n: nat)
    requires forall v :: Some(v) in vals ==> multiset(vals)[Some(v)] == n
    requires |PresentSet(vals)| > 0
    ensures var vc := ValueCounts(vals);
      |vc| > 0 && ShareSquares(vc, Total(vc)) == 1.0 / |PresentSet(vals)| as real
  {
    var vc := ValueCounts(vals);
    forall i | 0 <= i < |vc|
      ensures vc[i].count == n
    {
      assert vc[i].name in TallyNames(vc);
    }
    EqualShares(vc, n);
  }

  lemma EqualShares(vc: seq<Tally>, n: nat)
    requires |vc| >= 1
    requires forall i :: 0 <= i < |vc| ==> vc[i].count == n
    requires n >= 1
    ensures Total(vc) > 0
    ensures ShareSquares(vc, Total(vc)) == 1.0 / |vc| as real
  {
    EqualCounts(vc, n);
    ShareSquaresRatio(vc, Total(vc));
    EqualRatio(|vc|, n);
  }

  lemma {:induction false} EqualCounts(ts: seq<Tally>, n: nat)
    requires forall i :: 0 <= i < |ts| ==> ts[i].count == n
    ensures Total(ts) == |ts| * n
    ensures SumSquares(ts) == |ts| * (n * n)
    decreases |ts|
  {
    if ts != [] {
      EqualCounts(ts[1..], n);
    }
  }

  lemma EqualRatio(k: nat, n: nat)
    requires k >= 1 && n >= 1
    ensures (k * (n * n)) as real / ((k * n) * (k * n)) as real == 1.0 / k as real
  {
    var a, b := k as real, n as real;
    assert ((k * n) * (k * n)) as real == a * (a * (b * b));
    assert (k * (n * n)) as real == a * (b * b);
  }

  // ---------------------------------------------------------------- connectivity

  /**
   The `k` best-ranked names: each with its count, largest first, and no name
   left out counts more than any name kept.
   */
  function Leaders(names: seq<string>, f: string -> nat, k: nat): (r: seq<Tally>)
    requires NoDups(names)
    ensures |r| == Min(k, |names|)
    ensures NoDups(TallyNames(r))
    ensures forall i :: 0 <= i < |r| ==> r[i].name in names && r[i].count == f(r[i].name)
    ensures forall i, j :: 0 <= i < j < |r| ==> r[i].count >= r[j].count
    ensures forall v, j :: v in names && v !in TallyNames(r) && 0 <= j < |r| ==> f(v) <= r[j].count
  {
    var ranked := Rank(names, f);
    var n := Min(k, |ranked|);
    var r := ranked[..n];
    assert TallyNames(r) == TallyNames(ranked)[..n];
    forall i | 0 <= i < |r|
      ensures r[i].name in names
    {
      assert TallyNames(ranked)[i] == r[i].name;
    }
    LeftOutRankLower(names, f, ranked, n);
    r
  }

  /** In a ranking, a name outside the first `n` counts no more than any of them. */
  lemma LeftOutRankLower(names: seq<string>, f: string -> nat, r: seq<Tally>, n: nat)
    requires n <= |r|
    requires forall v :: v in TallyNames(r) <==> v in names
    requires forall i :: 0 <= i < |r| ==> r[i].count == f(r[i].name)
    requires forall i, j :: 0 <= i < j < |r| ==> r[i].count >= r[j].count
    ensures forall v, j :: v in names && v !in TallyNames(r[..n]) && 0 <= j < n ==> f(v) <= r[j].count
  {
    forall v, j | v in names && v !in TallyNames(r[..n]) && 0 <= j < n
      ensures f(v) <= r[j].count
    {
      RankPrefix(r, n, v);
    }
  }

  /** The depositaries of the rows a manager manages, with repeats. */
  function DepositariasOf(rows: seq<Record>, g: string): (ds: seq<string>)
    ensures forall v :: v in ds <==>
      exists i :: 0 <= i < |rows| && rows[i].gestora == Some(g) && rows[i].depositaria == Some(v)
    decreases |rows|
  {
    if rows == [] then []
    else
      var rest := DepositariasOf(rows[1..], g);
      assert forall i :: 1 <= i < |rows| ==> rows[i] == rows[1..][i - 1];
      assert forall i :: 0 <= i < |rows| - 1 ==> rows[1..][i] == rows[i + 1];
      var x := rows[0];
      (if x.gestora == Some(g) && x.depositaria.Some? then [x.depositaria.value] else []) + rest
  }

  /** `groupby('gestora_nombre')['depositaria_nombre'].nunique()` for one manager. */
  function Reach(rows: seq<Record>, g: string): (n: nat)
    ensures n == |set i | 0 <= i < |rows| && rows[i].gestora == Some(g) && rows[i].depositaria.Some? :: rows[i].depositaria.value|
  {
    var ds := DepositariasOf(rows, g);
    var d := Distinct(ds);
    NoDupsCard(d);
    assert (set v | v in d) == set i | 0 <= i < |rows| && rows[i].gestora == Some(g) && rows[i].depositaria.Some? :: rows[i].depositaria.value;
    |d|
  }

  /** The rows kept by `dropna()` on name, manager and depositary. */
  predicate Complete(x: Record) {
    x.name.Some? && x.gestora.Some? && x.depositaria.Some?
  }

  /** The five most connected managers, ranked. */
  function Connected(rows: seq<Record>): (r: seq<Tally>)
    ensures |r| == Min(5, |PresentSet(Gestoras(rows))|)
    ensures NoDups(TallyNames(r))
    ensures forall i, j :: 0 <= i < j < |r| ==> r[i].count >= r[j].count
  {
    DistinctPresentCard(Gestoras(rows));
    Leaders(DistinctPresent(Gestoras(rows)), g => Reach(rows, g), 5)
  }

  lemma ConnectedCounts(rows: seq<Record>)
    ensures var r := Connected(rows);
      forall i :: 0 <= i < |r| ==> Some(r[i].name) in Gestoras(rows) && r[i].count == Reach(rows, r[i].name)
  {
  }

  lemma ConnectedLeaveOut(rows: seq<Record>)
    ensures var r := Connected(rows);
      forall v, j :: Some(v) in Gestoras(rows) && v !in TallyNames(r) && 0 <= j < |r| ==> Reach(rows, v) <= r[j].count
  {
    var r := Connected(rows);
    var names := DistinctPresent(Gestoras(rows));
    forall v, j | Some(v) in Gestoras(rows) && v !in TallyNames(r) && 0 <= j < |r|
      ensures Reach(rows, v) <= r[j].count
    {
      assert v in names;
    }
  }

  /**
   The five managers working with the most distinct depositaries, each with
   that number, most connected first; `None` when no row names an entity,
   its manager and its depositary, where the script shows no relationship
   section. A manager left out reaches no more depositaries than any listed.
   */
  function MostConnected(rows: seq<Record>): (r: Option<seq<Tally>>)
    ensures r.None? <==> forall i :: 0 <= i < |rows| ==> !Complete(rows[i])
    ensures r.Some? ==> |r.value| == Min(5, |PresentSet(Gestoras(rows))|)
    ensures r.Some? ==> NoDups(TallyNames(r.value))
    ensures r.Some? ==> forall i :: 0 <= i < |r.value| ==>
      Some(r.value[i].name) in Gestoras(rows) && r.value[i].count == Reach(rows, r.value[i].name)
    ensures r.Some? ==> forall i, j :: 0 <= i < j < |r.value| ==> r.value[i].count >= r.value[j].count
    ensures r.Some? ==> forall v, j :: Some(v) in Gestoras(rows) && v !in TallyNames(r.value) && 0 <= j < |r.value| ==>
      Reach(rows, v) <= r.value[j].count
  {
    if exists i :: 0 <= i < |rows| && Complete(rows[i]) then
      ConnectedCounts(rows);
      ConnectedLeaveOut(rows);
      Some(Connected(rows))
    else None
  }
}
