/** Missing values: the model's counterpart of pandas' NaN / NaT. */
module Optional {

  datatype Option<+T> = None | Some(value: T)
}

/**
 Generic sequence vocabulary shared by the dashboard pipeline: order-preserving
 sub-sequences, duplicate removal in order of first appearance (pandas
 `unique` / `drop_duplicates`), `dropna`, a comparison sort and occurrence sums.
 */
module Seqs {
  import opened Optional

  function Min(a: nat, b: nat): nat {
    if a <= b then a else b
  }

  /** `a` is obtained from `b` by deleting elements, keeping the order. */
  predicate Subseq<T(==)>(a: seq<T>, b: seq<T>)
    decreases |b|
  {
    if a == [] then true
    else if b == [] then false
    else (a[0] == b[0] && Subseq(a[1..], b[1..])) || Subseq(a, b[1..])
  }

  lemma {:induction false} SubseqRefl<T>(a: seq<T>)
    ensures Subseq(a, a)
    decreases |a|
  {
    if a != [] {
      SubseqRefl(a[1..]);
    }
  }

  /** A sub-sequence is no longer than the sequence and holds only its elements. */
  lemma {:induction false} SubseqBounds<T>(a: seq<T>, b: seq<T>)
    requires Subseq(a, b)
    ensures |a| <= |b|
    ensures forall x :: x in a ==> x in b
    decreases |b|
  {
    if a != [] {
      if a[0] == b[0] && Subseq(a[1..], b[1..]) {
        SubseqBounds(a[1..], b[1..]);
        assert forall x :: x in a ==> x == a[0] || x in a[1..];
      } else {
        SubseqBounds(a, b[1..]);
      }
    }
  }

  /** No element occurs twice. */
  predicate NoDups<T(==)>(s: seq<T>) {
    forall i, j :: 0 <= i < j < |s| ==> s[i] != s[j]
  }

  /** Position of the first occurrence of `x` in `xs`. */
  function IndexOf<T(==)>(xs: seq<T>, x: T): (i: nat)
    requires x in xs
    ensures i < |xs| && xs[i] == x && x !in xs[..i]
  {
    if xs[0] == x then 0 else 1 + IndexOf(xs[1..], x)
  }

  /** The elements of `xs` not in `seen`, each once, in order of first appearance. */
  function DistinctAfter<T(==,!new)>(xs: seq<T>, seen: set<T>): (r: seq<T>)
    ensures NoDups(r)
    ensures forall x :: x in r <==> x in xs && x !in seen
    ensures forall i, j :: 0 <= i < j < |r| ==> IndexOf(xs, r[i]) < IndexOf(xs, r[j])
    ensures |r| <= |xs|
    decreases |xs|
  {
    if xs == [] then []
    else if xs[0] in seen then DistinctAfter(xs[1..], seen)
    else [xs[0]] + DistinctAfter(xs[1..], seen + {xs[0]})
  }

  /** pandas `unique()` / `drop_duplicates()`: every value once, first appearance first. */
  function Distinct<T(==,!new)>(xs: seq<T>): (r: seq<T>)
    ensures NoDups(r)
    ensures forall x :: x in r <==> x in xs
    ensures forall i, j :: 0 <= i < j < |r| ==> IndexOf(xs, r[i]) < IndexOf(xs, r[j])
    ensures |r| <= |xs|
  {
    DistinctAfter(xs, {})
  }

  /**
   The first `k` distinct values in order of first appearance; any value left
   out first appears after every kept one.
   */
  function FirstDistinct<T(==,!new)>(xs: seq<T>, k: nat): (r: seq<T>)
    ensures |r| == Min(k, |Distinct(xs)|)
    ensures NoDups(r)
    ensures forall v :: v in r ==> v in xs
    ensures forall i, j :: 0 <= i < j < |r| ==> IndexOf(xs, r[i]) < IndexOf(xs, r[j])
    ensures forall v, i :: v in xs && v !in r && 0 <= i < |r| ==> IndexOf(xs, r[i]) < IndexOf(xs, v)
  {
    var n := Min(k, |Distinct(xs)|);
    DistinctPrefix(xs, n);
    Distinct(xs)[..n]
  }

  lemma DistinctPrefix<T(!new)>(xs: seq<T>, n: nat)
    requires n <= |Distinct(xs)|
    ensures NoDups(Distinct(xs)[..n])
    ensures forall v :: v in Distinct(xs)[..n] ==> v in xs
    ensures forall i, j :: 0 <= i < j < n ==> IndexOf(xs, Distinct(xs)[..n][i]) < IndexOf(xs, Distinct(xs)[..n][j])
    ensures forall v, i :: v in xs && v !in Distinct(xs)[..n] && 0 <= i < n ==>
      IndexOf(xs, Distinct(xs)[..n][i]) < IndexOf(xs, v)
  {
    var d := Distinct(xs);
    var r := d[..n];
    assert forall i :: 0 <= i < n ==> r[i] == d[i];
    forall v, i | v in xs && v !in r && 0 <= i < n
      ensures IndexOf(xs, r[i]) < IndexOf(xs, v)
    {
      var p := IndexOf(d, v);
      assert p >= n;
    }
  }

  /** pandas `dropna()`: the present values, in order, with their multiplicities. */
  function Present<T(==,!new)>(xs: seq<Option<T>>): (r: seq<T>)
    ensures forall v :: multiset(r)[v] == multiset(xs)[Some(v)]
    ensures forall v :: v in r <==> Some(v) in xs
    ensures |r| + multiset(xs)[None] == |xs|
    decreases |xs|
  {
    if xs == [] then []
    else
      assert xs == [xs[0]] + xs[1..];
      (if xs[0].Some? then [xs[0].value] else []) + Present(xs[1..])
  }

  /**
   `dropna()` keeps the present values in their column order: of two present
   values, the one that first appears earlier in the result is the one whose
   first occurrence comes earlier in the column.
   */
  lemma {:induction false} PresentOrder<T(!new)>(xs: seq<Option<T>>, v: T, w: T)
    requires Some(v) in xs && Some(w) in xs
    ensures IndexOf(Present(xs), v) < IndexOf(Present(xs), w) <==> IndexOf(xs, Some(v)) < IndexOf(xs, Some(w))
    decreases |xs|
  {
    var p := Present(xs);
    assert xs == [xs[0]] + xs[1..];
    if xs[0] == Some(v) || xs[0] == Some(w) {
      assert p[0] == xs[0].value;
    } else {
      var rest := Present(xs[1..]);
      assert Some(v) in xs[1..] && Some(w) in xs[1..];
      PresentOrder(xs[1..], v, w);
      if xs[0].Some? {
        assert p == [xs[0].value] + rest;
        assert p[1..] == rest;
      } else {
        assert p == rest;
      }
    }
  }

  /** The distinct present values (pandas `nunique()` counts these). */
  function PresentSet<T(==)>(xs: seq<Option<T>>): set<T> {
    set i | 0 <= i < |xs| && xs[i].Some? :: xs[i].value
  }

  /** The distinct present values: `x.dropna().unique()`. */
  function DistinctPresent<T(==,!new)>(vals: seq<Option<T>>): seq<T> {
    Distinct(Present(vals))
  }

  /** `nunique()` counts the distinct present values whichever way they are listed. */
  lemma DistinctPresentCard<T(!new)>(vals: seq<Option<T>>)
    ensures |DistinctPresent(vals)| == |PresentSet(vals)|
  {
    var d := DistinctPresent(vals);
    NoDupsCard(d);
    assert (set v | v in d) == PresentSet(vals) by {
      forall v | v in PresentSet(vals)
        ensures v in d
      {
        var i :| 0 <= i < |vals| && vals[i].Some? && vals[i].value == v;
        assert Some(v) == vals[i];
      }
    }
  }

  lemma {:induction false} NoDupsCard<T>(s: seq<T>)
    requires NoDups(s)
    ensures |set x | x in s| == |s|
    decreases |s|
  {
    if s != [] {
      NoDupsCard(s[1..]);
      assert (set x | x in s) == {s[0]} + (set x | x in s[1..]);
      assert s[0] !in s[1..] by {
        forall k | 0 <= k < |s[1..]|
          ensures s[1..][k] != s[0]
        {
          assert s[1..][k] == s[k + 1];
        }
      }
    }
  }

  lemma {:induction false} NoDupsMultiset<T>(s: seq<T>)
    requires NoDups(s)
    ensures forall x :: multiset(s)[x] <= 1
    decreases |s|
  {
    if s != [] {
      NoDupsMultiset(s[1..]);
      assert s == [s[0]] + s[1..];
      assert s[0] !in s[1..] by {
        forall k | 0 <= k < |s[1..]|
          ensures s[1..][k] != s[0]
        {
          assert s[1..][k] == s[k + 1];
        }
      }
    }
  }

  lemma MultisetNoDups<T>(s: seq<T>)
    requires forall x :: multiset(s)[x] <= 1
    ensures NoDups(s)
  {
    forall i, j | 0 <= i < j < |s|
      ensures s[i] != s[j]
    {
      if s[i] == s[j] {
        TwiceCounted(s, i, j);
      }
    }
  }

  lemma TwiceCounted<T>(s: seq<T>, i: nat, j: nat)
    requires i < j < |s| && s[i] == s[j]
    ensures multiset(s)[s[i]] >= 2
  {
    assert s == s[..j] + s[j..];
    assert s[i] in multiset(s[..j]);
    assert s[j] in multiset(s[j..]);
  }

  /** A permutation of a duplicate-free sequence is duplicate-free. */
  lemma PermutationNoDups<T>(a: seq<T>, b: seq<T>)
    requires multiset(a) == multiset(b) && NoDups(b)
    ensures NoDups(a)
  {
    NoDupsMultiset(b);
    MultisetNoDups(a);
  }

  // ---------------------------------------------------------------- ordering

  /** `le` is a total preorder: every pair comparable, and transitive. */
  ghost predicate TotalPreorder<T(!new)>(le: (T, T) -> bool) {
    && (forall x, y :: le(x, y) || le(y, x))
    && (forall x, y, z :: le(x, y) && le(y, z) ==> le(x, z))
  }

  predicate SortedBy<T>(s: seq<T>, le: (T, T) -> bool) {
    forall i, j :: 0 <= i < j < |s| ==> le(s[i], s[j])
  }

  lemma SortedCons<T>(a: T, s: seq<T>, le: (T, T) -> bool)
    requires SortedBy(s, le)
    requires forall k :: 0 <= k < |s| ==> le(a, s[k])
    ensures SortedBy([a] + s, le)
  {
    var r := [a] + s;
    forall i, j | 0 <= i < j < |r|
      ensures le(r[i], r[j])
    {
      assert r[j] == s[j - 1];
      if i > 0 {
        assert r[i] == s[i - 1];
      }
    }
  }

  function Insert<T(!new)>(x: T, s: seq<T>, le: (T, T) -> bool): (r: seq<T>)
    requires TotalPreorder(le) && SortedBy(s, le)
    ensures multiset(r) == multiset(s) + multiset{x}
    ensures SortedBy(r, le)
    decreases |s|
  {
    if s == [] then [x]
    else if le(x, s[0]) then
      assert forall j :: 0 <= j < |s| ==> le(s[0], s[j]);
      SortedCons(x, s, le);
      [x] + s
    else
      var rest := Insert(x, s[1..], le);
      InsertBehind(x, s, le, rest);
      [s[0]] + rest
  }

  /** The step of `Insert` that keeps the head and inserts further along. */
  lemma InsertBehind<T(!new)>(x: T, s: seq<T>, le: (T, T) -> bool, rest: seq<T>)
    requires TotalPreorder(le) && SortedBy(s, le) && s != [] && !le(x, s[0])
    requires multiset(rest) == multiset(s[1..]) + multiset{x} && SortedBy(rest, le)
    ensures multiset([s[0]] + rest) == multiset(s) + multiset{x}
    ensures SortedBy([s[0]] + rest, le)
  {
    assert s == [s[0]] + s[1..];
    assert le(s[0], x);
    forall k | 0 <= k < |rest|
      ensures le(s[0], rest[k])
    {
      assert rest[k] in multiset(rest);
      if rest[k] != x {
        assert rest[k] in multiset(s[1..]);
        var i :| 0 <= i < |s[1..]| && s[1..][i] == rest[k];
        assert s[i + 1] == rest[k];
      }
    }
    SortedCons(s[0], rest, le);
  }

  /** An insertion sort; only permutation and order are promised, not stability. */
  function Sort<T(!new)>(s: seq<T>, le: (T, T) -> bool): (r: seq<T>)
    requires TotalPreorder(le)
    ensures multiset(r) == multiset(s)
    ensures SortedBy(r, le)
    decreases |s|
  {
    if s == [] then []
    else
      assert s == [s[0]] + s[1..];
      Insert(s[0], Sort(s[1..], le), le)
  }

  // ---------------------------------------------------------------- counting

  /** The number of elements of `xs` equal to one of `keys`, key by key. */
  function SumCounts<T(==)>(keys: seq<T>, xs: seq<T>): nat
    decreases |keys|
  {
    if keys == [] then 0 else multiset(xs)[keys[0]] + SumCounts(keys[1..], xs)
  }

  lemma {:induction false} SumCountsSnoc<T>(keys: seq<T>, xs: seq<T>, x: T)
    ensures SumCounts(keys, xs + [x]) == SumCounts(keys, xs) + multiset(keys)[x]
    decreases |keys|
  {
    if keys != [] {
      SumCountsSnoc(keys[1..], xs, x);
      assert keys == [keys[0]] + keys[1..];
    }
  }

  /** Counting per distinct key partitions the sequence: the counts add up to its length. */
  lemma {:induction false} SumCountsPartition<T>(keys: seq<T>, xs: seq<T>)
    requires NoDups(keys)
    requires forall x :: x in xs ==> x in keys
    ensures SumCounts(keys, xs) == |xs|
    decreases |xs|
  {
    if xs == [] {
      SumCountsEmpty(keys, xs);
    } else {
      var init := xs[..|xs| - 1];
      var last := xs[|xs| - 1];
      assert xs == init + [last];
      assert forall x :: x in init ==> x in xs;
      SumCountsPartition(keys, init);
      SumCountsSnoc(keys, init, last);
      NoDupsMultiset(keys);
      assert last in xs;
      assert last in multiset(keys);
    }
  }

  lemma {:induction false} SumCountsEmpty<T>(keys: seq<T>, xs: seq<T>)
    requires xs == []
    ensures SumCounts(keys, xs) == 0
    decreases |keys|
  {
    if keys != [] {
      SumCountsEmpty(keys[1..], xs);
    }
  }
}
