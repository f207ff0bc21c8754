/**
 String vocabulary of the pipeline: Python's code-point string order (used by
 `sorted` and `sort_values`), ASCII case folding with literal substring search
 (`str.contains(..., case=False)`), decimal formatting of counts, and the
 `", "`-separated lists the explorer view builds.
 */
module Text {

  // ---------------------------------------------------------------- order

  /** Python's `a <= b` on `str`: lexicographic by code point, a prefix first. */
  predicate StrLe(a: string, b: string) {
    if a == [] then true
    else if b == [] then false
    else if a[0] != b[0] then a[0] < b[0]
    else StrLe(a[1..], b[1..])
  }

  predicate StrLt(a: string, b: string) {
    StrLe(a, b) && a != b
  }

  lemma {:induction false} StrLeTotal(a: string, b: string)
    ensures StrLe(a, b) || StrLe(b, a)
  {
    if a != [] && b != [] && a[0] == b[0] {
      StrLeTotal(a[1..], b[1..]);
    }
  }

  lemma {:induction false} StrLeTrans(a: string, b: string, c: string)
    requires StrLe(a, b) && StrLe(b, c)
    ensures StrLe(a, c)
  {
    if a != [] && b != [] && c != [] && a[0] == b[0] && b[0] == c[0] {
      StrLeTrans(a[1..], b[1..], c[1..]);
    }
  }

  lemma {:induction false} StrLeAntisym(a: string, b: string)
    requires StrLe(a, b) && StrLe(b, a)
    ensures a == b
  {
    if a != [] && b != [] {
      StrLeAntisym(a[1..], b[1..]);
      assert a == [a[0]] + a[1..] && b == [b[0]] + b[1..];
    }
  }

  /** The string order is a total preorder, so it can drive `Seqs.Sort`. */
  function StrOrder(): (le: (string, string) -> bool)
    ensures forall a, b :: le(a, b) == StrLe(a, b)
  {
    (a: string, b: string) => StrLe(a, b)
  }

  // ---------------------------------------------------------------- search

  /** ASCII lower-casing; other characters are left as they are. */
  function Lower(s: string): (r: string)
    ensures |r| == |s|
    ensures forall i :: 0 <= i < |s| ==> r[i] == LowerChar(s[i])
  {
    seq(|s|, i requires 0 <= i < |s| => LowerChar(s[i]))
  }

  function LowerChar(c: char): char {
    if 'A' <= c <= 'Z' then (c as int + 32) as char else c
  }

  /** The characters `re.search` gives a meaning to; a search term free of them matches literally. */
  predicate Literal(term: string) {
    forall i :: 0 <= i < |term| ==> term[i] !in ".^$*+?{}[]\\|()"
  }

  /** `t` occurs in `s` as a contiguous block, tested left to right. */
  predicate Occurs(t: string, s: string)
    decreases |s|
  {
    if |t| > |s| then false
    else if s[..|t|] == t then true
    else Occurs(t, s[1..])
  }

  /** `t` occurs in `s` starting at position `i`. */
  predicate OccursAt(t: string, s: string, i: int) {
    0 <= i <= |s| - |t| && s[i..i + |t|] == t
  }

  /** The scan agrees with the definition of a substring, in both directions. */
  lemma {:induction false} OccursIff(t: string, s: string)
    ensures Occurs(t, s) <==> exists i :: OccursAt(t, s, i)
    decreases |s|
  {
    if |t| > |s| {
    } else if s[..|t|] == t {
      assert OccursAt(t, s, 0);
    } else {
      OccursIff(t, s[1..]);
      if Occurs(t, s[1..]) {
        var i :| OccursAt(t, s[1..], i);
        assert s[i + 1..i + 1 + |t|] == s[1..][i..i + |t|];
        assert OccursAt(t, s, i + 1);
      }
      if exists i :: OccursAt(t, s, i) {
        var i :| OccursAt(t, s, i);
        assert i != 0;
        assert s[1..][i - 1..i - 1 + |t|] == s[i..i + |t|];
        assert OccursAt(t, s[1..], i - 1);
      }
    }
  }

  /** `str.contains(term, case=False)` on a literal term, folding ASCII case only. */
  predicate ContainsIgnoringCase(s: string, term: string) {
    Occurs(Lower(term), Lower(s))
  }

  // ---------------------------------------------------------------- numbers

  function Digit(d: nat): char
    requires d < 10
  {
    ('0' as int + d) as char
  }

  predicate IsDigit(c: char) {
    '0' <= c <= '9'
  }

  /** Python's `str(n)` for a non-negative integer. */
  function Decimal(n: nat): (r: string)
    ensures |r| >= 1
    ensures forall i :: 0 <= i < |r| ==> IsDigit(r[i])
  {
    if n < 10 then [Digit(n)] else Decimal(n / 10) + [Digit(n % 10)]
  }

  /** The value of a non-empty run of decimal digits. */
  function ParseDecimal(s: string): nat
    requires forall i :: 0 <= i < |s| ==> IsDigit(s[i])
  {
    if s == [] then 0
    else
      assert IsDigit(s[|s| - 1]);
      10 * ParseDecimal(s[..|s| - 1]) + (s[|s| - 1] as int - '0' as int) as nat
  }

  lemma {:induction false} DecimalRoundTrip(n: nat)
    ensures ParseDecimal(Decimal(n)) == n
  {
    if n >= 10 {
      DecimalRoundTrip(n / 10);
      var s := Decimal(n);
      assert s == Decimal(n / 10) + [Digit(n % 10)];
      assert s[..|s| - 1] == Decimal(n / 10);
      assert s[|s| - 1] as int - '0' as int == n % 10;
    }
  }

  // ---------------------------------------------------------------- lists

  const Separator: string := ", "

  /** Python's `", ".join(xs)`. */
  function Join(xs: seq<string>): string {
    if xs == [] then ""
    else if |xs| == 1 then xs[0]
    else xs[0] + Separator + Join(xs[1..])
  }

  predicate NoComma(s: string) {
    forall i :: 0 <= i < |s| ==> s[i] != ','
  }

  /** Cuts a string at every `", "`; the inverse of `Join` on comma-free items. */
  function Split(s: string): (r: seq<string>)
    ensures |r| >= 1
    decreases |s|
  {
    if s == [] then [""]
    else if |s| >= 2 && s[0] == ',' && s[1] == ' ' then [""] + Split(s[2..])
    else
      var rest := Split(s[1..]);
      [[s[0]] + rest[0]] + rest[1..]
  }

  lemma {:induction false} SplitSingle(x: string)
    requires NoComma(x)
    ensures Split(x) == [x]
    decreases |x|
  {
    if x != [] {
      SplitSingle(x[1..]);
      assert [x[0]] + x[1..] == x;
    }
  }

  lemma {:induction false} SplitFirst(x: string, rest: string)
    requires NoComma(x)
    ensures Split(x + Separator + rest) == [x] + Split(rest)
    decreases |x|
  {
    var s := x + Separator + rest;
    if x == [] {
      assert s == ", " + rest;
      assert s[2..] == rest;
    } else {
      assert s[1..] == x[1..] + Separator + rest;
      SplitFirst(x[1..], rest);
      assert [x[0]] + x[1..] == x;
    }
  }

  /** Splitting a joined list of comma-free items gives the items back. */
  lemma {:induction false} SplitJoin(xs: seq<string>)
    requires |xs| >= 1
    requires forall k :: 0 <= k < |xs| ==> NoComma(xs[k])
    ensures Split(Join(xs)) == xs
    decreases |xs|
  {
    if |xs| == 1 {
      SplitSingle(xs[0]);
    } else {
      SplitJoin(xs[1..]);
      SplitFirst(xs[0], Join(xs[1..]));
      assert [xs[0]] + xs[1..] == xs;
    }
  }

  /** A joined list of non-empty items ends with the last item's last character. */
  lemma {:induction false} JoinLast(xs: seq<string>)
    requires |xs| >= 1 && |xs[|xs| - 1]| >= 1
    ensures |Join(xs)| >= 1
    ensures Join(xs)[|Join(xs)| - 1] == xs[|xs| - 1][|xs[|xs| - 1]| - 1]
    decreases |xs|
  {
    if |xs| > 1 {
      JoinLast(xs[1..]);
    }
  }
}
