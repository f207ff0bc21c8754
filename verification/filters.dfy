/**
 Loading, the sidebar filters, their contextual option lists and the
 explorer's name search (main.py lines 166-170, 226, 238-251, 282-293, 539-544).
 */
module Filters {
  import opened Optional
  import opened Seqs
  import opened Text
  import opened Records
  import opened Masks

  // ---------------------------------------------------------------- loading

  /** The dataset after the load-time exclusion of two entity types. */
  function Load(raw: seq<Record>): (r: seq<Record>)
    ensures Subseq(r, raw)
    ensures forall x :: x in r ==> x.kind !in ExcludedTypes
    ensures forall x :: multiset(r)[x] == if x.kind in ExcludedTypes then 0 else multiset(raw)[x]
  {
    var cs := [TypeNotIn(ExcludedTypes)];
    assert forall x :: HoldsAll(cs, x) <==> x.kind !in ExcludedTypes by {
      forall x { HoldsAllSingle(cs[0], x); }
    }
    Keep(raw, cs)
  }

  // ---------------------------------------------------------------- filters

  /**
   The sidebar's choices. `dates` is what the date-range picker returns: the
   range only applies once both ends have been picked.
   */
  datatype Selection = Selection(entityType: string, gestora: string, depositaria: string, dates: seq<Date>)

  /** Every selector is on its "no filter" sentinel and the date range is incomplete. */
  predicate NoFilter(sel: Selection) {
    sel.entityType == AllTypes && sel.gestora == AllNames && sel.depositaria == AllNames && |sel.dates| != 2
  }

  /** Which rows the sidebar lets through, stated field by field. */
  predicate Matches(sel: Selection, x: Record) {
    && (sel.entityType == AllTypes || x.kind == sel.entityType)
    && (sel.gestora == AllNames || x.gestora == Some(sel.gestora))
    && (sel.depositaria == AllNames || x.depositaria == Some(sel.depositaria))
    && (|sel.dates| == 2 ==>
          x.registered.Some? && DateLe(sel.dates[0], x.registered.value) && DateLe(x.registered.value, sel.dates[1]))
  }

  function MaskIf(apply: bool, c: Criterion): seq<Criterion> {
    if apply then [c] else []
  }

  /** The masks the script applies, in its order; a sentinel adds none. */
  function Tests(sel: Selection): seq<Criterion> {
    MaskIf(sel.entityType != AllTypes, TypeIs(sel.entityType))
    + MaskIf(sel.gestora != AllNames, GestoraIs(sel.gestora))
    + MaskIf(sel.depositaria != AllNames, DepositariaIs(sel.depositaria))
    + (if |sel.dates| == 2 then [RegisteredWithin(sel.dates[0], sel.dates[1])] else [])
  }

  lemma HoldsAllConcat(a: seq<Criterion>, b: seq<Criterion>, x: Record)
    ensures HoldsAll(a + b, x) <==> HoldsAll(a, x) && HoldsAll(b, x)
  {
    var ab := a + b;
    assert forall i :: 0 <= i < |a| ==> ab[i] == a[i];
    assert forall j :: 0 <= j < |b| ==> ab[|a| + j] == b[j];
    if HoldsAll(a, x) && HoldsAll(b, x) {
      forall i | 0 <= i < |ab|
        ensures Holds(ab[i], x)
      {
        if i >= |a| {
          assert ab[i] == b[i - |a|];
        }
      }
    }
  }

  lemma TestsMeanMatches(sel: Selection, x: Record)
    ensures HoldsAll(Tests(sel), x) <==> Matches(sel, x)
  {
    var t1 := MaskIf(sel.entityType != AllTypes, TypeIs(sel.entityType));
    var t2 := MaskIf(sel.gestora != AllNames, GestoraIs(sel.gestora));
    var t3 := MaskIf(sel.depositaria != AllNames, DepositariaIs(sel.depositaria));
    var t4 := if |sel.dates| == 2 then [RegisteredWithin(sel.dates[0], sel.dates[1])] else [];
    HoldsAllConcat(t1 + t2 + t3, t4, x);
    HoldsAllConcat(t1 + t2, t3, x);
    HoldsAllConcat(t1, t2, x);
    if |t1| == 1 { HoldsAllSingle(t1[0], x); }
    if |t2| == 1 { HoldsAllSingle(t2[0], x); }
    if |t3| == 1 { HoldsAllSingle(t3[0], x); }
    if |t4| == 1 { HoldsAllSingle(t4[0], x); }
  }

  lemma TestsMeanMatchesAll(sel: Selection)
    ensures forall x :: HoldsAll(Tests(sel), x) <==> Matches(sel, x)
  {
    forall x {
      TestsMeanMatches(sel, x);
    }
  }

  /**
   The working subset: an order-preserving narrowing of the input that keeps
   exactly the rows every active selector accepts. The date range is
   inclusive at both ends and never admits a row without a registration date.
   */
  function Filter(rows: seq<Record>, sel: Selection): (r: seq<Record>)
    ensures Subseq(r, rows)
    ensures forall x :: multiset(r)[x] == if Matches(sel, x) then multiset(rows)[x] else 0
    ensures forall x :: x in r ==> Matches(sel, x)
    ensures NoFilter(sel) ==> r == rows
  {
    NarrowIsKeep(rows, Tests(sel));
    TestsMeanMatchesAll(sel);
    Narrow(rows, Tests(sel))
  }

  /** Re-applying the same selection changes nothing. */
  lemma FilterIdempotent(rows: seq<Record>, sel: Selection)
    ensures Filter(Filter(rows, sel), sel) == Filter(rows, sel)
  {
    NarrowIsKeep(rows, Tests(sel));
    NarrowIsKeep(Filter(rows, sel), Tests(sel));
    KeepIdempotent(rows, Tests(sel));
  }

  // ---------------------------------------------------------------- option lists

  function Kinds(rows: seq<Record>): (v: seq<string>)
    ensures forall k :: k in v <==> exists x :: x in rows && x.kind == k
  {
    if rows == [] then [] else [rows[0].kind] + Kinds(rows[1..])
  }

  lemma StrOrderIsTotal()
    ensures TotalPreorder(StrOrder())
  {
    var le := StrOrder();
    forall a, b
      ensures le(a, b) || le(b, a)
    {
      StrLeTotal(a, b);
    }
    forall a, b, c | le(a, b) && le(b, c)
      ensures le(a, c)
    {
      StrLeTrans(a, b, c);
    }
  }

  /** Python's `sorted(set(xs))`: each value once, in strictly increasing order. */
  function SortedUnique(xs: seq<string>): (r: seq<string>)
    ensures forall i, j :: 0 <= i < j < |r| ==> StrLt(r[i], r[j])
    ensures forall v :: v in r <==> v in xs
  {
    var d := Distinct(xs);
    StrOrderIsTotal();
    var s := Sort(d, StrOrder());
    PermutationNoDups(s, d);
    assert forall v :: v in s <==> v in multiset(d);
    s
  }

  /** A selector's entries: the sentinel, then the sorted distinct present values. */
  function Choices(sentinel: string, values: seq<Option<string>>): (r: seq<string>)
    ensures |r| >= 1 && r[0] == sentinel
    ensures forall i, j :: 1 <= i < j < |r| ==> StrLt(r[i], r[j])
    ensures forall v :: v in r[1..] <==> Some(v) in values
  {
    var tail := SortedUnique(Present(values));
    assert ([sentinel] + tail)[1..] == tail;
    [sentinel] + tail
  }

  /** The rows the manager and depositary selectors draw their entries from. */
  function TypeNarrowed(rows: seq<Record>, entityType: string): (r: seq<Record>)
    ensures forall x :: x in r <==> x in rows && (entityType == AllTypes || x.kind == entityType)
  {
    if entityType != AllTypes then
      var cs := [TypeIs(entityType)];
      assert forall x :: x in rows && x.kind == entityType ==> multiset(rows)[x] > 0;
      assert forall x :: HoldsAll(cs, x) <==> x.kind == entityType by {
        forall x { HoldsAllSingle(cs[0], x); }
      }
      Keep(rows, cs)
    else rows
  }

  /** The entity-type selector: "Todos" and every type of the loaded data. */
  function EntityTypeOptions(rows: seq<Record>): (r: seq<string>)
    ensures |r| >= 1 && r[0] == AllTypes
    ensures forall i, j :: 1 <= i < j < |r| ==> StrLt(r[i], r[j])
    ensures forall k :: k in r[1..] <==> exists x :: x in rows && x.kind == k
  {
    var tail := SortedUnique(Kinds(rows));
    assert ([AllTypes] + tail)[1..] == tail;
    [AllTypes] + tail
  }

  /** A manager appears in the column exactly when some row names it. */
  lemma GestorasNamed(rows: seq<Record>)
    ensures forall g :: Some(g) in Gestoras(rows) <==> exists x :: x in rows && x.gestora == Some(g)
  {
    var values := Gestoras(rows);
    forall g | exists x :: x in rows && x.gestora == Some(g)
      ensures Some(g) in values
    {
      var x :| x in rows && x.gestora == Some(g);
      var i :| 0 <= i < |rows| && rows[i] == x;
      assert values[i] == Some(g);
    }
  }

  /** A depositary appears in the column exactly when some row names it. */
  lemma DepositariasNamed(rows: seq<Record>)
    ensures forall d :: Some(d) in Depositarias(rows) <==> exists x :: x in rows && x.depositaria == Some(d)
  {
    var values := Depositarias(rows);
    forall d | exists x :: x in rows && x.depositaria == Some(d)
      ensures Some(d) in values
    {
      var x :| x in rows && x.depositaria == Some(d);
      var i :| 0 <= i < |rows| && rows[i] == x;
      assert values[i] == Some(d);
    }
  }

  /** The manager selector: depends on the entity type chosen, not on the other selectors. */
  function GestoraOptions(rows: seq<Record>, entityType: string): (r: seq<string>)
    ensures |r| >= 1 && r[0] == AllNames
    ensures forall i, j :: 1 <= i < j < |r| ==> StrLt(r[i], r[j])
    ensures forall g :: g in r[1..] <==>
      exists x :: x in rows && x.gestora == Some(g) && (entityType == AllTypes || x.kind == entityType)
  {
    var narrowed := TypeNarrowed(rows, entityType);
    var values := Gestoras(narrowed);
    GestorasNamed(narrowed);
    Choices(AllNames, values)
  }

  /** The depositary selector, narrowed the same way. */
  function DepositariaOptions(rows: seq<Record>, entityType: string): (r: seq<string>)
    ensures |r| >= 1 && r[0] == AllNames
    ensures forall i, j :: 1 <= i < j < |r| ==> StrLt(r[i], r[j])
    ensures forall d :: d in r[1..] <==>
      exists x :: x in rows && x.depositaria == Some(d) && (entityType == AllTypes || x.kind == entityType)
  {
    var narrowed := TypeNarrowed(rows, entityType);
    var values := Depositarias(narrowed);
    DepositariasNamed(narrowed);
    Choices(AllNames, values)
  }

  // ---------------------------------------------------------------- search

  /** The search box's test, stated with an explicit match position. */
  ghost predicate NameMatches(x: Record, term: string) {
    x.name.Some? && exists i :: OccursAt(Lower(term), Lower(x.name.value), i)
  }

  /**
   The name search: an empty box leaves the rows alone; otherwise exactly the
   rows whose name contains the term, ignoring case, in their order. A row
   without a name never matches.
   */
  function Search(rows: seq<Record>, term: string): (r: seq<Record>)
    requires Literal(term)
    ensures Subseq(r, rows)
    ensures term == "" ==> r == rows
    ensures term != "" ==> forall x :: multiset(r)[x] == if NameMatches(x, term) then multiset(rows)[x] else 0
    ensures term != "" ==> forall x :: x in r ==> x.name.Some?
  {
    if term == "" then
      SubseqRefl(rows);
      rows
    else
      var cs := [NameContains(term)];
      assert forall x :: HoldsAll(cs, x) <==> NameMatches(x, term) by {
        forall x
          ensures HoldsAll(cs, x) <==> NameMatches(x, term)
        {
          HoldsAllSingle(cs[0], x);
          if x.name.Some? {
            OccursIff(Lower(term), Lower(x.name.value));
          }
        }
      }
      var r := Keep(rows, cs);
      assert forall x :: x in r ==> x in multiset(r);
      r
  }
}
