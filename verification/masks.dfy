/**
 Boolean masks over rows: `df[mask]` keeps the rows a criterion accepts, in
 their original order. The dashboard narrows its frame by applying one mask
 after another; `Narrow` models that sequence and `Keep` the single-pass
 conjunction it amounts to.
 */
module Masks {
  import opened Optional
  import opened Seqs
  import opened Text
  import opened Records

  datatype Criterion =
    | TypeNotIn(types: seq<string>)          // ~df['entity_type'].isin(types)
    | TypeIs(kind: string)                   // df['entity_type'] == kind
    | GestoraIs(gestora: string)             // df['gestora_nombre'] == gestora
    | DepositariaIs(depositaria: string)     // df['depositaria_nombre'] == depositaria
    | RegisteredWithin(lo: Date, hi: Date)   // (fecha_registro >= lo) & (fecha_registro <= hi)
    | NameContains(term: string)             // entity_name.str.contains(term, case=False, na=False)

  /** Whether the mask is true on a row; a comparison with NaN / NaT is false. */
  predicate Holds(c: Criterion, r: Record) {
    match c
    case TypeNotIn(types) => r.kind !in types
    case TypeIs(kind) => r.kind == kind
    case GestoraIs(g) => r.gestora == Some(g)
    case DepositariaIs(d) => r.depositaria == Some(d)
    case RegisteredWithin(lo, hi) =>
      r.registered.Some? && DateLe(lo, r.registered.value) && DateLe(r.registered.value, hi)
    case NameContains(term) => r.name.Some? && ContainsIgnoringCase(r.name.value, term)
  }

  predicate HoldsAll(cs: seq<Criterion>, r: Record) {
    forall i :: 0 <= i < |cs| ==> Holds(cs[i], r)
  }

  /**
   The rows satisfying every criterion, in order: exactly the order-preserving
   selection that keeps each accepted row as often as it occurs.
   */
  function Keep(rows: seq<Record>, cs: seq<Criterion>): (r: seq<Record>)
    ensures Subseq(r, rows)
    ensures forall x :: multiset(r)[x] == if HoldsAll(cs, x) then multiset(rows)[x] else 0
    decreases |rows|
  {
    if rows == [] then []
    else
      var rest := Keep(rows[1..], cs);
      assert rows == [rows[0]] + rows[1..];
      if HoldsAll(cs, rows[0]) then
        assert Subseq([rows[0]] + rest, rows) by {
          assert ([rows[0]] + rest)[1..] == rest;
        }
        [rows[0]] + rest
      else
        rest
  }

  /** Applies the masks one after another, as successive `df = df[mask]` lines do. */
  function Narrow(rows: seq<Record>, cs: seq<Criterion>): seq<Record>
    decreases |cs|
  {
    if cs == [] then rows else Narrow(Keep(rows, [cs[0]]), cs[1..])
  }

  /** One step of `Keep`, stated as an equation. */
  lemma KeepCons(rows: seq<Record>, cs: seq<Criterion>)
    requires rows != []
    ensures Keep(rows, cs) == (if HoldsAll(cs, rows[0]) then [rows[0]] else []) + Keep(rows[1..], cs)
  {
  }

  lemma HoldsAllCons(c: Criterion, cs: seq<Criterion>, r: Record)
    ensures HoldsAll([c] + cs, r) <==> Holds(c, r) && HoldsAll(cs, r)
  {
    var all := [c] + cs;
    assert all[0] == c;
    assert forall i :: 0 < i < |all| ==> all[i] == cs[i - 1];
    if Holds(c, r) && HoldsAll(cs, r) {
      forall i | 0 <= i < |all|
        ensures Holds(all[i], r)
      {
        if i > 0 {
          assert Holds(cs[i - 1], r);
        }
      }
    }
    if HoldsAll(all, r) {
      forall j | 0 <= j < |cs|
        ensures Holds(cs[j], r)
      {
        assert all[j + 1] == cs[j];
      }
    }
  }

  lemma HoldsAllSingle(c: Criterion, r: Record)
    ensures HoldsAll([c], r) <==> Holds(c, r)
  {
    assert [c][0] == c;
  }

  lemma {:induction false} KeepThenKeep(rows: seq<Record>, c: Criterion, cs: seq<Criterion>)
    ensures Keep(Keep(rows, [c]), cs) == Keep(rows, [c] + cs)
    decreases |rows|
  {
    if rows != [] {
      var r0 := rows[0];
      KeepThenKeep(rows[1..], c, cs);
      HoldsAllCons(c, cs, r0);
      HoldsAllSingle(c, r0);
      KeepCons(rows, [c]);
      KeepCons(rows, [c] + cs);
      if Holds(c, r0) {
        KeepCons(Keep(rows, [c]), cs);
      }
    }
  }

  /** Successive masks select the same rows as their conjunction in one pass. */
  lemma {:induction false} NarrowIsKeep(rows: seq<Record>, cs: seq<Criterion>)
    ensures Narrow(rows, cs) == Keep(rows, cs)
    decreases |cs|
  {
    if cs == [] {
      KeepNothing(rows, cs);
    } else {
      NarrowIsKeep(Keep(rows, [cs[0]]), cs[1..]);
      KeepThenKeep(rows, cs[0], cs[1..]);
      assert [cs[0]] + cs[1..] == cs;
    }
  }

  lemma {:induction false} KeepNothing(rows: seq<Record>, cs: seq<Criterion>)
    requires cs == []
    ensures Keep(rows, cs) == rows
    decreases |rows|
  {
    if rows != [] {
      KeepNothing(rows[1..], cs);
    }
  }

  /** Masking twice with the same criteria changes nothing more. */
  lemma {:induction false} KeepIdempotent(rows: seq<Record>, cs: seq<Criterion>)
    ensures Keep(Keep(rows, cs), cs) == Keep(rows, cs)
    decreases |rows|
  {
    if rows != [] {
      KeepIdempotent(rows[1..], cs);
      if HoldsAll(cs, rows[0]) {
        assert Keep(rows, cs)[1..] == Keep(rows[1..], cs);
      }
    }
  }
}
