/**
 The explorer's `sort_values(column, ascending=...)` (main.py line 577-578):
 present values in ascending or descending order, missing values last in
 both directions (pandas' default `na_position='last'`). The default
 quicksort is not stable, so only the order of keys is promised.
 */
module Ordering {
  import opened Seqs
  import opened Text
  import opened Records

  /** Within one column all present cells have the same kind; the rank only makes the order total. */
  function KindRank(c: Cell): nat {
    match c
    case Text(_) => 0
    case Day(_) => 1
    case Missing => 2
  }

  /** Ascending order of present cells: strings by code point, dates chronologically. */
  predicate ValueLe(a: Cell, b: Cell) {
    if a.Text? && b.Text? then StrLe(a.text, b.text)
    else if a.Day? && b.Day? then DateLe(a.date, b.date)
    else KindRank(a) <= KindRank(b)
  }

  /** The sort key order: missing cells after every present one, whatever the direction. */
  predicate CellLe(ascending: bool, a: Cell, b: Cell) {
    if a == Missing then b == Missing
    else if b == Missing then true
    else if ascending then ValueLe(a, b)
    else ValueLe(b, a)
  }

  lemma ValueLeTotal(a: Cell, b: Cell)
    ensures ValueLe(a, b) || ValueLe(b, a)
  {
    if a.Text? && b.Text? {
      StrLeTotal(a.text, b.text);
    }
  }

  lemma ValueLeTrans(a: Cell, b: Cell, c: Cell)
    requires ValueLe(a, b) && ValueLe(b, c)
    ensures ValueLe(a, c)
  {
    if a.Text? && b.Text? && c.Text? {
      StrLeTrans(a.text, b.text, c.text);
    }
  }

  function RowOrder(col: Column, ascending: bool): (le: (Record, Record) -> bool)
    ensures forall x, y :: le(x, y) == CellLe(ascending, Field(x, col), Field(y, col))
  {
    (x: Record, y: Record) => CellLe(ascending, Field(x, col), Field(y, col))
  }

  lemma RowOrderIsTotal(col: Column, ascending: bool)
    ensures TotalPreorder(RowOrder(col, ascending))
  {
    var le := RowOrder(col, ascending);
    forall x, y
      ensures le(x, y) || le(y, x)
    {
      ValueLeTotal(Field(x, col), Field(y, col));
    }
    forall x, y, z | le(x, y) && le(y, z)
      ensures le(x, z)
    {
      var a, b, c := Field(x, col), Field(y, col), Field(z, col);
      if a != Missing && b != Missing && c != Missing {
        if ascending {
          ValueLeTrans(a, b, c);
        } else {
          ValueLeTrans(c, b, a);
        }
      }
    }
  }

  /** Rows ordered by one column: missing keys last, present keys in the requested direction. */
  predicate SortedOn(r: seq<Record>, col: Column, ascending: bool) {
    && (forall i, j :: 0 <= i < j < |r| && Field(r[i], col) == Missing ==> Field(r[j], col) == Missing)
    && (forall i, j :: 0 <= i < j < |r| && Field(r[j], col) != Missing ==>
          Field(r[i], col) != Missing &&
          if ascending then ValueLe(Field(r[i], col), Field(r[j], col)) else ValueLe(Field(r[j], col), Field(r[i], col)))
  }

  /**
   The rows reordered by one column: the same rows with the same
   multiplicities, present keys in the requested direction, missing keys last.
   */
  function SortRows(rows: seq<Record>, col: Column, ascending: bool): (r: seq<Record>)
    ensures multiset(r) == multiset(rows)
    ensures SortedOn(r, col, ascending)
  {
    RowOrderIsTotal(col, ascending);
    Sort(rows, RowOrder(col, ascending))
  }
}
