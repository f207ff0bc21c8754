/**
 The script's data flow end to end: load, sidebar filter, then the data
 explorer's search, sort and view (main.py lines 166-170, 282-293 and
 539-618).
 */
module Pipeline {
  import opened Seqs
  import opened Text
  import opened Records
  import opened Filters
  import opened Ordering
  import opened Explorer

  /** The rows the explorer starts from: loaded, filtered and searched rows of the input. */
  lemma Searched(raw: seq<Record>, sel: Selection, term: string)
    requires Literal(term)
    ensures var shown := Search(Filter(Load(raw), sel), term);
      |shown| <= |raw| &&
      forall x :: x in shown ==>
        x in raw && x.kind !in ExcludedTypes && Matches(sel, x) && (term == "" || NameMatches(x, term))
  {
    var loaded := Load(raw);
    var filtered := Filter(loaded, sel);
    var shown := Search(filtered, term);
    SubseqBounds(shown, filtered);
    SubseqBounds(filtered, loaded);
    SubseqBounds(loaded, raw);
    forall x | x in shown
      ensures x in raw && x.kind !in ExcludedTypes && Matches(sel, x) && (term == "" || NameMatches(x, term))
    {
      assert x in multiset(shown);
      assert x in multiset(filtered);
      assert x in multiset(loaded);
    }
  }

  /** Without grouping, the view lists the projection of every row, in the order given. */
  lemma UngroupedView(sorted: seq<Record>, shown: seq<Record>, show: seq<Column>, group: bool)
    requires multiset(sorted) == multiset(shown)
    ensures var t := View(sorted, show, group);
      !group || GroupingColumns(show) == [] ==>
        t.header == Names(show) && t.rows == Project(sorted, show) && |t.rows| == |shown| &&
        forall p :: p in t.rows ==> exists x :: x in shown && Key(x, show) == p
  {
    var t := View(sorted, show, group);
    assert |sorted| == |multiset(sorted)| == |multiset(shown)| == |shown|;
    forall p | p in t.rows && (!group || GroupingColumns(show) == [])
      ensures exists x :: x in shown && Key(x, show) == p
    {
      var i :| 0 <= i < |t.rows| && t.rows[i] == p;
      assert sorted[i] in multiset(sorted);
      assert sorted[i] in shown;
    }
  }

  /**
   The table the data explorer displays for the given raw rows and widget
   states. Without grouping it lists every loaded row that passes the
   sidebar and the search, ordered by the chosen column.
   */
  function Explore(raw: seq<Record>, sel: Selection, term: string, sortBy: Column, ascending: bool,
                   show: seq<Column>, group: bool): (t: Table)
    requires Literal(term)
    ensures !group || GroupingColumns(show) == [] ==>
      |t.rows| == |Search(Filter(Load(raw), sel), term)| <= |raw|
    ensures !group || GroupingColumns(show) == [] ==>
      t.header == Names(show) &&
      exists s :: SortedOn(s, sortBy, ascending) && multiset(s) == multiset(Search(Filter(Load(raw), sel), term)) &&
        t.rows == Project(s, show)
    ensures forall p :: p in t.rows && (!group || GroupingColumns(show) == []) ==>
      exists x :: x in raw && x.kind !in ExcludedTypes && Matches(sel, x) && (term == "" || NameMatches(x, term)) &&
        Key(x, show) == p
  {
    var shown := Search(Filter(Load(raw), sel), term);
    var sorted := SortRows(shown, sortBy, ascending);
    Searched(raw, sel, term);
    UngroupedView(sorted, shown, show, group);
    View(sorted, show, group)
  }

  /** Sorting never changes how many rows the explorer shows. */
  lemma ExploreSizeIgnoresSort(raw: seq<Record>, sel: Selection, term: string, show: seq<Column>, group: bool,
                               sortBy: Column, ascending: bool, sortBy': Column, ascending': bool)
    requires Literal(term)
    ensures |Explore(raw, sel, term, sortBy, ascending, show, group).rows|
         == |Explore(raw, sel, term, sortBy', ascending', show, group).rows|
  {
    var shown := Search(Filter(Load(raw), sel), term);
    ViewSizeIgnoresOrder(SortRows(shown, sortBy, ascending), SortRows(shown, sortBy', ascending'), show, group);
  }
}
