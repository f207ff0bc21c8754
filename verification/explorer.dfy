/**
 The data explorer's table (main.py lines 581-618): with "group by entity"
 on, rows that agree on every shown entity-level column collapse into one,
 and the shown class-specific columns are reduced per group.
 */
module Explorer {
  import opened Optional
  import opened Seqs
  import opened Text
  import opened Records

  /** A displayed frame: column headers and one list of cells per row. */
  datatype Table = Table(header: seq<string>, rows: seq<seq<Cell>>)

  // ---------------------------------------------------------------- columns

  /** The shown columns that are (or are not) class-specific, in their shown order. */
  function ColumnsWhere(show: seq<Column>, classSpecific: bool): (r: seq<Column>)
    ensures Subseq(r, show)
    ensures forall c :: c in r <==> c in show && ClassSpecific(c) == classSpecific
    ensures forall c :: multiset(r)[c] == if ClassSpecific(c) == classSpecific then multiset(show)[c] else 0
    decreases |show|
  {
    if show == [] then []
    else
      var rest := ColumnsWhere(show[1..], classSpecific);
      assert show == [show[0]] + show[1..];
      if ClassSpecific(show[0]) == classSpecific then
        assert ([show[0]] + rest)[1..] == rest;
        [show[0]] + rest
      else rest
  }

  /** `groupby_cols`: the shown entity-level columns. */
  function GroupingColumns(show: seq<Column>): seq<Column> {
    ColumnsWhere(show, false)
  }

  /** `agg_cols`: the shown class-specific columns. */
  function ReducedColumns(show: seq<Column>): seq<Column> {
    ColumnsWhere(show, true)
  }

  /** The headers `df[cols]` shows: each column under its own name. */
  function Names(cols: seq<Column>): (r: seq<string>)
    ensures |r| == |cols|
    ensures forall i :: 0 <= i < |cols| ==> r[i] == ColumnName(cols[i])
  {
    seq(|cols|, i requires 0 <= i < |cols| => ColumnName(cols[i]))
  }

  const Classes: string := "clases"

  /** Headers after the rename: both share-class identifier columns become `clases`. */
  function Labels(cols: seq<Column>): (r: seq<string>)
    ensures |r| == |cols|
    ensures forall i :: 0 <= i < |cols| ==> (r[i] == Classes <==> cols[i] in {Denominacion, Numero})
    ensures forall i :: 0 <= i < |cols| && cols[i] !in {Denominacion, Numero} ==> r[i] == ColumnName(cols[i])
  {
    seq(|cols|, i requires 0 <= i < |cols| =>
      if cols[i] in {Denominacion, Numero} then Classes else ColumnName(cols[i]))
  }

  // ---------------------------------------------------------------- reducers

  const ClassesSuffix: string := " clases"

  /** The reducer of `denominacion` / `numero`: `f"{len(x)} clases"`. */
  function ClassLabel(n: nat): string {
    Decimal(n) + ClassesSuffix
  }

  /** Reads a class count back from its label. */
  function ParseClassLabel(s: string): Option<nat> {
    if |s| > |ClassesSuffix| && s[|s| - |ClassesSuffix|..] == ClassesSuffix
       && forall i :: 0 <= i < |s| - |ClassesSuffix| ==> IsDigit(s[i])
    then Some(ParseDecimal(s[..|s| - |ClassesSuffix|]))
    else None
  }

  lemma ClassLabelRoundTrip(n: nat)
    ensures ParseClassLabel(ClassLabel(n)) == Some(n)
  {
    var s := ClassLabel(n);
    assert s[..|s| - |ClassesSuffix|] == Decimal(n);
    assert s[|s| - |ClassesSuffix|..] == ClassesSuffix;
    DecimalRoundTrip(n);
  }

  /**
   The ISINs listed for a group: at most three distinct present values, the
   first ones to appear; a value left out appears only after all of them.
   */
  function ShownIsins(isins: seq<Option<string>>): (r: seq<string>)
    ensures |r| == Min(3, |PresentSet(isins)|)
    ensures NoDups(r)
    ensures forall v :: v in r ==> Some(v) in isins
    ensures forall i, j :: 0 <= i < j < |r| ==> IndexOf(isins, Some(r[i])) < IndexOf(isins, Some(r[j]))
    ensures forall v, k :: Some(v) in isins && v !in r && 0 <= k < |r| ==>
      IndexOf(isins, Some(r[k])) < IndexOf(isins, Some(v))
  {
    DistinctPresentCard(isins);
    var r := FirstDistinct(Present(isins), 3);
    ColumnOrder(isins, r);
    r
  }

  /** An order by first appearance among the present values is the order of first appearance in the column. */
  lemma ColumnOrder(isins: seq<Option<string>>, r: seq<string>)
    requires forall v :: v in r ==> Some(v) in isins
    requires forall i, j :: 0 <= i < j < |r| ==> IndexOf(Present(isins), r[i]) < IndexOf(Present(isins), r[j])
    requires forall v, k :: Some(v) in isins && v !in r && 0 <= k < |r| ==>
      IndexOf(Present(isins), r[k]) < IndexOf(Present(isins), v)
    ensures forall i, j :: 0 <= i < j < |r| ==> IndexOf(isins, Some(r[i])) < IndexOf(isins, Some(r[j]))
    ensures forall v, k :: Some(v) in isins && v !in r && 0 <= k < |r| ==>
      IndexOf(isins, Some(r[k])) < IndexOf(isins, Some(v))
  {
    forall i, j | 0 <= i < j < |r|
      ensures IndexOf(isins, Some(r[i])) < IndexOf(isins, Some(r[j]))
    {
      PresentOrder(isins, r[i], r[j]);
    }
    forall v, k | Some(v) in isins && v !in r && 0 <= k < |r|
      ensures IndexOf(isins, Some(r[k])) < IndexOf(isins, Some(v))
    {
      PresentOrder(isins, r[k], v);
    }
  }

  const Ellipsis: string := "..."

  /** The reducer of `isin`: the listed values joined by ", ", then "..." when some are left out. */
  function IsinSummary(isins: seq<Option<string>>): string {
    Join(ShownIsins(isins)) + (if |DistinctPresent(isins)| > 3 then Ellipsis else "")
  }

  /** A well-formed code: non-empty, with no comma and no dot. */
  predicate PlainCode(v: string) {
    |v| >= 1 && forall i :: 0 <= i < |v| ==> v[i] != ',' && v[i] != '.'
  }

  /** Reads an ISIN summary back: the listed values and whether some were left out. */
  function ParseIsinSummary(s: string): (seq<string>, bool) {
    var cut := |s| >= 3 && s[|s| - 3..] == Ellipsis;
    var body := if cut then s[..|s| - 3] else s;
    (if body == "" then [] else Split(body), cut)
  }

  lemma ParseUncut(body: string)
    requires body == [] || body[|body| - 1] != '.'
    ensures ParseIsinSummary(body) == (if body == "" then [] else Split(body), false)
  {
    if |body| >= 3 {
      assert body[|body| - 3..][2] == body[|body| - 1];
    }
  }

  lemma ParseJoined(xs: seq<string>)
    requires forall k :: 0 <= k < |xs| ==> PlainCode(xs[k])
    ensures ParseIsinSummary(Join(xs)) == (xs, false)
  {
    if |xs| >= 1 {
      assert forall k :: 0 <= k < |xs| ==> NoComma(xs[k]);
      SplitJoin(xs);
      var last := xs[|xs| - 1];
      assert PlainCode(last);
      JoinLast(xs);
      ParseUncut(Join(xs));
    } else {
      ParseUncut(Join(xs));
    }
  }

  lemma ParseCut(body: string)
    ensures ParseIsinSummary(body + Ellipsis) == (if body == "" then [] else Split(body), true)
  {
    var s := body + Ellipsis;
    assert s[|s| - 3..] == Ellipsis;
    assert s[..|s| - 3] == body;
  }

  lemma ParseJoinedCut(xs: seq<string>)
    requires forall k :: 0 <= k < |xs| ==> PlainCode(xs[k])
    ensures ParseIsinSummary(Join(xs) + Ellipsis) == (xs, true)
  {
    ParseCut(Join(xs));
    if |xs| >= 1 {
      assert forall k :: 0 <= k < |xs| ==> NoComma(xs[k]);
      SplitJoin(xs);
      JoinLast(xs);
    }
  }

  /**
   With well-formed codes the summary is unambiguous: it gives back the
   listed values, and the ellipsis is there exactly when more than three
   distinct values were present.
   */
  lemma IsinSummaryRoundTrip(isins: seq<Option<string>>)
    requires forall v :: Some(v) in isins ==> PlainCode(v)
    ensures ParseIsinSummary(IsinSummary(isins)) == (ShownIsins(isins), |PresentSet(isins)| > 3)
  {
    var shown := ShownIsins(isins);
    DistinctPresentCard(isins);
    ShownArePlain(isins);
    if |PresentSet(isins)| > 3 {
      assert IsinSummary(isins) == Join(shown) + Ellipsis;
      ParseJoinedCut(shown);
    } else {
      assert IsinSummary(isins) == Join(shown) + "" == Join(shown);
      ParseJoined(shown);
    }
  }

  lemma ShownArePlain(isins: seq<Option<string>>)
    requires forall v :: Some(v) in isins ==> PlainCode(v)
    ensures forall k :: 0 <= k < |ShownIsins(isins)| ==> PlainCode(ShownIsins(isins)[k])
  {
    var shown := ShownIsins(isins);
    forall k | 0 <= k < |shown| ensures PlainCode(shown[k]) {
      assert shown[k] in shown;
    }
  }

  /** pandas' `first` aggregation: the first present value of the group, missing if none. */
  function FirstPresent(cells: seq<Cell>): (r: Cell)
    ensures r == Missing <==> forall i :: 0 <= i < |cells| ==> cells[i] == Missing
    ensures r != Missing ==> r in cells && forall j :: 0 <= j < IndexOf(cells, r) ==> cells[j] == Missing
    decreases |cells|
  {
    if cells == [] then Missing
    else if cells[0] != Missing then cells[0]
    else
      var r := FirstPresent(cells[1..]);
      assert r != Missing ==> IndexOf(cells, r) == 1 + IndexOf(cells[1..], r);
      r
  }

  /** `x` for the `isin` column: the group's ISIN cells, in row order. */
  function Isins(group: seq<Record>): (r: seq<Option<string>>)
    ensures |r| == |group|
    ensures forall i :: 0 <= i < |group| ==> r[i] == group[i].isin
  {
    seq(|group|, i requires 0 <= i < |group| => group[i].isin)
  }

  /**
   The reducer the script chooses for a class-specific column: the class
   count for `denominacion` and `numero`, the ISIN summary for `isin`, and
   `first` for the two date columns.
   */
  function Reduce(c: Column, group: seq<Record>): (r: Cell)
    ensures c in {Denominacion, Numero} ==> r.Text? && ParseClassLabel(r.text) == Some(|group|)
    ensures c == Isin ==>
      (r.Text? &&
       ((forall v :: Some(v) in Isins(group) ==> PlainCode(v)) ==>
          ParseIsinSummary(r.text) == (ShownIsins(Isins(group)), |PresentSet(Isins(group))| > 3)))
    ensures c !in {Denominacion, Numero, Isin} ==>
      (r == Missing <==> forall i :: 0 <= i < |group| ==> Field(group[i], c) == Missing)
    ensures c !in {Denominacion, Numero, Isin} && r != Missing ==>
      exists i :: 0 <= i < |group| && Field(group[i], c) == r && (forall j :: 0 <= j < i ==> Field(group[j], c) == Missing)
  {
    if c in {Denominacion, Numero} then
      ClassLabelRoundTrip(|group|);
      Text(ClassLabel(|group|))
    else if c == Isin then
      var isins := Isins(group);
      assert (forall v :: Some(v) in isins ==> PlainCode(v)) ==>
        ParseIsinSummary(IsinSummary(isins)) == (ShownIsins(isins), |PresentSet(isins)| > 3) by {
        if forall v :: Some(v) in isins ==> PlainCode(v) {
          IsinSummaryRoundTrip(isins);
        }
      }
      Text(IsinSummary(isins))
    else
      var cells := Cells(group, c);
      var r := FirstPresent(cells);
      assert r != Missing ==> var i := IndexOf(cells, r); Field(group[i], c) == r;
      r
  }

  // ---------------------------------------------------------------- groups

  /**
   The rows of one group, in their order, one for each row whose grouping
   cells equal the key; a missing cell matches a missing cell, as with
   `dropna=False`.
   */
  function Members(rows: seq<Record>, gcols: seq<Column>, key: seq<Cell>): (g: seq<Record>)
    ensures Subseq(g, rows)
    ensures forall x :: x in g <==> x in rows && Key(x, gcols) == key
    decreases |rows|
  {
    if rows == [] then []
    else
      var rest := Members(rows[1..], gcols, key);
      assert rows == [rows[0]] + rows[1..];
      if Key(rows[0], gcols) == key then
        assert ([rows[0]] + rest)[1..] == rest;
        [rows[0]] + rest
      else rest
  }

  /** A group has as many rows as there are rows carrying its key. */
  lemma {:induction false} MembersCount(rows: seq<Record>, gcols: seq<Column>, key: seq<Cell>)
    ensures |Members(rows, gcols, key)| == multiset(Project(rows, gcols))[key]
    decreases |rows|
  {
    if rows != [] {
      MembersCount(rows[1..], gcols, key);
      ProjectCons(rows, gcols);
      var k, p := Key(rows[0], gcols), Project(rows[1..], gcols);
      assert multiset([k] + p) == multiset{k} + multiset(p);
    }
  }

  /** The set of grouping keys present in the rows. */
  function KeySet(rows: seq<Record>, cols: seq<Column>): set<seq<Cell>> {
    set x | x in rows :: Key(x, cols)
  }

  lemma DistinctKeysCard(rows: seq<Record>, cols: seq<Column>)
    ensures |Distinct(Project(rows, cols))| == |KeySet(rows, cols)|
    ensures forall k :: k in Distinct(Project(rows, cols)) <==> k in KeySet(rows, cols)
  {
    var p := Project(rows, cols);
    var d := Distinct(p);
    NoDupsCard(d);
    assert forall k :: k in p <==> k in KeySet(rows, cols) by {
      forall k | k in p
        ensures k in KeySet(rows, cols)
      {
        var i :| 0 <= i < |p| && p[i] == k;
        assert rows[i] in rows;
      }
      forall k | k in KeySet(rows, cols)
        ensures k in p
      {
        var x :| x in rows && Key(x, cols) == k;
        var i :| 0 <= i < |rows| && rows[i] == x;
        assert p[i] == k;
      }
    }
    assert (set k | k in d) == KeySet(rows, cols);
  }

  function GroupRow(rows: seq<Record>, gcols: seq<Column>, acols: seq<Column>, key: seq<Cell>): (out: seq<Cell>)
    ensures |out| == |key| + |acols|
    ensures out[..|key|] == key
    ensures forall j :: 0 <= j < |acols| ==> out[|key| + j] == Reduce(acols[j], Members(rows, gcols, out[..|key|]))
  {
    key + seq(|acols|, j requires 0 <= j < |acols| => Reduce(acols[j], Members(rows, gcols, key)))
  }

  /** Every row's key is among the distinct keys, which are in turn row keys. */
  lemma KeysCover(rows: seq<Record>, gcols: seq<Column>)
    ensures forall x :: x in rows ==> Key(x, gcols) in Distinct(Project(rows, gcols))
    ensures forall k :: k in Distinct(Project(rows, gcols)) ==> |k| == |gcols| && k in KeySet(rows, gcols)
  {
    DistinctKeysCard(rows, gcols);
    forall x | x in rows
      ensures Key(x, gcols) in Distinct(Project(rows, gcols))
    {
      assert Key(x, gcols) in KeySet(rows, gcols);
    }
  }

  /** One grouped row per key, in the keys' order. */
  function GroupTable(rows: seq<Record>, gcols: seq<Column>, acols: seq<Column>, keys: seq<seq<Cell>>): (out: seq<seq<Cell>>)
    ensures |out| == |keys|
    ensures forall i :: 0 <= i < |keys| ==> out[i] == GroupRow(rows, gcols, acols, keys[i])
  {
    seq(|keys|, i requires 0 <= i < |keys| => GroupRow(rows, gcols, acols, keys[i]))
  }

  lemma GroupTableKeys(rows: seq<Record>, gcols: seq<Column>, acols: seq<Column>, keys: seq<seq<Cell>>)
    requires forall k :: k in keys ==> |k| == |gcols|
    ensures var out := GroupTable(rows, gcols, acols, keys);
      forall i :: 0 <= i < |out| ==> |out[i]| == |gcols| + |acols| && out[i][..|gcols|] == keys[i]
    ensures var out := GroupTable(rows, gcols, acols, keys);
      forall i, j :: 0 <= i < |out| && 0 <= j < |acols| ==>
        out[i][|gcols| + j] == Reduce(acols[j], Members(rows, gcols, out[i][..|gcols|]))
  {
    var out := GroupTable(rows, gcols, acols, keys);
    forall i | 0 <= i < |out|
      ensures |out[i]| == |gcols| + |acols| && out[i][..|gcols|] == keys[i]
      ensures forall j :: 0 <= j < |acols| ==> out[i][|gcols| + j] == Reduce(acols[j], Members(rows, gcols, out[i][..|gcols|]))
    {
      assert keys[i] in keys;
      assert out[i] == GroupRow(rows, gcols, acols, keys[i]);
    }
  }

  lemma GroupTableCovers(rows: seq<Record>, gcols: seq<Column>, acols: seq<Column>)
    ensures var out := GroupTable(rows, gcols, acols, Distinct(Project(rows, gcols)));
      forall x :: x in rows ==> exists i :: 0 <= i < |out| && out[i][..|gcols|] == Key(x, gcols)
  {
    var keys := Distinct(Project(rows, gcols));
    var out := GroupTable(rows, gcols, acols, keys);
    KeysCover(rows, gcols);
    forall x | x in rows
      ensures exists i :: 0 <= i < |out| && out[i][..|gcols|] == Key(x, gcols)
    {
      var i := IndexOf(keys, Key(x, gcols));
      assert out[i] == GroupRow(rows, gcols, acols, Key(x, gcols));
    }
  }

  /**
   `groupby(gcols, dropna=False).agg(...)`: one output row per distinct
   grouping key, the key cells first, then one reduced cell per class column
   computed over exactly the rows sharing that key.
   */
  function GroupRows(rows: seq<Record>, gcols: seq<Column>, acols: seq<Column>): (out: seq<seq<Cell>>)
    ensures |out| == |KeySet(rows, gcols)|
    ensures forall i :: 0 <= i < |out| ==> |out[i]| == |gcols| + |acols|
    ensures forall i, j :: 0 <= i < j < |out| ==> out[i][..|gcols|] != out[j][..|gcols|]
    ensures forall i :: 0 <= i < |out| ==> out[i][..|gcols|] in KeySet(rows, gcols)
    ensures forall x :: x in rows ==> exists i :: 0 <= i < |out| && out[i][..|gcols|] == Key(x, gcols)
    ensures forall i, j :: 0 <= i < |out| && 0 <= j < |acols| ==>
      out[i][|gcols| + j] == Reduce(acols[j], Members(rows, gcols, out[i][..|gcols|]))
  {
    var keys := Distinct(Project(rows, gcols));
    DistinctKeysCard(rows, gcols);
    KeysCover(rows, gcols);
    GroupTableKeys(rows, gcols, acols, keys);
    GroupTableCovers(rows, gcols, acols);
    GroupTable(rows, gcols, acols, keys)
  }

  /**
   Each class count in a grouped row is the number of rows carrying that
   key, at least one, and reads back from its label.
   */
  lemma ClassCountIsGroupSize(rows: seq<Record>, gcols: seq<Column>, acols: seq<Column>, i: nat, j: nat)
    requires i < |GroupRows(rows, gcols, acols)| && j < |acols| && acols[j] in {Denominacion, Numero}
    ensures var out := GroupRows(rows, gcols, acols);
      var n := multiset(Project(rows, gcols))[out[i][..|gcols|]];
      n >= 1 && out[i][|gcols| + j] == Text(ClassLabel(n)) && ParseClassLabel(out[i][|gcols| + j].text) == Some(n)
  {
    var out := GroupRows(rows, gcols, acols);
    var key := out[i][..|gcols|];
    var x :| x in rows && Key(x, gcols) == key;
    assert x in Members(rows, gcols, key);
    MembersCount(rows, gcols, key);
    ClassLabelRoundTrip(|Members(rows, gcols, key)|);
  }

  // ---------------------------------------------------------------- the view

  /**
   The explorer table. With grouping off, no column shown, or no
   entity-level column shown, it is the plain projection, one row per
   record. With only entity-level columns shown it is their duplicate-free
   projection. Otherwise it is the grouped view, with the share-class
   identifier columns renamed `clases`.
   */
  function View(rows: seq<Record>, show: seq<Column>, group: bool): (t: Table)
    ensures !group || GroupingColumns(show) == [] ==>
      t.header == Names(show) && |t.rows| == |rows| &&
      forall i :: 0 <= i < |rows| ==> t.rows[i] == Key(rows[i], show)
    ensures group && GroupingColumns(show) != [] && ReducedColumns(show) == [] ==>
      t.header == Names(show) && NoDups(t.rows) &&
      |t.rows| == |KeySet(rows, show)| &&
      (forall p :: p in t.rows ==> p in Project(rows, show)) &&
      (forall p :: p in t.rows <==> p in KeySet(rows, show)) &&
      forall i, j :: 0 <= i < j < |t.rows| ==>
        IndexOf(Project(rows, show), t.rows[i]) < IndexOf(Project(rows, show), t.rows[j])
    ensures group && GroupingColumns(show) != [] && ReducedColumns(show) != [] ==>
      t.header == Names(GroupingColumns(show)) + Labels(ReducedColumns(show)) &&
      t.rows == GroupRows(rows, GroupingColumns(show), ReducedColumns(show))
  {
    if group && |show| > 0 then
      var gcols := GroupingColumns(show);
      if gcols != [] then
        var acols := ReducedColumns(show);
        if acols != [] then
          Table(Names(gcols) + Labels(acols), GroupRows(rows, gcols, acols))
        else
          DistinctKeysCard(rows, show);
          Table(Names(show), Distinct(Project(rows, show)))
      else Table(Names(show), Project(rows, show))
    else Table(Names(show), Project(rows, show))
  }

  /**
   The number of rows shown does not depend on the order the rows arrive in,
   so sorting before grouping cannot change it.
   */
  lemma ViewSizeIgnoresOrder(a: seq<Record>, b: seq<Record>, show: seq<Column>, group: bool)
    requires multiset(a) == multiset(b)
    ensures |View(a, show, group).rows| == |View(b, show, group).rows|
  {
    assert |a| == |multiset(a)| == |multiset(b)| == |b|;
    assert forall x :: x in a <==> x in b by {
      forall x ensures x in a <==> x in b {
        assert x in a <==> x in multiset(a);
      }
    }
    assert KeySet(a, show) == KeySet(b, show);
    assert KeySet(a, GroupingColumns(show)) == KeySet(b, GroupingColumns(show));
  }
}
