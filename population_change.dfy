/**
  counties_UA_population_change (and its copy counties_UN_population_change):
  the global county table gets a 'Population change' column, the later
  year's population minus the earlier year's, in every row; the table is
  then shown in descending order of that column.
 */
module PopulationChange {
  import opened Wrappers
  import opened Years
  import opened Tables
  import opened Sorting
  import opened Decimal

  const ChangeColumn: string := "Population change"

  /** The sort key of the shown table: a row's population change (0 for a row without one). */
  function ChangeOf(row: Row): int
  {
    if ChangeColumn in row.counts then row.counts[ChangeColumn] else 0
  }

  /** One row after the assignment: the change column set to later - earlier, replacing any column of that name. */
  function ChangedRow(row: Row, earlier: string, later: string): (r: Row)
    requires earlier in row.counts && later in row.counts
    ensures r.counts.Keys == row.counts.Keys + {ChangeColumn}
    ensures r.text.Keys == row.text.Keys - {ChangeColumn}
  {
    Row(row.text - {ChangeColumn}, row.counts[ChangeColumn := row.counts[later] - row.counts[earlier]])
  }

  /** The column assignment applied to every row, in table order. */
  function ChangedRows(rows: seq<Row>, earlier: string, later: string): (r: seq<Row>)
    requires HasCount(rows, earlier) && HasCount(rows, later)
    ensures |r| == |rows|
    ensures forall i :: 0 <= i < |r| ==> r[i] == ChangedRow(rows[i], earlier, later)
  {
    if rows == [] then [] else [ChangedRow(rows[0], earlier, later)] + ChangedRows(rows[1..], earlier, later)
  }

  /**
    The table after frame['Population change'] = frame[str(year1)] - frame[str(year)].
    The left operand is looked up first, so a missing later year is the
    KeyError reported when both years are missing.
   */
  function WithChange(t: Table, year: YearArg, year1: YearArg): (r: Result<Table>)
    requires WellFormed(t)
    ensures r.Ok? <==> ColumnName(year) in t.countColumns && ColumnName(year1) in t.countColumns
    ensures r.Ok? ==> WellFormed(r.value) && |r.value.rows| == |t.rows|
  {
    var earlier := ColumnName(year);
    var later := ColumnName(year1);
    if later !in t.countColumns then Err(KeyError(later))
    else if earlier !in t.countColumns then Err(KeyError(earlier))
    else Ok(Table(t.textColumns - {ChangeColumn}, t.countColumns + {ChangeColumn}, ChangedRows(t.rows, earlier, later)))
  }

  /** The global counties_UA_population table, which the function updates in place. */
  class CountyTable {
    var textColumns: set<string>
    var countColumns: set<string>
    var rows: seq<Row>

    function View(): Table
      reads this
    {
      Table(textColumns, countColumns, rows)
    }

    ghost predicate Valid()
      reads this
    {
      WellFormed(View())
    }

    constructor (t: Table)
      requires WellFormed(t)
      ensures Valid() && View() == t
    {
      textColumns := t.textColumns;
      countColumns := t.countColumns;
      rows := t.rows;
    }

    /**
      counties_UA_population_change(select_year, select_year1): on a
      KeyError the table is left as it was; otherwise the table becomes
      WithChange of the old one and the rows are returned as shown, in
      descending order of change.
     */
    method PopulationChange(year: YearArg, year1: YearArg) returns (shown: Result<seq<Row>>)
      requires Valid()
      modifies this
      ensures Valid()
      ensures WithChange(old(View()), year, year1).Err? ==>
        View() == old(View()) && shown == Err(WithChange(old(View()), year, year1).error)
      ensures WithChange(old(View()), year, year1).Ok? ==>
        && View() == WithChange(old(View()), year, year1).value
        && shown.Ok? && multiset(shown.value) == multiset(rows) && NonIncreasing(shown.value, ChangeOf)
    {
      var earlier := ColumnName(year);
      var later := ColumnName(year1);
      if later !in countColumns {
        return Err(KeyError(later));
      }
      if earlier !in countColumns {
        return Err(KeyError(earlier));
      }
      rows := ChangedRows(rows, earlier, later);
      textColumns := textColumns - {ChangeColumn};
      countColumns := countColumns + {ChangeColumn};
      shown := Ok(SortDescending(rows, ChangeOf));
    }
  }

  // ---------------------------------------------------------------- lemmas

  /** A missing column is a KeyError, the later year's column being looked up first. */
  lemma WithChangeErrors(t: Table, year: YearArg, year1: YearArg)
    requires WellFormed(t)
    ensures ColumnName(year1) !in t.countColumns ==> WithChange(t, year, year1) == Err(KeyError(ColumnName(year1)))
    ensures ColumnName(year1) in t.countColumns && ColumnName(year) !in t.countColumns ==>
      WithChange(t, year, year1) == Err(KeyError(ColumnName(year)))
    ensures ColumnName(year1) in t.countColumns && ColumnName(year) in t.countColumns ==> WithChange(t, year, year1).Ok?
  {
  }

  /**
    After the assignment the table is still well formed and has the same
    number of rows; row i's change is its later-year population minus its
    earlier-year population, and every other cell of row i is unchanged.
   */
  lemma WithChangeSpec(t: Table, year: YearArg, year1: YearArg, u: Table)
    requires WellFormed(t)
    requires WithChange(t, year, year1) == Ok(u)
    ensures WellFormed(u)
    ensures u.countColumns == t.countColumns + {ChangeColumn} && u.textColumns == t.textColumns - {ChangeColumn}
    ensures |u.rows| == |t.rows|
    ensures forall i :: 0 <= i < |u.rows| ==>
      u.rows[i].counts[ChangeColumn] == t.rows[i].counts[ColumnName(year1)] - t.rows[i].counts[ColumnName(year)]
    ensures forall i, c :: 0 <= i < |u.rows| && c in t.countColumns && c != ChangeColumn ==>
      u.rows[i].counts[c] == t.rows[i].counts[c]
    ensures forall i, c :: 0 <= i < |u.rows| && c in u.textColumns ==> u.rows[i].text[c] == t.rows[i].text[c]
  {
  }

  /**
    The shown table holds the rows of the updated table, each once, in
    non-increasing order of population change: the largest growth first.
   */
  lemma ShownTableSpec(t: Table, year: YearArg, year1: YearArg, u: Table, shown: seq<Row>)
    requires WellFormed(t)
    requires WithChange(t, year, year1) == Ok(u)
    requires shown == SortDescending(u.rows, ChangeOf)
    ensures |shown| == |t.rows|
    ensures multiset(shown) == multiset(u.rows)
    ensures forall k :: 0 <= k < |shown| ==> ChangeColumn in shown[k].counts
    ensures forall j, k :: 0 <= j < k < |shown| ==> shown[j].counts[ChangeColumn] >= shown[k].counts[ChangeColumn]
    ensures forall k :: 0 <= k < |shown| ==> shown[k] in u.rows
  {
    WithChangeSpec(t, year, year1, u);
    SortedLength(u.rows, ChangeOf);
    RowsOfPermutation(u.rows, shown);
    forall j, k | 0 <= j < k < |shown|
      ensures shown[j].counts[ChangeColumn] >= shown[k].counts[ChangeColumn]
    {
      assert ChangeOf(shown[j]) >= ChangeOf(shown[k]);
    }
  }

  /** Every row of a rearrangement is a row of the original, and so carries its change column. */
  lemma RowsOfPermutation(rows: seq<Row>, shown: seq<Row>)
    requires HasCount(rows, ChangeColumn)
    requires multiset(shown) == multiset(rows)
    ensures forall k :: 0 <= k < |shown| ==> shown[k] in rows
    ensures HasCount(shown, ChangeColumn)
  {
    forall k | 0 <= k < |shown|
      ensures shown[k] in rows
    {
      assert shown[k] in multiset(rows);
    }
  }

  /** With the same year twice, every row's change is 0. */
  lemma SameYearNoChange(t: Table, year: YearArg, u: Table)
    requires WellFormed(t)
    requires WithChange(t, year, year) == Ok(u)
    ensures forall i :: 0 <= i < |u.rows| ==> u.rows[i].counts[ChangeColumn] == 0
  {
  }

  /** Swapping the two years negates every row's change. */
  lemma SwappedYearsNegate(t: Table, year: YearArg, year1: YearArg, u: Table, v: Table)
    requires WellFormed(t)
    requires WithChange(t, year, year1) == Ok(u)
    requires WithChange(t, year1, year) == Ok(v)
    ensures |u.rows| == |v.rows|
    ensures forall i :: 0 <= i < |u.rows| ==> v.rows[i].counts[ChangeColumn] == -u.rows[i].counts[ChangeColumn]
  {
  }

  /**
    When the table has a column for every year of the data range, as the
    inclusive years list gives it, a pair of years that years_check accepts
    always yields the change column.
   */
  lemma AcceptedYearsHaveChange(t: Table, year: YearArg, year1: int, dataStart: int, dataEnd: int)
    requires WellFormed(t)
    requires forall c :: c in DataYearColumns(dataStart, dataEnd) ==> c in t.countColumns
    requires year.Text? ==> Canonical(year.text)
    requires YearsCheck(year, year1, dataStart, dataEnd) in {Ok(Suitable), Ok(SameYears)}
    ensures WithChange(t, year, Number(year1)).Ok?
  {
    AcceptedYearsHaveColumns(year, year1, dataStart, dataEnd);
  }

  /**
    As written, the assignment script converts only the columns of
    range(data_year_start, data_year_end) to numbers. On such a table its own
    selection ('2002' to 2019, which years_check accepts over 1991 to 2019)
    finds no numeric column for the end year.
   */
  lemma AcceptedEndYearUnconverted(t: Table)
    requires WellFormed(t)
    requires forall c :: c in t.countColumns <==> c in YearColumns(1991, 2019)
    ensures YearsCheck(Text("2002"), 2019, 1991, 2019) == Ok(Suitable)
    ensures WithChange(t, Text("2002"), Number(2019)) == Err(KeyError("2019"))
  {
    AcceptedEndYearOmitted();
    DataYearNames();
  }
}
