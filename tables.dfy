/**
  The merged tables the scripts analyse and the read-only questions they
  ask of them: the total population of one country in one year
  (country_year_population) and the total of every country in one year,
  largest first (country_all_year).

  A table is a sequence of rows. Each row has text cells (area code, area
  name, country name) and integer cells (one per year column, and the
  population change once it is added), addressed by column name. Every cell
  of a column is present: the model has no missing values.
 */
module Tables {
  import opened Wrappers
  import opened TitleCase
  import opened Years
  import opened Sorting

  datatype Row = Row(text: map<string, string>, counts: map<string, int>)

  datatype Table = Table(textColumns: set<string>, countColumns: set<string>, rows: seq<Row>)

  /** Every row has exactly the table's columns, and no name is both a text and an integer column. */
  predicate WellFormed(t: Table)
  {
    && t.textColumns !! t.countColumns
    && forall i :: 0 <= i < |t.rows| ==> t.rows[i].text.Keys == t.textColumns && t.rows[i].counts.Keys == t.countColumns
  }

  predicate HasText(rows: seq<Row>, column: string)
  {
    forall i :: 0 <= i < |rows| ==> column in rows[i].text
  }

  predicate HasCount(rows: seq<Row>, column: string)
  {
    forall i :: 0 <= i < |rows| ==> column in rows[i].counts
  }

  /** frame[frame[column] == value]: the rows whose cell in column is value. */
  function RowsWhere(rows: seq<Row>, column: string, value: string): (r: seq<Row>)
    requires HasText(rows, column)
    ensures |r| <= |rows|
    ensures forall x :: x in r <==> x in rows && x.text[column] == value
  {
    if rows == [] then []
    else
      assert forall x :: x in rows <==> x == rows[0] || x in rows[1..];
      (if rows[0].text[column] == value then [rows[0]] else []) + RowsWhere(rows[1..], column, value)
  }

  /** The selection keeps each matching row as many times as the table holds it, and no other row. */
  lemma {:induction false} RowsWhereMultiplicity(rows: seq<Row>, column: string, value: string, x: Row)
    requires HasText(rows, column)
    requires x in rows
    ensures multiset(RowsWhere(rows, column, value))[x] == if x.text[column] == value then multiset(rows)[x] else 0
  {
    if rows != [] {
      assert rows == [rows[0]] + rows[1..];
      var head := if rows[0].text[column] == value then [rows[0]] else [];
      var rest := RowsWhere(rows[1..], column, value);
      assert multiset(head + rest) == multiset(head) + multiset(rest);
      if x in rows[1..] {
        RowsWhereMultiplicity(rows[1..], column, value, x);
      } else {
        assert x !in rest;
      }
    }
  }

  /** frame[column].sum(): the sum of an integer column, 0 for no rows. */
  function Total(rows: seq<Row>, column: string): int
    requires HasCount(rows, column)
  {
    if rows == [] then 0 else rows[0].counts[column] + Total(rows[1..], column)
  }

  /**
    country_year_population(select_country, select_year, country_id): the
    name is title-cased, the year turned into its column name with str(),
    and the year column summed over the rows of that country. Indexing by a
    column the table lacks raises KeyError, the country column first.
   */
  function CountryYearPopulation(t: Table, countryColumn: string, country: string, year: YearArg): (r: Result<int>)
    requires WellFormed(t)
    ensures r.Ok? <==> countryColumn in t.textColumns && ColumnName(year) in t.countColumns
    ensures r.Ok? ==> r.value == SumWhere(t.rows, countryColumn, Title(country), ColumnName(year))
  {
    var name := Title(country);
    var column := ColumnName(year);
    if countryColumn !in t.textColumns then Err(KeyError(countryColumn))
    else if column !in t.countColumns then Err(KeyError(column))
    else
      FilterThenSum(t.rows, countryColumn, name, column);
      Ok(Total(RowsWhere(t.rows, countryColumn, name), column))
  }

  /** One line of the groupby result: a country and its total. */
  datatype CountryTotal = CountryTotal(country: string, total: int)

  function TotalOf(c: CountryTotal): int { c.total }

  /** The distinct values of a text column (the groupby keys). */
  function Countries(rows: seq<Row>, column: string): (cs: seq<string>)
    requires HasText(rows, column)
    ensures forall c :: c in cs <==> exists i :: 0 <= i < |rows| && rows[i].text[column] == c
    ensures forall i, j :: 0 <= i < j < |cs| ==> cs[i] != cs[j]
  {
    if rows == [] then []
    else
      var rest := Countries(rows[1..], column);
      assert forall c :: (exists i :: 1 <= i < |rows| && rows[i].text[column] == c) <==> c in rest by {
        forall c | c in rest ensures exists i :: 1 <= i < |rows| && rows[i].text[column] == c {
          var k :| 0 <= k < |rows[1..]| && rows[1..][k].text[column] == c;
          assert rows[k + 1].text[column] == c;
        }
        forall c, i | 1 <= i < |rows| && rows[i].text[column] == c ensures c in rest {
          assert rows[1..][i - 1].text[column] == c;
        }
      }
      var v := rows[0].text[column];
      if v in rest then rest else [v] + rest
  }

  /** The total of each country, in the order the countries are given. */
  function GroupTotals(cs: seq<string>, rows: seq<Row>, countryColumn: string, column: string): (r: seq<CountryTotal>)
    requires HasText(rows, countryColumn) && HasCount(rows, column)
    ensures |r| == |cs|
    ensures forall k :: 0 <= k < |r| ==> r[k] == CountryTotal(cs[k], Total(RowsWhere(rows, countryColumn, cs[k]), column))
  {
    if cs == [] then []
    else [CountryTotal(cs[0], Total(RowsWhere(rows, countryColumn, cs[0]), column))] + GroupTotals(cs[1..], rows, countryColumn, column)
  }

  /**
    country_all_year(select_year, country_id):
    groupby(country_id)[str(select_year)].sum().sort_values(ascending=False).
   */
  function CountryAllYear(t: Table, countryColumn: string, year: YearArg): (r: Result<seq<CountryTotal>>)
    requires WellFormed(t)
    ensures r.Ok? <==> countryColumn in t.textColumns && ColumnName(year) in t.countColumns
    ensures r.Ok? ==> NonIncreasing(r.value, TotalOf)
  {
    var column := ColumnName(year);
    if countryColumn !in t.textColumns then Err(KeyError(countryColumn))
    else if column !in t.countColumns then Err(KeyError(column))
    else
      Ok(RankedTotals(Countries(t.rows, countryColumn), t.rows, countryColumn, column))
  }

  /** The per-country totals, largest first. */
  function RankedTotals(cs: seq<string>, rows: seq<Row>, countryColumn: string, column: string): seq<CountryTotal>
    requires HasText(rows, countryColumn) && HasCount(rows, column)
  {
    SortDescending(GroupTotals(cs, rows, countryColumn, column), TotalOf)
  }

  /** The sum of the totals column of a groupby result. */
  function SumTotals(s: seq<CountryTotal>): int
  {
    if s == [] then 0 else s[0].total + SumTotals(s[1..])
  }

  // ---------------------------------------------------------------- lemmas

  /**
    The reported total is the sum of the year column over exactly the rows
    whose country cell equals the title-cased name; an unknown column is a
    KeyError, the country column being looked up first.
   */
  lemma CountryYearPopulationSpec(t: Table, countryColumn: string, country: string, year: YearArg)
    requires WellFormed(t)
    ensures countryColumn !in t.textColumns ==> CountryYearPopulation(t, countryColumn, country, year) == Err(KeyError(countryColumn))
    ensures countryColumn in t.textColumns && ColumnName(year) !in t.countColumns ==>
      CountryYearPopulation(t, countryColumn, country, year) == Err(KeyError(ColumnName(year)))
    ensures countryColumn in t.textColumns && ColumnName(year) in t.countColumns ==>
      && HasText(t.rows, countryColumn) && HasCount(t.rows, ColumnName(year))
      && CountryYearPopulation(t, countryColumn, country, year) == Ok(SumWhere(t.rows, countryColumn, Title(country), ColumnName(year)))
  {
    if countryColumn in t.textColumns && ColumnName(year) in t.countColumns {
      FilterThenSum(t.rows, countryColumn, Title(country), ColumnName(year));
    }
  }

  /** The sum of column over the rows whose text cell is value, counting every other row as 0. */
  function SumWhere(rows: seq<Row>, textColumn: string, value: string, column: string): int
    requires HasText(rows, textColumn) && HasCount(rows, column)
  {
    if rows == [] then 0
    else (if rows[0].text[textColumn] == value then rows[0].counts[column] else 0) + SumWhere(rows[1..], textColumn, value, column)
  }

  lemma {:induction false} FilterThenSum(rows: seq<Row>, textColumn: string, value: string, column: string)
    requires HasText(rows, textColumn) && HasCount(rows, column)
    ensures HasCount(RowsWhere(rows, textColumn, value), column)
    ensures Total(RowsWhere(rows, textColumn, value), column) == SumWhere(rows, textColumn, value, column)
  {
    if rows != [] {
      FilterThenSum(rows[1..], textColumn, value, column);
      var head := if rows[0].text[textColumn] == value then [rows[0]] else [];
      TotalConcat(head, RowsWhere(rows[1..], textColumn, value), column);
    }
  }

  lemma {:induction false} TotalConcat(a: seq<Row>, b: seq<Row>, column: string)
    requires HasCount(a, column) && HasCount(b, column)
    ensures HasCount(a + b, column)
    ensures Total(a + b, column) == Total(a, column) + Total(b, column)
  {
    if a == [] {
      assert a + b == b;
    } else {
      assert (a + b)[0] == a[0] && (a + b)[1..] == a[1..] + b;
      TotalConcat(a[1..], b, column);
    }
  }

  /** A name that matches no row gives a total of 0, not an error. */
  lemma {:induction false} UnknownCountryTotalsZero(rows: seq<Row>, textColumn: string, value: string, column: string)
    requires HasText(rows, textColumn) && HasCount(rows, column)
    requires forall i :: 0 <= i < |rows| ==> rows[i].text[textColumn] != value
    ensures SumWhere(rows, textColumn, value, column) == 0
  {
    if rows != [] {
      UnknownCountryTotalsZero(rows[1..], textColumn, value, column);
    }
  }

  /** 'england', 'England' and 'ENGLAND' report the same total. */
  lemma CountryNameCaseIgnored(t: Table, countryColumn: string, a: string, b: string, year: YearArg)
    requires WellFormed(t)
    requires |a| == |b| && forall i :: 0 <= i < |a| ==> ToLower(a[i]) == ToLower(b[i])
    ensures CountryYearPopulation(t, countryColumn, a, year) == CountryYearPopulation(t, countryColumn, b, year)
  {
    TitleIgnoresCase(a, b);
  }

  /** The sum over distinct names cs of the per-name sums, when cs holds every name in rows, is the column total. */
  lemma {:induction false} SumOverNames(cs: seq<string>, rows: seq<Row>, textColumn: string, column: string)
    requires HasText(rows, textColumn) && HasCount(rows, column)
    requires forall i, j :: 0 <= i < j < |cs| ==> cs[i] != cs[j]
    requires forall i :: 0 <= i < |rows| ==> rows[i].text[textColumn] in cs
    ensures SumTotals(GroupTotals(cs, rows, textColumn, column)) == Total(rows, column)
  {
    if rows != [] {
      assert forall i :: 0 <= i < |rows[1..]| ==> rows[1..][i] == rows[i + 1];
      SumOverNames(cs, rows[1..], textColumn, column);
      SplitFirstRow(cs, rows, textColumn, column);
      assert rows[0].text[textColumn] in cs;
    } else {
      EmptyGroupTotals(cs, rows, textColumn, column);
    }
  }

  lemma {:induction false} EmptyGroupTotals(cs: seq<string>, rows: seq<Row>, textColumn: string, column: string)
    requires rows == []
    ensures SumTotals(GroupTotals(cs, rows, textColumn, column)) == 0
  {
    if cs != [] {
      EmptyGroupTotals(cs[1..], rows, textColumn, column);
    }
  }

  /** Taking the first row out of a table lowers the sum of the per-name sums by that row's count. */
  lemma {:induction false} SplitFirstRow(cs: seq<string>, rows: seq<Row>, textColumn: string, column: string)
    requires HasText(rows, textColumn) && HasCount(rows, column) && rows != []
    requires forall i, j :: 0 <= i < j < |cs| ==> cs[i] != cs[j]
    ensures SumTotals(GroupTotals(cs, rows, textColumn, column))
      == (if rows[0].text[textColumn] in cs then rows[0].counts[column] else 0)
         + SumTotals(GroupTotals(cs, rows[1..], textColumn, column))
  {
    if cs != [] {
      SplitFirstRow(cs[1..], rows, textColumn, column);
      var v := rows[0].text[textColumn];
      FirstRowTotal(rows, textColumn, cs[0], column);
      assert v in cs <==> v == cs[0] || v in cs[1..];
      assert v == cs[0] ==> v !in cs[1..];
    }
  }

  lemma FirstRowTotal(rows: seq<Row>, textColumn: string, value: string, column: string)
    requires HasText(rows, textColumn) && HasCount(rows, column) && rows != []
    ensures HasCount(RowsWhere(rows[1..], textColumn, value), column)
    ensures Total(RowsWhere(rows, textColumn, value), column)
      == (if rows[0].text[textColumn] == value then rows[0].counts[column] else 0) + Total(RowsWhere(rows[1..], textColumn, value), column)
  {
    var head := if rows[0].text[textColumn] == value then [rows[0]] else [];
    TotalConcat(head, RowsWhere(rows[1..], textColumn, value), column);
  }

  lemma {:induction false} SumTotalsConcat(a: seq<CountryTotal>, b: seq<CountryTotal>)
    ensures SumTotals(a + b) == SumTotals(a) + SumTotals(b)
  {
    if a == [] {
      assert a + b == b;
    } else {
      assert (a + b)[0] == a[0] && (a + b)[1..] == a[1..] + b;
      SumTotalsConcat(a[1..], b);
    }
  }

  /** Reordering the groupby result does not change the sum of its totals. */
  lemma {:induction false} SumTotalsPermutation(a: seq<CountryTotal>, b: seq<CountryTotal>)
    requires multiset(a) == multiset(b)
    ensures SumTotals(a) == SumTotals(b)
    decreases |a|
  {
    if a == [] {
      assert |multiset(b)| == 0;
    } else {
      var x := a[0];
      assert x in multiset(b);
      var i :| 0 <= i < |b| && b[i] == x;
      var rest := b[..i] + b[i + 1..];
      MultisetWithout(b, i);
      assert a == [x] + a[1..];
      assert multiset(a[1..]) == multiset(a) - multiset{x};
      SumTotalsPermutation(a[1..], rest);
      SumTotalsWithout(b, i);
    }
  }

  lemma MultisetWithout<T>(b: seq<T>, i: nat)
    requires i < |b|
    ensures multiset(b[..i] + b[i + 1..]) == multiset(b) - multiset{b[i]}
  {
    assert b == b[..i] + [b[i]] + b[i + 1..];
  }

  lemma SumTotalsWithout(b: seq<CountryTotal>, i: nat)
    requires i < |b|
    ensures SumTotals(b) == b[i].total + SumTotals(b[..i] + b[i + 1..])
  {
    assert b == b[..i] + b[i..];
    SumTotalsConcat(b[..i], b[i..]);
    assert b[i..][1..] == b[i + 1..];
    SumTotalsConcat(b[..i], b[i + 1..]);
  }

  /** Each line of the ranked totals holds a country and the sum of the year over that country's rows. */
  lemma RankedTotalsCorrect(cs: seq<string>, rows: seq<Row>, textColumn: string, column: string, r: seq<CountryTotal>)
    requires HasText(rows, textColumn) && HasCount(rows, column)
    requires r == RankedTotals(cs, rows, textColumn, column)
    ensures forall k :: 0 <= k < |r| ==> r[k].country in cs && r[k].total == SumWhere(rows, textColumn, r[k].country, column)
  {
    var g := GroupTotals(cs, rows, textColumn, column);
    forall k | 0 <= k < |r|
      ensures r[k].country in cs && r[k].total == SumWhere(rows, textColumn, r[k].country, column)
    {
      assert r[k] in multiset(g);
      var m :| 0 <= m < |g| && g[m] == r[k];
      FilterThenSum(rows, textColumn, cs[m], column);
    }
  }

  /** Distinct groupby keys stay distinct after ranking. */
  lemma RankedTotalsDistinct(cs: seq<string>, rows: seq<Row>, textColumn: string, column: string, r: seq<CountryTotal>)
    requires HasText(rows, textColumn) && HasCount(rows, column)
    requires forall i, j :: 0 <= i < j < |cs| ==> cs[i] != cs[j]
    requires r == RankedTotals(cs, rows, textColumn, column)
    ensures forall i, j :: 0 <= i < j < |r| ==> r[i].country != r[j].country
  {
    var g := GroupTotals(cs, rows, textColumn, column);
    assert forall i :: 0 <= i < |g| ==> g[i].country == cs[i];
    PermutationKeepsKeysDistinct(g, r);
  }

  lemma PermutationKeepsKeysDistinct(g: seq<CountryTotal>, r: seq<CountryTotal>)
    requires multiset(r) == multiset(g)
    requires forall i, j :: 0 <= i < j < |g| ==> g[i].country != g[j].country
    ensures forall i, j :: 0 <= i < j < |r| ==> r[i].country != r[j].country
  {
    forall i, j | 0 <= i < j < |r|
      ensures r[i].country != r[j].country
    {
      if r[i].country == r[j].country {
        assert r[i] in multiset(g) && r[j] in multiset(g);
        var mi :| 0 <= mi < |g| && g[mi] == r[i];
        var mj :| 0 <= mj < |g| && g[mj] == r[j];
        if mi != mj {
          assert false;
        }
        DistinctCopies(g, r, i, j);
        assert false;
      }
    }
  }

  /** Every groupby key has its line after ranking. */
  lemma RankedTotalsCover(cs: seq<string>, rows: seq<Row>, textColumn: string, column: string, r: seq<CountryTotal>)
    requires HasText(rows, textColumn) && HasCount(rows, column)
    requires r == RankedTotals(cs, rows, textColumn, column)
    ensures forall m :: 0 <= m < |cs| ==> exists k :: 0 <= k < |r| && r[k].country == cs[m]
  {
    var g := GroupTotals(cs, rows, textColumn, column);
    assert forall i :: 0 <= i < |g| ==> g[i].country == cs[i];
    PermutationKeepsKeys(cs, g, r);
  }

  lemma PermutationKeepsKeys(cs: seq<string>, g: seq<CountryTotal>, r: seq<CountryTotal>)
    requires multiset(r) == multiset(g)
    requires |g| == |cs| && forall i :: 0 <= i < |g| ==> g[i].country == cs[i]
    ensures forall m :: 0 <= m < |cs| ==> exists k :: 0 <= k < |r| && r[k].country == cs[m]
  {
    forall m | 0 <= m < |cs|
      ensures exists k :: 0 <= k < |r| && r[k].country == cs[m]
    {
      assert g[m] in multiset(g);
      assert g[m] in multiset(r);
      assert g[m] in r;
      var k :| 0 <= k < |r| && r[k] == g[m];
      assert r[k].country == cs[m];
    }
  }

  /** country_all_year raises KeyError for a missing column, the country column first, and otherwise reports. */
  lemma CountryAllYearErrors(t: Table, countryColumn: string, year: YearArg)
    requires WellFormed(t)
    ensures countryColumn !in t.textColumns ==> CountryAllYear(t, countryColumn, year) == Err(KeyError(countryColumn))
    ensures countryColumn in t.textColumns && ColumnName(year) !in t.countColumns ==>
      CountryAllYear(t, countryColumn, year) == Err(KeyError(ColumnName(year)))
    ensures countryColumn in t.textColumns && ColumnName(year) in t.countColumns ==> CountryAllYear(t, countryColumn, year).Ok?
  {
  }

  /**
    country_all_year lists every country of the table once, in
    non-increasing order of total; each total is the sum of the year over
    that country's rows, and the totals add up to the whole table's total.
   */
  lemma CountryAllYearSpec(t: Table, countryColumn: string, year: YearArg, r: seq<CountryTotal>)
    requires WellFormed(t)
    requires CountryAllYear(t, countryColumn, year) == Ok(r)
    ensures countryColumn in t.textColumns && ColumnName(year) in t.countColumns
    ensures HasText(t.rows, countryColumn) && HasCount(t.rows, ColumnName(year))
    ensures NonIncreasing(r, TotalOf)
    ensures forall i, j :: 0 <= i < j < |r| ==> r[i].country != r[j].country
    ensures forall i :: 0 <= i < |t.rows| ==> exists k :: 0 <= k < |r| && r[k].country == t.rows[i].text[countryColumn]
    ensures forall k :: 0 <= k < |r| ==> exists i :: 0 <= i < |t.rows| && t.rows[i].text[countryColumn] == r[k].country
    ensures forall k :: 0 <= k < |r| ==> r[k].total == SumWhere(t.rows, countryColumn, r[k].country, ColumnName(year))
    ensures SumTotals(r) == Total(t.rows, ColumnName(year))
  {
    var column := ColumnName(year);
    assert HasText(t.rows, countryColumn) && HasCount(t.rows, column);
    assert r == RankedTotals(Countries(t.rows, countryColumn), t.rows, countryColumn, column);
    RankedTotalsSpec(t.rows, countryColumn, column, r);
  }

  /** The ranked totals of a table's countries, with every property country_all_year promises. */
  lemma RankedTotalsSpec(rows: seq<Row>, countryColumn: string, column: string, r: seq<CountryTotal>)
    requires HasText(rows, countryColumn) && HasCount(rows, column)
    requires r == RankedTotals(Countries(rows, countryColumn), rows, countryColumn, column)
    ensures NonIncreasing(r, TotalOf)
    ensures forall i, j :: 0 <= i < j < |r| ==> r[i].country != r[j].country
    ensures forall i :: 0 <= i < |rows| ==> exists k :: 0 <= k < |r| && r[k].country == rows[i].text[countryColumn]
    ensures forall k :: 0 <= k < |r| ==> exists i :: 0 <= i < |rows| && rows[i].text[countryColumn] == r[k].country
    ensures forall k :: 0 <= k < |r| ==> r[k].total == SumWhere(rows, countryColumn, r[k].country, column)
    ensures SumTotals(r) == Total(rows, column)
  {
    var cs := Countries(rows, countryColumn);
    var g := GroupTotals(cs, rows, countryColumn, column);
    RankedTotalsCorrect(cs, rows, countryColumn, column, r);
    RankedTotalsDistinct(cs, rows, countryColumn, column, r);
    KeysAreTableCountries(rows, countryColumn, r);
    RankedTotalsCover(cs, rows, countryColumn, column, r);
    TableCountriesAreKeys(rows, countryColumn, r);
    SumOverNames(cs, rows, countryColumn, column);
    SumTotalsPermutation(r, g);
  }

  /** Keys drawn from the country column are values of some row. */
  lemma KeysAreTableCountries(rows: seq<Row>, countryColumn: string, r: seq<CountryTotal>)
    requires HasText(rows, countryColumn)
    requires forall k :: 0 <= k < |r| ==> r[k].country in Countries(rows, countryColumn)
    ensures forall k :: 0 <= k < |r| ==> exists i :: 0 <= i < |rows| && rows[i].text[countryColumn] == r[k].country
  {
    var cs := Countries(rows, countryColumn);
    forall k | 0 <= k < |r|
      ensures exists i :: 0 <= i < |rows| && rows[i].text[countryColumn] == r[k].country
    {
      assert r[k].country in cs;
      var i :| 0 <= i < |rows| && rows[i].text[countryColumn] == r[k].country;
    }
  }

  /** A line for every groupby key is a line for every row's country. */
  lemma TableCountriesAreKeys(rows: seq<Row>, countryColumn: string, r: seq<CountryTotal>)
    requires HasText(rows, countryColumn)
    requires forall m :: 0 <= m < |Countries(rows, countryColumn)| ==>
      exists k :: 0 <= k < |r| && r[k].country == Countries(rows, countryColumn)[m]
    ensures forall i :: 0 <= i < |rows| ==> exists k :: 0 <= k < |r| && r[k].country == rows[i].text[countryColumn]
  {
    var cs := Countries(rows, countryColumn);
    forall i | 0 <= i < |rows|
      ensures exists k :: 0 <= k < |r| && r[k].country == rows[i].text[countryColumn]
    {
      var c := rows[i].text[countryColumn];
      assert c in cs;
      var m :| 0 <= m < |cs| && cs[m] == c;
    }
  }

  /** Equal elements at two places of a permutation of g come from two places of g. */
  lemma DistinctCopies<T>(g: seq<T>, r: seq<T>, i: nat, j: nat)
    requires multiset(r) == multiset(g)
    requires i < j < |r| && r[i] == r[j]
    ensures exists m, n :: 0 <= m < n < |g| && g[m] == r[i] && g[n] == r[i]
  {
    var x := r[i];
    assert x in multiset(r);
    var m :| 0 <= m < |g| && g[m] == x;
    var g' := g[..m] + g[m + 1..];
    var r' := r[..i] + r[i + 1..];
    MultisetWithout(g, m);
    MultisetWithout(r, i);
    assert r'[j - 1] == x;
    assert x in multiset(r');
    var k :| 0 <= k < |g'| && g'[k] == x;
    WithoutAt(g, m, k);
    if k < m {
      assert g[k] == x && g[m] == x;
    } else {
      assert g[m] == x && g[k + 1] == x;
    }
  }

  lemma WithoutAt<T>(g: seq<T>, m: nat, k: nat)
    requires m < |g| && k < |g| - 1
    ensures (g[..m] + g[m + 1..])[k] == g[if k < m then k else k + 1]
  {
  }

  /**
    For a country name already in title case, the groupby line for it
    reports what country_year_population reports for that name.
   */
  lemma CountryAllYearAgreesWithCountryYear(t: Table, countryColumn: string, year: YearArg, r: seq<CountryTotal>, k: nat)
    requires WellFormed(t)
    requires CountryAllYear(t, countryColumn, year) == Ok(r)
    requires k < |r| && Title(r[k].country) == r[k].country
    ensures CountryYearPopulation(t, countryColumn, r[k].country, year) == Ok(r[k].total)
  {
    CountryAllYearSpec(t, countryColumn, year, r);
    CountryYearPopulationSpec(t, countryColumn, r[k].country, year);
  }
}
