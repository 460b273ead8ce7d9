# EGM722 population analysis scripts: the decision logic

The EGM722 assignment scripts analyse UK administrative-area populations.
They load the county and unitary-authority boundaries and a table of yearly
populations, join them, and print and plot statistics. Most of that work is
library calls. This project models the logic the scripts themselves add, and
proves what that logic promises:

- **`years_check`** (`years.dfy`). The advisory check that the start and end
  years suit a population-difference calculation. It is an ordered
  `if/elif` chain that prints one of five messages. Here it is a total
  function returning one of five verdicts. The start year first goes
  through `int()`, which may raise `ValueError`.
- **Year-column naming** (`decimal.dfy`, `years.dfy`). The year columns are
  named `str(yr)` for `yr` in `range(start, end)`, and a selected year moves
  between `int()` and `str()`. This is a small decimal encoder and decoder,
  with round-trip lemmas in both directions.
- **`generate_handles`** (`legend.dfy`). The three scripts carry the same
  copy. It builds one legend patch per label, and patch *i* takes colour
  `colors[i % len(colors)]`. A patch is the record (face, edge, alpha).
- **Country selection and totals** (`title_case.dfy`, `tables.dfy`,
  `sorting.dfy`):
  - `country_year_population` title-cases the country name (ASCII
    `str.title()`) and sums the chosen year over the rows of that country.
  - `country_all_year` sums the year per country (`groupby(...).sum()`) and
    lists the totals largest first.
- **Population change** (`population_change.dfy`). `counties_UA_population_change`
  and `counties_UN_population_change` assign a `Population change` column to
  the global county table in place: the later year minus the earlier year, in
  every row. The table is then shown in descending order of that column. The
  global table is a class, `CountyTable`, whose method changes its fields.
  The method's result is tied to the pure function `WithChange`, and the
  lemmas about the change column are proved on that function.

A table is a sequence of rows. Each row has text cells (area code, names,
country) and integer cells (one per numeric year column, plus the change
column once it exists), both addressed by column name. Indexing a column the
table lacks, or a column of the other kind than the operation reads, yields
`KeyError`, in the order pandas evaluates the lookups.
Every integer cell is present: the model has no missing values.

## Model

| member | source | states |
|---|---|---|
| Decimal.ParseInt | EGM722_assignment_script.py:68 | int() of a str: blank text raises ValueError; the round trips with str() are carried by Decimal.IntOfString and Decimal.StringOfInt |
| Decimal.IntToString | EGM722_assignment_script.py:100 | str() of an int: a non-negative year gives canonical digits; canonical form for all years is carried by Decimal.IntToStringCanonical |
| Decimal.NatToString | EGM722_assignment_script.py:100 | str() of a year is a canonical digit string: non-empty, digits only, no leading zero |
| Decimal.IntOfString | EGM722_assignment_script.py:68 | int(str(y)) == y for every integer y, with no limit on the number of digits |
| Decimal.StringOfInt | EGM722_assignment_script.py:207-208 | for a string written as str() writes integers, int() succeeds and str(int(s)) == s |
| Decimal.IntToStringCanonical | EGM722_assignment_script.py:100 | every str(y) is in canonical form, negative years included |
| Decimal.IntToStringInjective | EGM722_assignment_script.py:143 | two years get the same column name exactly when they are equal |
| Years.YearValue | EGM722_assignment_script.py:68 | int(select_year): an int is kept as it is, and the only error is the ValueError on the given text |
| Years.ColumnName | EGM722_assignment_script.py:207-208 | str(select_year): a non-negative int year names a canonical digit column; the agreement with int() is carried by Years.CheckedYearAddressesItsColumn |
| Years.YearsCheck | EGM722_assignment_script.py:58-78 | years_check gives a verdict exactly when int() reads the start year, and otherwise raises ValueError on that text; the verdicts are characterised by Years.ClassifyCases |
| Years.Classify | EGM722_assignment_script.py:69-78 | the if/elif chain always prints a message: the fall-through after the last elif never happens |
| Years.ClassifyCases | EGM722_assignment_script.py:69-78 | each of the five verdicts, if and only if its condition holds; the conditions are exclusive and cover every integer input |
| Years.StartBelowRangeFirst | EGM722_assignment_script.py:69-70 | a start year below the data range is reported first, whatever the end year is |
| Years.InRangeByOrder | EGM722_assignment_script.py:73-78 | with both years in range, start < end is suitable, start == end is the same-years message, start > end is a misordering |
| Years.StartAboveRangeIsMisordering | EGM722_assignment_script.py:69-74 | a start year above the data range, with the end year in range, is reported as a misordering and not as out of range |
| Years.AcceptedYearsInRange | EGM722_assignment_script.py:69-78 | although each bound is tested on one year only, both accepting verdicts imply data start <= start <= end <= data end |
| Years.UnreadableStartRaises | EGM722_assignment_script.py:68 | a start year int() cannot read raises ValueError before any verdict |
| Years.CheckedYearAddressesItsColumn | EGM722_assignment_script.py:68 | for an int year, or a str as str() writes it, the year years_check validates and the column str() addresses agree |
| Years.PaddedYearMissesItsColumn | EGM722_assignment_script.py:68 | '02002' passes int() as 2002 but names no column str() wrote |
| Years.YearColumns | EGM722_assignment_script.py:143 | the list comprehension over range(start, end) has end - start names, none when end <= start; its elements are given by Years.YearColumnsShape |
| Years.YearColumnsShape | EGM722_assignment_script.py:143 | range(start, end) gives end - start names (none when end <= start), the i-th being str(start + i) |
| Years.YearColumnsIncreasing | EGM722_assignment_script.py:261 | read back with int(), the list counts up one year at a time from start |
| Years.YearColumnMember | EGM722_assignment_script.py:279 | the name of year y is in the list exactly when start <= y < end, so end is left out |
| Years.PopulationScriptYears | EGM_assignment_script_population.py:201 | range(1991, 2020) gives 29 names, '1991' to '2019', which is the inclusive list of the data range |
| Years.DataYearColumns | EGM_assignment_script_population.py:201 | the inclusive years list has dataEnd - dataStart + 1 names (none when dataEnd < dataStart); over 1991 to 2019 it is the population script's range(1991, 2020), by Years.PopulationScriptYears |
| Years.SelectedYearValue | EGM722_assignment_script.py:234 | int('2002') is 2002 |
| Years.AcceptedEndYearOmitted | EGM722_assignment_script.py:143 | years_check accepts '2002' to 2019 over 1991 to 2019, yet '2019' is not in range(1991, 2019) |
| Years.AcceptedYearsHaveColumns | EGM_assignment_script_population.py:226 | with the inclusive list, for a start year given as an int or as text str() writes, both years of every accepted pair name a column of the list |
| Legend.GenerateHandles | EGM722_assignment_script.py:15-29 | one handle per label; handle i has face colours[i mod len(colours)] and the given edge and alpha; with no labels any colour list is accepted |
| Legend.HandlesCount | EGM722_Assignment_script.py:10-15 | the loop yields exactly len(labels) handles |
| Legend.HandleAt | EGM_assignment_script_population.py:29-33 | handle i has face colour colours[i mod len(colours)] and the shared edge and alpha |
| Legend.ColoursRepeat | EGM722_Assignment_script.py:11-14 | with fewer colours than labels, the face colours repeat every len(colours) handles |
| Legend.CountyLegend | EGM722_assignment_script.py:326 | the county legend is one patch with face 'none', edge 'k' and alpha 1 |
| TitleCase.Title | EGM722_assignment_script.py:167 | select_country.title() keeps the length and raises the first letter; the rule for every character is carried by TitleCase.TitleAt |
| TitleCase.TitleFrom | EGM722_assignment_script.py:167 | title-casing keeps the length of the name |
| TitleCase.TitleAt | EGM722_assignment_script.py:167 | character by character, a letter not after a letter is raised and one after a letter is lowered; other characters are kept |
| TitleCase.TitleIdempotent | EGM722_assignment_script.py:167 | title-casing a title-cased name changes nothing |
| TitleCase.TitleIgnoresCase | EGM_assignment_script_population.py:122 | names that differ only in letter case are normalised to the same name |
| TitleCase.TitleOfEngland | EGM_assignment_script_population.py:211 | 'england' is normalised to 'England' |
| Sorting.Insert | EGM722_assignment_script.py:195 | inserting into a descending sequence keeps it descending and adds exactly that element |
| Sorting.SortDescending | EGM722_assignment_script.py:195 | sort_values(ascending=False) gives the same elements, in non-increasing order of the key |
| Sorting.SortedLength | EGM722_assignment_script.py:211 | sorting keeps the number of rows |
| Tables.RowsWhere | EGM722_assignment_script.py:169 | the selection keeps exactly the rows whose country cell equals the name, and no more rows than the table has |
| Tables.RowsWhereMultiplicity | EGM722_assignment_script.py:169 | a matching row is kept as many times as the table holds it, any other row not at all |
| Tables.CountryYearPopulation | EGM722_assignment_script.py:152-173 | country_year_population reports a total exactly when both columns exist, and the total is the year summed over the rows of the title-cased country |
| Tables.CountryYearPopulationSpec | EGM722_assignment_script.py:167-170 | the total is the sum of the year over exactly the rows whose country equals the title-cased name; a missing country column, then a missing year column, is a KeyError |
| Tables.FilterThenSum | EGM_assignment_script_population.py:124-125 | summing the selected rows equals summing the year over the table with every other row counted as 0 |
| Tables.UnknownCountryTotalsZero | EGM722_assignment_script.py:169 | a name that matches no row totals 0, not an error |
| Tables.CountryNameCaseIgnored | EGM_assignment_script_population.py:122-125 | 'england', 'England' and 'ENGLAND' report the same total |
| Tables.Countries | EGM722_assignment_script.py:193 | the groupby keys are the values of the country column, each listed once |
| Tables.GroupTotals | EGM722_assignment_script.py:193 | one line per key, holding that key's sum of the year |
| Tables.SumOverNames | EGM722_assignment_script.py:193 | over distinct keys covering every row, the group totals add up to the whole column's total |
| Tables.SumTotalsPermutation | EGM722_assignment_script.py:195 | reordering the groupby result keeps the sum of its totals |
| Tables.RankedTotalsCorrect | EGM722_assignment_script.py:193-195 | after sorting, each line holds a key and the sum of the year over that key's rows |
| Tables.RankedTotalsDistinct | EGM_assignment_script_population.py:143-145 | after sorting, no country is listed twice |
| Tables.RankedTotalsCover | EGM_assignment_script_population.py:143-145 | after sorting, every key still has its line |
| Tables.CountryAllYear | EGM722_assignment_script.py:176-195 | country_all_year reports exactly when both columns exist, and its lines are in non-increasing order of total; the rest is carried by Tables.CountryAllYearSpec |
| Tables.CountryAllYearErrors | EGM722_assignment_script.py:192-193 | a missing country column, then a missing year column, is a KeyError; otherwise a table is reported |
| Tables.CountryAllYearSpec | EGM722_assignment_script.py:192-195 | every country of the table is listed once and every line is a country of the table, largest total first; each total is that country's sum of the year; the totals add up to the year's total |
| Tables.RankedTotalsSpec | EGM_assignment_script_population.py:143-145 | the sorted groupby totals of a table's countries: non-increasing, one line per country and only those, each total that country's sum, all adding up to the column total |
| Tables.CountryAllYearAgreesWithCountryYear | EGM_assignment_script_population.py:122-145 | for a country name that title() leaves unchanged, each line of country_all_year reports what country_year_population reports for that country |
| PopulationChange.WithChange | EGM722_assignment_script.py:209-210 | the column assignment succeeds exactly when both year columns are numeric, and keeps the table well formed with the same number of rows |
| PopulationChange.ChangedRow | EGM722_assignment_script.py:209-210 | the assignment adds the change column to the row's numeric columns and replaces any text column of that name |
| PopulationChange.ChangedRows | EGM722_assignment_script.py:209-210 | the assignment touches every row, in table order, and keeps the number of rows |
| PopulationChange.CountyTable.PopulationChange | EGM722_assignment_script.py:207-211 | on KeyError the global table is unchanged; otherwise it becomes the table with the change column, and the shown rows are a rearrangement of its rows in non-increasing order of change |
| PopulationChange.WithChangeErrors | EGM722_assignment_script.py:209-210 | the later year's missing column is the KeyError reported first, then the earlier year's; with both present the column is added |
| PopulationChange.WithChangeSpec | EGM_assignment_script_population.py:161-162 | the table stays well formed with the same rows; each row's change is later minus earlier; every other cell is unchanged |
| PopulationChange.ShownTableSpec | EGM722_assignment_script.py:211 | the shown table holds each row of the updated table once, in non-increasing order of change |
| PopulationChange.SameYearNoChange | EGM722_assignment_script.py:77-78 | with the same year twice every change is 0, as the same-years message says |
| PopulationChange.SwappedYearsNegate | EGM_assignment_script_population.py:161-162 | swapping the two years negates every row's change |
| PopulationChange.AcceptedYearsHaveChange | EGM_assignment_script_population.py:226 | with a numeric column for every year of the data range, every pair years_check accepts whose start year is an int or text str() writes yields the change column |
| PopulationChange.AcceptedEndYearUnconverted | EGM722_assignment_script.py:279 | with only the columns of range(1991, 2019) numeric, the script's own accepted selection finds no numeric column '2019' |

## Left out

- File I/O is not modelled: reading the shapefiles and the CSV, and every CSV and PNG write to a fixed path.
- Centroids, `gpd.sjoin`, coordinate reference systems and `pd.merge` are library calls. The model starts from the merged table.
- `scale_bar`, the maps, the pie chart, gridlines and colour bars are floating point and rendering.
- `year_population` prints a mean (a float), a minimum, a maximum and a total of one year. It is reporting and is not modelled.
- `counties_UA_population_data` selects the rows of one county, prints them and writes them to a CSV file. It is I/O around a row selection and is not modelled.
- The printed messages and their `{:,}` formatting are not modelled. `years_check` prints and returns `None`; the model returns the verdict with the years its message shows.
- `pd.to_numeric(..., 'coerce')` and missing values are not modelled. The data lacks Northern Ireland for 1991 to 2000, and pandas sums skip those cells. The model assumes every numeric cell holds an integer.
- A row whose country is missing after the right join is not modelled. The model has no missing key, and pandas `groupby` drops such rows.
- Legend.GenerateHandles: the patch geometry `Rectangle((0, 0), 1, 1)` is fixed and is left out of the handle record.
- Legend.GenerateHandles: the defaults `edge='k'` and `alpha=1` are not default arguments here; the caller passes both, and Legend.DefaultEdge and Legend.DefaultAlpha name the defaults, which Legend.CountyLegend uses for the county legend.
- Legend.GenerateHandles: labels with an empty colour list make the source fail on a modulo by zero. The model excludes this case by a precondition instead of modelling the error.
- TitleCase.Title: only ASCII letters have case here. Python's Unicode case rules are not modelled.
- Decimal.ParseInt: `int()` also accepts underscores between digits and non-ASCII digits, and strips non-ASCII white space such as `'\xa0'`, `'\u2003'` and `'\x85'`. These are left out; none appears in a year column.
- Decimal.ParseInt: Python 3.11 and later refuse `int()` and `str()` conversions of more than 4300 digits. The model has no such limit, so Decimal.IntOfString and Decimal.StringOfInt hold for integers Python would refuse; no year comes near it.
- Years.YearsCheck: `select_year1` is compared without conversion. The model takes it as an int, which is what the scripts pass.
- Sorting.SortDescending: `sort_values` uses quicksort, so the order of rows with equal keys is unspecified. The model sorts stably. Tables.CountryAllYearSpec, PopulationChange.ShownTableSpec and PopulationChange.CountyTable.PopulationChange state only order-free properties of the sorted result: a rearrangement in non-increasing order.
- Tables.CountryAllYear: `groupby` also orders its result by key before the sort. Only the order after the sort is modelled.
- Tables.CountryYearPopulation: a country column holding numbers, or a year column holding text, is read as `KeyError`. pandas instead compares the numbers with the name and sums 0 rows, or sums the strings and then fails in formatting.
- Tables.CountryAllYear: a country column holding numbers, or a year column holding text, is read as `KeyError`. pandas instead groups by the numbers, or joins the strings per group and sorts them, without error.
- Integer cells are unbounded. pandas stores them as 64-bit integers that wrap around on overflow; no population total comes near that bound.
- PopulationChange.WithChange: subtracting a text column would raise another error in pandas than a missing column. The model reports `KeyError` for any column that is not numeric.
- The population script hard-codes the country column `'CTRY20NM'`. The model takes the country column as a parameter, as the assignment script does.

## Findings

| source | as written | input that shows it | evidently intended | confidence | as-written member | corrected member |
|---|---|---|---|---|---|---|
| EGM722_assignment_script.py:143 | the years list is `range(data_year_start, data_year_end)`, which leaves out data_year_end; the same list is used at lines 261 and 279 to choose the columns converted to numbers | data_year_start = 1991, data_year_end = 2019, select_year = '2002', select_year1 = 2019: years_check accepts the pair, but column '2019' is not in the list | `range(data_year_start, data_year_end + 1)`, as the population script's `range(1991, 2020)` | not executed; medium, because the '2019' column exists unconverted and may still subtract if pandas read it as integers | Years.AcceptedEndYearOmitted | Years.AcceptedYearsHaveColumns |
