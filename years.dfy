/**
  The year handling of the analysis scripts: the advisory years_check, the
  list of year column names built with range(), and the str()/int()
  conversions that carry a selected year to the column it addresses.
 */
module Years {
  import opened Wrappers
  import opened Decimal

  /** A year as the scripts hand it around: '2002' (a str) or 2019 (an int). */
  datatype YearArg = Text(text: string) | Number(year: int)

  /** str(select_year): the name of the column a year argument addresses. */
  function ColumnName(y: YearArg): (name: string)
    ensures y.Number? && y.year >= 0 ==> CanonicalDigits(name)
  {
    match y
    case Text(s) => s
    case Number(n) => IntToString(n)
  }

  /** int(select_year), or the ValueError int() raises. */
  function YearValue(y: YearArg): (r: Result<int>)
    ensures y.Number? ==> r == Ok(y.year)
    ensures r.Err? ==> y.Text? && r.error == ValueError(y.text)
  {
    match y
    case Number(n) => Ok(n)
    case Text(s) => if ParseInt(s).Some? then Ok(ParseInt(s).value) else Err(ValueError(s))
  }

  /** One verdict per message years_check prints, with the years the message shows. */
  datatype Verdict =
    | StartOutOfRange(start: int)        // "{select_year} is outside the data range"
    | EndOutOfRange(end: int)            // "{select_year1} is outside the data range"
    | StartAfterEnd(start: int, end: int) // "{select_year} is incorrect, please provide start year before ({select_year1})"
    | Suitable                           // "The selected dates are suitable to continue."
    | SameYears                          // "The selected years are the same, ..."

  /**
    The if/elif chain of years_check on the converted start year. The chain
    ends in an elif, not an else, so None stands for "nothing printed"; the
    contract says that case never arises.
   */
  function Classify(start: int, end: int, dataStart: int, dataEnd: int): (v: Option<Verdict>)
    ensures v.Some?
  {
    if start < dataStart then Some(StartOutOfRange(start))
    else if end > dataEnd then Some(EndOutOfRange(end))
    else if start > end then Some(StartAfterEnd(start, end))
    else if start < end then Some(Suitable)
    else if start == end then Some(SameYears)
    else None
  }

  /** years_check(select_year, select_year1, data_year_start, data_year_end). */
  function YearsCheck(selectYear: YearArg, selectYear1: int, dataStart: int, dataEnd: int): (r: Result<Verdict>)
    ensures r.Ok? <==> YearValue(selectYear).Ok?
    ensures r.Err? ==> r.error == ValueError(selectYear.text)
  {
    match YearValue(selectYear)
    case Err(e) => Err(e)
    case Ok(start) => Ok(Classify(start, selectYear1, dataStart, dataEnd).value)
  }

  /** The years list: [str(yr) for yr in range(start, end)]. */
  function YearColumns(start: int, end: int): (names: seq<string>)
    ensures |names| == if end <= start then 0 else end - start
    decreases end - start
  {
    if end <= start then [] else YearColumns(start, end - 1) + [IntToString(end - 1)]
  }

  /** The years list that covers every year from dataStart to dataEnd inclusive. */
  function DataYearColumns(dataStart: int, dataEnd: int): (names: seq<string>)
    ensures |names| == if dataEnd < dataStart then 0 else dataEnd - dataStart + 1
  {
    YearColumns(dataStart, dataEnd + 1)
  }

  // --------------------------------------------------------- years_check

  /**
    Every input gets exactly one verdict, and which one is decided by these
    mutually exclusive conditions: the start year's lower bound first, then
    the end year's upper bound, then the order of the two.
   */
  lemma ClassifyCases(start: int, end: int, dataStart: int, dataEnd: int)
    ensures var v := Classify(start, end, dataStart, dataEnd).value;
      && (v == StartOutOfRange(start) <==> start < dataStart)
      && (v == EndOutOfRange(end) <==> dataStart <= start && dataEnd < end)
      && (v == StartAfterEnd(start, end) <==> dataStart <= start && end <= dataEnd && end < start)
      && (v == Suitable <==> dataStart <= start < end <= dataEnd)
      && (v == SameYears <==> dataStart <= start == end <= dataEnd)
  {
  }

  /** A start year below the data range is reported first, whatever the end year. */
  lemma StartBelowRangeFirst(start: int, end: int, dataStart: int, dataEnd: int)
    requires start < dataStart
    ensures Classify(start, end, dataStart, dataEnd) == Some(StartOutOfRange(start))
  {
  }

  /** With both years in range, the order of the years decides. */
  lemma InRangeByOrder(start: int, end: int, dataStart: int, dataEnd: int)
    requires dataStart <= start <= dataEnd && dataStart <= end <= dataEnd
    ensures start < end ==> Classify(start, end, dataStart, dataEnd) == Some(Suitable)
    ensures start == end ==> Classify(start, end, dataStart, dataEnd) == Some(SameYears)
    ensures start > end ==> Classify(start, end, dataStart, dataEnd) == Some(StartAfterEnd(start, end))
  {
  }

  /**
    The upper bound is tested only on the end year: a start year past the
    data range, with the end year inside it, is reported as a misordering.
   */
  lemma StartAboveRangeIsMisordering(start: int, end: int, dataStart: int, dataEnd: int)
    requires dataStart <= dataEnd < start && end <= dataEnd
    ensures Classify(start, end, dataStart, dataEnd) == Some(StartAfterEnd(start, end))
  {
  }

  /** Although each bound is tested on one year only, the two accepting verdicts imply both years are in range. */
  lemma AcceptedYearsInRange(start: int, end: int, dataStart: int, dataEnd: int)
    requires Classify(start, end, dataStart, dataEnd).value in {Suitable, SameYears}
    ensures dataStart <= start <= end <= dataEnd
  {
  }

  /** A start year that int() cannot read raises before any verdict. */
  lemma UnreadableStartRaises(s: string, end: int, dataStart: int, dataEnd: int)
    requires ParseInt(s).None?
    ensures YearsCheck(Text(s), end, dataStart, dataEnd) == Err(ValueError(s))
  {
  }

  // ------------------------------------------------------- str() and int()

  /**
    years_check validates int(select_year) while the other functions address
    the column str(select_year); for an int, or a str as str() writes it,
    the validated year and the addressed column agree.
   */
  lemma CheckedYearAddressesItsColumn(y: YearArg)
    requires y.Text? ==> Canonical(y.text)
    ensures YearValue(y).Ok?
    ensures ColumnName(y) == IntToString(YearValue(y).value)
  {
    match y
    case Number(n) =>
    case Text(s) => StringOfInt(s);
  }

  /** A padded start year passes int() but names no column str() wrote. */
  lemma PaddedYearMissesItsColumn()
    ensures YearValue(Text("02002")) == Ok(2002)
    ensures ColumnName(Text("02002")) != IntToString(2002)
  {
    assert Strip("02002") == "02002";
    assert DigitsValue("02002") == 2002 by {
      assert "02002"[..4] == "0200" && "0200"[..3] == "020" && "020"[..2] == "02" && "02"[..1] == "0";
    }
    IntToStringCanonical(2002);
  }

  // ------------------------------------------------------------ years list

  /** range(start, end) gives end - start names (none if end <= start): those of start, start + 1, ... in order. */
  lemma {:induction false} YearColumnsShape(start: int, end: int)
    ensures |YearColumns(start, end)| == if end <= start then 0 else end - start
    ensures forall i :: 0 <= i < |YearColumns(start, end)| ==> YearColumns(start, end)[i] == IntToString(start + i)
    decreases end - start
  {
    if start < end {
      YearColumnsShape(start, end - 1);
    }
  }

  /** Read back with int(), the years list counts up one year at a time. */
  lemma YearColumnsIncreasing(start: int, end: int)
    ensures forall i :: 0 <= i < |YearColumns(start, end)| ==> ParseInt(YearColumns(start, end)[i]) == Some(start + i)
  {
    YearColumnsShape(start, end);
    forall i | 0 <= i < |YearColumns(start, end)|
      ensures ParseInt(YearColumns(start, end)[i]) == Some(start + i)
    {
      IntOfString(start + i);
    }
  }

  /** The name of year y is in the list exactly when start <= y < end: end itself is left out. */
  lemma YearColumnMember(start: int, end: int, y: int)
    ensures IntToString(y) in YearColumns(start, end) <==> start <= y < end
  {
    var cols := YearColumns(start, end);
    if start <= y < end {
      YearColumnAt(start, end, y - start);
    }
    if IntToString(y) in cols {
      var i :| 0 <= i < |cols| && cols[i] == IntToString(y);
      YearColumnAt(start, end, i);
      IntToStringInjective(start + i, y);
    }
  }

  lemma YearColumnAt(start: int, end: int, i: int)
    requires 0 <= i < |YearColumns(start, end)|
    ensures YearColumns(start, end)[i] == IntToString(start + i)
  {
    YearColumnsShape(start, end);
  }

  /** The names of the first and last years of the data. */
  lemma DataYearNames()
    ensures IntToString(1991) == "1991" && IntToString(2019) == "2019"
  {
    assert NatToString(199) == NatToString(19) + [DigitChar(9)];
    assert NatToString(1991) == NatToString(199) + [DigitChar(1)];
    assert NatToString(201) == NatToString(20) + [DigitChar(1)];
    assert NatToString(2019) == NatToString(201) + [DigitChar(9)];
  }

  /** The population script's range(1991, 2020): 29 names, '1991' to '2019', the whole data range. */
  lemma PopulationScriptYears()
    ensures |YearColumns(1991, 2020)| == 29
    ensures YearColumns(1991, 2020)[0] == "1991" && YearColumns(1991, 2020)[28] == "2019"
    ensures YearColumns(1991, 2020) == DataYearColumns(1991, 2019)
  {
    YearColumnsShape(1991, 2020);
    DataYearNames();
  }

  // -------------------------------------------------------------- finding

  /** int('2002'), the start year the assignment script selects. */
  lemma SelectedYearValue()
    ensures YearValue(Text("2002")) == Ok(2002)
  {
    YearNameOf2002();
    IntOfString(2002);
  }

  lemma YearNameOf2002()
    ensures IntToString(2002) == "2002"
  {
    assert NatToString(20) == NatToString(2) + [DigitChar(0)];
    assert NatToString(200) == NatToString(20) + [DigitChar(0)];
    assert NatToString(2002) == NatToString(200) + [DigitChar(2)];
  }

  /**
    As written, the assignment script builds its years list with
    range(data_year_start, data_year_end): an end year equal to
    data_year_end is accepted by years_check, yet its column is not in the
    list. The script's own settings ('2002', 2019, 1991, 2019) show it.
   */
  lemma AcceptedEndYearOmitted()
    ensures YearsCheck(Text("2002"), 2019, 1991, 2019) == Ok(Suitable)
    ensures ColumnName(Number(2019)) !in YearColumns(1991, 2019)
  {
    SelectedYearValue();
    YearColumnMember(1991, 2019, 2019);
  }

  /**
    With the inclusive list, every pair of years years_check accepts, given
    as ints or as str() writes them, names two columns of the list.
   */
  lemma AcceptedYearsHaveColumns(selectYear: YearArg, selectYear1: int, dataStart: int, dataEnd: int)
    requires selectYear.Text? ==> Canonical(selectYear.text)
    requires YearsCheck(selectYear, selectYear1, dataStart, dataEnd) in {Ok(Suitable), Ok(SameYears)}
    ensures ColumnName(selectYear) in DataYearColumns(dataStart, dataEnd)
    ensures ColumnName(Number(selectYear1)) in DataYearColumns(dataStart, dataEnd)
  {
    CheckedYearAddressesItsColumn(selectYear);
    var start := YearValue(selectYear).value;
    AcceptedYearsInRange(start, selectYear1, dataStart, dataEnd);
    YearColumnMember(dataStart, dataEnd + 1, start);
    YearColumnMember(dataStart, dataEnd + 1, selectYear1);
  }
}
