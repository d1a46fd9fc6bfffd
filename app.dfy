// The dashboard's request handling (app.py): the selection the sidebar
// builds, the echo of that selection, and write_analysis, which slices both
// tables to the selection and hands the windows to the computations of
// utils.py.

module App {
  import opened Tables
  import opened SalaryGrowth
  import opened Deflation
  import opened Correlation

  /** Bounds of the two year sliders. */
  const FirstStartYear: int := 2000
  const LastStartYear: int := 2022
  const LastEndYear: int := 2023

  /** The request record: the sector labels to analyse and the inclusive year range. */
  datatype Selection = Selection(tps: seq<Sector>, start: int, end: int)

  /** tuple(salary_df.index)[1:]: every row label but the first. */
  function OfferedSectors(index: seq<Sector>): (o: seq<Sector>)
    ensures |o| == if index == [] then 0 else |index| - 1
    ensures forall k | 0 <= k < |o| :: o[k] == index[k + 1]
  {
    if index == [] then [] else index[1..]
  }

  /** With the aggregate as first row of a table without repeated labels, the aggregate is never offered. */
  lemma AggregateNeverOffered(index: seq<Sector>)
    requires index != [] && index[0] == Aggregate && Distinct(index)
    ensures Aggregate !in OfferedSectors(index)
    ensures forall s | s in index && s != Aggregate :: s in OfferedSectors(index)
  {
    var o := OfferedSectors(index);
    forall s | s in index && s != Aggregate ensures s in o {
      var k :| 0 <= k < |index| && index[k] == s;
      assert o[k - 1] == s;
    }
  }

  /** What the multiselect widget returns: some of its options, each at most once. */
  predicate MultiselectValue(options: seq<Sector>, picked: seq<Sector>) {
    Distinct(picked) && forall s | s in picked :: s in options
  }

  /** What the start slider returns. */
  predicate StartSliderValue(y: int) {
    FirstStartYear <= y <= LastStartYear
  }

  /** What the end slider returns, its lower bound following the start slider. */
  predicate EndSliderValue(start: int, y: int) {
    start + 1 <= y <= LastEndYear
  }

  /**
   * sidebar_input_features: the aggregate followed by the picked sectors, and
   * the two slider values. The range always spans at least two years.
   */
  function SidebarInputFeatures(index: seq<Sector>, picked: seq<Sector>, startYear: int, endYear: int): (sel: Selection)
    requires MultiselectValue(OfferedSectors(index), picked)
    requires StartSliderValue(startYear) && EndSliderValue(startYear, endYear)
    ensures sel.tps != [] && sel.tps[0] == Aggregate
    ensures |sel.tps| == 1 + |picked| && sel.tps[1..] == picked
    ensures sel.start == startYear && sel.end == endYear
    ensures FirstStartYear <= sel.start <= LastStartYear
    ensures sel.start + 1 <= sel.end <= LastEndYear
  {
    Selection([Aggregate] + picked, startYear, endYear)
  }

  /** Every selected label is a row of the table, and none is selected twice. */
  lemma SelectionRowsExist(index: seq<Sector>, picked: seq<Sector>, startYear: int, endYear: int)
    requires index != [] && index[0] == Aggregate && Distinct(index)
    requires MultiselectValue(OfferedSectors(index), picked)
    requires StartSliderValue(startYear) && EndSliderValue(startYear, endYear)
    ensures Distinct(SidebarInputFeatures(index, picked, startYear, endYear).tps)
    ensures forall s | s in SidebarInputFeatures(index, picked, startYear, endYear).tps :: s in index
  {
    var tps := SidebarInputFeatures(index, picked, startYear, endYear).tps;
    AggregateNeverOffered(index);
    forall i, j | 0 <= i < j < |tps| ensures tps[i] != tps[j] {
      assert tps[j] == picked[j - 1];
      if i > 0 {
        assert tps[i] == picked[i - 1];
      }
    }
    forall s | s in tps ensures s in index {
      if s != Aggregate {
        assert s in picked;
        var k :| 0 <= k < |OfferedSectors(index)| && OfferedSectors(index)[k] == s;
        assert index[k + 1] == s;
      }
    }
  }

  /** What write_user_data reports: either only the averages, or the picked sector names; and the range. */
  datatype UserData = AveragesOnly(start: int, end: int) | NamedSectors(names: seq<Sector>, start: int, end: int)

  /** write_user_data: a one-element sector list means nothing was picked; otherwise tps[1:] is listed. */
  function WriteUserData(sel: Selection): (u: UserData)
    ensures u.AveragesOnly? <==> |sel.tps| == 1
    ensures u.start == sel.start && u.end == sel.end
    ensures u.NamedSectors? && sel.tps != [] ==> u.names == sel.tps[1..]
    ensures sel.tps == [] ==> u == NamedSectors([], sel.start, sel.end)
  {
    if |sel.tps| == 1 then AveragesOnly(sel.start, sel.end)
    else NamedSectors(if sel.tps == [] then [] else sel.tps[1..], sel.start, sel.end)
  }

  /** The echo gives back exactly what the user picked, and says so when nothing was. */
  lemma UserDataEchoesPick(index: seq<Sector>, picked: seq<Sector>, startYear: int, endYear: int)
    requires MultiselectValue(OfferedSectors(index), picked)
    requires StartSliderValue(startYear) && EndSliderValue(startYear, endYear)
    ensures WriteUserData(SidebarInputFeatures(index, picked, startYear, endYear))
         == if picked == [] then AveragesOnly(startYear, endYear) else NamedSectors(picked, startYear, endYear)
  {
  }

  /** Both tables carry every year either slider can reach. */
  predicate CoversSliderYears(t: SalaryTable, inf: InflationSeries) {
    && t.HasYear(FirstStartYear) && t.HasYear(LastEndYear)
    && inf.HasYear(FirstStartYear) && inf.HasYear(LastEndYear)
  }

  /**
   * A selection from the sidebar never makes either lookup fail on tables that
   * cover the slider range, and the two windows have the same years.
   */
  lemma SidebarSelectionSlices(t: SalaryTable, inf: InflationSeries, picked: seq<Sector>, startYear: int, endYear: int)
    requires t.Valid() && t.index != [] && t.index[0] == Aggregate
    requires CoversSliderYears(t, inf)
    requires MultiselectValue(OfferedSectors(t.index), picked)
    requires StartSliderValue(startYear) && EndSliderValue(startYear, endYear)
    ensures SliceSalaries(t, [Aggregate] + picked, startYear, endYear).Ok?
    ensures SliceInflation(inf, startYear, endYear).Ok?
    ensures |SliceSalaries(t, [Aggregate] + picked, startYear, endYear).value.rows| == 1 + |picked|
    ensures SliceSalaries(t, [Aggregate] + picked, startYear, endYear).value.width
         == |SliceInflation(inf, startYear, endYear).value| == endYear - startYear + 1 >= 2
  {
    SelectionRowsExist(t.index, picked, startYear, endYear);
  }

  /**
   * No requested sector has a zero salary in a year start .. end - 1, the
   * predecessors of the growth points, so no growth point is undefined.
   */
  ghost predicate NonZeroPredecessorSalaries(t: SalaryTable, tps: seq<Sector>, start: int, end: int)
    requires t.Valid()
  {
    forall s, y | s in tps && s in t.index && start <= y < end && t.HasYear(y) :: t.Salary(s, y) != 0.0
  }

  lemma WindowNonZero(t: SalaryTable, tps: seq<Sector>, start: int, end: int)
    requires t.Valid() && start <= end && NonZeroPredecessorSalaries(t, tps, start, end)
    requires SliceSalaries(t, tps, start, end).Ok?
    ensures forall k | 0 <= k < |tps| :: NonZeroPredecessors(SliceSalaries(t, tps, start, end).value.rows[k])
  {
    var w := SliceSalaries(t, tps, start, end).value;
    forall k, j | 0 <= k < |tps| && 0 <= j < |w.rows[k]| - 1 ensures w.rows[k][j] != 0.0 {
      assert tps[k] in tps;
      assert w.rows[k][j] == t.Salary(tps[k], start + j);
    }
  }

  /** Everything write_analysis shows, apart from the drawing. */
  datatype Report = Report(
    inflation: seq<real>,
    nominal: SalaryWindow,
    growth: seq<seq<real>>,
    correlation: seq<CorrRow>,
    deflated: seq<seq<real>>)

  /**
   * write_analysis: the salary lookup first, then the inflation lookup, each
   * failing on a label it does not find; then the growth table, the ranked
   * correlation table and the real salaries of the windows.
   */
  method WriteAnalysis(t: SalaryTable, inf: InflationSeries, sel: Selection, corr: Coefficient)
    returns (r: Result<Report>)
    requires t.Valid() && sel.start < sel.end && NonZeroPredecessorSalaries(t, sel.tps, sel.start, sel.end)
    ensures r.Ok? <==> SliceSalaries(t, sel.tps, sel.start, sel.end).Ok? && SliceInflation(inf, sel.start, sel.end).Ok?
    ensures SliceSalaries(t, sel.tps, sel.start, sel.end).Err? ==>
      r == Err(SliceSalaries(t, sel.tps, sel.start, sel.end).error)
    ensures SliceSalaries(t, sel.tps, sel.start, sel.end).Ok? && SliceInflation(inf, sel.start, sel.end).Err? ==>
      r == Err(SliceInflation(inf, sel.start, sel.end).error)
    ensures r.Ok? ==>
      var w := SliceSalaries(t, sel.tps, sel.start, sel.end).value;
      var infl := SliceInflation(inf, sel.start, sel.end).value;
      && r.value.nominal == w && r.value.inflation == infl
      && RowsFit(w.sectors, w.rows, infl)
      && r.value.growth == GrowthTable(w.rows)
      && r.value.deflated == RealTable(w.rows, Factors(infl))
      && |r.value.correlation| == |sel.tps|
      && multiset(r.value.correlation) == multiset(SectorRows(w.sectors, w.rows, infl, corr))
      && multiset(Names(r.value.correlation)) == multiset(sel.tps)
      && SortedDesc(r.value.correlation)
  {
    var ws := SliceSalaries(t, sel.tps, sel.start, sel.end);
    if ws.Err? {
      return Err(ws.error);
    }
    var wi := SliceInflation(inf, sel.start, sel.end);
    if wi.Err? {
      return Err(wi.error);
    }
    var w := ws.value;
    var infl := wi.value;
    WindowNonZero(t, sel.tps, sel.start, sel.end);
    var growth := GrowthTable(w.rows);
    var table := FindCorr(w.sectors, w.rows, infl, corr);
    var deflated := RealTable(w.rows, Factors(infl));
    r := Ok(Report(infl, w, growth, table, deflated));
  }

  /**
   * Year bookkeeping of the windows: growth point i of sector k is the change
   * from year start + i to year start + i + 1, and it is paired with the
   * inflation of year start + i, the year before the one it grows into.
   */
  lemma GrowthPairedWithPreviousYear(t: SalaryTable, inf: InflationSeries, sel: Selection, k: nat, i: nat)
    requires t.Valid() && sel.start < sel.end && NonZeroPredecessorSalaries(t, sel.tps, sel.start, sel.end)
    requires SliceSalaries(t, sel.tps, sel.start, sel.end).Ok? && SliceInflation(inf, sel.start, sel.end).Ok?
    requires k < |sel.tps| && i < sel.end - sel.start
    ensures NonZeroPredecessors(SliceSalaries(t, sel.tps, sel.start, sel.end).value.rows[k])
    ensures
      var row := SliceSalaries(t, sel.tps, sel.start, sel.end).value.rows[k];
      var y := sel.start + i;
      && t.HasYear(y) && t.HasYear(y + 1) && inf.HasYear(y)
      && Growth(row)[i] == (t.Salary(sel.tps[k], y + 1) - t.Salary(sel.tps[k], y)) / t.Salary(sel.tps[k], y) * 100.0
      && PreviousYearInflation(SliceInflation(inf, sel.start, sel.end).value)[i] == inf.Rate(y)
  {
    WindowNonZero(t, sel.tps, sel.start, sel.end);
    var row := SliceSalaries(t, sel.tps, sel.start, sel.end).value.rows[k];
    var infl := SliceInflation(inf, sel.start, sel.end).value;
    GrowthAt(row, i);
    assert row[i] == t.Salary(sel.tps[k], sel.start + i);
    assert row[i + 1] == t.Salary(sel.tps[k], sel.start + i + 1);
    assert infl[i] == inf.Rate(sel.start + i);
  }

  /**
   * The real salary of sector k in year start + j: its nominal salary times the
   * price steps of every year from start + j to the end of the window.
   */
  lemma RealSalaryOfYear(t: SalaryTable, inf: InflationSeries, sel: Selection, k: nat, j: nat)
    requires t.Valid() && sel.start < sel.end
    requires SliceSalaries(t, sel.tps, sel.start, sel.end).Ok? && SliceInflation(inf, sel.start, sel.end).Ok?
    requires k < |sel.tps| && j <= sel.end - sel.start
    ensures
      var w := SliceSalaries(t, sel.tps, sel.start, sel.end).value;
      var infl := SliceInflation(inf, sel.start, sel.end).value;
      && t.HasYear(sel.start + j)
      && RealTable(w.rows, Factors(infl))[k][j] == t.Salary(sel.tps[k], sel.start + j) * Anchored(infl, j)
  {
    var w := SliceSalaries(t, sel.tps, sel.start, sel.end).value;
    var infl := SliceInflation(inf, sel.start, sel.end).value;
    RealSalaryAt(w.rows[k], infl, j);
    assert w.rows[k][j] == t.Salary(sel.tps[k], sel.start + j);
  }

  /**
   * A worked window of three years at 10 % inflation each: the growth of a
   * salary that grows by 10 % a year, and the factors 1.331, 1.21 and 1.1.
   */
  lemma TenPercentWindow()
    ensures Growth([100.0, 110.0, 121.0]) == [10.0, 10.0]
    ensures Factors([10.0, 10.0, 10.0]) == [1.331, 1.21, 1.1]
    ensures RealSalary([100.0, 110.0, 121.0], Factors([10.0, 10.0, 10.0])) == [133.1, 133.1, 133.1]
  {
    var infl := [10.0, 10.0, 10.0];
    FactorsRecurrence(infl);
    var f := Factors(infl);
    assert f[2] == 1.1;
    assert f[1] == 1.21;
    assert f[0] == 1.331;
    assert f == [1.331, 1.21, 1.1];
    var g := Growth([100.0, 110.0, 121.0]);
    assert g[0] == 10.0 && g[1] == 10.0;
  }
}
