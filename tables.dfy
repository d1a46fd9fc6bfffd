// The two in-memory tables of the dashboard and the label/range slicing that
// restricts them to a selection (app.py, write_analysis).

module Tables {

  type Sector = string

  /** The row label of the cross-sector average salary; it is the first row of the salary table. */
  const Aggregate: Sector := "средняя"

  /** What a label lookup that misses a row or a column reports (pandas raises KeyError). */
  datatype LookupError = UnknownSector(sector: Sector) | UnknownYear(year: int)

  datatype Result<T> = Ok(value: T) | Err(error: LookupError)

  predicate Distinct<T(==)>(s: seq<T>) {
    forall i, j | 0 <= i < j < |s| :: s[i] != s[j]
  }

  /** Position of the first occurrence of x in s. */
  function IndexOf<T(==)>(s: seq<T>, x: T): (k: nat)
    requires x in s
    ensures k < |s| && s[k] == x
    ensures forall j | 0 <= j < k :: s[j] != x
  {
    if s[0] == x then 0 else 1 + IndexOf(s[1..], x)
  }

  /**
   * Nominal salaries: one row per sector label, one column per year of the
   * contiguous axis firstYear .. firstYear + years - 1.
   */
  datatype SalaryTable = SalaryTable(index: seq<Sector>, firstYear: int, years: nat, cells: seq<seq<real>>)
  {
    ghost predicate Valid() {
      && Distinct(index)
      && |cells| == |index|
      && forall r | 0 <= r < |cells| :: |cells[r]| == years
    }

    predicate HasYear(y: int) {
      firstYear <= y < firstYear + years
    }

    function Salary(s: Sector, y: int): real
      requires Valid() && s in index && HasYear(y)
    {
      cells[IndexOf(index, s)][y - firstYear]
    }
  }

  /** Annual inflation in percent, one value per year of firstYear .. firstYear + |rates| - 1. */
  datatype InflationSeries = InflationSeries(firstYear: int, rates: seq<real>)
  {
    predicate HasYear(y: int) {
      firstYear <= y < firstYear + |rates|
    }

    function Rate(y: int): real
      requires HasYear(y)
    {
      rates[y - firstYear]
    }
  }

  /** The salary table restricted to some sector rows and the years start, start + 1, ... */
  datatype SalaryWindow = SalaryWindow(sectors: seq<Sector>, start: int, width: nat, rows: seq<seq<real>>)
  {
    ghost predicate Valid() {
      |rows| == |sectors| && forall k | 0 <= k < |rows| :: |rows[k]| == width
    }
  }

  /** The first requested label that is not a row of the table, if any. */
  function MissingSector(index: seq<Sector>, tps: seq<Sector>): (m: Option<Sector>)
    ensures m.None? <==> forall s | s in tps :: s in index
    ensures m.Some? ==> m.value in tps && m.value !in index
  {
    if tps == [] then None
    else if tps[0] !in index then Some(tps[0])
    else MissingSector(index, tps[1..])
  }

  datatype Option<T> = None | Some(value: T)

  /**
   * salary_df.loc[tps, [str(start) .. str(end)]]: the requested rows in the
   * requested order, the inclusive year range as columns in increasing order.
   */
  function SliceSalaries(t: SalaryTable, tps: seq<Sector>, start: int, end: int): (r: Result<SalaryWindow>)
    requires t.Valid() && start <= end
    ensures r.Ok? <==> (forall s | s in tps :: s in t.index) && t.HasYear(start) && t.HasYear(end)
    ensures r.Err? && r.error.UnknownSector? ==> r.error.sector in tps && r.error.sector !in t.index
    ensures MissingSector(t.index, tps).Some? ==> r == Err(UnknownSector(MissingSector(t.index, tps).value))
    ensures r.Err? && r.error.UnknownYear? ==> !t.HasYear(r.error.year) && start <= r.error.year <= end
    ensures r.Ok? ==>
      && r.value.Valid()
      && r.value.sectors == tps && r.value.start == start && r.value.width == end - start + 1
      && forall k, j | 0 <= k < |tps| && 0 <= j <= end - start ::
           r.value.rows[k][j] == t.Salary(tps[k], start + j)
  {
    match MissingSector(t.index, tps)
    case Some(s) => Err(UnknownSector(s))
    case None =>
      if !t.HasYear(start) then Err(UnknownYear(start))
      else if !t.HasYear(end) then Err(UnknownYear(end))
      else
        var rows := seq(|tps|, k requires 0 <= k < |tps| =>
          seq(end - start + 1, j requires 0 <= j <= end - start => t.Salary(tps[k], start + j)));
        Ok(SalaryWindow(tps, start, end - start + 1, rows))
  }

  /** inflation_df[range(start, end + 1)]: the rates of the inclusive year range, in year order. */
  function SliceInflation(inf: InflationSeries, start: int, end: int): (r: Result<seq<real>>)
    requires start <= end
    ensures r.Ok? <==> inf.HasYear(start) && inf.HasYear(end)
    ensures r.Err? ==> r.error.UnknownYear? && !inf.HasYear(r.error.year) && start <= r.error.year <= end
    ensures r.Ok? ==>
      && |r.value| == end - start + 1
      && forall j | 0 <= j <= end - start :: r.value[j] == inf.Rate(start + j)
  {
    if !inf.HasYear(start) then Err(UnknownYear(start))
    else if !inf.HasYear(end) then Err(UnknownYear(end))
    else Ok(inf.rates[start - inf.firstYear .. end - inf.firstYear + 1])
  }
}
