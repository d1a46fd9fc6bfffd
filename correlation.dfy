// The correlation ranking of utils.py, find_corr: for every sector row of the
// salary window, its growth row is paired with the inflation of the window
// without its last year, then one table row is appended per sector and the
// table is sorted by mean growth, largest first.

module Correlation {
  import opened Tables
  import opened SalaryGrowth

  /** One row of the result: index "Вид деятельности", then the correlation and the mean growth. */
  datatype CorrRow = CorrRow(sector: Sector, coefficient: real, meanGrowth: real)

  /**
   * np.corrcoef(x, y)[0, 1] is computed outside this model; the ranking only
   * depends on which two series it is given.
   */
  type Coefficient = (seq<real>, seq<real>) -> real

  /** infl_arr[:-1]: inflation of every year of the window but the last. */
  function PreviousYearInflation(infl: seq<real>): (p: seq<real>)
    requires infl != []
    ensures |p| == |infl| - 1
    ensures forall i | 0 <= i < |p| :: p[i] == infl[i]
  {
    infl[..|infl| - 1]
  }

  /**
   * The two series handed to the coefficient: growth into year i + 1 and
   * inflation of year i, for every i; both one shorter than the window.
   */
  lemma PairingAligned(row: seq<real>, infl: seq<real>)
    requires |row| == |infl| && infl != [] && NonZeroPredecessors(row)
    ensures |Growth(row)| == |PreviousYearInflation(infl)| == |infl| - 1
    ensures forall i | 0 <= i < |infl| - 1 ::
      && Growth(row)[i] == (row[i + 1] - row[i]) / row[i] * 100.0
      && PreviousYearInflation(infl)[i] == infl[i]
  {
    forall i | 0 <= i < |infl| - 1
      ensures Growth(row)[i] == (row[i + 1] - row[i]) / row[i] * 100.0
    {
      GrowthAt(row, i);
    }
  }

  /** The row find_corr emits for one sector. */
  function SectorRow(name: Sector, row: seq<real>, infl: seq<real>, corr: Coefficient): (r: CorrRow)
    requires |row| == |infl| >= 2 && NonZeroPredecessors(row)
    ensures r.sector == name
    ensures |Growth(row)| == |PreviousYearInflation(infl)| == |infl| - 1
    ensures r.coefficient == corr(Growth(row), PreviousYearInflation(infl))
    ensures r.meanGrowth * ((|infl| - 1) as real) == Sum(Growth(row))
  {
    var g := Growth(row);
    CorrRow(name, corr(g, PreviousYearInflation(infl)), Mean(g))
  }

  ghost predicate RowsFit(sectors: seq<Sector>, rows: seq<seq<real>>, infl: seq<real>) {
    && |rows| == |sectors| && |infl| >= 2
    && forall k | 0 <= k < |rows| :: |rows[k]| == |infl| && NonZeroPredecessors(rows[k])
  }

  /** The rows before sorting, in the order of the salary window's rows. */
  function SectorRows(sectors: seq<Sector>, rows: seq<seq<real>>, infl: seq<real>, corr: Coefficient): (t: seq<CorrRow>)
    requires RowsFit(sectors, rows, infl)
    ensures |t| == |sectors|
    ensures forall k | 0 <= k < |sectors| :: t[k].sector == sectors[k]
  {
    seq(|sectors|, k requires 0 <= k < |sectors| => SectorRow(sectors[k], rows[k], infl, corr))
  }

  /** The index column of a table. */
  function Names(t: seq<CorrRow>): (names: seq<Sector>)
    ensures |names| == |t|
    ensures forall i | 0 <= i < |t| :: names[i] == t[i].sector
  {
    seq(|t|, i requires 0 <= i < |t| => t[i].sector)
  }

  predicate SortedDesc(t: seq<CorrRow>) {
    forall i, j | 0 <= i < j < |t| :: t[i].meanGrowth >= t[j].meanGrowth
  }

  function Insert(x: CorrRow, t: seq<CorrRow>): (r: seq<CorrRow>)
    requires SortedDesc(t)
    ensures SortedDesc(r)
    ensures multiset(r) == multiset(t) + multiset{x}
  {
    if t == [] then [x]
    else if x.meanGrowth >= t[0].meanGrowth then [x] + t
    else
      var rest := Insert(x, t[1..]);
      InsertBehind(x, t, rest);
      [t[0]] + rest
  }

  /** When x goes behind the head, the head followed by x inserted into the tail is sorted and holds x. */
  lemma InsertBehind(x: CorrRow, t: seq<CorrRow>, rest: seq<CorrRow>)
    requires SortedDesc(t) && t != [] && x.meanGrowth < t[0].meanGrowth
    requires SortedDesc(rest) && multiset(rest) == multiset(t[1..]) + multiset{x}
    ensures SortedDesc([t[0]] + rest)
    ensures multiset([t[0]] + rest) == multiset(t) + multiset{x}
  {
    forall z | z in rest ensures t[0].meanGrowth >= z.meanGrowth {
      assert z in multiset(rest);
      if z != x {
        assert z in multiset(t[1..]);
        var j :| 0 <= j < |t[1..]| && t[1..][j] == z;
        assert t[j + 1] == z;
      }
    }
    ConsSorted(t[0], rest);
    assert t == [t[0]] + t[1..];
  }

  lemma ConsSorted(y: CorrRow, t: seq<CorrRow>)
    requires SortedDesc(t) && forall z | z in t :: y.meanGrowth >= z.meanGrowth
    ensures SortedDesc([y] + t)
  {
    var r := [y] + t;
    forall i, j | 0 <= i < j < |r| ensures r[i].meanGrowth >= r[j].meanGrowth {
      if i == 0 {
        assert r[j] == t[j - 1];
      } else {
        assert r[i] == t[i - 1] && r[j] == t[j - 1];
      }
    }
  }

  /**
   * sort_values(by = mean growth, ascending = False): a permutation of the
   * rows, in non-increasing mean growth. sort_values defaults to quicksort,
   * which is not stable, so nothing is promised about the order of rows with
   * equal means.
   */
  function SortDesc(t: seq<CorrRow>): (r: seq<CorrRow>)
    ensures SortedDesc(r)
    ensures multiset(r) == multiset(t)
  {
    if t == [] then []
    else
      assert t == [t[0]] + t[1..];
      Insert(t[0], SortDesc(t[1..]))
  }

  /** The index column of a concatenation is the concatenation of the index columns. */
  lemma NamesAppend(u: seq<CorrRow>, v: seq<CorrRow>)
    ensures Names(u + v) == Names(u) + Names(v)
  {
    assert forall i | 0 <= i < |u + v| :: Names(u + v)[i] == (Names(u) + Names(v))[i];
  }

  lemma NamesSplit(b: seq<CorrRow>, j: nat)
    requires j < |b|
    ensures Names(b) == Names(b[..j]) + [b[j].sector] + Names(b[j + 1..])
  {
    assert b == b[..j] + [b[j]] + b[j + 1..];
    NamesAppend(b[..j] + [b[j]], b[j + 1..]);
    NamesAppend(b[..j], [b[j]]);
    assert Names([b[j]]) == [b[j].sector];
  }

  /** Taking row j out of a table takes its label out of the index column. */
  lemma NamesRemove(b: seq<CorrRow>, j: nat)
    requires j < |b|
    ensures multiset(Names(b)) == multiset{b[j].sector} + multiset(Names(b[..j] + b[j + 1..]))
  {
    NamesSplit(b, j);
    NamesAppend(b[..j], b[j + 1..]);
  }

  lemma RowsRemove(b: seq<CorrRow>, j: nat)
    requires j < |b|
    ensures multiset(b) == multiset{b[j]} + multiset(b[..j] + b[j + 1..])
  {
    assert b == b[..j] + [b[j]] + b[j + 1..];
  }

  lemma CancelOne(m1: multiset<CorrRow>, m2: multiset<CorrRow>, x: CorrRow)
    requires multiset{x} + m1 == multiset{x} + m2
    ensures m1 == m2
  {
    forall y ensures m1[y] == m2[y] {
      assert (multiset{x} + m1)[y] == (multiset{x} + m2)[y];
    }
  }

  /** Rows that are a permutation of each other have index columns that are a permutation of each other. */
  lemma {:induction false} NamesPermutation(a: seq<CorrRow>, b: seq<CorrRow>)
    requires multiset(a) == multiset(b)
    ensures multiset(Names(a)) == multiset(Names(b))
    decreases |a|
  {
    if a == [] {
      assert |b| == |multiset(b)| == 0;
    } else {
      assert a[0] in multiset(b);
      var j := IndexOf(b, a[0]);
      RestPermutation(a, b, j);
      NamesPermutation(a[1..], b[..j] + b[j + 1..]);
      NamesPermutationStep(a, b, j);
    }
  }

  /** Removing the same row from two permutations of each other leaves two permutations of each other. */
  lemma RestPermutation(a: seq<CorrRow>, b: seq<CorrRow>, j: nat)
    requires multiset(a) == multiset(b) && a != [] && j < |b| && b[j] == a[0]
    ensures multiset(a[1..]) == multiset(b[..j] + b[j + 1..])
  {
    RowsRemove(b, j);
    RowsRemove(a, 0);
    assert a[..0] + a[1..] == a[1..];
    CancelOne(multiset(a[1..]), multiset(b[..j] + b[j + 1..]), a[0]);
  }

  lemma NamesPermutationStep(a: seq<CorrRow>, b: seq<CorrRow>, j: nat)
    requires a != [] && j < |b| && b[j] == a[0]
    requires multiset(Names(a[1..])) == multiset(Names(b[..j] + b[j + 1..]))
    ensures multiset(Names(a)) == multiset(Names(b))
  {
    NamesRemove(b, j);
    NamesHead(a);
  }

  lemma NamesHead(a: seq<CorrRow>)
    requires a != []
    ensures multiset(Names(a)) == multiset{a[0].sector} + multiset(Names(a[1..]))
  {
    var n := Names(a);
    var m := [a[0].sector] + Names(a[1..]);
    forall i | 0 <= i < |a| ensures n[i] == m[i] {
      if i > 0 {
        assert a[1..][i - 1] == a[i];
      }
    }
    assert n == m;
  }

  /**
   * find_corr: one row per sector appended in the window's order, then the
   * sort. The result holds exactly the per-sector rows, every selected sector
   * as often as it was selected, sorted by mean growth, largest first.
   */
  method FindCorr(sectors: seq<Sector>, rows: seq<seq<real>>, infl: seq<real>, corr: Coefficient)
    returns (table: seq<CorrRow>)
    requires RowsFit(sectors, rows, infl)
    ensures |table| == |sectors|
    ensures multiset(table) == multiset(SectorRows(sectors, rows, infl, corr))
    ensures multiset(Names(table)) == multiset(sectors)
    ensures SortedDesc(table)
  {
    var acc: seq<CorrRow> := [];
    var prev := PreviousYearInflation(infl);
    for k := 0 to |rows|
      invariant acc == SectorRows(sectors, rows, infl, corr)[..k]
      invariant Names(acc) == sectors[..k]
    {
      var g := Growth(rows[k]);
      acc := acc + [CorrRow(sectors[k], corr(g, prev), Mean(g))];
    }
    assert acc == SectorRows(sectors, rows, infl, corr);
    assert sectors[..|rows|] == sectors;
    table := SortDesc(acc);
    assert |table| == |multiset(table)| == |multiset(acc)| == |acc|;
    NamesPermutation(table, acc);
  }
}
