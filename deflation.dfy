// Deflation of nominal salaries (utils.py, plot_salaries): the factor row
//   coef_arr = cumprod(1 + infl[::-1] / 100)[::-1]
// and the real salary table, nominal salary times the factor of its year.

module Deflation {
  import opened SalaryGrowth

  /** The price index step of one year: 1 + rate / 100. */
  function Step(rate: real): real {
    1.0 + rate / 100.0
  }

  /** 1 + arr / 100, element by element. */
  function Steps(rates: seq<real>): (r: seq<real>)
    ensures |r| == |rates|
    ensures forall i | 0 <= i < |rates| :: r[i] == Step(rates[i])
  {
    seq(|rates|, i requires 0 <= i < |rates| => Step(rates[i]))
  }

  /** s[::-1] */
  function Reverse(s: seq<real>): (r: seq<real>)
    ensures |r| == |s|
    ensures forall i | 0 <= i < |s| :: r[i] == s[|s| - 1 - i]
  {
    if s == [] then [] else Reverse(s[1..]) + [s[0]]
  }

  /** numpy's cumprod, carrying the running product acc. */
  function CumProdFrom(acc: real, s: seq<real>): (r: seq<real>)
    ensures |r| == |s|
    decreases |s|
  {
    if s == [] then [] else [acc * s[0]] + CumProdFrom(acc * s[0], s[1..])
  }

  function CumProd(s: seq<real>): (r: seq<real>)
    ensures |r| == |s|
  {
    CumProdFrom(1.0, s)
  }

  /** Each running product is the previous one times the next element. */
  lemma {:induction false} CumProdFromStep(acc: real, s: seq<real>, k: nat)
    requires k + 1 < |s|
    ensures CumProdFrom(acc, s)[0] == acc * s[0]
    ensures CumProdFrom(acc, s)[k + 1] == CumProdFrom(acc, s)[k] * s[k + 1]
    decreases k
  {
    var p := acc * s[0];
    assert CumProdFrom(acc, s) == [p] + CumProdFrom(p, s[1..]);
    if k > 0 {
      CumProdFromStep(p, s[1..], k - 1);
    } else {
      assert CumProdFrom(p, s[1..])[0] == p * s[1..][0];
    }
  }

  lemma CumProdStep(s: seq<real>, k: nat)
    requires k + 1 < |s|
    ensures CumProd(s)[0] == s[0]
    ensures CumProd(s)[k + 1] == CumProd(s)[k] * s[k + 1]
  {
    CumProdFromStep(1.0, s, k);
  }

  lemma CumProdFirst(s: seq<real>)
    requires s != []
    ensures CumProd(s)[0] == s[0]
  {
    assert CumProdFrom(1.0, s) == [1.0 * s[0]] + CumProdFrom(1.0 * s[0], s[1..]);
  }

  /** The deflation factors exactly as utils.py computes them. */
  function Factors(infl: seq<real>): (f: seq<real>)
    ensures |f| == |infl|
  {
    Reverse(CumProd(Steps(Reverse(infl))))
  }

  /** The product of a row; 1 for the empty row. */
  function Product(s: seq<real>): real {
    if s == [] then 1.0 else s[0] * Product(s[1..])
  }

  /**
   * Reference definition: the factor that restates money of year i of the
   * window in the money of the year after the window, the product of the
   * steps of every year from i to the end; the year after the window is the
   * anchor, with the empty product 1.
   */
  function Anchored(infl: seq<real>, i: nat): real
    requires i <= |infl|
  {
    Product(Steps(infl[i..]))
  }

  lemma AnchoredAtEnd(infl: seq<real>)
    ensures Anchored(infl, |infl|) == 1.0
  {
    assert Steps(infl[|infl|..]) == [];
  }

  /** Stepping one year forward: the factor of year i is year i's step times the factor of year i + 1. */
  lemma AnchoredStep(infl: seq<real>, i: nat)
    requires i < |infl|
    ensures Anchored(infl, i) == Step(infl[i]) * Anchored(infl, i + 1)
  {
    var p := Steps(infl[i..]);
    assert p[0] == Step(infl[i]);
    assert p[1..] == Steps(infl[i + 1..]);
  }

  lemma FactorsAtLast(infl: seq<real>)
    requires infl != []
    ensures Factors(infl)[|infl| - 1] == Step(infl[|infl| - 1])
  {
    var n := |infl|;
    var p := Steps(Reverse(infl));
    CumProdFirst(p);
    assert Factors(infl)[n - 1] == CumProd(p)[0];
  }

  lemma FactorsStep(infl: seq<real>, i: nat)
    requires i + 1 < |infl|
    ensures Factors(infl)[i] == Factors(infl)[i + 1] * Step(infl[i])
  {
    var n := |infl|;
    var p := Steps(Reverse(infl));
    var c := CumProd(p);
    CumProdStep(p, n - 2 - i);
    assert Factors(infl)[i] == c[n - 1 - i];
    assert Factors(infl)[i + 1] == c[n - 2 - i];
    assert p[n - 1 - i] == Step(infl[i]);
  }

  /** utils.py's factors are the reference factors anchored at the year after the window. */
  lemma {:induction false} FactorsAnchored(infl: seq<real>, i: nat)
    requires i < |infl|
    ensures Factors(infl)[i] == Anchored(infl, i)
    decreases |infl| - i
  {
    AnchoredStep(infl, i);
    if i == |infl| - 1 {
      FactorsAtLast(infl);
      AnchoredAtEnd(infl);
    } else {
      FactorsStep(infl, i);
      FactorsAnchored(infl, i + 1);
    }
  }

  /**
   * Shape and recurrence of the factors: one per year of the window, the last
   * is 1 + infl[last] / 100, and each one is the next one times that year's step.
   */
  lemma FactorsRecurrence(infl: seq<real>)
    requires infl != []
    ensures |Factors(infl)| == |infl|
    ensures Factors(infl)[|infl| - 1] == 1.0 + infl[|infl| - 1] / 100.0
    ensures forall i | 0 <= i < |infl| - 1 :: Factors(infl)[i] == Factors(infl)[i + 1] * (1.0 + infl[i] / 100.0)
  {
    FactorsAtLast(infl);
    forall i | 0 <= i < |infl| - 1
      ensures Factors(infl)[i] == Factors(infl)[i + 1] * (1.0 + infl[i] / 100.0)
    {
      FactorsStep(infl, i);
    }
  }

  lemma {:induction false} AnchoredPositive(infl: seq<real>, i: nat)
    requires i <= |infl|
    requires forall j | 0 <= j < |infl| :: infl[j] > -100.0
    ensures Anchored(infl, i) > 0.0
    decreases |infl| - i
  {
    if i < |infl| {
      AnchoredPositive(infl, i + 1);
      AnchoredStep(infl, i);
      assert Step(infl[i]) > 0.0;
    } else {
      AnchoredAtEnd(infl);
    }
  }

  /** salary_df.transpose() * coef_arr.reshape(-1, 1) for one sector row. */
  function RealSalary(row: seq<real>, factors: seq<real>): (r: seq<real>)
    requires |row| == |factors|
    ensures |r| == |row|
  {
    seq(|row|, i requires 0 <= i < |row| => row[i] * factors[i])
  }

  /** The real salary table: every row deflated, shape unchanged. */
  function RealTable(rows: seq<seq<real>>, factors: seq<real>): (r: seq<seq<real>>)
    requires forall k | 0 <= k < |rows| :: |rows[k]| == |factors|
    ensures |r| == |rows| && forall k | 0 <= k < |rows| :: |r[k]| == |factors|
  {
    seq(|rows|, k requires 0 <= k < |rows| => RealSalary(rows[k], factors))
  }

  /**
   * Real salary of year i is the nominal salary of year i restated in the
   * money of the year after the window: times the steps of years i .. last.
   */
  lemma RealSalaryAt(row: seq<real>, infl: seq<real>, i: nat)
    requires |row| == |infl| && i < |row|
    ensures RealSalary(row, Factors(infl))[i] == row[i] * Anchored(infl, i)
  {
    var f := Factors(infl);
    var g := Anchored(infl, i);
    FactorsAnchored(infl, i);
    RealSalaryWith(row, f, g, i);
  }

  /** The entry of a deflated row, for any factor row whose entry i is g. */
  lemma RealSalaryWith(row: seq<real>, f: seq<real>, g: real, i: nat)
    requires |row| == |f| && i < |row| && f[i] == g
    ensures RealSalary(row, f)[i] == row[i] * g
  {
  }

  /** A rate of -100 % would wipe out the currency; every other rate gives a non-zero step. */
  predicate NoTotalLoss(infl: seq<real>) {
    forall i | 0 <= i < |infl| :: infl[i] != -100.0
  }

  lemma {:induction false} AnchoredNonZero(infl: seq<real>, i: nat)
    requires NoTotalLoss(infl) && i <= |infl|
    ensures Anchored(infl, i) != 0.0
    decreases |infl| - i
  {
    if i < |infl| {
      AnchoredNonZero(infl, i + 1);
      AnchoredStep(infl, i);
      assert Step(infl[i]) != 0.0;
    } else {
      AnchoredAtEnd(infl);
    }
  }

  lemma FactorNonZero(infl: seq<real>, i: nat)
    requires NoTotalLoss(infl) && i < |infl|
    ensures Factors(infl)[i] != 0.0
  {
    FactorsAnchored(infl, i);
    AnchoredNonZero(infl, i);
  }

  lemma MulNonZero(x: real, y: real)
    requires x != 0.0 && y != 0.0
    ensures x * y != 0.0
  {
  }

  lemma RealNonZero(row: seq<real>, infl: seq<real>)
    requires |row| == |infl| && NonZeroPredecessors(row) && NoTotalLoss(infl)
    ensures NonZeroPredecessors(RealSalary(row, Factors(infl)))
  {
    var f := Factors(infl);
    var r := RealSalary(row, f);
    forall i | 0 <= i < |r| - 1 ensures r[i] != 0.0 {
      FactorNonZero(infl, i);
      MulNonZero(row[i], f[i]);
    }
  }

  /** Fisher's relation on scalars: see RealGrowthDeflatesNominal. */
  lemma FisherStep(a: real, b: real, fa: real, fb: real, st: real, ra: real, rb: real, gn: real, gr: real)
    requires a != 0.0 && fb != 0.0
    requires ra == a * fa && rb == b * fb && fa == fb * st
    requires a * (1.0 + gn / 100.0) == b
    requires ra * (1.0 + gr / 100.0) == rb
    ensures (1.0 + gr / 100.0) * st == 1.0 + gn / 100.0
  {
    var x := (1.0 + gr / 100.0) * st;
    var y := 1.0 + gn / 100.0;
    assert (a * fb) * x == ra * (1.0 + gr / 100.0);
    assert (a * fb) * y == rb;
    MulNonZero(a, fb);
    Cancel(a * fb, x, y);
  }

  /**
   * Deflation is a change of currency-year per year: real growth from year i
   * to year i + 1, compounded with year i's inflation, is the nominal growth.
   */
  lemma RealGrowthDeflatesNominal(row: seq<real>, infl: seq<real>, i: nat)
    requires |row| == |infl| && NonZeroPredecessors(row) && NoTotalLoss(infl)
    requires i + 1 < |row|
    ensures NonZeroPredecessors(RealSalary(row, Factors(infl)))
    ensures (1.0 + Growth(RealSalary(row, Factors(infl)))[i] / 100.0) * Step(infl[i])
         == 1.0 + Growth(row)[i] / 100.0
  {
    RealNonZero(row, infl);
    var f := Factors(infl);
    var r := RealSalary(row, f);
    FactorsStep(infl, i);
    FactorNonZero(infl, i + 1);
    GrowthCompoundsAt(row, i);
    GrowthCompoundsAt(r, i);
    FisherStep(row[i], row[i + 1], f[i], f[i + 1], Step(infl[i]), r[i], r[i + 1], Growth(row)[i], Growth(r)[i]);
  }
}
