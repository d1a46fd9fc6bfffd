// Year-over-year growth of a salary row (utils.py: pct_change().iloc[1:] * 100)
// and the arithmetic mean that find_corr reports for it.

module SalaryGrowth {

  /** Every value that serves as a predecessor (all but the last) is non-zero. */
  predicate NonZeroPredecessors(s: seq<real>) {
    forall i | 0 <= i < |s| - 1 :: s[i] != 0.0
  }

  /** Real division is the unique solution of q * a == x. */
  lemma DivUnique(x: real, a: real, q: real)
    requires a != 0.0 && q * a == x
    ensures x / a == q
  {
    var d := x / a;
    assert d * a == x;
    assert (d - q) * a == 0.0;
  }

  /** A non-zero factor cancels. */
  lemma Cancel(p: real, x: real, y: real)
    requires p != 0.0 && p * x == p * y
    ensures x == y
  {
    assert p * (x - y) == 0.0;
  }

  /** The relative change from a to b in percent, written as pandas computes it: b / a - 1. */
  function PctChange(a: real, b: real): (r: real)
    requires a != 0.0
    ensures r * a == (b - a) * 100.0
  {
    var q := b / a;
    assert q * a == b;
    assert (q - 1.0) * a == b - a;
    (q - 1.0) * 100.0
  }

  lemma PctChangeIsRelativeDifference(a: real, b: real)
    requires a != 0.0
    ensures PctChange(a, b) == (b - a) / a * 100.0
  {
    var q := b / a;
    assert q * a == b;
    assert (q - 1.0) * a == b - a;
    DivUnique(b - a, a, q - 1.0);
  }

  /** Compounding a by its percent change to b gives b. */
  lemma PctChangeCompounds(a: real, b: real)
    requires a != 0.0
    ensures a * (1.0 + PctChange(a, b) / 100.0) == b
  {
    var q := b / a;
    assert q * a == b;
    assert 1.0 + PctChange(a, b) / 100.0 == q;
  }

  /**
   * pct_change() leaves the first year undefined and iloc[1:] drops it, so the
   * growth row is one point shorter than the salary row.
   */
  function Growth(s: seq<real>): (g: seq<real>)
    requires NonZeroPredecessors(s)
    ensures |g| == if s == [] then 0 else |s| - 1
  {
    seq(if s == [] then 0 else |s| - 1, i requires 0 <= i < |s| - 1 => PctChange(s[i], s[i + 1]))
  }

  /** Growth at index i is the change from year i to year i + 1 relative to year i, in percent. */
  lemma GrowthAt(s: seq<real>, i: nat)
    requires NonZeroPredecessors(s) && i < |s| - 1
    ensures Growth(s)[i] == (s[i + 1] - s[i]) / s[i] * 100.0
  {
    PctChangeIsRelativeDifference(s[i], s[i + 1]);
  }

  /** The salary row rebuilt from its first value by compounding the growth rates. */
  function Compound(first: real, g: seq<real>): (s: seq<real>)
    ensures |s| == |g| + 1 && s[0] == first
    decreases |g|
  {
    if g == [] then [first]
    else [first] + Compound(first * (1.0 + g[0] / 100.0), g[1..])
  }

  lemma CompoundCons(first: real, g: seq<real>, next: real)
    requires g != [] && next == first * (1.0 + g[0] / 100.0)
    ensures Compound(first, g) == [first] + Compound(next, g[1..])
  {
  }

  /** Each growth point compounds its year's salary into the next year's. */
  lemma GrowthCompoundsAt(s: seq<real>, i: nat)
    requires NonZeroPredecessors(s) && i < |s| - 1
    ensures s[i] * (1.0 + Growth(s)[i] / 100.0) == s[i + 1]
  {
    PctChangeCompounds(s[i], s[i + 1]);
  }

  /** The growth row loses nothing but the unit: with the first salary it gives back the whole row. */
  lemma {:induction false} CompoundGrowth(s: seq<real>)
    requires s != [] && NonZeroPredecessors(s)
    ensures Compound(s[0], Growth(s)) == s
  {
    if |s| >= 2 {
      var g := Growth(s);
      assert g[1..] == Growth(s[1..]);
      GrowthCompoundsAt(s, 0);
      CompoundCons(s[0], g, s[1]);
      CompoundGrowth(s[1..]);
      assert s[1..][0] == s[1];
    }
  }

  function Sum(s: seq<real>): real {
    if s == [] then 0.0 else s[0] + Sum(s[1..])
  }

  /** np.mean of a non-empty row. */
  function Mean(s: seq<real>): (m: real)
    requires s != []
    ensures m * (|s| as real) == Sum(s)
  {
    Sum(s) / (|s| as real)
  }

  lemma {:induction false} SumBounds(s: seq<real>, lo: real, hi: real)
    requires forall i | 0 <= i < |s| :: lo <= s[i] <= hi
    ensures (|s| as real) * lo <= Sum(s) <= (|s| as real) * hi
  {
    if s != [] {
      SumBounds(s[1..], lo, hi);
    }
  }

  /** The mean growth lies between the smallest and the largest yearly growth. */
  lemma MeanBounds(s: seq<real>, lo: real, hi: real)
    requires s != []
    requires forall i | 0 <= i < |s| :: lo <= s[i] <= hi
    ensures lo <= Mean(s) <= hi
  {
    SumBounds(s, lo, hi);
    var n := |s| as real;
    var m := Mean(s);
    assert m * n == Sum(s);
  }

  lemma {:induction false} SumConstant(n: nat, c: real)
    ensures Sum(seq(n, _ => c)) == (n as real) * c
  {
    if n > 0 {
      var s := seq(n, _ => c);
      assert s[0] == c && s[1..] == seq(n - 1, _ => c);
      SumConstant(n - 1, c);
    }
  }

  lemma MeanConstant(n: nat, c: real)
    requires n > 0
    ensures Mean(seq(n, _ => c)) == c
  {
    SumConstant(n, c);
    DivUnique(Sum(seq(n, _ => c)), n as real, c);
  }

  lemma SteadyStep(a: real, b: real, rate: real)
    requires a != 0.0 && b == a * (1.0 + rate / 100.0)
    ensures PctChange(a, b) == rate
  {
    DivUnique(b, a, 1.0 + rate / 100.0);
  }

  lemma SteadyGrowthAt(s: seq<real>, rate: real, i: nat)
    requires NonZeroPredecessors(s) && i < |s| - 1
    requires s[i + 1] == s[i] * (1.0 + rate / 100.0)
    ensures Growth(s)[i] == rate
  {
    SteadyStep(s[i], s[i + 1], rate);
  }

  /** A salary row that grows by the same rate every year has that rate as its mean growth. */
  lemma MeanOfSteadyGrowth(s: seq<real>, rate: real)
    requires |s| >= 2 && NonZeroPredecessors(s)
    requires forall i | 0 <= i < |s| - 1 :: s[i + 1] == s[i] * (1.0 + rate / 100.0)
    ensures Mean(Growth(s)) == rate
  {
    var g := Growth(s);
    forall i | 0 <= i < |g| ensures g[i] == rate {
      SteadyGrowthAt(s, rate, i);
    }
    assert g == seq(|g|, _ => rate);
    MeanConstant(|g|, rate);
  }

  /** plot_pct_change's table: the growth row of every sector row. */
  function GrowthTable(rows: seq<seq<real>>): (g: seq<seq<real>>)
    requires forall k | 0 <= k < |rows| :: NonZeroPredecessors(rows[k])
    ensures |g| == |rows|
    ensures forall k | 0 <= k < |rows| :: g[k] == Growth(rows[k])
  {
    seq(|rows|, k requires 0 <= k < |rows| => Growth(rows[k]))
  }
}
