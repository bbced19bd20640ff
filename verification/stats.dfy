/** The statistics mix-in of php/metric.php (`AnalyticsFunctions`): whole-
    series reductions over a list of values. Values are exact reals, so the
    model has no rounding; PHP computes in doubles.

    Each reduction takes the list it reduces. In PHP a reduction called with
    no argument (or with an empty array) falls back to the data set's own
    flat value list; callers of this module pass that list explicitly. */
module Stats {
  import opened Outcomes
  import opened Sorting

  datatype StatError =
    | InvalidPercentile(p: real)
    | InvalidData
    | DivisionByZero

  function Sum(xs: seq<real>): real
  {
    if |xs| == 0 then 0.0 else xs[0] + Sum(xs[1..])
  }

  /** Sum of squares. */
  function Sum2(xs: seq<real>): real
  {
    if |xs| == 0 then 0.0 else xs[0] * xs[0] + Sum2(xs[1..])
  }

  lemma {:induction false} SumAppend(xs: seq<real>, ys: seq<real>)
    ensures Sum(xs + ys) == Sum(xs) + Sum(ys)
  {
    if |xs| > 0 {
      SumAppend(xs[1..], ys);
      assert (xs + ys)[1..] == xs[1..] + ys;
    } else {
      assert xs + ys == ys;
    }
  }

  /** `avg`: zero for no values or a zero sum, otherwise sum over count. */
  function Avg(xs: seq<real>): (r: real)
    ensures |xs| == 0 || Sum(xs) == 0.0 ==> r == 0.0
    ensures |xs| > 0 ==> r * (|xs| as real) == Sum(xs)
  {
    if |xs| == 0 || Sum(xs) == 0.0 then 0.0 else Sum(xs) / (|xs| as real)
  }

  /** Least element of a non-empty list. */
  function MinOf(xs: seq<real>): (m: real)
    requires |xs| > 0
    ensures m in xs
    ensures forall i :: 0 <= i < |xs| ==> m <= xs[i]
  {
    if |xs| == 1 then xs[0]
    else
      var rest := MinOf(xs[1..]);
      assert forall i :: 1 <= i < |xs| ==> xs[i] == xs[1..][i - 1];
      if xs[0] <= rest then xs[0] else rest
  }

  /** Greatest element of a non-empty list. */
  function MaxOf(xs: seq<real>): (m: real)
    requires |xs| > 0
    ensures m in xs
    ensures forall i :: 0 <= i < |xs| ==> xs[i] <= m
  {
    if |xs| == 1 then xs[0]
    else
      var rest := MaxOf(xs[1..]);
      assert forall i :: 1 <= i < |xs| ==> xs[i] == xs[1..][i - 1];
      if xs[0] >= rest then xs[0] else rest
  }

  /** `min`: zero for no values, otherwise the least value. */
  function Min(xs: seq<real>): (r: real)
    ensures |xs| == 0 ==> r == 0.0
    ensures |xs| > 0 ==> r in xs && forall i :: 0 <= i < |xs| ==> r <= xs[i]
  {
    if |xs| < 1 then 0.0 else MinOf(xs)
  }

  /** `max`: zero for no values, otherwise the greatest value. */
  function Max(xs: seq<real>): (r: real)
    ensures |xs| == 0 ==> r == 0.0
    ensures |xs| > 0 ==> r in xs && forall i :: 0 <= i < |xs| ==> xs[i] <= r
  {
    if |xs| < 1 then 0.0 else MaxOf(xs)
  }

  /** `min($data)` as written: an empty `$data` falls back to the data
      set's own list `own`, but the emptiness test that guards the call to
      PHP's `min` looks at `own` rather than at the list being reduced. */
  function MinAsWritten(data: seq<real>, own: seq<real>): (r: real)
    ensures |own| == 0 ==> r == 0.0
    ensures |own| > 0 && |data| > 0 ==> r == Min(data)
    ensures |own| > 0 && |data| == 0 ==> r == Min(own)
  {
    var xs := if |data| == 0 then own else data;
    if |own| < 1 then 0.0 else MinOf(xs)
  }

  /** The discrepancy: reducing [5] on behalf of a data set with no values
      of its own yields 0, whereas its least element is 5. */
  lemma MinAsWrittenIgnoresData()
    ensures MinAsWritten([5.0], []) == 0.0
    ensures Min([5.0]) == 5.0
  {
  }

  /** `range`: never negative. */
  function Range(xs: seq<real>): (r: real)
    ensures r >= 0.0
    ensures |xs| > 0 ==> r == Max(xs) - Min(xs)
  {
    Max(xs) - Min(xs)
  }

  /* ---------- Mean between the extremes ---------- */

  lemma {:induction false} SumBounds(xs: seq<real>, lo: real, hi: real)
    requires forall i :: 0 <= i < |xs| ==> lo <= xs[i] <= hi
    ensures (|xs| as real) * lo <= Sum(xs) <= (|xs| as real) * hi
  {
    if |xs| > 0 {
      SumBounds(xs[1..], lo, hi);
      assert (|xs| as real) * lo == lo + (|xs[1..]| as real) * lo;
      assert (|xs| as real) * hi == hi + (|xs[1..]| as real) * hi;
    }
  }

  /** Multiplying by a positive factor preserves order, both ways. */
  lemma ScaleOrder(n: real, a: real, b: real)
    requires n > 0.0
    ensures a <= b <==> n * a <= n * b
  {
    assert n * b - n * a == n * (b - a);
    if a <= b {
      MulNonNegative(n, b - a);
    } else {
      MulPositive(n, a - b);
    }
  }

  lemma MulNonNegative(a: real, b: real)
    requires a >= 0.0 && b >= 0.0
    ensures a * b >= 0.0
  {
  }

  lemma MulPositive(a: real, b: real)
    requires a > 0.0 && b > 0.0
    ensures a * b > 0.0
  {
  }

  /** A quotient of a bounded total by a positive count is bounded. */
  lemma QuotientBetween(n: real, lo: real, hi: real, total: real, a: real)
    requires n > 0.0 && n * lo <= total <= n * hi && a * n == total
    ensures lo <= a <= hi
  {
    assert n * a == total;
    ScaleOrder(n, lo, a);
    ScaleOrder(n, a, hi);
  }

  /** Dividing a total bounded by n*lo and n*hi by n stays within
      [lo, hi]; a zero total means zero lies in the bounds too. */
  lemma DivisionBetween(n: real, lo: real, hi: real, total: real)
    requires n > 0.0 && n * lo <= total <= n * hi
    ensures lo <= total / n <= hi
    ensures total == 0.0 ==> lo <= 0.0 <= hi
  {
    QuotientBetween(n, lo, hi, total, total / n);
    if total == 0.0 {
      ScaleOrder(n, lo, 0.0);
      ScaleOrder(n, 0.0, hi);
    }
  }

  /** Exact division by a non-zero divisor. */
  function Quotient(a: real, n: real): (q: real)
    requires n != 0.0
    ensures q * n == a
    ensures a >= 0.0 && n > 0.0 ==> q >= 0.0
  {
    a / n
  }

  lemma SumBetweenExtremes(xs: seq<real>, lo: real, hi: real)
    requires |xs| > 0 && lo == Min(xs) && hi == Max(xs)
    ensures (|xs| as real) * lo <= Sum(xs) <= (|xs| as real) * hi
  {
    SumBounds(xs, lo, hi);
  }

  /** The average of a non-empty list lies between its least and greatest
      element (the zero-sum shortcut of `avg` agrees with sum/count). */
  lemma AvgBetweenMinAndMax(xs: seq<real>)
    requires |xs| > 0
    ensures Min(xs) <= Avg(xs) <= Max(xs)
  {
    AvgBetweenExtremes(xs, Min(xs), Max(xs));
  }

  lemma AvgBetweenExtremes(xs: seq<real>, lo: real, hi: real)
    requires |xs| > 0 && lo == Min(xs) && hi == Max(xs)
    ensures lo <= Avg(xs) <= hi
  {
    SumBetweenExtremes(xs, lo, hi);
    AvgWithinBounds(xs, lo, hi);
  }

  lemma AvgWithinBounds(xs: seq<real>, lo: real, hi: real)
    requires |xs| > 0
    requires (|xs| as real) * lo <= Sum(xs) <= (|xs| as real) * hi
    ensures lo <= Avg(xs) <= hi
  {
    DivisionBetween(|xs| as real, lo, hi, Sum(xs));
  }

  /* ---------- Standard deviation ---------- */

  /** The value `standard_deviation` takes the square root of:
      (sum2 - n * avg^2) / (n - 1). A single value divides by zero, which
      PHP reports as an error; an empty list yields zero. */
  function VarianceRadicand(xs: seq<real>): (r: Result<real, StatError>)
    ensures r.Failure? <==> |xs| == 1
    ensures r.Failure? ==> r.error == DivisionByZero
  {
    var n := |xs| as real;
    if |xs| == 1 then Failure(DivisionByZero)
    else Success((Sum2(xs) - n * Avg(xs) * Avg(xs)) / (n - 1.0))
  }

  lemma SquareNonNegative(d: real)
    ensures d * d >= 0.0
  {
    if d < 0.0 {
      assert d * d == (-d) * (-d);
    }
  }

  /** For any centre y: sum of (x - y)^2 = sum2 - 2 y sum + n y^2 >= 0. */
  lemma {:induction false} CentredSquaresNonNegative(xs: seq<real>, y: real)
    ensures Sum2(xs) - 2.0 * y * Sum(xs) + (|xs| as real) * y * y >= 0.0
  {
    if |xs| > 0 {
      var x := xs[0];
      var rest := xs[1..];
      CentredSquaresNonNegative(rest, y);
      SquareNonNegative(x - y);
      var m := |rest| as real;
      assert (x - y) * (x - y) == x * x - 2.0 * y * x + y * y;
      assert 2.0 * y * Sum(xs) == 2.0 * y * x + 2.0 * y * Sum(rest);
      assert (|xs| as real) * y * y == y * y + m * y * y;
    }
  }

  /** The radicand is never negative once there are at least two values,
      so the square root is always defined there. */
  lemma VarianceRadicandNonNegative(xs: seq<real>)
    requires |xs| >= 2
    ensures VarianceRadicand(xs).Success? && VarianceRadicand(xs).value >= 0.0
  {
    var n := |xs| as real;
    var a := Avg(xs);
    assert a * n == Sum(xs);
    CentredSquaresNonNegative(xs, a);
    assert Sum2(xs) - 2.0 * a * Sum(xs) + n * a * a >= 0.0;
    assert 2.0 * a * Sum(xs) == 2.0 * n * a * a;
    assert Sum2(xs) - n * a * a >= 0.0;
  }

  /** Worked example: [2,4,4,4,5,5,7,9] has radicand 32/7 (deviation 2.138). */
  lemma VarianceRadicandExample(xs: seq<real>)
    requires xs == [2.0, 4.0, 4.0, 4.0, 5.0, 5.0, 7.0, 9.0]
    ensures VarianceRadicand(xs) == Success(32.0 / 7.0)
  {
    SumsExample();
    assert Avg(xs) == 5.0;
  }

  lemma SumsExample()
    ensures Sum([2.0, 4.0, 4.0, 4.0, 5.0, 5.0, 7.0, 9.0]) == 40.0
    ensures Sum2([2.0, 4.0, 4.0, 4.0, 5.0, 5.0, 7.0, 9.0]) == 232.0
  {
  }

  /* ---------- Percentiles ---------- */

  /** The fraction a percentile argument denotes: a fraction in (0,1) is
      taken as is, a percentage in (1,100] is divided by 100; 0, 1 and
      everything else is rejected. */
  function PercentileFraction(p: real): (f: Option<real>)
    ensures f.Some? <==> (0.0 < p < 1.0 || 1.0 < p <= 100.0)
    ensures f.Some? ==> 0.0 < f.value <= 1.0
    ensures f.Some? && p < 1.0 ==> f.value == p
    ensures f.Some? && p > 1.0 ==> f.value * 100.0 == p
  {
    if 0.0 < p < 1.0 then Some(p)
    else if 1.0 < p <= 100.0 then Some(p * 0.01)
    else None
  }

  /** A fraction of a non-negative quantity lies between zero and it. */
  lemma FractionOf(m: real, f: real)
    requires m >= 0.0 && 0.0 <= f <= 1.0
    ensures 0.0 <= m * f <= m
  {
    MulNonNegative(m, f);
    assert m - m * f == m * (1.0 - f);
    MulNonNegative(m, 1.0 - f);
  }

  /** The whole and fractional parts of a rank between 0 and m. */
  lemma FloorWithin(r: real, m: int)
    requires 0.0 <= r <= m as real
    ensures 0 <= r.Floor <= m
    ensures 0.0 <= r - r.Floor as real < 1.0
  {
  }

  /** Linear interpolation at fractional rank (n-1)*f in an ascending list:
      between s[i] and s[i+1] for i = floor of the rank, or s[i] alone at
      the last index. */
  function Interpolate(s: seq<real>, f: real): real
    requires |s| > 0 && 0.0 <= f <= 1.0
  {
    var rank := Rank(|s|, f);
    FloorWithin(rank, |s| - 1);
    Lerp(s, rank.Floor, rank - rank.Floor as real)
  }

  /** The fractional rank (n-1)*f of fraction f among n values. */
  function Rank(n: nat, f: real): (r: real)
    requires n > 0 && 0.0 <= f <= 1.0
    ensures 0.0 <= r <= (n - 1) as real
  {
    FractionOf((n - 1) as real, f);
    (n - 1) as real * f
  }

  /** The step at whole index `i` and fractional part `frac`. */
  function Lerp(s: seq<real>, i: nat, frac: real): real
    requires i < |s|
  {
    if i + 1 < |s| then frac * (s[i + 1] - s[i]) + s[i] else s[i]
  }

  /** On ascending data a step lies between the two values it joins. */
  lemma LerpBracket(s: seq<real>, i: nat, frac: real)
    requires i < |s| && Sorted(s) && 0.0 <= frac <= 1.0
    ensures s[i] <= Lerp(s, i, frac)
    ensures i + 1 < |s| ==> Lerp(s, i, frac) <= s[i + 1]
    ensures i + 1 == |s| ==> Lerp(s, i, frac) == s[i]
  {
    if i + 1 < |s| {
      assert s[i] <= s[i + 1];
      FractionOf(s[i + 1] - s[i], frac);
      assert Lerp(s, i, frac) == frac * (s[i + 1] - s[i]) + s[i];
    }
  }

  /** On ascending data a step grows with its fractional part. */
  lemma LerpMonotone(s: seq<real>, i: nat, g1: real, g2: real)
    requires i < |s| && Sorted(s) && g1 <= g2
    ensures Lerp(s, i, g1) <= Lerp(s, i, g2)
  {
    if i + 1 < |s| {
      var d := s[i + 1] - s[i];
      assert g2 * d - g1 * d == (g2 - g1) * d;
      MulNonNegative(g2 - g1, d);
    }
  }

  /** Interpolation is the step at the whole and fractional parts of the
      rank. */
  lemma InterpolateAt(s: seq<real>, f: real)
    requires |s| > 0 && 0.0 <= f <= 1.0
    ensures var r := Rank(|s|, f);
      0 <= r.Floor < |s| && 0.0 <= r - r.Floor as real < 1.0 &&
      Interpolate(s, f) == Lerp(s, r.Floor, r - r.Floor as real)
  {
    FloorWithin(Rank(|s|, f), |s| - 1);
  }

  /** Interpolating at rank r lands between the two order statistics that
      bracket r. */
  lemma InterpolateBracket(s: seq<real>, f: real)
    requires |s| > 0 && 0.0 <= f <= 1.0 && Sorted(s)
    ensures var i := Rank(|s|, f).Floor;
      0 <= i < |s| && s[i] <= Interpolate(s, f) &&
      (i + 1 < |s| ==> Interpolate(s, f) <= s[i + 1]) &&
      (i + 1 == |s| ==> Interpolate(s, f) == s[i])
  {
    var rank := Rank(|s|, f);
    InterpolateAt(s, f);
    LerpBracket(s, rank.Floor, rank - rank.Floor as real);
  }

  /** Interpolation is monotone in the fraction. */
  lemma InterpolateMonotone(s: seq<real>, f1: real, f2: real)
    requires |s| > 0 && Sorted(s)
    requires 0.0 <= f1 <= f2 <= 1.0
    ensures Interpolate(s, f1) <= Interpolate(s, f2)
  {
    InterpolateAt(s, f1);
    InterpolateAt(s, f2);
    RankOrder(|s|, f1, f2);
    var r1, r2 := Rank(|s|, f1), Rank(|s|, f2);
    StepMonotone(s, r1.Floor, r1 - r1.Floor as real, r2.Floor, r2 - r2.Floor as real);
  }

  /** A larger fraction gives a rank with a larger whole part, or the same
      whole part and a larger fractional part. */
  lemma RankOrder(n: nat, f1: real, f2: real)
    requires n > 0 && 0.0 <= f1 <= f2 <= 1.0
    ensures Rank(n, f1).Floor <= Rank(n, f2).Floor
    ensures Rank(n, f1).Floor == Rank(n, f2).Floor ==>
      Rank(n, f1) - Rank(n, f1).Floor as real <= Rank(n, f2) - Rank(n, f2).Floor as real
  {
    RankGrows(n, f1, f2);
  }

  lemma RankGrows(n: nat, f1: real, f2: real)
    requires n > 0 && 0.0 <= f1 <= f2 <= 1.0
    ensures Rank(n, f1) <= Rank(n, f2)
  {
    var m := (n - 1) as real;
    assert m * f2 - m * f1 == m * (f2 - f1);
    MulNonNegative(m, f2 - f1);
  }

  /** Steps are ordered by whole index, then by fractional part. */
  lemma StepMonotone(s: seq<real>, i1: nat, g1: real, i2: nat, g2: real)
    requires i1 <= i2 < |s| && Sorted(s)
    requires 0.0 <= g1 <= 1.0 && 0.0 <= g2 <= 1.0
    requires i1 == i2 ==> g1 <= g2
    ensures Lerp(s, i1, g1) <= Lerp(s, i2, g2)
  {
    if i1 == i2 {
      LerpMonotone(s, i1, g1, g2);
    } else {
      LerpBracket(s, i1, g1);
      LerpBracket(s, i2, g2);
      assert s[i1 + 1] <= s[i2];
    }
  }

  /** `percentile(p)`: rejects an argument outside (0,1) and (1,100], then
      rejects an empty list, then interpolates in the ascending order of
      the values. PHP sorts the data set's list in place; since every other
      reduction ignores order, the model sorts a copy. */
  function Percentile(xs: seq<real>, p: real): (r: Result<real, StatError>)
    ensures PercentileFraction(p).None? ==> r == Failure(InvalidPercentile(p))
    ensures PercentileFraction(p).Some? && |xs| == 0 ==> r == Failure(InvalidData)
    ensures r.Success? <==> PercentileFraction(p).Some? && |xs| > 0
  {
    match PercentileFraction(p)
    case None => Failure(InvalidPercentile(p))
    case Some(f) =>
      if |xs| == 0 then Failure(InvalidData)
      else Success(Interpolate(Sort(xs), f))
  }

  /** The ends of the ascending order are the minimum and maximum. */
  lemma SortedEnds(xs: seq<real>)
    requires |xs| > 0
    ensures Sort(xs)[0] == Min(xs) && Sort(xs)[|xs| - 1] == Max(xs)
  {
    var s := Sort(xs);
    assert forall v :: v in s <==> v in xs by {
      forall v ensures v in s <==> v in xs {
        assert v in s <==> v in multiset(s);
        assert v in xs <==> v in multiset(xs);
      }
    }
    var lo := Min(xs);
    var hi := Max(xs);
    assert lo in s && hi in s;
    assert s[0] in xs && s[|s| - 1] in xs;
    var i :| 0 <= i < |s| && s[i] == lo;
    var j :| 0 <= j < |s| && s[j] == hi;
    var a :| 0 <= a < |xs| && xs[a] == s[0];
    var b :| 0 <= b < |xs| && xs[b] == s[|s| - 1];
    assert s[0] <= lo && lo <= s[0];
    assert hi <= s[|s| - 1] && s[|s| - 1] <= hi;
  }

  /** A percentile lies between the minimum and the maximum. */
  lemma PercentileWithinRange(xs: seq<real>, p: real)
    requires Percentile(xs, p).Success?
    ensures Min(xs) <= Percentile(xs, p).value <= Max(xs)
  {
    var s := Sort(xs);
    var f := PercentileFraction(p).value;
    SortedEnds(xs);
    InterpolateMonotone(s, 0.0, f);
    InterpolateMonotone(s, f, 1.0);
    assert Interpolate(s, 0.0) == s[0];
    InterpolateBracket(s, 1.0);
    assert Rank(|s|, 1.0).Floor == |s| - 1;
  }

  /** Percentiles are monotone in the fraction they denote; within one
      argument convention (both fractions, or both percentages) that is
      monotonicity in the argument itself. Across conventions it is not:
      0.5 denotes the 50th percentile and 2 the 2nd. */
  lemma PercentileMonotone(xs: seq<real>, p1: real, p2: real)
    requires Percentile(xs, p1).Success? && Percentile(xs, p2).Success?
    requires PercentileFraction(p1).value <= PercentileFraction(p2).value
    ensures Percentile(xs, p1).value <= Percentile(xs, p2).value
  {
    InterpolateMonotone(Sort(xs), PercentileFraction(p1).value, PercentileFraction(p2).value);
  }

  lemma PercentageMonotone(xs: seq<real>, p1: real, p2: real)
    requires |xs| > 0 && 1.0 < p1 <= p2 <= 100.0
    ensures Percentile(xs, p1).Success? && Percentile(xs, p2).Success?
    ensures Percentile(xs, p1).value <= Percentile(xs, p2).value
  {
    PercentileMonotone(xs, p1, p2);
  }

  /** `median`: the 50th percentile. */
  function Median(xs: seq<real>): (r: Result<real, StatError>)
    ensures r.Success? <==> |xs| > 0
    ensures r.Success? ==> Min(xs) <= r.value <= Max(xs)
  {
    var r := Percentile(xs, 50.0);
    if r.Success? then PercentileWithinRange(xs, 50.0); r else r
  }

  datatype Quartiles = Quartiles(q25: real, q50: real, q75: real)

  /** `quartiles`: the 25th, 50th and 75th percentiles, in order. */
  function GetQuartiles(xs: seq<real>): (r: Result<Quartiles, StatError>)
    ensures r.Success? <==> |xs| > 0
    ensures r.Failure? ==> r.error == InvalidData
    ensures r.Success? ==> r.value.q25 <= r.value.q50 <= r.value.q75
    ensures r.Success? ==> Min(xs) <= r.value.q25 && r.value.q75 <= Max(xs)
  {
    if |xs| == 0 then Failure(InvalidData)
    else
      PercentageMonotone(xs, 25.0, 50.0);
      PercentageMonotone(xs, 50.0, 75.0);
      PercentileWithinRange(xs, 25.0);
      PercentileWithinRange(xs, 75.0);
      Success(Quartiles(
        Percentile(xs, 25.0).value,
        Percentile(xs, 50.0).value,
        Percentile(xs, 75.0).value))
  }

  /** Worked example: quartiles of 1..5 are 2, 3 and 4. */
  lemma QuartilesExample(xs: seq<real>)
    requires xs == [1.0, 2.0, 3.0, 4.0, 5.0]
    ensures GetQuartiles(xs) == Success(Quartiles(2.0, 3.0, 4.0))
  {
    PercentileExample(xs, 25.0, 2.0);
    PercentileExample(xs, 50.0, 3.0);
    PercentileExample(xs, 75.0, 4.0);
    QuartilesOf(xs, 2.0, 3.0, 4.0);
  }

  lemma QuartilesOf(xs: seq<real>, a: real, b: real, c: real)
    requires |xs| > 0
    requires Percentile(xs, 25.0) == Success(a) && Percentile(xs, 50.0) == Success(b)
    requires Percentile(xs, 75.0) == Success(c)
    ensures GetQuartiles(xs) == Success(Quartiles(a, b, c))
  {
  }

  /** In 1..5, the percentage p selects the value v. */
  lemma PercentileExample(xs: seq<real>, p: real, v: real)
    requires xs == [1.0, 2.0, 3.0, 4.0, 5.0]
    requires (p == 25.0 && v == 2.0) || (p == 50.0 && v == 3.0) || (p == 75.0 && v == 4.0)
    ensures Percentile(xs, p) == Success(v)
  {
    OneToFiveSorted(xs);
    SortOfSorted(xs);
    if p == 25.0 {
      assert PercentileFraction(p) == Some(0.25);
      InterpolateExample(xs, 0.25, 1);
    } else if p == 50.0 {
      assert PercentileFraction(p) == Some(0.5);
      InterpolateExample(xs, 0.5, 2);
    } else {
      assert PercentileFraction(p) == Some(0.75);
      InterpolateExample(xs, 0.75, 3);
    }
  }

  lemma OneToFiveSorted(xs: seq<real>)
    requires xs == [1.0, 2.0, 3.0, 4.0, 5.0]
    ensures Sorted(xs)
  {
    assert forall k :: 0 <= k < |xs| ==> xs[k] == (k + 1) as real;
  }

  /** Interpolating in 1..5 at a rank that falls on index i gives i + 1. */
  lemma InterpolateExample(xs: seq<real>, f: real, i: int)
    requires xs == [1.0, 2.0, 3.0, 4.0, 5.0] && 0 <= i < 4
    requires 4.0 * f == i as real && 0.0 <= f <= 1.0
    ensures Interpolate(xs, f) == (i + 1) as real
  {
    assert Rank(|xs|, f) == 4.0 * f;
    assert (4.0 * f).Floor == i;
    assert xs[i] == (i + 1) as real;
  }
}
