/** The histogram mix-in of php/metric.php (`HistogramFunctions`): the
    default bin count chosen from the number of distinct values, the bin
    width, and the frequency count that drops each value into the highest
    bin whose lower edge it reaches.

    PHP keys the frequencies by the string form of each bin's lower edge
    and keeps them in a field across calls; the model returns them as a
    list indexed by bin number (see `CoincidingEdgeShadowed` for why
    nothing is lost when two edges coincide). */
module Histogram {
  import opened Outcomes
  import opened Stats

  datatype HistogramError =
    | NotEnoughData(count: nat)
    | InsufficientBins

  /** Number of distinct values (`count(array_unique(...))`). */
  function DistinctCount(xs: seq<real>): nat
  {
    |set x | x in xs|
  }

  lemma DistinctCountZeroIffEmpty(xs: seq<real>)
    ensures DistinctCount(xs) == 0 <==> |xs| == 0
  {
    var distinct := set x | x in xs;
    if |xs| > 0 {
      assert xs[0] in distinct;
      assert distinct != {};
    } else {
      assert (set x | x in xs) == {};
    }
  }

  /** The bin-count table: no bins for no values, 5 below 20 distinct
      values, then 6, 7, 8, 9 and 10 up to 50, 100, 200, 500 and 1000,
      and 52 beyond. */
  function BinsForDistinct(d: nat): (n: nat)
  {
    if d < 1 then 0
    else if d < 20 then 5
    else if d <= 50 then 6
    else if d <= 100 then 7
    else if d <= 200 then 8
    else if d <= 500 then 9
    else if d <= 1000 then 10
    else 52
  }

  /** The table only ever proposes these counts, and none but an empty
      data set gets zero bins. */
  lemma BinsForDistinctValues(d: nat)
    ensures BinsForDistinct(d) in {0, 5, 6, 7, 8, 9, 10, 52}
    ensures BinsForDistinct(d) == 0 <==> d == 0
  {
  }

  /** More distinct values never mean fewer bins. */
  lemma BinsForDistinctMonotone(d1: nat, d2: nat)
    requires d1 <= d2
    ensures BinsForDistinct(d1) <= BinsForDistinct(d2)
  {
  }

  /** `number_of_bins`: zero exactly when there are no values. */
  function NumberOfBins(xs: seq<real>): (n: nat)
    ensures n == 0 <==> |xs| == 0
    ensures |xs| > 0 ==> 5 <= n <= 52
  {
    DistinctCountZeroIffEmpty(xs);
    BinsForDistinctValues(DistinctCount(xs));
    BinsForDistinct(DistinctCount(xs))
  }

  /** `validate`: fewer than two values is an error. Since a non-empty
      data set always gets at least five bins, the "insufficient number of
      bins" error can never be raised. */
  function Validate(xs: seq<real>): (r: Outcome<HistogramError>)
    ensures r == Pass <==> |xs| >= 2
    ensures r != Pass ==> r == Fail(NotEnoughData(|xs|))
  {
    if |xs| <= 1 then Fail(NotEnoughData(|xs|))
    else if NumberOfBins(xs) < 1 then Fail(InsufficientBins)
    else Pass
  }

  /** The bin count asked for, or the default one for a zero (PHP-empty)
      request. */
  function BinCount(xs: seq<real>, bins: int): (n: int)
    ensures n == 0 <==> bins == 0 && |xs| == 0
    ensures bins >= 0 ==> n >= 0
  {
    if bins == 0 then NumberOfBins(xs) else bins
  }

  /** `n` bins of width `w` cover a range of `range`. */
  predicate SplitsInto(w: real, n: int, range: real)
  {
    w * n as real == range
  }

  /** The width of each of `n` equal bins over `range`. */
  function Width(range: real, n: int): (w: real)
    requires n != 0
    ensures SplitsInto(w, n, range)
    ensures range >= 0.0 && n > 0 ==> w >= 0.0
  {
    Quotient(range, n as real)
  }

  /** `delta(n)`: the bin width that splits the range into n bins; a zero
      (PHP-empty) n means the default bin count, which is zero, hence a
      division by zero, for an empty data set. */
  function Delta(xs: seq<real>, bins: int): (r: Result<real, StatError>)
    ensures r.Failure? <==> bins == 0 && |xs| == 0
    ensures r.Failure? ==> r.error == DivisionByZero
    ensures r.Success? ==> SplitsInto(r.value, BinCount(xs, bins), Range(xs))
    ensures r.Success? && bins >= 0 ==> r.value >= 0.0
  {
    var n := BinCount(xs, bins);
    if n == 0 then Failure(DivisionByZero)
    else Success(Width(Range(xs), n))
  }

  /** Lower edges of `n` bins of width `w` starting at `first`; a
      non-positive `n` gives no bins. */
  function Edges(first: real, w: real, n: int): (e: seq<real>)
    ensures |e| == if n > 0 then n else 0
  {
    seq(if n > 0 then n else 0, i => first + w * i as real)
  }

  /** With a positive width the edges increase strictly. */
  lemma EdgesIncreasing(first: real, w: real, n: int)
    requires w > 0.0
    ensures forall i, j :: 0 <= i < j < |Edges(first, w, n)| ==>
      Edges(first, w, n)[i] < Edges(first, w, n)[j]
  {
    var e := Edges(first, w, n);
    forall i, j | 0 <= i < j < |e|
      ensures e[i] < e[j]
    {
      assert e[j] - e[i] == w * (j - i) as real;
      MulPositive(w, (j - i) as real);
    }
  }

  /** The bin a value drops into: the highest bin whose lower edge it
      reaches, or none when it lies below every edge. */
  function ScanBin(edges: seq<real>, x: real): (r: Option<nat>)
    ensures r.Some? ==> r.value < |edges| && edges[r.value] <= x
    ensures r.Some? ==> forall k :: r.value < k < |edges| ==> x < edges[k]
    ensures r.None? <==> forall k :: 0 <= k < |edges| ==> x < edges[k]
  {
    if |edges| == 0 then None
    else
      var top := |edges| - 1;
      if x >= edges[top] then Some(top)
      else
        var rest := ScanBin(edges[..top], x);
        assert forall k :: 0 <= k < top ==> edges[..top][k] == edges[k];
        rest
  }

  /** The characterisation in `ScanBin`'s contract pins the bin down: any
      bin whose edge the value reaches while staying below every higher
      edge is the one `ScanBin` picks. */
  lemma ScanBinUnique(edges: seq<real>, x: real, j: nat)
    requires j < |edges| && edges[j] <= x
    requires forall k :: j < k < |edges| ==> x < edges[k]
    ensures ScanBin(edges, x) == Some(j)
  {
    var r := ScanBin(edges, x);
    assert r.Some?;
    assert r.value <= j;
  }

  /** When two edges coincide the lower-numbered bin never receives a
      value: PHP's string-keyed frequency table merges the two into one
      entry, which the higher-numbered bin's count alone describes. */
  lemma CoincidingEdgeShadowed(edges: seq<real>, x: real, i: nat, k: nat)
    requires i < k < |edges| && edges[i] == edges[k]
    ensures ScanBin(edges, x) != Some(i)
  {
  }

  /** Number of values of `xs` that drop into bin `j`. */
  function CountLanding(edges: seq<real>, xs: seq<real>, j: nat): nat
  {
    if |xs| == 0 then 0
    else
      CountLanding(edges, xs[..|xs| - 1], j)
      + (if ScanBin(edges, xs[|xs| - 1]) == Some(j) then 1 else 0)
  }

  /** Number of values of `xs` that drop into some bin. */
  function Landed(edges: seq<real>, xs: seq<real>): nat
  {
    if |xs| == 0 then 0
    else Landed(edges, xs[..|xs| - 1]) + (if ScanBin(edges, xs[|xs| - 1]).Some? then 1 else 0)
  }

  function SumNat(s: seq<nat>): nat
  {
    if |s| == 0 then 0 else s[0] + SumNat(s[1..])
  }

  lemma {:induction false} SumNatBump(s: seq<nat>, j: nat)
    requires j < |s|
    ensures SumNat(s[j := s[j] + 1]) == SumNat(s) + 1
  {
    if j > 0 {
      SumNatBump(s[1..], j - 1);
      assert s[j := s[j] + 1][1..] == s[1..][j - 1 := s[j] + 1];
    } else {
      assert s[j := s[j] + 1][1..] == s[1..];
    }
  }

  lemma SumNatZeros(n: nat)
    ensures SumNat(seq(n, _ => 0)) == 0
  {
    if n > 0 {
      assert seq(n, _ => 0)[1..] == seq(n - 1, _ => 0);
      SumNatZeros(n - 1);
    }
  }

  /** The frequency count: for each value, the bins are scanned from the
      top down and the first whose edge the value reaches is incremented.
      Each bin ends up with the number of values that land in it, and the
      frequencies add up to the number of values that land at all. */
  method Tally(edges: seq<real>, xs: seq<real>) returns (freq: seq<nat>)
    ensures |freq| == |edges|
    ensures forall j :: 0 <= j < |edges| ==> freq[j] == CountLanding(edges, xs, j)
    ensures SumNat(freq) == Landed(edges, xs)
  {
    freq := seq(|edges|, _ => 0);
    SumNatZeros(|edges|);
    var i := 0;
    while i < |xs|
      invariant 0 <= i <= |xs|
      invariant |freq| == |edges|
      invariant forall j :: 0 <= j < |edges| ==> freq[j] == CountLanding(edges, xs[..i], j)
      invariant SumNat(freq) == Landed(edges, xs[..i])
    {
      var x := xs[i];
      assert xs[..i + 1][..i] == xs[..i];
      assert xs[..i + 1][i] == x;
      var j := |edges| - 1;
      while j >= 0 && !(x >= edges[j])
        invariant -1 <= j < |edges|
        invariant forall k :: j < k < |edges| ==> x < edges[k]
      {
        j := j - 1;
      }
      if j >= 0 {
        ScanBinUnique(edges, x, j);
        SumNatBump(freq, j);
        freq := freq[j := freq[j] + 1];
      } else {
        assert ScanBin(edges, x).None?;
      }
      i := i + 1;
    }
    assert xs[..i] == xs;
  }

  /** Every value at or above the lowest edge lands in some bin. */
  lemma {:induction false} LandedAll(edges: seq<real>, xs: seq<real>)
    requires |edges| > 0
    requires forall i :: 0 <= i < |xs| ==> edges[0] <= xs[i]
    ensures Landed(edges, xs) == |xs|
  {
    if |xs| > 0 {
      var init := xs[..|xs| - 1];
      assert forall i :: 0 <= i < |init| ==> init[i] == xs[i];
      LandedAll(edges, init);
      assert ScanBin(edges, xs[|xs| - 1]).Some?;
    }
  }

  /** `histogram(n, first, width)`: each argument that is PHP-empty (zero)
      takes its default, the bin count from `number_of_bins`, the width
      from `delta`, the first edge from `min`; the values are then counted
      into the bins. Each bin's frequency is the number of values whose
      top-down scan stops at it; with the default first edge every value is
      counted. */
  method ComputeHistogram(xs: seq<real>, bins: int, first: real, width: real)
    returns (r: Result<seq<nat>, StatError>)
    ensures r.Failure? <==> bins == 0 && width == 0.0 && |xs| == 0
    ensures r.Success? ==>
      |r.value| == (var n := BinCount(xs, bins); if n > 0 then n else 0)
    ensures r.Success? ==>
      var n := BinCount(xs, bins);
      var f := if first == 0.0 then Min(xs) else first;
      var w := if width == 0.0 then Delta(xs, n).value else width;
      forall j :: 0 <= j < |r.value| ==> r.value[j] == CountLanding(Edges(f, w, n), xs, j)
    ensures r.Success? && first == 0.0 && bins >= 0 && |xs| > 0 ==> SumNat(r.value) == |xs|
  {
    var n := BinCount(xs, bins);
    var w := width;
    if width == 0.0 {
      var d := Delta(xs, n);
      if d.Failure? {
        return Failure(d.error);
      }
      w := d.value;
    }
    var f := if first == 0.0 then Min(xs) else first;
    var edges := Edges(f, w, n);
    var freq := Tally(edges, xs);
    if first == 0.0 && bins >= 0 && |xs| > 0 {
      assert edges[0] == Min(xs);
      LandedAll(edges, xs);
    }
    return Success(freq);
  }

  /** Worked example: the bin width for 1, 1, 2, 2, 3 in three bins is 2/3. */
  lemma DeltaExample(xs: seq<real>)
    requires xs == [1.0, 1.0, 2.0, 2.0, 3.0]
    ensures Delta(xs, 3) == Success(2.0 / 3.0)
  {
    assert xs[0] <= Min(xs) && Max(xs) <= xs[4];
    assert Min(xs) == 1.0 && Max(xs) == 3.0;
  }

  /** Worked example: with edges 1, 5/3 and 7/3, the values 1, 1, 2, 2, 3
      give the frequencies 2, 2 and 1. */
  lemma HistogramExample()
    ensures var e := Edges(1.0, 2.0 / 3.0, 3);
      && CountLanding(e, [1.0, 1.0, 2.0, 2.0, 3.0], 0) == 2
      && CountLanding(e, [1.0, 1.0, 2.0, 2.0, 3.0], 1) == 2
      && CountLanding(e, [1.0, 1.0, 2.0, 2.0, 3.0], 2) == 1
  {
    var e := Edges(1.0, 2.0 / 3.0, 3);
    ScanExample(e);
    var x1: seq<real> := [1.0];
    var x2 := x1 + [1.0];
    var x3 := x2 + [2.0];
    var x4 := x3 + [2.0];
    var x5 := x4 + [3.0];
    assert x5 == [1.0, 1.0, 2.0, 2.0, 3.0];
    forall j: nat | j < 3
      ensures CountLanding(e, x5, j) == [2, 2, 1][j]
    {
      CountLandingSnoc(e, [], 1.0, j);
      assert [] + [1.0] == x1;
      CountLandingSnoc(e, x1, 1.0, j);
      CountLandingSnoc(e, x2, 2.0, j);
      CountLandingSnoc(e, x3, 2.0, j);
      CountLandingSnoc(e, x4, 3.0, j);
    }
  }

  lemma ScanExample(e: seq<real>)
    requires e == Edges(1.0, 2.0 / 3.0, 3)
    ensures ScanBin(e, 1.0) == Some(0)
    ensures ScanBin(e, 2.0) == Some(1)
    ensures ScanBin(e, 3.0) == Some(2)
  {
    assert e == [1.0, 5.0 / 3.0, 7.0 / 3.0];
    ScanBinUnique(e, 1.0, 0);
    ScanBinUnique(e, 2.0, 1);
    ScanBinUnique(e, 3.0, 2);
  }

  lemma CountLandingSnoc(edges: seq<real>, xs: seq<real>, x: real, j: nat)
    ensures CountLanding(edges, xs + [x], j)
      == CountLanding(edges, xs, j) + (if ScanBin(edges, x) == Some(j) then 1 else 0)
  {
    assert (xs + [x])[..|xs|] == xs;
  }
}
