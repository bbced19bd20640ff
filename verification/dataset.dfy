/** The `DataSet` accumulator of php/metric.php: a log of simple metrics, the
    values grouped by timestamp ("points", kept in the order in which each
    timestamp was first seen, as a PHP array keeps its keys), and the flat
    list of all values, which the statistics reduce.

    PHP mutates the object in place; here every operation returns a new
    data set. */
module DataSets {
  import opened Outcomes
  import opened Php
  import opened Metrics
  import opened Stats
  import opened Sorting
  import Text

  /** A timestamp and the values recorded at it, in arrival order. */
  type Bucket = (int, seq<real>)

  datatype DataSet = DataSet(
    name: string,
    dtype: string,
    metrics: seq<Metric>,
    points: seq<Bucket>,
    values: seq<real>)

  datatype DataSetError =
    | NoData
    | ZeroDivisor

  /* ---------- Lookup in the bucket list ---------- */

  /** Position of the bucket for `t`, if there is one. */
  function KeyIndex(ps: seq<Bucket>, t: int): (r: Option<nat>)
    ensures r.Some? ==> r.value < |ps| && ps[r.value].0 == t
    ensures r.Some? ==> forall k :: 0 <= k < r.value ==> ps[k].0 != t
    ensures r.None? <==> forall k :: 0 <= k < |ps| ==> ps[k].0 != t
  {
    if |ps| == 0 then None
    else if ps[0].0 == t then Some(0)
    else
      match KeyIndex(ps[1..], t)
      case None => None
      case Some(i) => Some(i + 1)
  }

  /** The values recorded at `t`; none when there is no bucket for it. */
  function Lookup(ps: seq<Bucket>, t: int): seq<real>
  {
    match KeyIndex(ps, t)
    case None => []
    case Some(i) => ps[i].1
  }

  lemma LookupAt(ps: seq<Bucket>, i: nat)
    requires i < |ps| && DistinctKeys(ps)
    ensures KeyIndex(ps, ps[i].0) == Some(i)
    ensures Lookup(ps, ps[i].0) == ps[i].1
  {
  }

  /* ---------- What the buckets should hold ---------- */

  /** The values of the logged metrics, in log order. */
  function ValuesOf(ms: seq<Metric>): (vs: seq<real>)
    ensures |vs| == |ms|
    ensures forall i :: 0 <= i < |ms| ==> vs[i] == ms[i].value
  {
    if |ms| == 0 then [] else ValuesOf(ms[..|ms| - 1]) + [ms[|ms| - 1].value]
  }

  /** The values of the logged metrics stamped `t`, in log order. */
  function BucketOf(ms: seq<Metric>, t: int): seq<real>
  {
    if |ms| == 0 then []
    else
      BucketOf(ms[..|ms| - 1], t)
      + (if ms[|ms| - 1].timestamp == t then [ms[|ms| - 1].value] else [])
  }

  lemma BucketOfSnoc(ms: seq<Metric>, m: Metric, t: int)
    ensures BucketOf(ms + [m], t)
      == BucketOf(ms, t) + (if m.timestamp == t then [m.value] else [])
  {
    assert (ms + [m])[..|ms|] == ms;
  }

  lemma ValuesOfSnoc(ms: seq<Metric>, m: Metric)
    ensures ValuesOf(ms + [m]) == ValuesOf(ms) + [m.value]
  {
    assert (ms + [m])[..|ms|] == ms;
  }

  /** Totals over all buckets. */
  function BucketSum(ps: seq<Bucket>): real
  {
    if |ps| == 0 then 0.0 else Sum(ps[0].1) + BucketSum(ps[1..])
  }

  function BucketCount(ps: seq<Bucket>): nat
  {
    if |ps| == 0 then 0 else |ps[0].1| + BucketCount(ps[1..])
  }

  /** The representation invariant every data set built by the operations
      below keeps:
      - the flat list holds the logged values in log order;
      - each timestamp has at most one bucket, and a logged metric's
        timestamp always has one;
      - each bucket holds exactly the values logged at its timestamp, in
        log order (so no bucket is empty);
      - summed over all buckets, the values and their number agree with
        the flat list. */
  predicate Consistent(ds: DataSet)
  {
    && ds.values == ValuesOf(ds.metrics)
    && Bucketed(ds.metrics, ds.points)
    && BucketSum(ds.points) == Sum(ds.values)
    && BucketCount(ds.points) == |ds.values|
  }

  /* ---------- Construction, reset, adding ---------- */

  /** The constructor: a named, typed data set with nothing recorded. */
  function NewDataSet(name: string, dtype: string): (ds: DataSet)
    ensures ds.name == name && ds.dtype == dtype
    ensures Consistent(ds) && ds.metrics == [] && ds.points == [] && ds.values == []
  {
    DataSet(name, dtype, [], [], [])
  }

  /** `reset`: log, buckets and flat list are emptied; name and type stay. */
  function Reset(ds: DataSet): (r: DataSet)
    ensures r == NewDataSet(ds.name, ds.dtype)
    ensures Consistent(r) && Count(r) == 0 && GetTimeseries(r) == []
  {
    ds.(metrics := [], points := [], values := [])
  }

  /** `count()` of the data set's own values. */
  function Count(ds: DataSet): nat
  {
    |ds.values|
  }

  /** The bucket list with `v` appended to the bucket for `t`, or with a new
      bucket `[v]` at the end when `t` has none yet. */
  function AppendToBucket(ps: seq<Bucket>, t: int, v: real): (r: seq<Bucket>)
    ensures Lookup(r, t) == Lookup(ps, t) + [v]
    ensures forall u :: u != t ==> Lookup(r, u) == Lookup(ps, u)
    ensures KeyIndex(ps, t).None? ==> r == ps + [(t, [v])]
    ensures KeyIndex(ps, t).Some? ==>
      |r| == |ps| && forall k :: 0 <= k < |ps| ==> r[k].0 == ps[k].0
  {
    match KeyIndex(ps, t)
    case Some(i) =>
      var r := ps[i := (t, ps[i].1 + [v])];
      assert forall u :: KeyIndex(r, u) == KeyIndex(ps, u) by {
        forall u ensures KeyIndex(r, u) == KeyIndex(ps, u) {
          KeyIndexSameKeys(r, ps, u);
        }
      }
      r
    case None =>
      var r := ps + [(t, [v])];
      assert forall u :: u != t ==> KeyIndex(r, u) == KeyIndex(ps, u) by {
        forall u | u != t ensures KeyIndex(r, u) == KeyIndex(ps, u) {
          KeyIndexSameKeys(r[..|ps|], ps, u);
          KeyIndexExtend(ps, (t, [v]), u);
        }
      }
      KeyIndexExtend(ps, (t, [v]), t);
      r
  }

  /** Key positions only depend on the keys. */
  lemma {:induction false} KeyIndexSameKeys(a: seq<Bucket>, b: seq<Bucket>, u: int)
    requires |a| == |b| && forall k :: 0 <= k < |a| ==> a[k].0 == b[k].0
    ensures KeyIndex(a, u) == KeyIndex(b, u)
  {
    if |a| > 0 && a[0].0 != u {
      KeyIndexSameKeys(a[1..], b[1..], u);
    }
  }

  /** Appending a bucket does not move the earlier keys. */
  lemma {:induction false} KeyIndexExtend(ps: seq<Bucket>, p: Bucket, u: int)
    ensures KeyIndex(ps, u).Some? ==> KeyIndex(ps + [p], u) == KeyIndex(ps, u)
    ensures KeyIndex(ps, u).None? && p.0 == u ==> KeyIndex(ps + [p], u) == Some(|ps|)
    ensures KeyIndex(ps, u).None? && p.0 != u ==> KeyIndex(ps + [p], u).None?
  {
    if |ps| > 0 {
      assert (ps + [p])[1..] == ps[1..] + [p];
      KeyIndexExtend(ps[1..], p, u);
    }
  }

  /** `add_metric`: the metric is appended to the log, its value to the end
      of its timestamp's bucket (a new bucket is appended when the timestamp
      is new) and to the flat list. Nothing else changes. */
  function AddMetric(ds: DataSet, m: Metric): (r: DataSet)
    ensures r.name == ds.name && r.dtype == ds.dtype
    ensures r.metrics == ds.metrics + [m]
    ensures r.values == ds.values + [m.value]
    ensures Lookup(r.points, m.timestamp) == Lookup(ds.points, m.timestamp) + [m.value]
    ensures forall u :: u != m.timestamp ==> Lookup(r.points, u) == Lookup(ds.points, u)
    ensures KeyIndex(ds.points, m.timestamp).None? ==>
      r.points == ds.points + [(m.timestamp, [m.value])]
  {
    ds.(metrics := ds.metrics + [m],
        points := AppendToBucket(ds.points, m.timestamp, m.value),
        values := ds.values + [m.value])
  }

  /** Adding a metric keeps a data set consistent. */
  lemma AddMetricConsistent(ds: DataSet, m: Metric)
    requires Consistent(ds)
    ensures Consistent(AddMetric(ds, m))
  {
    ValuesOfSnoc(ds.metrics, m);
    SumAppend(ds.values, [m.value]);
    AddMetricBucketed(ds, m);
    AddMetricBucketSums(ds, m);
  }

  /** The buckets and the log agree, key by key. */
  predicate Bucketed(ms: seq<Metric>, ps: seq<Bucket>)
  {
    && DistinctKeys(ps)
    && (forall i :: 0 <= i < |ps| ==> ps[i].1 == BucketOf(ms, ps[i].0) && ps[i].1 != [])
    && (forall j :: 0 <= j < |ms| ==> KeyIndex(ps, ms[j].timestamp).Some?)
  }

  lemma AddMetricBucketed(ds: DataSet, m: Metric)
    requires Bucketed(ds.metrics, ds.points)
    ensures Bucketed(AddMetric(ds, m).metrics, AddMetric(ds, m).points)
  {
    match KeyIndex(ds.points, m.timestamp)
    case None => NewBucketBucketed(ds, m);
    case Some(i) => ExistingBucketBucketed(ds, m, i);
  }

  lemma NewBucketBucketed(ds: DataSet, m: Metric)
    requires Bucketed(ds.metrics, ds.points) && KeyIndex(ds.points, m.timestamp).None?
    ensures Bucketed(AddMetric(ds, m).metrics, AddMetric(ds, m).points)
  {
    var r := AddMetric(ds, m);
    var t := m.timestamp;
    var p := (t, [m.value]);
    assert r.points == ds.points + [p];
    assert BucketOf(ds.metrics, t) == [] by {
      BucketOfAbsent(ds.metrics, t, ds.points);
    }
    forall i | 0 <= i < |r.points|
      ensures r.points[i].1 == BucketOf(r.metrics, r.points[i].0) && r.points[i].1 != []
    {
      BucketOfSnoc(ds.metrics, m, r.points[i].0);
    }
    forall j | 0 <= j < |r.metrics|
      ensures KeyIndex(r.points, r.metrics[j].timestamp).Some?
    {
      KeyIndexExtend(ds.points, p, r.metrics[j].timestamp);
    }
  }

  lemma ExistingBucketBucketed(ds: DataSet, m: Metric, i: nat)
    requires Bucketed(ds.metrics, ds.points) && KeyIndex(ds.points, m.timestamp) == Some(i)
    ensures Bucketed(AddMetric(ds, m).metrics, AddMetric(ds, m).points)
  {
    var r := AddMetric(ds, m);
    var t := m.timestamp;
    assert r.points == ds.points[i := (t, ds.points[i].1 + [m.value])];
    forall k | 0 <= k < |r.points|
      ensures r.points[k].1 == BucketOf(r.metrics, r.points[k].0) && r.points[k].1 != []
    {
      BucketOfSnoc(ds.metrics, m, r.points[k].0);
    }
    forall j | 0 <= j < |r.metrics|
      ensures KeyIndex(r.points, r.metrics[j].timestamp).Some?
    {
      KeyIndexSameKeys(r.points, ds.points, r.metrics[j].timestamp);
    }
  }

  lemma AddMetricBucketSums(ds: DataSet, m: Metric)
    ensures BucketSum(AddMetric(ds, m).points) == BucketSum(ds.points) + m.value
    ensures BucketCount(AddMetric(ds, m).points) == BucketCount(ds.points) + 1
  {
    var r := AddMetric(ds, m);
    var t := m.timestamp;
    match KeyIndex(ds.points, t)
    case None =>
      var p := (t, [m.value]);
      assert r.points == ds.points + [p];
      BucketSumSnoc(ds.points, p);
      assert Sum(p.1) == m.value;
    case Some(i) =>
      assert r.points == ds.points[i := (t, ds.points[i].1 + [m.value])];
      BucketSumUpdate(ds.points, i, m.value);
      SumAppend(ds.points[i].1, [m.value]);
  }

  /** A timestamp with no bucket has no logged metric. */
  lemma BucketOfAbsent(ms: seq<Metric>, t: int, ps: seq<Bucket>)
    requires forall j :: 0 <= j < |ms| ==> KeyIndex(ps, ms[j].timestamp).Some?
    requires KeyIndex(ps, t).None?
    ensures BucketOf(ms, t) == []
  {
    if |ms| > 0 {
      var init := ms[..|ms| - 1];
      assert forall j :: 0 <= j < |init| ==> init[j] == ms[j];
      BucketOfAbsent(init, t, ps);
      assert ms[|ms| - 1].timestamp != t;
    }
  }

  lemma {:induction false} BucketSumSnoc(ps: seq<Bucket>, p: Bucket)
    ensures BucketSum(ps + [p]) == BucketSum(ps) + Sum(p.1)
    ensures BucketCount(ps + [p]) == BucketCount(ps) + |p.1|
  {
    if |ps| > 0 {
      assert (ps + [p])[1..] == ps[1..] + [p];
      BucketSumSnoc(ps[1..], p);
    } else {
      assert ps + [p] == [p];
    }
  }

  lemma {:induction false} BucketSumUpdate(ps: seq<Bucket>, i: nat, v: real)
    requires i < |ps|
    ensures BucketSum(ps[i := (ps[i].0, ps[i].1 + [v])])
      == BucketSum(ps) - Sum(ps[i].1) + Sum(ps[i].1 + [v])
    ensures BucketCount(ps[i := (ps[i].0, ps[i].1 + [v])]) == BucketCount(ps) + 1
  {
    if i > 0 {
      BucketSumUpdate(ps[1..], i - 1, v);
      assert ps[i := (ps[i].0, ps[i].1 + [v])][1..] == ps[1..][i - 1 := (ps[i].0, ps[i].1 + [v])];
    } else {
      assert ps[i := (ps[i].0, ps[i].1 + [v])][1..] == ps[1..];
    }
  }

  /** `add_value(v, ts)`: a zero timestamp means "now"; the sample is built
      by `MetricFactory::build_simple_metric` from the data set's own type
      and name, which fails for a type the factory does not know. */
  function AddValue(ds: DataSet, v: Value, ts: int, now: int): (r: Result<DataSet, MetricError>)
    ensures r.Success? <==> Text.ToLower(ds.dtype) in ValidTypes
    ensures r.Failure? ==> r.error == InvalidSimpleMetricType(ds.dtype)
    ensures r.Success? ==>
      && |r.value.metrics| == |ds.metrics| + 1
      && r.value.metrics[..|ds.metrics|] == ds.metrics
      && var m := r.value.metrics[|ds.metrics|];
         && Some(m.variant) == VariantNamed(Text.ToLower(ds.dtype))
         && m.family == Simple
         && m.mtype == ConstructorType(m.variant)
         && m.name == ds.name
         && m.timestamp == (if ts == 0 then now else ts)
         && m.value == (if v.Int? || v.Float? then NumberOf(v) else 1.0)
         && r.value == AddMetric(ds, m)
  {
    var t := if ts == 0 then now else ts;
    match BuildSimpleMetric(ds.dtype, ds.name, t, v, now)
    case Failure(e) => Failure(e)
    case Success(m) =>
      var r := AddMetric(ds, m);
      assert r.metrics[..|ds.metrics|] == ds.metrics;
      Success(r)
  }

  /** The value recorded by `add_value` lands at the end of its timestamp's
      bucket and of the flat list, and the data set stays consistent. */
  lemma AddValueConsistent(ds: DataSet, v: Value, ts: int, now: int)
    requires Consistent(ds) && AddValue(ds, v, ts, now).Success?
    ensures Consistent(AddValue(ds, v, ts, now).value)
    ensures Count(AddValue(ds, v, ts, now).value) == Count(ds) + 1
  {
    var m := AddValue(ds, v, ts, now).value.metrics[|ds.metrics|];
    AddMetricConsistent(ds, m);
  }

  /** A reset data set forgets everything that was added. */
  lemma ResetAfterAdd(ds: DataSet, m: Metric)
    ensures Reset(AddMetric(ds, m)) == Reset(ds)
  {
  }

  /* ---------- The metric.php:116 finding ---------- */

  /** `add_metric` as written: line 116 assigns the value to the flat-list
      field instead of appending it, so only the latest value survives
      (shown here as the one-element list holding it). */
  function AddMetricAsWritten(ds: DataSet, m: Metric): (r: DataSet)
    ensures r.values == [m.value]
    ensures r.metrics == AddMetric(ds, m).metrics && r.points == AddMetric(ds, m).points
  {
    AddMetric(ds, m).(values := [m.value])
  }

  /** Two samples added as written leave a flat list of one value, while
      two samples are logged: `count()` reports 1 and the invariant fails. */
  lemma AddMetricAsWrittenLosesValues(m1: Metric, m2: Metric)
    ensures var ds := AddMetricAsWritten(AddMetricAsWritten(NewDataSet("n", "counter"), m1), m2);
      |ds.metrics| == 2 && Count(ds) == 1 && !Consistent(ds)
  {
  }

  /** The corrected `add_metric` keeps every value: after any number of
      additions from empty the flat list holds one value per logged
      metric. */
  lemma AddMetricKeepsEveryValue(ds: DataSet, m1: Metric, m2: Metric)
    requires Consistent(ds)
    ensures var r := AddMetric(AddMetric(ds, m1), m2);
      Consistent(r) && Count(r) == Count(ds) + 2 && r.values == ds.values + [m1.value, m2.value]
  {
    AddMetricConsistent(ds, m1);
    AddMetricConsistent(AddMetric(ds, m1), m2);
  }

  /* ---------- Aggregation ---------- */

  datatype Aggregator = SumOf | AvgOf | MinOf | MaxOf

  /** Applies an aggregator to one bucket. */
  function Aggregate(a: Aggregator, bucket: seq<real>): real
  {
    match a
    case SumOf => Sum(bucket)
    case AvgOf => Avg(bucket)
    case MinOf => Min(bucket)
    case MaxOf => Max(bucket)
  }

  /** `select_default_aggregator`: averages for timers (type compared
      case-sensitively), sums for counters, meters and anything else. */
  function SelectDefaultAggregator(dtype: string): (a: Aggregator)
    ensures a == AvgOf <==> dtype == "timer"
    ensures a == SumOf <==> dtype != "timer"
  {
    if dtype == "timer" then AvgOf else SumOf
  }

  /** `get_timeseries`: one entry per bucket, in bucket order, holding the
      bucket's aggregate under the default aggregator. */
  function GetTimeseries(ds: DataSet): (r: seq<(int, real)>)
    ensures |r| == |ds.points|
    ensures forall i :: 0 <= i < |r| ==>
      r[i].0 == ds.points[i].0
      && r[i].1 == Aggregate(SelectDefaultAggregator(ds.dtype), ds.points[i].1)
  {
    Tabulate(ds.points, SelectDefaultAggregator(ds.dtype))
  }

  /** In a consistent counter data set each timeseries entry is the total of
      the values logged at its timestamp, and the entries add up to the sum
      of all values. */
  lemma TimeseriesOfCounters(ds: DataSet)
    requires Consistent(ds) && ds.dtype != "timer"
    ensures forall i :: 0 <= i < |GetTimeseries(ds)| ==>
      GetTimeseries(ds)[i].1 == Sum(BucketOf(ds.metrics, GetTimeseries(ds)[i].0))
    ensures SeriesTotal(GetTimeseries(ds)) == Sum(ds.values)
  {
    SeriesTotalOfSums(ds.points, GetTimeseries(ds));
  }

  function SeriesTotal(s: seq<(int, real)>): real
  {
    if |s| == 0 then 0.0 else s[0].1 + SeriesTotal(s[1..])
  }

  lemma {:induction false} SeriesTotalOfSums(ps: seq<Bucket>, s: seq<(int, real)>)
    requires |s| == |ps| && forall i :: 0 <= i < |s| ==> s[i].1 == Sum(ps[i].1)
    ensures SeriesTotal(s) == BucketSum(ps)
  {
    if |s| > 0 {
      SeriesTotalOfSums(ps[1..], s[1..]);
    }
  }

  /** In a consistent timer data set each entry is the mean of its bucket,
      so it lies between the bucket's least and greatest value. */
  lemma TimeseriesOfTimers(ds: DataSet, i: nat)
    requires Consistent(ds) && ds.dtype == "timer" && i < |ds.points|
    ensures Min(ds.points[i].1) <= GetTimeseries(ds)[i].1 <= Max(ds.points[i].1)
  {
    AvgBetweenMinAndMax(ds.points[i].1);
  }

  /** `get_values(name)`: the aggregator is chosen case-insensitively among
      sum, avg, min and max; any other name means sum. */
  function SelectAggregator(name: string): (a: Aggregator)
    ensures Text.ToLower(name) == "avg" <==> a == AvgOf
    ensures Text.ToLower(name) == "min" <==> a == MinOf
    ensures Text.ToLower(name) == "max" <==> a == MaxOf
    ensures Text.ToLower(name) !in {"avg", "min", "max"} <==> a == SumOf
  {
    var lower := Text.ToLower(name);
    if lower == "avg" then AvgOf
    else if lower == "min" then MinOf
    else if lower == "max" then MaxOf
    else SumOf
  }

  lemma SelectAggregatorCaseInsensitive(name: string)
    ensures SelectAggregator(name) == SelectAggregator(Text.ToLower(name))
  {
    Text.ToLowerIdempotent(name);
  }

  /** `get_values(name)`: `ksort` sorts the data set's own buckets in
      place, then each bucket, in ascending timestamp order, is reduced by
      the chosen aggregator. The result pairs the series with the data set
      as the call leaves it: only the order of its buckets changed. (PHP
      returns null rather than an empty array when there are no buckets.) */
  function GetValues(ds: DataSet, aggregatorName: string): (r: (seq<(int, real)>, DataSet))
    requires DistinctKeys(ds.points)
    ensures |r.0| == |ds.points|
    ensures forall i, j :: 0 <= i < j < |r.0| ==> r.0[i].0 < r.0[j].0
    ensures forall i :: 0 <= i < |r.0| ==>
      KeyIndex(ds.points, r.0[i].0).Some?
      && r.0[i].1 == Aggregate(SelectAggregator(aggregatorName), Lookup(ds.points, r.0[i].0))
    ensures forall k :: 0 <= k < |ds.points| ==> exists i :: 0 <= i < |r.0| && r.0[i].0 == ds.points[k].0
    ensures r.1 == ds.(points := r.1.points)
    ensures |r.1.points| == |ds.points|
    ensures KeysIncreasing(r.1.points) && multiset(r.1.points) == multiset(ds.points)
    ensures forall i :: 0 <= i < |r.0| ==> r.0[i].0 == r.1.points[i].0
  {
    var sorted := SortByKey(ds.points);
    var r := Listing(ds.points, SelectAggregator(aggregatorName));
    assert forall i :: 0 <= i < |r| ==> r[i].0 == sorted[i].0;
    (r, ds.(points := sorted))
  }

  /** The buckets in ascending key order, each reduced by `agg`. */
  function Listing(ps: seq<Bucket>, agg: Aggregator): (r: seq<(int, real)>)
    requires DistinctKeys(ps)
    ensures |r| == |ps|
    ensures forall i, j :: 0 <= i < j < |r| ==> r[i].0 < r[j].0
    ensures forall i :: 0 <= i < |r| ==>
      KeyIndex(ps, r[i].0).Some? && r[i].1 == Aggregate(agg, Lookup(ps, r[i].0))
    ensures forall k :: 0 <= k < |ps| ==> exists i :: 0 <= i < |r| && r[i].0 == ps[k].0
    ensures forall i :: 0 <= i < |r| ==> r[i].0 == SortByKey(ps)[i].0
  {
    var sorted := SortByKey(ps);
    var r := Tabulate(sorted, agg);
    ListedBucketsFound(ps, sorted);
    EveryKeyListed(ps, sorted, r);
    r
  }

  /** The data set `get_values` leaves behind is still consistent, and a
      later `get_timeseries` lists its buckets in ascending timestamp
      order. */
  lemma GetValuesKeepsConsistent(ds: DataSet, aggregatorName: string)
    requires Consistent(ds)
    ensures Consistent(GetValues(ds, aggregatorName).1)
    ensures var ts := GetTimeseries(GetValues(ds, aggregatorName).1);
      forall i, j :: 0 <= i < j < |ts| ==> ts[i].0 < ts[j].0
  {
    var d := GetValues(ds, aggregatorName).1;
    SortedBucketed(ds.metrics, ds.points, d.points);
    BucketSumPermutation(d.points, ds.points);
  }

  /** Reordering the buckets by key keeps them in agreement with the log. */
  lemma SortedBucketed(ms: seq<Metric>, ps: seq<Bucket>, sorted: seq<Bucket>)
    requires Bucketed(ms, ps)
    requires KeysIncreasing(sorted) && multiset(sorted) == multiset(ps)
    ensures Bucketed(ms, sorted)
  {
    forall i | 0 <= i < |sorted|
      ensures sorted[i].1 == BucketOf(ms, sorted[i].0) && sorted[i].1 != []
    {
      assert sorted[i] in multiset(ps);
      var k :| 0 <= k < |ps| && ps[k] == sorted[i];
    }
    forall j | 0 <= j < |ms|
      ensures KeyIndex(sorted, ms[j].timestamp).Some?
    {
      var k := KeyIndex(ps, ms[j].timestamp).value;
      assert ps[k] in multiset(sorted);
      var i :| 0 <= i < |sorted| && sorted[i] == ps[k];
      assert sorted[i].0 == ms[j].timestamp;
    }
  }

  lemma {:induction false} BucketSumAppend(a: seq<Bucket>, b: seq<Bucket>)
    ensures BucketSum(a + b) == BucketSum(a) + BucketSum(b)
    ensures BucketCount(a + b) == BucketCount(a) + BucketCount(b)
    decreases |a|
  {
    if |a| > 0 {
      assert (a + b)[1..] == a[1..] + b;
      BucketSumAppend(a[1..], b);
    } else {
      assert a + b == b;
    }
  }

  /** The totals over the buckets do not depend on their order. */
  lemma {:induction false} BucketSumPermutation(a: seq<Bucket>, b: seq<Bucket>)
    requires multiset(a) == multiset(b)
    ensures BucketSum(a) == BucketSum(b) && BucketCount(a) == BucketCount(b)
    decreases |a|
  {
    if |a| == 0 {
      assert |multiset(b)| == 0;
      assert b == [];
    } else {
      var x := a[0];
      assert x in multiset(b);
      var k :| 0 <= k < |b| && b[k] == x;
      var rest := b[..k] + b[k + 1..];
      assert b == b[..k] + ([x] + b[k + 1..]);
      assert a == [x] + a[1..];
      assert multiset(b) == multiset(b[..k]) + multiset{x} + multiset(b[k + 1..]);
      assert multiset(rest) == multiset(b[..k]) + multiset(b[k + 1..]);
      assert multiset(a) == multiset{x} + multiset(a[1..]);
      assert multiset(a[1..]) == multiset(a) - multiset{x};
      assert multiset(rest) == multiset(b) - multiset{x};
      BucketSumPermutation(a[1..], rest);
      BucketSumAppend(b[..k], [x] + b[k + 1..]);
      BucketSumAppend(b[..k], b[k + 1..]);
      assert ([x] + b[k + 1..])[1..] == b[k + 1..];
    }
  }

  /** Each bucket of a listing reduced by one aggregator, keys kept. */
  function Tabulate(ps: seq<Bucket>, agg: Aggregator): (r: seq<(int, real)>)
    ensures |r| == |ps|
    ensures forall i :: 0 <= i < |r| ==> r[i] == (ps[i].0, Aggregate(agg, ps[i].1))
  {
    seq(|ps|, i requires 0 <= i < |ps| => (ps[i].0, Aggregate(agg, ps[i].1)))
  }

  /** Every pair of a listing drawn from the buckets is the bucket its key
      finds. */
  lemma ListedBucketsFound(ps: seq<Bucket>, sorted: seq<Bucket>)
    requires DistinctKeys(ps)
    requires forall i :: 0 <= i < |sorted| ==> sorted[i] in ps
    ensures forall i :: 0 <= i < |sorted| ==>
      KeyIndex(ps, sorted[i].0).Some? && Lookup(ps, sorted[i].0) == sorted[i].1
  {
    forall i | 0 <= i < |sorted|
      ensures KeyIndex(ps, sorted[i].0).Some? && Lookup(ps, sorted[i].0) == sorted[i].1
    {
      var k :| 0 <= k < |ps| && ps[k] == sorted[i];
      LookupAt(ps, k);
    }
  }

  /** A series keyed like a permutation of the buckets names every bucket's
      timestamp. */
  lemma EveryKeyListed(ps: seq<Bucket>, sorted: seq<Bucket>, r: seq<(int, real)>)
    requires multiset(sorted) == multiset(ps)
    requires |r| == |sorted| && forall i :: 0 <= i < |r| ==> r[i].0 == sorted[i].0
    ensures forall k :: 0 <= k < |ps| ==> exists i :: 0 <= i < |r| && r[i].0 == ps[k].0
  {
    forall k | 0 <= k < |ps|
      ensures exists i :: 0 <= i < |r| && r[i].0 == ps[k].0
    {
      assert ps[k] in multiset(ps);
      assert ps[k] in multiset(sorted);
      assert ps[k] in sorted;
      var i :| 0 <= i < |sorted| && sorted[i] == ps[k];
      assert r[i].0 == ps[k].0;
    }
  }

  lemma MinAsWrittenHarmlessInBuckets(ds: DataSet, k: nat)
    requires Consistent(ds) && k < |ds.points|
    ensures MinAsWritten(ds.points[k].1, ds.values) == Min(ds.points[k].1)
  {
    assert |ds.points[k].1| > 0;
    BucketCountPositive(ds.points, k);
  }

  lemma {:induction false} BucketCountPositive(ps: seq<Bucket>, k: nat)
    requires k < |ps| && |ps[k].1| > 0
    ensures BucketCount(ps) > 0
  {
    if k > 0 {
      BucketCountPositive(ps[1..], k - 1);
    }
  }

  /* ---------- Timespan and rate ---------- */

  function MinKey(ps: seq<Bucket>): (t: int)
    requires |ps| > 0
    ensures exists i :: 0 <= i < |ps| && ps[i].0 == t
    ensures forall i :: 0 <= i < |ps| ==> t <= ps[i].0
  {
    if |ps| == 1 then ps[0].0
    else
      var rest := MinKey(ps[1..]);
      assert forall i :: 1 <= i < |ps| ==> ps[i] == ps[1..][i - 1];
      if ps[0].0 <= rest then ps[0].0 else rest
  }

  function MaxKey(ps: seq<Bucket>): (t: int)
    requires |ps| > 0
    ensures exists i :: 0 <= i < |ps| && ps[i].0 == t
    ensures forall i :: 0 <= i < |ps| ==> ps[i].0 <= t
  {
    if |ps| == 1 then ps[0].0
    else
      var rest := MaxKey(ps[1..]);
      assert forall i :: 1 <= i < |ps| ==> ps[i] == ps[1..][i - 1];
      if ps[0].0 >= rest then ps[0].0 else rest
  }

  /** `timespan`: latest minus earliest timestamp; PHP's `min` and `max`
      of no keys raise. */
  function Timespan(ds: DataSet): (r: Result<nat, DataSetError>)
    ensures r.Failure? <==> |ds.points| == 0
    ensures r.Failure? ==> r.error == NoData
    ensures r.Success? ==>
      forall i, j :: 0 <= i < |ds.points| && 0 <= j < |ds.points| ==>
        ds.points[j].0 - ds.points[i].0 <= r.value
    ensures r.Success? ==>
      exists i, j :: 0 <= i < |ds.points| && 0 <= j < |ds.points| &&
        ds.points[j].0 - ds.points[i].0 == r.value
  {
    if |ds.points| == 0 then Failure(NoData)
    else Success(MaxKey(ds.points) - MinKey(ds.points))
  }

  /** `rate(unit)`: values per `unit` seconds over the timespan; a zero
      timespan or unit divides by zero. */
  function Rate(ds: DataSet, unit: real): (r: Result<real, DataSetError>)
    ensures |ds.points| == 0 ==> r == Failure(NoData)
    ensures r.Success? <==> Timespan(ds).Success? && Timespan(ds).value != 0 && unit != 0.0
    ensures r.Success? ==> PerUnitOf(r.value, Timespan(ds).value, Count(ds), unit)
  {
    RateOver(Timespan(ds), Count(ds), unit)
  }

  /** `rate` values per `unit` seconds over `span` seconds make `count`
      values: rate * span == count * unit. */
  predicate PerUnitOf(rate: real, span: nat, count: nat, unit: real)
  {
    rate * (span as real) == (count as real) * unit
  }

  /** The rate of `count` values over a timespan that may be missing. */
  function RateOver(span: Result<nat, DataSetError>, count: nat, unit: real): (r: Result<real, DataSetError>)
    ensures span.Failure? ==> r == Failure(span.error)
    ensures r.Success? <==> span.Success? && span.value != 0 && unit != 0.0
    ensures r.Success? ==> PerUnitOf(r.value, span.value, count, unit)
  {
    if span.Failure? then Failure(span.error)
    else PerUnit(count as real, span.value as real, unit)
  }

  /** `c / (span / unit)`, failing when either division is by zero. */
  function PerUnit(c: real, span: real, unit: real): (r: Result<real, DataSetError>)
    ensures r.Success? <==> span != 0.0 && unit != 0.0
    ensures r.Failure? ==> r.error == ZeroDivisor
    ensures r.Success? ==> r.value * span == c * unit
  {
    if span == 0.0 || unit == 0.0 then Failure(ZeroDivisor)
    else
      var per := Quotient(span, unit);
      assert per != 0.0;
      var q := Quotient(c, per);
      RateIdentity(q, per, unit, span, c);
      Success(q)
  }

  lemma RateIdentity(q: real, per: real, unit: real, span: real, c: real)
    requires per * unit == span && q * per == c
    ensures q * span == c * unit
  {
    calc {
      q * span;
      q * (per * unit);
      (q * per) * unit;
      c * unit;
    }
  }
}
