/** Metric value objects of php/metric.php: the four metric variants, each in
    a full form (Counter, Timer, Meter, Gauge) and a sample-only "Simple"
    form, their setters, the numeric-value mix-in (increment, decrement,
    reset), and the factory that picks a Simple variant by type name.

    Timestamps are epoch seconds. `set_timestamp` is read as storing the
    epoch time it is given (as `date_create('@' . $timestamp)` would parse
    it), since the bare number every caller passes is not a date string
    PHP's parser reads; date parsing itself is not modelled. A metric's
    value is a real: the PHP defaults `1` and `'1'` both stand for one. */
module Metrics {
  import opened Outcomes
  import opened Php
  import Text

  datatype Variant = Counter | Timer | Meter | Gauge

  /** Full metrics carry tags and metadata; Simple ones are bare samples. */
  datatype Family = Full | Simple

  datatype Metric = Metric(
    variant: Variant,
    family: Family,
    name: string,
    mtype: string,
    value: real,
    timestamp: int)

  datatype MetricError =
    | InvalidMetricType(given: string)
    | InvalidSimpleMetricType(given: string)

  /** The type names `set_type` accepts. */
  const ValidTypes: set<string> := {"timer", "counter", "meter", "gauge"}

  /** The type each constructor records. Gauge and SimpleGauge record
      'counter', not 'gauge' (php/metric.php:940, 1022). */
  function ConstructorType(v: Variant): (t: string)
    ensures t in ValidTypes && t != "gauge"
    ensures t == "timer" <==> v == Timer
    ensures t == "meter" <==> v == Meter
    ensures t == "counter" <==> v == Counter || v == Gauge
  {
    match v
    case Counter => "counter"
    case Timer => "timer"
    case Meter => "meter"
    case Gauge => "counter"
  }

  /** Construction: the name, the variant's recorded type, the value one and
      the clock reading as timestamp. */
  function NewMetric(v: Variant, f: Family, name: string, now: int): (m: Metric)
    ensures m.variant == v && m.family == f && m.name == name
    ensures m.mtype == ConstructorType(v)
    ensures m.value == 1.0 && m.timestamp == now
  {
    Metric(v, f, name, ConstructorType(v), 1.0, now)
  }

  /** `set_type`: accepts exactly the four type names; anything else raises
      and the metric keeps its type. */
  function SetType(m: Metric, t: string): (r: Result<Metric, MetricError>)
    ensures r.Success? <==> t in ValidTypes
    ensures r.Success? ==> r.value == m.(mtype := t)
    ensures r.Failure? ==> r.error == InvalidMetricType(t)
  {
    if t in ValidTypes then Success(m.(mtype := t)) else Failure(InvalidMetricType(t))
  }

  /** The number a PHP int or float stands for. */
  function NumberOf(v: Value): real
    requires v.Int? || v.Float?
  {
    if v.Int? then v.i as real else v.f
  }

  /** `set_value`: only an int or a float is stored; any other argument
      (a numeric string included) is silently ignored. */
  function SetValue(m: Metric, v: Value): (r: Metric)
    ensures (v.Int? || v.Float?) ==> r == m.(value := NumberOf(v))
    ensures !(v.Int? || v.Float?) ==> r == m
  {
    match v
    case Int(i) => m.(value := i as real)
    case Float(f) => m.(value := f)
    case _ => m
  }

  /** `set_timestamp`, storing the epoch seconds it is given. */
  function SetTimestamp(m: Metric, ts: int): (r: Metric)
    ensures r.timestamp == ts
    ensures r.(timestamp := m.timestamp) == m
  {
    m.(timestamp := ts)
  }

  /** The variants that use the numeric-value mix-in: all but the timers. */
  predicate HasNumericValues(m: Metric)
  {
    m.variant != Timer
  }

  function Increment(m: Metric): (r: Metric)
    requires HasNumericValues(m)
    ensures r.value == m.value + 1.0
    ensures r.(value := m.value) == m
  {
    m.(value := m.value + 1.0)
  }

  function Decrement(m: Metric): (r: Metric)
    requires HasNumericValues(m)
    ensures r.value == m.value - 1.0
    ensures r.(value := m.value) == m
  {
    m.(value := m.value - 1.0)
  }

  /** The mix-in's `reset`: the value becomes zero. */
  function ResetValue(m: Metric): (r: Metric)
    requires HasNumericValues(m)
    ensures r.value == 0.0
    ensures r.(value := m.value) == m
  {
    m.(value := 0.0)
  }

  /** Incrementing then decrementing (in either order) restores the metric. */
  lemma IncrementDecrementInverse(m: Metric)
    requires HasNumericValues(m)
    ensures Decrement(Increment(m)) == m
    ensures Increment(Decrement(m)) == m
  {
  }

  /** The Simple variant a lower-cased type name selects, if any. */
  function VariantNamed(lower: string): (r: Option<Variant>)
    ensures r.Some? <==> lower in ValidTypes
    ensures r.Some? ==> ConstructorType(r.value) == (if lower == "gauge" then "counter" else lower)
  {
    if lower == "counter" then Some(Counter)
    else if lower == "timer" then Some(Timer)
    else if lower == "meter" then Some(Meter)
    else if lower == "gauge" then Some(Gauge)
    else None
  }

  /** `MetricFactory::build_simple_metric`: the Simple variant is chosen by
      the lower-cased type name; unknown names raise. The value goes through
      `set_value` and the timestamp through `set_timestamp`. */
  function BuildSimpleMetric(typeName: string, name: string, ts: int, v: Value, now: int)
    : (r: Result<Metric, MetricError>)
    ensures r.Success? <==> Text.ToLower(typeName) in ValidTypes
    ensures r.Failure? ==> r.error == InvalidSimpleMetricType(typeName)
    ensures r.Success? ==>
      && Some(r.value.variant) == VariantNamed(Text.ToLower(typeName))
      && r.value.family == Simple
      && r.value.name == name
      && r.value.timestamp == ts
      && r.value.mtype == ConstructorType(r.value.variant)
      && r.value.value == (if v.Int? || v.Float? then NumberOf(v) else 1.0)
  {
    match VariantNamed(Text.ToLower(typeName))
    case None => Failure(InvalidSimpleMetricType(typeName))
    case Some(kind) =>
      Success(SetTimestamp(SetValue(NewMetric(kind, Simple, name, now), v), ts))
  }

  /** The selector is case-insensitive: a name and its lower-cased form
      build the same metric, and the variant is the one the name spells. */
  lemma BuildSimpleMetricCaseInsensitive(typeName: string, name: string, ts: int, v: Value, now: int)
    ensures BuildSimpleMetric(typeName, name, ts, v, now).Success?
        == BuildSimpleMetric(Text.ToLower(typeName), name, ts, v, now).Success?
    ensures BuildSimpleMetric(typeName, name, ts, v, now).Success? ==>
      && Some(BuildSimpleMetric(typeName, name, ts, v, now).value.variant) == VariantNamed(Text.ToLower(typeName))
      && BuildSimpleMetric(typeName, name, ts, v, now)
         == BuildSimpleMetric(Text.ToLower(typeName), name, ts, v, now)
  {
    Text.ToLowerIdempotent(typeName);
  }

  /** A SimpleGauge built by the factory records the type 'counter'. */
  lemma GaugeRecordsCounter(name: string, ts: int, v: Value, now: int)
    ensures BuildSimpleMetric("Gauge", name, ts, v, now).Success?
    ensures BuildSimpleMetric("Gauge", name, ts, v, now).value.variant == Gauge
    ensures BuildSimpleMetric("Gauge", name, ts, v, now).value.mtype == "counter"
  {
    assert Text.ToLower("Gauge") == "gauge";
  }
}
