/** The parameter bag `Helper_Autometrics` (php/Autometrics.php) turns into
    a metric, and the three normalisation steps applied to it before
    enrichment: `initialize_metric` (defaults), `is_valid_metric`
    (validation) and `move_non_standard_keys_to_metadata`.

    A bag is a PHP array with string keys. Writing an entry into a nested
    container that is not an array is a PHP run-time error; such runs end in
    a `Crash`. The clock (`microtime(true)`) is a parameter `now`, and the
    date parser `strtotime` a predicate `parses`. */
module Params {
  import opened Outcomes
  import opened Php

  type Params = map<string, Value>

  const MetricName: string := "metric_name"
  const GlobalMetricName: string := "event_type"
  const MetricValue: string := "metric_value"
  const MetricType: string := "metric_type"
  const MetricTimestamp: string := "created"
  const MetricTags: string := "metric_tags"
  const MetricMetadata: string := "@metadata"

  /** The name given to an event that has no metric name of its own. */
  const DefaultEventMetricName: string := "analytics.event"

  /** The six keys a finished metric consists of. */
  const CanonicalKeys: set<string> :=
    {MetricName, MetricType, MetricValue, MetricTimestamp, MetricMetadata, MetricTags}

  /** The seven key names are pairwise different. */
  lemma KeyNamesDistinct()
    ensures MetricName != MetricType && MetricName != MetricValue && MetricName != MetricTimestamp
    ensures MetricName != MetricTags && MetricName != MetricMetadata && MetricName != GlobalMetricName
    ensures MetricType != MetricValue && MetricType != MetricTimestamp && MetricType != MetricTags
    ensures MetricType != MetricMetadata && MetricType != GlobalMetricName
    ensures MetricValue != MetricTimestamp && MetricValue != MetricTags
    ensures MetricValue != MetricMetadata && MetricValue != GlobalMetricName
    ensures MetricTimestamp != MetricTags && MetricTimestamp != MetricMetadata
    ensures MetricTimestamp != GlobalMetricName
    ensures MetricTags != MetricMetadata && MetricTags != GlobalMetricName
    ensures MetricMetadata != GlobalMetricName
  {
    assert MetricName[7] == 'n' && MetricType[7] == 't' && MetricTags[7] == 't';
    assert MetricType[8] == 'y' && MetricTags[8] == 'a';
    assert |MetricValue| == 12 && |MetricName| == 11 && |MetricType| == 11 && |MetricTags| == 11;
    assert MetricTimestamp[0] == 'c' && MetricMetadata[0] == '@' && GlobalMetricName[0] == 'e';
    assert MetricName[0] == 'm' && MetricType[0] == 'm' && MetricValue[0] == 'm' && MetricTags[0] == 'm';
  }

  /** A clock reading of `microtime(true)`: seconds since the epoch. */
  type Instant = r: real | r > 0.0 witness 1.0

  /** A PHP run-time error: an entry was written into `key`, whose value
      `found` is not an array. */
  datatype Crash = NotAnArray(key: string, found: Value)

  /* ---------- Writing into nested containers ---------- */

  /** The entries a write `$v[$k] = ...` starts from: an array's own; null
      and false turn into a fresh empty array; anything else is an error. */
  function OpenContainer(v: Value): (r: Option<map<string, Value>>)
    ensures r.Some? <==> v.Null? || v == Bool(false) || v.Arr?
    ensures r.Some? && v.Arr? ==> r.value == v.entries
    ensures r.Some? && !v.Arr? ==> r.value == map[]
  {
    match v
    case Arr(m) => Some(m)
    case Null => Some(map[])
    case Bool(b) => if b then None else Some(map[])
    case _ => None
  }

  /** `p[k]` exists and cannot be written into. */
  predicate NotOpenable(p: Params, k: string)
  {
    k in p && OpenContainer(p[k]).None?
  }

  /** The entries of `p[k]` as a write starts from them. */
  function ContainerEntries(p: Params, k: string): map<string, Value>
    requires !NotOpenable(p, k)
  {
    if k in p then OpenContainer(p[k]).value else map[]
  }

  /* ---------- initialize_metric ---------- */

  /** What `initialize_metric` guarantees: the event type is gone, both
      containers exist, and type, value and timestamp are present and not
      PHP-empty. */
  predicate Initialized(p: Params)
  {
    && GlobalMetricName !in p
    && MetricTags in p && MetricMetadata in p
    && MetricType in p && !IsEmpty(p[MetricType])
    && MetricValue in p && !IsEmpty(p[MetricValue])
    && MetricTimestamp in p && !IsEmpty(p[MetricTimestamp])
  }

  /** Missing metadata and tags start as empty arrays. */
  function WithContainers(p: Params): (r: Params)
    ensures MetricTags in r && MetricMetadata in r
  {
    var p1 := if MetricMetadata in p then p else p[MetricMetadata := Arr(map[])];
    if MetricTags in p1 then p1 else p1[MetricTags := Arr(map[])]
  }

  /** An `event_type` is copied into the tags (first) and the metadata,
      removed from the bag, and names the metric 'analytics.event' when it
      has no name. */
  function SpreadEventType(p: Params): (r: Result<Params, Crash>)
    requires MetricTags in p && MetricMetadata in p
  {
    if GlobalMetricName !in p then Success(p)
    else
      var e := p[GlobalMetricName];
      match OpenContainer(p[MetricTags])
      case None => Failure(NotAnArray(MetricTags, p[MetricTags]))
      case Some(tags) =>
        match OpenContainer(p[MetricMetadata])
        case None => Failure(NotAnArray(MetricMetadata, p[MetricMetadata]))
        case Some(meta) =>
          var q := (p - {GlobalMetricName})
            [MetricTags := Arr(tags[GlobalMetricName := e])]
            [MetricMetadata := Arr(meta[GlobalMetricName := e])];
          Success(if MetricName in q then q else q[MetricName := Str(DefaultEventMetricName)])
  }

  /** `p[k]` if it is present and not PHP-empty, otherwise `default`. */
  function OrDefault(p: Params, k: string, default: Value): Value
  {
    if k in p && !IsEmpty(p[k]) then p[k] else default
  }

  /** The optimistic defaults: a counter of value '1' created now. */
  function ApplyDefaults(p: Params, now: Instant): Params
  {
    p[MetricType := OrDefault(p, MetricType, Str("counter"))]
     [MetricValue := OrDefault(p, MetricValue, Str("1"))]
     [MetricTimestamp := OrDefault(p, MetricTimestamp, Float(now))]
  }

  /** `initialize_metric`. It fails only when an event type has to be
      written into tags or metadata that are not arrays (tags are written
      first). */
  function InitializeMetric(p: Params, now: Instant): (r: Result<Params, Crash>)
    ensures r.Failure? <==>
      GlobalMetricName in p && (NotOpenable(p, MetricTags) || NotOpenable(p, MetricMetadata))
    ensures r.Failure? ==>
      r.error == (if NotOpenable(p, MetricTags) then NotAnArray(MetricTags, p[MetricTags])
                  else NotAnArray(MetricMetadata, p[MetricMetadata]))
    ensures r.Success? ==> Initialized(r.value)
  {
    var q :- SpreadEventType(WithContainers(p));
    Success(ApplyDefaults(q, now))
  }

  /** The keys initialisation leaves: every key but the event type
      survives, the containers, type, value and timestamp are there, and a
      metric name appears when there was one or an event type. */
  lemma InitializeMetricKeys(p: Params, now: Instant)
    requires InitializeMetric(p, now).Success?
    ensures InitializeMetric(p, now).value.Keys
      == (p.Keys - {GlobalMetricName})
         + {MetricTags, MetricMetadata, MetricType, MetricValue, MetricTimestamp}
         + (if GlobalMetricName in p then {MetricName} else {})
  {
    InitializeMetricIs(p, now);
    StagesKeys(p, now);
  }

  /** The key-set arithmetic of the three stages. */
  lemma StagesKeys(p: Params, now: Instant)
    requires SpreadEventType(WithContainers(p)).Success?
    ensures ApplyDefaults(SpreadEventType(WithContainers(p)).value, now).Keys
      == (p.Keys - {GlobalMetricName})
         + {MetricTags, MetricMetadata, MetricType, MetricValue, MetricTimestamp}
         + (if GlobalMetricName in p then {MetricName} else {})
  {
    var w := WithContainers(p);
    var q := SpreadEventType(w).value;
    var n: set<string> := if GlobalMetricName in p then {MetricName} else {};
    KeyNamesDistinct();
    WithContainersEntries(p);
    SpreadEventTypeEntries(w);
    ApplyDefaultsEntries(q, now);
    assert w.Keys - {GlobalMetricName} == (p.Keys - {GlobalMetricName}) + {MetricTags, MetricMetadata};
    assert q.Keys == (p.Keys - {GlobalMetricName}) + {MetricTags, MetricMetadata} + n;
  }

  /** The entries initialisation keeps or fills in: a stray key keeps its
      value; the name is kept, or becomes 'analytics.event' for an event; a
      non-empty type, value or timestamp is kept and an empty or missing
      one becomes counter, '1' and now. */
  lemma InitializeMetricEntries(p: Params, now: Instant)
    requires InitializeMetric(p, now).Success?
    ensures var r := InitializeMetric(p, now).value;
      forall k :: k in p && k !in CanonicalKeys && k != GlobalMetricName ==> k in r && r[k] == p[k]
    ensures var r := InitializeMetric(p, now).value;
      && (MetricName in p ==> MetricName in r && r[MetricName] == p[MetricName])
      && (MetricName !in p && GlobalMetricName in p ==>
            MetricName in r && r[MetricName] == Str(DefaultEventMetricName))
    ensures var r := InitializeMetric(p, now).value;
      && r[MetricType] == OrDefault(p, MetricType, Str("counter"))
      && r[MetricValue] == OrDefault(p, MetricValue, Str("1"))
      && r[MetricTimestamp] == OrDefault(p, MetricTimestamp, Float(now))
  {
    var w := WithContainers(p);
    var q := SpreadEventType(w).value;
    InitializeMetricIs(p, now);
    KeyNamesDistinct();
    WithContainersEntries(p);
    SpreadEventTypeEntries(w);
    ApplyDefaultsEntries(q, now);
    OrDefaultSame(p, q, MetricType, Str("counter"));
    OrDefaultSame(p, q, MetricValue, Str("1"));
    OrDefaultSame(p, q, MetricTimestamp, Float(now));
  }

  /** Two bags that agree at a key give it the same default. */
  lemma OrDefaultSame(p: Params, q: Params, k: string, default: Value)
    requires k in p <==> k in q
    requires k in p ==> p[k] == q[k]
    ensures OrDefault(q, k, default) == OrDefault(p, k, default)
  {
  }

  /** A successful initialisation is the three stages in a row. */
  lemma InitializeMetricIs(p: Params, now: Instant)
    requires InitializeMetric(p, now).Success?
    ensures SpreadEventType(WithContainers(p)).Success?
    ensures InitializeMetric(p, now).value == ApplyDefaults(SpreadEventType(WithContainers(p)).value, now)
  {
  }

  /** Creating the containers adds at most those two keys. */
  lemma WithContainersEntries(p: Params)
    ensures WithContainers(p).Keys == p.Keys + {MetricTags, MetricMetadata}
    ensures forall k :: k in p ==> WithContainers(p)[k] == p[k]
  {
  }

  /** Spreading the event type removes it, may add the name, and changes
      no other entry but the containers. */
  lemma SpreadEventTypeEntries(w: Params)
    requires MetricTags in w && MetricMetadata in w
    requires SpreadEventType(w).Success?
    ensures var q := SpreadEventType(w).value;
      && q.Keys == (w.Keys - {GlobalMetricName}) + (if GlobalMetricName in w then {MetricName} else {})
      && (forall k :: (k in w && k != GlobalMetricName && k != MetricTags && k != MetricMetadata
                       && k != MetricName) ==> q[k] == w[k])
      && (MetricName in w ==> q[MetricName] == w[MetricName])
      && (MetricName !in w && GlobalMetricName in w ==> q[MetricName] == Str(DefaultEventMetricName))
  {
    KeyNamesDistinct();
  }

  /** The defaults add type, value and timestamp and touch nothing else. */
  lemma ApplyDefaultsEntries(q: Params, now: Instant)
    ensures var r := ApplyDefaults(q, now);
      && r.Keys == q.Keys + {MetricType, MetricValue, MetricTimestamp}
      && (forall k :: k in q && k != MetricType && k != MetricValue && k != MetricTimestamp ==> r[k] == q[k])
      && r[MetricType] == OrDefault(q, MetricType, Str("counter"))
      && r[MetricValue] == OrDefault(q, MetricValue, Str("1"))
      && r[MetricTimestamp] == OrDefault(q, MetricTimestamp, Float(now))
  {
    KeyNamesDistinct();
  }

  /** Where the event type goes: into tags and metadata, on top of the
      entries they already had. Without an event type both containers are
      left as they were (or created empty). */
  lemma InitializeMetricEventType(p: Params, now: Instant)
    requires InitializeMetric(p, now).Success?
    ensures var r := InitializeMetric(p, now).value;
      GlobalMetricName in p ==>
        && r[MetricTags] == Arr(ContainerEntries(p, MetricTags)[GlobalMetricName := p[GlobalMetricName]])
        && r[MetricMetadata] == Arr(ContainerEntries(p, MetricMetadata)[GlobalMetricName := p[GlobalMetricName]])
    ensures var r := InitializeMetric(p, now).value;
      GlobalMetricName !in p ==>
        && r[MetricTags] == (if MetricTags in p then p[MetricTags] else Arr(map[]))
        && r[MetricMetadata] == (if MetricMetadata in p then p[MetricMetadata] else Arr(map[]))
  {
  }

  /** A bag that has both containers, a type and a value, and neither a
      timestamp nor an event type, only gets the clock reading. */
  lemma InitializeComplete(p: Params, now: Instant)
    requires MetricTags in p && MetricMetadata in p && GlobalMetricName !in p
    requires MetricType in p && !IsEmpty(p[MetricType])
    requires MetricValue in p && !IsEmpty(p[MetricValue])
    requires MetricTimestamp !in p
    ensures InitializeMetric(p, now) == Success(p[MetricTimestamp := Float(now)])
  {
    assert WithContainers(p) == p;
    assert ApplyDefaults(p, now) == p[MetricTimestamp := Float(now)];
  }

  /** Optimism has a price: an explicit value of zero (PHP-empty) is
      replaced by '1', and a zero timestamp by the clock. */
  lemma ZeroValueBecomesOne(p: Params, now: Instant)
    requires InitializeMetric(p, now).Success?
    requires MetricValue in p && p[MetricValue] == Int(0)
    ensures InitializeMetric(p, now).value[MetricValue] == Str("1")
  {
    InitializeMetricEntries(p, now);
  }

  /** Initialising an initialised bag changes nothing, whatever the clock
      says the second time. */
  lemma InitializeMetricIdempotent(p: Params, now: Instant, later: Instant)
    requires InitializeMetric(p, now).Success?
    ensures InitializeMetric(InitializeMetric(p, now).value, later) == InitializeMetric(p, now)
  {
    var r := InitializeMetric(p, now).value;
    assert WithContainers(r) == r;
    assert SpreadEventType(r) == Success(r);
    assert ApplyDefaults(r, later) == r;
  }

  /* ---------- is_valid_metric ---------- */

  /** Why a bag is not a metric. */
  datatype Invalid =
    | MissingField(field: string)
    | UnsupportedType(given: Value)
    | NonNumericValue(given: Value)
    | UnparseableTimestamp(given: Value)

  /** The fields checked for presence, in the order they are checked. */
  const RequiredFields: seq<string> := [MetricName, MetricType, MetricTimestamp, MetricValue]

  /** PHP's `$t != 'timer' && $t != 'counter'` negated (PHP 8 loose
      comparison). */
  predicate IsTimerOrCounter(t: Value)
  {
    TypeWordsAreNotNumeric();
    LooselyEqualsWord(t, "timer") || LooselyEqualsWord(t, "counter")
  }

  /** The first required field absent from the bag. */
  function FirstMissing(p: Params, fields: seq<string>): (r: Option<string>)
    ensures r.None? <==> forall i :: 0 <= i < |fields| ==> fields[i] in p
    ensures r.Some? ==> r.value !in p && r.value in fields
    ensures r.Some? ==>
      exists i :: 0 <= i < |fields| && fields[i] == r.value && (forall j :: 0 <= j < i ==> fields[j] in p)
  {
    if |fields| == 0 then None
    else if fields[0] !in p then Some(fields[0])
    else
      var r := FirstMissing(p, fields[1..]);
      assert forall i :: 1 <= i < |fields| ==> fields[i] == fields[1..][i - 1];
      if r.Some? then
        var i :| 0 <= i < |fields[1..]| && fields[1..][i] == r.value
          && forall j :: 0 <= j < i ==> fields[1..][j] in p;
        assert fields[i + 1] == r.value;
        r
      else r
  }

  /** All four required fields are present. */
  predicate HasRequiredFields(p: Params)
  {
    MetricName in p && MetricType in p && MetricTimestamp in p && MetricValue in p
  }

  /** A well-formed metric, stated without regard to the order of the
      checks: all four fields present, a timer or a counter, a numeric
      value and a parseable timestamp. */
  predicate ValidMetric(p: Params, parses: Value -> bool)
  {
    && HasRequiredFields(p)
    && IsTimerOrCounter(p[MetricType])
    && IsNumeric(p[MetricValue])
    && parses(p[MetricTimestamp])
  }

  /** `is_valid_metric`: presence in the order name, type, timestamp,
      value; then the type, the value and the timestamp. The verdict is
      exactly `ValidMetric`, and a rejection names the first check that
      failed. */
  function CheckMetric(p: Params, parses: Value -> bool): (r: Outcome<Invalid>)
    ensures r.Pass? <==> ValidMetric(p, parses)
    ensures r.Fail? && r.reason.MissingField? ==> r.reason.field in RequiredFields && r.reason.field !in p
    ensures r.Fail? && !r.reason.MissingField? ==> HasRequiredFields(p)
    ensures r.Fail? && r.reason.UnsupportedType? ==>
      HasRequiredFields(p) && !IsTimerOrCounter(p[MetricType])
    ensures r.Fail? && r.reason.NonNumericValue? ==>
      HasRequiredFields(p) && IsTimerOrCounter(p[MetricType]) && !IsNumeric(p[MetricValue])
    ensures r.Fail? && r.reason.UnparseableTimestamp? ==>
      && HasRequiredFields(p) && IsTimerOrCounter(p[MetricType]) && IsNumeric(p[MetricValue])
      && !parses(p[MetricTimestamp])
  {
    match FirstMissing(p, RequiredFields)
    case Some(f) => Fail(MissingField(f))
    case None =>
      assert RequiredFields[0] in p && RequiredFields[1] in p;
      assert RequiredFields[2] in p && RequiredFields[3] in p;
      if !IsTimerOrCounter(p[MetricType]) then Fail(UnsupportedType(p[MetricType]))
      else if !IsNumeric(p[MetricValue]) then Fail(NonNumericValue(p[MetricValue]))
      else if !parses(p[MetricTimestamp]) then Fail(UnparseableTimestamp(p[MetricTimestamp]))
      else Pass
  }

  /** After initialisation only the metric name can be missing: the other
      three fields always have a value by then. */
  lemma OnlyNameCanBeMissing(p: Params, parses: Value -> bool)
    requires Initialized(p)
    ensures CheckMetric(p, parses) == Fail(MissingField(MetricName)) <==> MetricName !in p
  {
  }

  /* ---------- move_non_standard_keys_to_metadata ---------- */

  /** The keys of the bag that are not part of a metric. */
  function Stray(p: Params): (s: set<string>)
    ensures forall k :: k in s <==> k in p && k !in CanonicalKeys
  {
    p.Keys - CanonicalKeys
  }

  /** `move_non_standard_keys_to_metadata`: every stray entry is written
      into the metadata (overriding an entry of the same key there) and
      removed from the bag. */
  function MoveNonStandardKeys(p: Params): (r: Result<Params, Crash>)
    ensures r.Failure? <==> Stray(p) != {} && NotOpenable(p, MetricMetadata)
    ensures r.Failure? ==> r.error == NotAnArray(MetricMetadata, p[MetricMetadata])
    ensures r.Success? ==> r.value.Keys <= CanonicalKeys
  {
    var stray := Stray(p);
    if stray == {} then Success(p)
    else if NotOpenable(p, MetricMetadata) then Failure(NotAnArray(MetricMetadata, p[MetricMetadata]))
    else
      var moved := map k | k in stray :: p[k];
      Success((p - stray)[MetricMetadata := Arr(ContainerEntries(p, MetricMetadata) + moved)])
  }

  /** What moving does to the entries: the canonical ones other than the
      metadata are untouched; every stray entry ends up in the metadata
      under its own key with its own value; the metadata's other entries
      stay. */
  lemma MoveNonStandardKeysEntries(p: Params)
    requires MoveNonStandardKeys(p).Success?
    ensures var r := MoveNonStandardKeys(p).value;
      && (forall k :: k in CanonicalKeys && k != MetricMetadata ==> (k in r <==> k in p))
      && (forall k :: k in CanonicalKeys && k != MetricMetadata && k in p ==> r[k] == p[k])
    ensures var r := MoveNonStandardKeys(p).value;
      Stray(p) != {} ==>
        && MetricMetadata in r && r[MetricMetadata].Arr?
        && (forall k :: k in Stray(p) ==> k in r[MetricMetadata].entries && r[MetricMetadata].entries[k] == p[k])
        && (forall k :: k in ContainerEntries(p, MetricMetadata) && k !in Stray(p) ==>
              k in r[MetricMetadata].entries
              && r[MetricMetadata].entries[k] == ContainerEntries(p, MetricMetadata)[k])
    ensures var r := MoveNonStandardKeys(p).value;
      Stray(p) == {} ==> r == p
  {
  }

  /** A bag with nothing stray is left alone, so moving twice is moving
      once. */
  lemma MoveNonStandardKeysIdempotent(p: Params)
    requires MoveNonStandardKeys(p).Success?
    ensures MoveNonStandardKeys(MoveNonStandardKeys(p).value) == MoveNonStandardKeys(p)
  {
    var r := MoveNonStandardKeys(p).value;
    assert Stray(r) == {};
  }

  /** Moving keeps an initialised, valid bag initialised and valid, and
      leaves it with exactly the six canonical keys. */
  lemma MovePreservesValidity(p: Params, parses: Value -> bool)
    requires Initialized(p) && ValidMetric(p, parses)
    requires MoveNonStandardKeys(p).Success?
    ensures var r := MoveNonStandardKeys(p).value;
      && Initialized(r) && ValidMetric(r, parses)
      && r.Keys == CanonicalKeys
  {
    MoveNonStandardKeysEntries(p);
    var r := MoveNonStandardKeys(p).value;
    assert MetricMetadata in r;
    assert r.Keys == CanonicalKeys;
  }
}
