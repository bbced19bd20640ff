/** The public entry points of `Helper_Autometrics` (php/Autometrics.php):
    `produce_metric_from_params` runs initialisation, validation, the move of
    stray keys, the metadata and tag enrichment and a final `ksort`;
    `produce_metric_from_values` assembles a bag from its arguments and
    hands it on.

    `throw_if_not_live` raises outside the live environment and does
    nothing inside it; the `Policy` says which of the two applies. */
module Producer {
  import opened Outcomes
  import opened Php
  import opened Params
  import Text
  import Enrichment

  /** Strict: not live, a rejected bag raises. Lenient: live, it yields
      `false`. */
  datatype Policy = Strict | Lenient

  /** What a call ends in: the metric as an ordered list of entries, the
      value `false`, a raised exception, or a PHP run-time error. */
  datatype Production =
    | Produced(entries: seq<(string, Value)>)
    | ReturnedFalse
    | Raised(reason: Invalid)
    | Crashed(crash: Crash)

  /** The order of the six keys after `ksort`. */
  const MetricKeyOrder: seq<string> :=
    [MetricMetadata, MetricTimestamp, MetricName, MetricTags, MetricType, MetricValue]

  function KeysOf(es: seq<(string, Value)>): (ks: seq<string>)
    ensures |ks| == |es| && forall i :: 0 <= i < |es| ==> ks[i] == es[i].0
  {
    seq(|es|, i requires 0 <= i < |es| => es[i].0)
  }

  /** `ksort`: the entries of the array, each key once, in ascending key
      order. */
  function KSort(p: map<string, Value>): (r: seq<(string, Value)>)
    ensures Text.StrictlyAscending(KeysOf(r))
    ensures forall k :: k in p <==> k in KeysOf(r)
    ensures forall i :: 0 <= i < |r| ==> r[i].0 in p && r[i].1 == p[r[i].0]
  {
    var ks := Text.SortKeys(p.Keys);
    var r := seq(|ks|, i requires 0 <= i < |ks| => (ks[i], p[ks[i]]));
    assert KeysOf(r) == ks;
    r
  }

  lemma MetricKeyOrderAscending()
    ensures Text.StrictlyAscending(MetricKeyOrder)
  {
    Text.StrLtAt(MetricMetadata, MetricTimestamp, 0);
    Text.StrLtAt(MetricTimestamp, MetricName, 0);
    NameBeforeTags();
    TagsBeforeType();
    TypeBeforeValue();
    SixAscending(MetricMetadata, MetricTimestamp, MetricName, MetricTags, MetricType, MetricValue);
  }

  lemma NameBeforeTags()
    ensures Text.StrLt(MetricName, MetricTags)
  {
    assert MetricName[..7] == MetricTags[..7];
    Text.StrLtAt(MetricName, MetricTags, 7);
  }

  lemma TagsBeforeType()
    ensures Text.StrLt(MetricTags, MetricType)
  {
    assert MetricTags[..8] == MetricType[..8];
    Text.StrLtAt(MetricTags, MetricType, 8);
  }

  lemma TypeBeforeValue()
    ensures Text.StrLt(MetricType, MetricValue)
  {
    assert MetricType[..7] == MetricValue[..7];
    Text.StrLtAt(MetricType, MetricValue, 7);
  }

  lemma SixAscending(a: string, b: string, c: string, d: string, e: string, f: string)
    requires Text.StrLt(a, b) && Text.StrLt(b, c) && Text.StrLt(c, d)
    requires Text.StrLt(d, e) && Text.StrLt(e, f)
    ensures Text.StrictlyAscending([a, b, c, d, e, f])
  {
    var ks := [a, b, c, d, e, f];
    assert forall i :: 0 <= i < |ks| - 1 ==> Text.StrLt(ks[i], ks[i + 1]) by {
      forall i | 0 <= i < |ks| - 1
        ensures Text.StrLt(ks[i], ks[i + 1])
      {
        if i == 0 {} else if i == 1 {} else if i == 2 {} else if i == 3 {} else {}
      }
    }
    Text.AscendingFromNeighbours(ks);
  }

  /** A bag holding exactly the six canonical keys is listed by `ksort`
      in the order `MetricKeyOrder`. */
  lemma KSortOfCanonical(p: map<string, Value>)
    requires p.Keys == CanonicalKeys
    ensures KeysOf(KSort(p)) == MetricKeyOrder
  {
    MetricKeyOrderAscending();
    Text.AscendingListingUnique(KeysOf(KSort(p)), MetricKeyOrder);
  }

  /** `add_required_metadata` and `add_required_tags` applied to the bag's
      containers. Both must be arrays: the enrichment helpers look keys up
      in them. */
  function Enrich(p: Params, env: Enrichment.Environment): (r: Result<Params, Crash>)
    requires MetricMetadata in p && MetricTags in p
    ensures r.Failure? <==> !p[MetricMetadata].Arr? || !p[MetricTags].Arr?
    ensures r.Success? ==>
      && r.value.Keys == p.Keys
      && (forall k :: k in p && k != MetricMetadata && k != MetricTags ==> r.value[k] == p[k])
      && r.value[MetricMetadata].Arr? && r.value[MetricTags].Arr?
      && (forall k :: k in p[MetricMetadata].entries ==>
            k in r.value[MetricMetadata].entries
            && r.value[MetricMetadata].entries[k] == p[MetricMetadata].entries[k])
      && (forall k :: k in p[MetricTags].entries ==>
            k in r.value[MetricTags].entries && r.value[MetricTags].entries[k] == p[MetricTags].entries[k])
      && "server_type" in r.value[MetricTags].entries
  {
    if !p[MetricMetadata].Arr? then Failure(NotAnArray(MetricMetadata, p[MetricMetadata]))
    else if !p[MetricTags].Arr? then Failure(NotAnArray(MetricTags, p[MetricTags]))
    else
      Success(p[MetricMetadata := Arr(Enrichment.AddRequiredMetadata(p[MetricMetadata].entries, env))]
               [MetricTags := Arr(Enrichment.AddRequiredTags(p[MetricTags].entries, env))])
  }

  /** The outcome of the steps before sorting. */
  datatype Stage = Ready(metric: Params) | Rejected(reason: Invalid) | Broke(crash: Crash)

  /** A finished metric: the six keys, valid, with array containers and a
      server type among the tags. */
  predicate Finished(m: Params, parses: Value -> bool)
  {
    && m.Keys == CanonicalKeys
    && ValidMetric(m, parses)
    && m[MetricMetadata].Arr? && m[MetricTags].Arr?
    && "server_type" in m[MetricTags].entries
  }

  /** Initialise, validate, move, enrich. A bag is rejected exactly when
      its initialised form is not a valid metric. */
  function Prepare(params: Params, env: Enrichment.Environment, now: Instant, parses: Value -> bool)
    : (s: Stage)
    ensures s.Rejected? <==>
      InitializeMetric(params, now).Success? && !ValidMetric(InitializeMetric(params, now).value, parses)
    ensures s.Ready? ==> Finished(s.metric, parses)
    ensures s.Ready? ==> InitializeMetric(params, now).Success?
    ensures s.Ready? ==>
      forall k :: k in s.metric && k != MetricMetadata && k != MetricTags ==>
        s.metric[k] == InitializeMetric(params, now).value[k]
  {
    match InitializeMetric(params, now)
    case Failure(c) => Broke(c)
    case Success(p1) =>
      match CheckMetric(p1, parses)
      case Fail(why) => Rejected(why)
      case Pass =>
        match MoveNonStandardKeys(p1)
        case Failure(c) => Broke(c)
        case Success(p2) =>
          MovePreservesValidity(p1, parses);
          MoveNonStandardKeysEntries(p1);
          match Enrich(p2, env)
          case Failure(c) => Broke(c)
          case Success(p3) => Ready(p3)
  }

  /** `produce_metric_from_params`. */
  function ProduceMetricFromParams(params: Params, policy: Policy, env: Enrichment.Environment,
                                   now: Instant, parses: Value -> bool): (r: Production)
    ensures r.Raised? ==> policy.Strict?
    ensures r.ReturnedFalse? ==> policy.Lenient?
    ensures r.Raised? || r.ReturnedFalse? <==> Prepare(params, env, now, parses).Rejected?
  {
    match Prepare(params, env, now, parses)
    case Ready(m) => Produced(KSort(m))
    case Rejected(why) => if policy.Strict? then Raised(why) else ReturnedFalse
    case Broke(c) => Crashed(c)
  }

  /** A produced metric is the six canonical entries in `ksort` order:
      metadata and tags are arrays, the tags carry a server type, the
      timestamp parses, the type is a timer or counter, the value is
      numeric. */
  lemma ProducedShape(params: Params, policy: Policy, env: Enrichment.Environment,
                      now: Instant, parses: Value -> bool)
    requires ProduceMetricFromParams(params, policy, env, now, parses).Produced?
    ensures var es := ProduceMetricFromParams(params, policy, env, now, parses).entries;
      && KeysOf(es) == MetricKeyOrder
      && es[0].1.Arr?
      && parses(es[1].1)
      && es[3].1.Arr? && "server_type" in es[3].1.entries
      && IsTimerOrCounter(es[4].1)
      && IsNumeric(es[5].1)
  {
    ProducedListing(params, policy, env, now, parses);
    FinishedEntries(Prepare(params, env, now, parses).metric, parses,
                    ProduceMetricFromParams(params, policy, env, now, parses).entries);
  }

  lemma FinishedEntries(m: Params, parses: Value -> bool, es: seq<(string, Value)>)
    requires Finished(m, parses)
    requires es == CanonicalListing(m)
    ensures && es[0].1.Arr?
      && parses(es[1].1)
      && es[3].1.Arr? && "server_type" in es[3].1.entries
      && IsTimerOrCounter(es[4].1)
      && IsNumeric(es[5].1)
  {
  }

  /** The six entries of a bag with the canonical keys, in key order. */
  function CanonicalListing(m: Params): (es: seq<(string, Value)>)
    requires m.Keys == CanonicalKeys
    ensures KeysOf(es) == MetricKeyOrder
  {
    [(MetricMetadata, m[MetricMetadata]), (MetricTimestamp, m[MetricTimestamp]),
     (MetricName, m[MetricName]), (MetricTags, m[MetricTags]),
     (MetricType, m[MetricType]), (MetricValue, m[MetricValue])]
  }

  /** `ksort` of a bag with the canonical keys is its canonical listing. */
  lemma KSortIsCanonicalListing(m: Params)
    requires m.Keys == CanonicalKeys
    ensures KSort(m) == CanonicalListing(m)
  {
    KSortOfCanonical(m);
    ListingByKeys(m, KSort(m));
  }

  lemma ListingByKeys(m: Params, es: seq<(string, Value)>)
    requires m.Keys == CanonicalKeys
    requires KeysOf(es) == MetricKeyOrder
    requires forall i :: 0 <= i < |es| ==> es[i].0 in m && es[i].1 == m[es[i].0]
    ensures es == CanonicalListing(m)
  {
    var cs := CanonicalListing(m);
    forall i | 0 <= i < 6
      ensures es[i] == cs[i]
    {
      assert KeysOf(es)[i] == MetricKeyOrder[i];
    }
  }

  /** A produced metric is the canonical listing of the prepared bag. */
  lemma ProducedListing(params: Params, policy: Policy, env: Enrichment.Environment,
                        now: Instant, parses: Value -> bool)
    requires ProduceMetricFromParams(params, policy, env, now, parses).Produced?
    ensures Prepare(params, env, now, parses).Ready?
    ensures Finished(Prepare(params, env, now, parses).metric, parses)
    ensures ProduceMetricFromParams(params, policy, env, now, parses).entries
      == CanonicalListing(Prepare(params, env, now, parses).metric)
  {
    KSortIsCanonicalListing(Prepare(params, env, now, parses).metric);
  }

  /** The policy decides only how a rejection shows: Strict raises where
      Lenient returns false, with everything else identical. */
  lemma PolicyOnlyChangesRejection(params: Params, env: Enrichment.Environment,
                                   now: Instant, parses: Value -> bool)
    ensures ProduceMetricFromParams(params, Strict, env, now, parses).Raised?
        <==> ProduceMetricFromParams(params, Lenient, env, now, parses).ReturnedFalse?
    ensures !ProduceMetricFromParams(params, Strict, env, now, parses).Raised? ==>
      ProduceMetricFromParams(params, Strict, env, now, parses)
      == ProduceMetricFromParams(params, Lenient, env, now, parses)
  {
  }

  /** The metric name is the bag's own, or 'analytics.event' for an event
      without one. */
  lemma ProducedName(params: Params, policy: Policy, env: Enrichment.Environment,
                     now: Instant, parses: Value -> bool)
    requires ProduceMetricFromParams(params, policy, env, now, parses).Produced?
    ensures var es := ProduceMetricFromParams(params, policy, env, now, parses).entries;
      && |es| == 6
      && es[2] == (MetricName, if MetricName in params then params[MetricName] else Str(DefaultEventMetricName))
  {
    ProducedListing(params, policy, env, now, parses);
    PreparedName(params, env, now, parses);
    NameOfListing(Prepare(params, env, now, parses).metric,
                  ProduceMetricFromParams(params, policy, env, now, parses).entries,
                  if MetricName in params then params[MetricName] else Str(DefaultEventMetricName));
  }

  lemma NameOfListing(m: Params, es: seq<(string, Value)>, name: Value)
    requires m.Keys == CanonicalKeys && es == CanonicalListing(m)
    requires MetricName in m && m[MetricName] == name
    ensures |es| == 6 && es[2] == (MetricName, name)
  {
  }

  lemma PreparedName(params: Params, env: Enrichment.Environment, now: Instant, parses: Value -> bool)
    requires Prepare(params, env, now, parses).Ready?
    ensures MetricName in Prepare(params, env, now, parses).metric
    ensures Prepare(params, env, now, parses).metric[MetricName]
      == if MetricName in params then params[MetricName] else Str(DefaultEventMetricName)
  {
    var m := Prepare(params, env, now, parses).metric;
    assert MetricName in m;
    NameAfterInitialize(params, now);
  }

  lemma NameAfterInitialize(params: Params, now: Instant)
    requires InitializeMetric(params, now).Success?
    requires MetricName in InitializeMetric(params, now).value
    ensures InitializeMetric(params, now).value[MetricName]
      == if MetricName in params then params[MetricName] else Str(DefaultEventMetricName)
  {
    InitializeMetricEntries(params, now);
  }

  /** A key that is not part of a metric (nor the event type) ends up in the
      produced metadata with its value. */
  lemma ProducedMovesStrayKeys(params: Params, policy: Policy, env: Enrichment.Environment,
                               now: Instant, parses: Value -> bool, k: string)
    requires ProduceMetricFromParams(params, policy, env, now, parses).Produced?
    requires k in params && k !in CanonicalKeys && k != GlobalMetricName
    ensures var es := ProduceMetricFromParams(params, policy, env, now, parses).entries;
      && |es| == 6 && es[0].1.Arr?
      && k in es[0].1.entries && es[0].1.entries[k] == params[k]
  {
    InitializeMetricEntries(params, now);
    PreparedMovesStrayKey(params, env, now, parses, k);
    ProducedListing(params, policy, env, now, parses);
    MetadataOfListing(Prepare(params, env, now, parses).metric,
                      ProduceMetricFromParams(params, policy, env, now, parses).entries, k, params[k]);
  }

  lemma MetadataOfListing(m: Params, es: seq<(string, Value)>, k: string, v: Value)
    requires m.Keys == CanonicalKeys && es == CanonicalListing(m)
    requires m[MetricMetadata].Arr? && k in m[MetricMetadata].entries && m[MetricMetadata].entries[k] == v
    ensures |es| == 6 && es[0].1.Arr? && k in es[0].1.entries && es[0].1.entries[k] == v
  {
  }

  /** A ready bag went through each stage successfully, and the metric is
      the enriched result of the move. */
  lemma PreparedStages(params: Params, env: Enrichment.Environment, now: Instant, parses: Value -> bool)
    requires Prepare(params, env, now, parses).Ready?
    ensures InitializeMetric(params, now).Success?
    ensures var p1 := InitializeMetric(params, now).value;
      && MoveNonStandardKeys(p1).Success?
      && var p2 := MoveNonStandardKeys(p1).value;
      && MetricMetadata in p2 && MetricTags in p2
      && Enrich(p2, env).Success?
      && Prepare(params, env, now, parses).metric == Enrich(p2, env).value
  {
  }

  /** A stray key of the initialised bag ends up in the prepared metadata
      with its value. */
  lemma PreparedMovesStrayKey(params: Params, env: Enrichment.Environment, now: Instant,
                              parses: Value -> bool, k: string)
    requires Prepare(params, env, now, parses).Ready?
    requires InitializeMetric(params, now).Success?
    requires k in InitializeMetric(params, now).value && k !in CanonicalKeys
    ensures var m := Prepare(params, env, now, parses).metric;
      && MetricMetadata in m && m[MetricMetadata].Arr?
      && k in m[MetricMetadata].entries
      && m[MetricMetadata].entries[k] == InitializeMetric(params, now).value[k]
  {
    PreparedStages(params, env, now, parses);
    var p1 := InitializeMetric(params, now).value;
    assert k in Stray(p1);
    MoveNonStandardKeysEntries(p1);
  }

  /* ---------- produce_metric_from_values ---------- */

  /** The bag `produce_metric_from_values` builds: its five arguments
      under their keys, overridden by the entries of `extra`; an `extra`
      that is not an array counts as an event type. */
  function ValuesBag(name: Value, value: Value, mtype: Value, tags: Value,
                     extra: Value, metadata: Value): Params
  {
    var bag := map[MetricType := mtype, MetricName := name, MetricTags := tags,
                   MetricValue := value, MetricMetadata := metadata];
    var ex := if extra.Arr? then extra.entries else map[GlobalMetricName := extra];
    bag + ex
  }

  /** The bag's entries: exactly the five argument keys plus those of
      `extra` (or the event type); `extra` wins on a shared key. */
  lemma ValuesBagEntries(name: Value, value: Value, mtype: Value, tags: Value,
                         extra: Value, metadata: Value)
    ensures var p := ValuesBag(name, value, mtype, tags, extra, metadata);
      && p.Keys == {MetricType, MetricName, MetricTags, MetricValue, MetricMetadata}
                   + (if extra.Arr? then extra.entries.Keys else {GlobalMetricName})
      && (extra.Arr? ==> forall k :: k in extra.entries ==> p[k] == extra.entries[k])
      && (!extra.Arr? ==> p[GlobalMetricName] == extra)
      && (!(extra.Arr? && MetricName in extra.entries) ==> p[MetricName] == name)
      && (!(extra.Arr? && MetricType in extra.entries) ==> p[MetricType] == mtype)
      && (!(extra.Arr? && MetricValue in extra.entries) ==> p[MetricValue] == value)
      && (!(extra.Arr? && MetricTags in extra.entries) ==> p[MetricTags] == tags)
      && (!(extra.Arr? && MetricMetadata in extra.entries) ==> p[MetricMetadata] == metadata)
  {
    KeyNamesDistinct();
  }

  /** `produce_metric_from_values`. (The flag it forwards is unused.) */
  function ProduceMetricFromValues(name: Value, value: Value, mtype: Value, tags: Value,
                                   extra: Value, metadata: Value, policy: Policy,
                                   env: Enrichment.Environment, now: Instant,
                                   parses: Value -> bool): (r: Production)
    ensures r.Raised? ==> policy.Strict?
    ensures r.ReturnedFalse? ==> policy.Lenient?
  {
    ProduceMetricFromParams(ValuesBag(name, value, mtype, tags, extra, metadata),
                            policy, env, now, parses)
  }

  /** With the defaults (value 1, type 'counter', empty tags, extras and
      metadata) any name yields a counter of value 1 under that name,
      provided the clock reading parses as a date. */
  lemma DefaultsProduceCounter(name: Value, policy: Policy, env: Enrichment.Environment,
                               now: Instant, parses: Value -> bool)
    requires parses(Float(now))
    ensures var r := ProduceMetricFromValues(name, Int(1), Str("counter"), Arr(map[]),
                                             Arr(map[]), Arr(map[]), policy, env, now, parses);
      && r.Produced? && |r.entries| == 6
      && r.entries[2] == (MetricName, name)
      && r.entries[4] == (MetricType, Str("counter"))
      && r.entries[5] == (MetricValue, Int(1))
      && r.entries[1] == (MetricTimestamp, Float(now))
  {
    KeyNamesDistinct();
    var p := ValuesBag(name, Int(1), Str("counter"), Arr(map[]), Arr(map[]), Arr(map[]));
    DefaultBagPrepares(name, env, now, parses);
    ProducedFields(p, policy, env, now, parses);
  }

  /** The produced timestamp, name, type and value are those initialisation
      settled on. */
  lemma ProducedFields(params: Params, policy: Policy, env: Enrichment.Environment,
                       now: Instant, parses: Value -> bool)
    requires Prepare(params, env, now, parses).Ready?
    ensures InitializeMetric(params, now).Success?
    ensures var r := ProduceMetricFromParams(params, policy, env, now, parses);
      var p1 := InitializeMetric(params, now).value;
      && r.Produced? && |r.entries| == 6
      && MetricName in p1 && MetricType in p1 && MetricValue in p1 && MetricTimestamp in p1
      && r.entries[1] == (MetricTimestamp, p1[MetricTimestamp])
      && r.entries[2] == (MetricName, p1[MetricName])
      && r.entries[4] == (MetricType, p1[MetricType])
      && r.entries[5] == (MetricValue, p1[MetricValue])
  {
    ProducedListing(params, policy, env, now, parses);
    PreparedKeeps(params, env, now, parses, MetricName);
    PreparedKeeps(params, env, now, parses, MetricType);
    PreparedKeeps(params, env, now, parses, MetricValue);
    PreparedKeeps(params, env, now, parses, MetricTimestamp);
    FieldsOfListing(Prepare(params, env, now, parses).metric, InitializeMetric(params, now).value,
                    ProduceMetricFromParams(params, policy, env, now, parses).entries);
  }

  lemma FieldsOfListing(m: Params, p1: Params, es: seq<(string, Value)>)
    requires m.Keys == CanonicalKeys && es == CanonicalListing(m)
    requires forall k :: k in {MetricName, MetricType, MetricValue, MetricTimestamp} ==> k in p1 && m[k] == p1[k]
    ensures |es| == 6
    ensures MetricName in p1 && MetricType in p1 && MetricValue in p1 && MetricTimestamp in p1
    ensures es[1] == (MetricTimestamp, p1[MetricTimestamp]) && es[2] == (MetricName, p1[MetricName])
    ensures es[4] == (MetricType, p1[MetricType]) && es[5] == (MetricValue, p1[MetricValue])
  {
  }

  /** The prepared metric keeps the initialised name, type, value and
      timestamp. */
  lemma PreparedKeeps(params: Params, env: Enrichment.Environment, now: Instant,
                      parses: Value -> bool, k: string)
    requires Prepare(params, env, now, parses).Ready?
    requires k in {MetricName, MetricType, MetricValue, MetricTimestamp}
    ensures InitializeMetric(params, now).Success?
    ensures k in Prepare(params, env, now, parses).metric && k in InitializeMetric(params, now).value
    ensures Prepare(params, env, now, parses).metric[k] == InitializeMetric(params, now).value[k]
  {
    var m := Prepare(params, env, now, parses).metric;
    assert k in CanonicalKeys;
    assert k in m;
    assert m[k] == InitializeMetric(params, now).value[k];
  }

  /** The default bag initialises to itself plus the clock reading, and
      is ready to be produced. */
  lemma DefaultBagPrepares(name: Value, env: Enrichment.Environment, now: Instant, parses: Value -> bool)
    requires parses(Float(now))
    ensures var p := ValuesBag(name, Int(1), Str("counter"), Arr(map[]), Arr(map[]), Arr(map[]));
      && InitializeMetric(p, now).Success?
      && Prepare(p, env, now, parses).Ready?
      && var p1 := InitializeMetric(p, now).value;
      && MetricName in p1 && p1[MetricName] == name
      && MetricType in p1 && p1[MetricType] == Str("counter")
      && MetricValue in p1 && p1[MetricValue] == Int(1)
      && MetricTimestamp in p1 && p1[MetricTimestamp] == Float(now)
  {
    var p := ValuesBag(name, Int(1), Str("counter"), Arr(map[]), Arr(map[]), Arr(map[]));
    DefaultBagInitializes(name, now);
    var p1 := p[MetricTimestamp := Float(now)];
    TypeWordsAreNotNumeric();
    assert ValidMetric(p1, parses);
    assert p1.Keys == CanonicalKeys;
    ReadyWhenComplete(p, env, now, parses, p1);
  }

  lemma DefaultBagInitializes(name: Value, now: Instant)
    ensures var p := ValuesBag(name, Int(1), Str("counter"), Arr(map[]), Arr(map[]), Arr(map[]));
      && p.Keys == CanonicalKeys - {MetricTimestamp}
      && InitializeMetric(p, now) == Success(p[MetricTimestamp := Float(now)])
      && p[MetricName] == name && p[MetricType] == Str("counter") && p[MetricValue] == Int(1)
      && p[MetricMetadata] == Arr(map[]) && p[MetricTags] == Arr(map[])
  {
    var p := ValuesBag(name, Int(1), Str("counter"), Arr(map[]), Arr(map[]), Arr(map[]));
    ValuesBagEntries(name, Int(1), Str("counter"), Arr(map[]), Arr(map[]), Arr(map[]));
    KeyNamesDistinct();
    assert p.Keys == CanonicalKeys - {MetricTimestamp};
    InitializeComplete(p, now);
  }

  /** A bag that initialises to a valid metric with exactly the canonical
      keys and array containers is ready. */
  lemma ReadyWhenComplete(params: Params, env: Enrichment.Environment, now: Instant,
                          parses: Value -> bool, p1: Params)
    requires InitializeMetric(params, now) == Success(p1)
    requires ValidMetric(p1, parses) && p1.Keys == CanonicalKeys
    requires p1[MetricMetadata].Arr? && p1[MetricTags].Arr?
    ensures Prepare(params, env, now, parses).Ready?
  {
    assert Stray(p1) == {};
    assert MoveNonStandardKeys(p1) == Success(p1);
  }


  /** A scalar `extra` is an event type: it lands in the produced tags and
      metadata, and the given name is kept. */
  lemma ScalarExtraIsEventType(name: Value, value: Value, mtype: Value, tags: Value,
                               extra: Value, metadata: Value, policy: Policy,
                               env: Enrichment.Environment, now: Instant, parses: Value -> bool)
    requires !extra.Arr?
    requires ProduceMetricFromValues(name, value, mtype, tags, extra, metadata, policy, env, now, parses).Produced?
    ensures var es := ProduceMetricFromValues(name, value, mtype, tags, extra, metadata,
                                              policy, env, now, parses).entries;
      && |es| == 6
      && es[2].1 == name
      && es[3].1.Arr? && GlobalMetricName in es[3].1.entries && es[3].1.entries[GlobalMetricName] == extra
      && es[0].1.Arr? && GlobalMetricName in es[0].1.entries && es[0].1.entries[GlobalMetricName] == extra
  {
    var p := ValuesBag(name, value, mtype, tags, extra, metadata);
    ValuesBagEntries(name, value, mtype, tags, extra, metadata);
    var es := ProduceMetricFromParams(p, policy, env, now, parses).entries;
    ProducedName(p, policy, env, now, parses);
    ProducedListing(p, policy, env, now, parses);
    EventTypeReachesContainers(p, env, now, parses);
    ContainersOfListing(Prepare(p, env, now, parses).metric, es, extra);
  }

  lemma ContainersOfListing(m: Params, es: seq<(string, Value)>, e: Value)
    requires m.Keys == CanonicalKeys && es == CanonicalListing(m)
    requires m[MetricTags].Arr? && GlobalMetricName in m[MetricTags].entries
    requires m[MetricTags].entries[GlobalMetricName] == e
    requires m[MetricMetadata].Arr? && GlobalMetricName in m[MetricMetadata].entries
    requires m[MetricMetadata].entries[GlobalMetricName] == e
    ensures es[3].1.Arr? && GlobalMetricName in es[3].1.entries && es[3].1.entries[GlobalMetricName] == e
    ensures es[0].1.Arr? && GlobalMetricName in es[0].1.entries && es[0].1.entries[GlobalMetricName] == e
  {
  }

  /** An event type in the bag is found in the prepared tags and metadata. */
  lemma EventTypeReachesContainers(p: Params, env: Enrichment.Environment, now: Instant, parses: Value -> bool)
    requires GlobalMetricName in p
    requires Prepare(p, env, now, parses).Ready?
    ensures var m := Prepare(p, env, now, parses).metric;
      && m[MetricTags].Arr? && GlobalMetricName in m[MetricTags].entries
      && m[MetricTags].entries[GlobalMetricName] == p[GlobalMetricName]
      && m[MetricMetadata].Arr? && GlobalMetricName in m[MetricMetadata].entries
      && m[MetricMetadata].entries[GlobalMetricName] == p[GlobalMetricName]
  {
    var p1 := InitializeMetric(p, now).value;
    InitializeMetricEventType(p, now);
    var e := p[GlobalMetricName];
    assert p1[MetricTags].entries[GlobalMetricName] == e;
    assert p1[MetricMetadata].entries[GlobalMetricName] == e;
    MoveNonStandardKeysEntries(p1);
    var p2 := MoveNonStandardKeys(p1).value;
    assert p2[MetricTags] == p1[MetricTags];
    assert GlobalMetricName !in Stray(p1);
    assert p2[MetricMetadata].Arr? && p2[MetricMetadata].entries[GlobalMetricName] == e;
  }
}
