# autometrics core, modelled in Dafny

This project models the metric-handling core of the autometrics library in
Dafny and proves properties of the model. The core has three parts:

- **Time-series statistics** (`php/metric.php`).
  - Metric value objects: type and value setters, increment, decrement and reset, and the `MetricFactory` selector of Simple variants.
  - The `DataSet` accumulator. It keeps a log of samples, the values grouped per timestamp ("points") and a flat value list.
  - Per-bucket aggregation: `get_timeseries` and `get_values`.
  - The statistics mix-in: sum, sum2, avg, min, max, range, standard-deviation radicand, percentile, quartiles, timespan and rate.
  - The histogram mix-in: number of bins, validation, bin width and frequency counting.
- **The parameter normalisation pipeline** of `Helper_Autometrics` (`php/Autometrics.php`).
  - It turns a loose bag of parameters into a validated metric record. The record's top-level keys are exactly `@metadata`, `created`, `metric_name`, `metric_tags`, `metric_type` and `metric_value`, in that order.
  - The steps are defaulting, `event_type` reclassification, validation, moving stray keys into `@metadata`, non-destructive tag and metadata enrichment, and `ksort`.
- **The log-line formatter** of the metric reader (`python/autometrics.py`).
  - `handle_metric` turns one decoded JSON record into one line of metric text, or discards it. It keeps four running counters.
  - `send_metrics` reports the counters and resets them.
  - `cleanUpTagValue` scrubs tag values.

Values are exact reals, timestamps are integer epoch seconds, and PHP arrays
are maps from string keys to values. Several collaborators become
parameters:

- the environment (request id, client address, country, api key, application source, version, host name);
- the clock (`now`);
- date parsing (`parses`);
- Python's `str()` of floats, lists and objects (`render`);
- the raise-or-return-false policy (`Strict` or `Lenient`).

Every operation returns a new value instead of mutating an object.

Modules, one file each:

- `Outcomes` (outcomes.dfy): Option, Result and pass/fail outcomes.
- `Text` (text.dfy): ASCII lower-casing, byte-wise string order, key sorting, split and join.
- `Php` (php.dfy): PHP values, `empty()`, `is_numeric()` and loose equality with a word.
- `Sorting` (sorting.dfy): ascending sort of reals, and of pairs by key.
- `Metrics` (metrics.dfy): metric objects and the factory.
- `Stats` (stats.dfy): the statistics mix-in.
- `Histogram` (histogram.dfy): the histogram mix-in.
- `DataSets` (dataset.dfy): the DataSet accumulator.
- `Enrichment` (enrichment.dfy): tag and metadata enrichment, including host name splitting.
- `Params` (params.dfy): initialisation, validation and moving stray keys.
- `Producer` (producer.dfy): the two public entry points of `Helper_Autometrics`.
- `LogLine` (logline.dfy): the Python formatter.

Where the code and its documentation disagree, the model follows the code:

- `percentile` rejects p = 1 exactly, because it accepts 0 < p < 1 and 1 < p ≤ 100.
- `number_of_bins` returns 52 for any distinct count above 1000. The `$n` it computes for counts up to 5000 is never used.

`php/Autometrics.php` has syntax slips that keep it from parsing at all. They are modelled as evidently intended:

- the unbalanced parentheses at lines 172, 179 and 249;
- `length($parts)` and `$parts[i]` at lines 59 and 61, read as `count($parts)` and `$parts[$i]`.

`produce_metric_from_values` passes the undefined variable `$send_metric` at line 231. That line parses: PHP passes null with a warning. `produce_metric_from_params` never reads the flag (line 243), so the model has no such argument. The `Strict`/`Lenient` policy parameter stands for `Helper_Environment::throw_if_not_live`, not for this flag.

`php/metric.php` stores timestamps in a way that cannot work as written. The model reads `set_timestamp` as storing the epoch seconds it is given, which is what every caller passes:

- Lines 684-685 call `DateTime::Format($datetime, 'U')` statically. PHP 8 rejects this with an Error, since `format` is not a static method. They are read as `date_format($datetime, 'U')`.
- Line 683 passes the timestamp to `date_create`. PHP's date parser does not read a bare epoch number without an `@` prefix. This covers the `microtime(true)` that `add_value` defaults to, and an integer timestamp. So `date_create` returns false, and `date_format(false, 'U')` raises a TypeError. The line is read as `date_create('@' . $timestamp)`.
- Line 708 returns `$this->timestamp()`, a method no class defines. It is read as the field `$this->timestamp`.

## Model

| member | source | states |
|---|---|---|
| Metrics.ConstructorType | php/metric.php:849-1025 | Timer records 'timer' and Meter records 'meter'; Counter and Gauge, full or Simple, both record 'counter', so no constructor records 'gauge' |
| Metrics.NewMetric | php/metric.php:849-1025 | a fresh metric carries its name, the type its constructor records, value 1 and the current time |
| Metrics.SetType | php/metric.php:669-679 | succeeds exactly for timer, counter, meter and gauge and changes only the type; any other name fails with that name and leaves the metric as it was |
| Metrics.SetValue | php/metric.php:688-694 | an int or float replaces the value and nothing else; any other value leaves the metric unchanged |
| Metrics.SetTimestamp | php/metric.php:681-686 | the timestamp becomes the epoch seconds given and every other field is kept (reading lines 683-685 as `date_format(date_create('@' . $timestamp), 'U')`) |
| Metrics.Increment | php/metric.php:50-53 | the value grows by one and nothing else changes |
| Metrics.Decrement | php/metric.php:55-58 | the value shrinks by one and nothing else changes |
| Metrics.ResetValue | php/metric.php:60-63 | the value becomes 0 and nothing else changes |
| Metrics.IncrementDecrementInverse | php/metric.php:48-64 | increment and decrement undo each other, in either order |
| Metrics.VariantNamed | php/metric.php:816-832 | a variant exists exactly for the four type names; gauge selects a variant that records 'counter' |
| Metrics.BuildSimpleMetric | php/metric.php:814-837 | succeeds exactly when the lower-cased type name is one of the four; unknown names fail with the name given; on success the metric is the variant the lower-cased name selects, with the name, the timestamp (under the epoch reading of `set_timestamp`) and the value as set_value would store it |
| Metrics.BuildSimpleMetricCaseInsensitive | php/metric.php:816 | the type name is matched case-insensitively: any capitalisation builds the same metric as the lower-case name |
| Metrics.GaugeRecordsCounter | php/metric.php:1019-1025 | building a 'Gauge' yields a SimpleGauge whose type is 'counter' |
| Sorting.Sort | php/metric.php:559 | the result is ascending and a permutation of the input |
| Sorting.SortByKey | php/metric.php:778 | for distinct timestamps: strictly ascending keys, a permutation of the input pairs |
| Stats.SumAppend | php/metric.php:404-417 | the sum of a concatenation is the sum of the parts |
| Stats.Avg | php/metric.php:435-447 | zero for an empty list or a zero sum; otherwise count times average equals the sum |
| Stats.Min | php/metric.php:449-461 | zero for an empty list; otherwise an element of the list no greater than any element |
| Stats.Max | php/metric.php:463-475 | zero for an empty list; otherwise an element of the list no smaller than any element |
| Stats.MinAsWritten | php/metric.php:449-461 | as written, min falls back to the data set's own values only by testing the wrong array: with no own values it returns 0 whatever list it is given |
| Stats.MinAsWrittenIgnoresData | php/metric.php:456 | a concrete input on which the as-written min returns 0 where the minimum is 5 |
| Stats.Range | php/metric.php:357-360 | never negative; for a non-empty list it is max minus min |
| Stats.AvgBetweenMinAndMax | php/metric.php:435-475 | the average of a non-empty list lies between its minimum and maximum |
| Stats.VarianceRadicand | php/metric.php:477-483 | fails with a division by zero exactly for a single value |
| Stats.VarianceRadicandNonNegative | php/metric.php:477-483 | for two or more values the radicand under the square root is defined and non-negative |
| Stats.VarianceRadicandExample | php/metric.php:477-483 | the radicand for 2, 4, 4, 4, 5, 5, 7, 9 is 32/7 |
| Stats.PercentileFraction | php/metric.php:535-545 | a percentile is accepted exactly in (0,1) or (1,100]; fractions are kept and percentages divided by 100, giving a fraction in (0,1] |
| Stats.InterpolateBracket | php/metric.php:553-569 | the interpolated value lies between the two order statistics that bracket rank (n-1)·p |
| Stats.InterpolateMonotone | php/metric.php:553-569 | on sorted data the interpolation grows with the fraction |
| Stats.Percentile | php/metric.php:533-571 | an invalid percentile and empty data are the two errors, in that order; any other call succeeds |
| Stats.SortedEnds | php/metric.php:559 | the first and last sorted values are the minimum and maximum |
| Stats.PercentileWithinRange | php/metric.php:533-571 | every percentile lies between the minimum and the maximum of the data |
| Stats.PercentileMonotone | php/metric.php:533-571 | a larger fraction never gives a smaller percentile |
| Stats.PercentageMonotone | php/metric.php:541-542 | between 1 and 100, a larger percentage never gives a smaller percentile |
| Stats.Median | php/metric.php:383-387 | defined exactly for non-empty data, and lies between min and max |
| Stats.GetQuartiles | php/metric.php:573-580 | defined exactly for non-empty data; min ≤ q25 ≤ q50 ≤ q75 ≤ max |
| Stats.QuartilesExample | php/metric.php:573-580 | the quartiles of 1..5 are 2, 3 and 4 |
| Stats.PercentileExample | php/metric.php:533-571 | the 25th, 50th and 75th percentiles of 1..5 are 2, 3 and 4 |
| Histogram.DistinctCountZeroIffEmpty | php/metric.php:225 | there are no distinct values exactly when there are no values |
| Histogram.BinsForDistinctValues | php/metric.php:228-260 | the bin table yields only 0, 5, 6, 7, 8, 9, 10 or 52, and 0 only for no distinct values |
| Histogram.BinsForDistinctMonotone | php/metric.php:228-260 | more distinct values never give fewer bins |
| Histogram.NumberOfBins | php/metric.php:223-261 | zero exactly for no values; otherwise between 5 and 52 |
| Histogram.Validate | php/metric.php:263-274 | passes exactly for two or more values; otherwise reports the count; the "insufficient bins" branch is unreachable |
| Histogram.Delta | php/metric.php:326-332 | fails exactly when the default bin count of an empty set is used; otherwise width times bin count equals the range, and the width is non-negative |
| Histogram.EdgesIncreasing | php/metric.php:307-310 | for a positive width, bin edges strictly increase |
| Histogram.ScanBin | php/metric.php:317-322 | a value lands in the highest bin whose lower edge it reaches, and in none when it is below every edge |
| Histogram.ScanBinUnique | php/metric.php:317-322 | the highest bin whose edge a value reaches is the one it lands in |
| Histogram.CoincidingEdgeShadowed | php/metric.php:309-322 | when two edges coincide the lower-indexed bin is never chosen, so keying bins by index loses nothing |
| Histogram.Tally | php/metric.php:316-323 | one count per bin, each the number of values landing in it, totalling the values that land somewhere |
| Histogram.LandedAll | php/metric.php:303-323 | when the first edge is at most every value, every value lands in some bin |
| Histogram.ComputeHistogram | php/metric.php:289-324 | fails exactly when no bin count, no width and no data are given; yields one count per bin, bin j holding the number of values that land in bin j of the edges built from the first edge (default: the minimum) and the width (default: range over bin count); with the default first edge the counts sum to the number of values |
| Histogram.HistogramExample | php/metric.php:289-324 | 1, 1, 2, 2, 3 in three bins of width 2/3 gives frequencies 2, 2, 1 |
| DataSets.KeyIndex | php/metric.php:113-114 | finds the first bucket with the timestamp, or reports that none has it |
| DataSets.NewDataSet | php/metric.php:79-86 | a new data set has its name and type, no samples, no buckets and no values |
| DataSets.Reset | php/metric.php:88-93 | after reset the samples, buckets and values are empty, the count is 0 and the time series is empty |
| DataSets.AppendToBucket | php/metric.php:113-114 | the timestamp's bucket gains the value at its end, or a new bucket is added last; every other bucket is unchanged |
| DataSets.AddMetric | php/metric.php:106-117 | the sample is appended to the log, its value to its bucket and to the flat list; name, type and all other buckets are unchanged |
| DataSets.AddMetricConsistent | php/metric.php:106-117 | adding a sample keeps buckets, log and flat list in agreement |
| DataSets.AddValue | php/metric.php:95-104 | under the epoch reading of `set_timestamp`: builds the Simple variant that the lower-cased set type names, with that variant's recorded type, the value and the timestamp (now when the given one is 0), and adds it; fails exactly when the type is not a known variant |
| DataSets.AddValueConsistent | php/metric.php:95-104 | adding a value keeps the data set consistent and raises its count by one |
| DataSets.ResetAfterAdd | php/metric.php:88-93 | resetting after an add is the same as resetting before it |
| DataSets.AddMetricAsWritten | php/metric.php:106-117 | as written, the flat list is replaced by the newest value instead of growing |
| DataSets.AddMetricAsWrittenLosesValues | php/metric.php:116 | two adds leave only the second value in the flat list |
| DataSets.AddMetricKeepsEveryValue | php/metric.php:106-117 | with the append, two adds leave both values, in order, at the end of the flat list |
| DataSets.SelectDefaultAggregator | php/metric.php:148-162 | timers average and every other type sums |
| DataSets.GetTimeseries | php/metric.php:134-146 | one entry per bucket, in bucket order, holding the bucket's default aggregate |
| DataSets.TimeseriesOfCounters | php/metric.php:134-162 | for non-timers each entry is its bucket's sum, and the series adds up to the sum of all values |
| DataSets.TimeseriesOfTimers | php/metric.php:134-162 | for timers each entry lies between its bucket's minimum and maximum |
| DataSets.SelectAggregator | php/metric.php:780-805 | avg, min and max are chosen case-insensitively; any other name sums |
| DataSets.SelectAggregatorCaseInsensitive | php/metric.php:780 | the aggregator name is compared after lower-casing |
| DataSets.GetValues | php/metric.php:776-808 | one entry per bucket, with timestamps strictly ascending, each holding the chosen aggregate of its own bucket; every bucket appears; the data set comes back with its buckets sorted by timestamp, as `ksort` leaves `$this->points`, and nothing else changed |
| DataSets.GetValuesKeepsConsistent | php/metric.php:776-778 | sorting the buckets in place keeps a consistent data set consistent, and its later time series is in ascending timestamp order |
| DataSets.BucketSumPermutation | php/metric.php:776-778 | reordering the buckets changes neither the total of their values nor their number |
| DataSets.MinAsWrittenHarmlessInBuckets | php/metric.php:449-461 | inside get_values the wrong-array test in min is harmless, since a non-empty bucket implies a non-empty flat list |
| DataSets.Timespan | php/metric.php:362-366 | fails on no data; otherwise the greatest difference between two bucket timestamps |
| DataSets.Rate | php/metric.php:368-371 | fails on no data, a zero timespan or a zero unit; otherwise rate times timespan equals count times unit |
| Text.ToLowerIdempotent | php/metric.php:780 | lower-casing twice is lower-casing once |
| Text.StrLtTransitive | php/Autometrics.php:259 | the string order `ksort` uses is transitive |
| Text.StrLtTotal | php/Autometrics.php:259 | any two distinct keys are ordered one way or the other |
| Text.SortKeys | php/Autometrics.php:259 | sorted keys are strictly ascending and are exactly the given keys |
| Text.AscendingListingUnique | php/Autometrics.php:259 | two strictly ascending listings of the same keys are equal, so the `ksort` order is unique |
| Text.JoinSplit | php/Autometrics.php:53-62 | joining the parts of an exploded string restores it |
| Text.SplitJoin | php/Autometrics.php:53-62 | exploding joined parts that hold no separator gives the parts back |
| Text.SplitTail | php/Autometrics.php:55-62 | when the name contains a dot, joining every part after the first gives the text after the first dot |
| Php.TypeWordsAreNotNumeric | php/Autometrics.php:179 | 'timer' and 'counter' are not numeric strings, so loose comparison with them is a string comparison |
| Enrichment.FirstNonEmpty | php/Autometrics.php:25-42 | the first non-empty candidate for a key, or none exactly when every candidate for it is empty |
| Enrichment.AddAllMeaning | php/Autometrics.php:25-42 | a key is present afterwards exactly when it was before or has a non-empty candidate; old entries are kept; a new entry holds the first non-empty candidate |
| Enrichment.AddAllNeverOverwrites | php/Autometrics.php:25-42 | an existing key keeps its value |
| Enrichment.AddAllAddsOnlyNonEmpty | php/Autometrics.php:25-42 | every added entry is non-empty and is one of the candidates |
| Enrichment.AddAllIdempotent | php/Autometrics.php:23-43 | enriching twice is enriching once |
| Enrichment.RunLength | php/Autometrics.php:9 | the longest prefix of letters and hyphens |
| Enrichment.ServerTypeMatch | php/Autometrics.php:71 | no match exactly when the name has no letter or hyphen; otherwise the first maximal run of letters and hyphens |
| Enrichment.ServerType | php/Autometrics.php:69-77 | the server type is a non-empty run of letters and hyphens, 'unspecified' when the name has none |
| Enrichment.HostAndDomain | php/Autometrics.php:53-67 | the host is the text before the first dot; the domain is the text after it, or absent when there is no dot |
| Enrichment.AddRequiredMetadata | php/Autometrics.php:23-31 | existing metadata is kept; only request_id, ip_addr and country_code can be added, each exactly when absent before and non-empty in the environment, with the environment's value |
| Enrichment.AddRequiredTags | php/Autometrics.php:36-43 | existing tags are kept; only host tags and env, api_key and version can be added; server_type is always present afterwards, derived from the host name unless given |
| Enrichment.AddRequiredTagsHostTags | php/Autometrics.php:36-43 | host and domain are present exactly when given or when the host name yields a non-empty host or domain |
| Enrichment.AddRequiredTagsEnvironment | php/Autometrics.php:40-42 | env, api_key and version are present exactly when given or non-empty in the environment, with the environment's value when added |
| Enrichment.HostTagsExample | php/Autometrics.php:48-67 | 'web-01.prod.example.com' has host 'web-01' and domain 'prod.example.com' |
| Enrichment.HostTagsOfDotted | php/Autometrics.php:48-67 | for any host name made of a dot-free first piece, a dot and a rest, the host is the first piece and the domain is the rest |
| Enrichment.ServerTypeExample | php/Autometrics.php:69-73 | the server type of 'web-01.prod.example.com' is 'web-' |
| Params.KeyNamesDistinct | php/Autometrics.php:12-18 | the seven key names are pairwise different |
| Params.OpenContainer | php/Autometrics.php:91-103 | null, false and arrays can be written into (the first two start empty); any other value makes the write an error |
| Params.InitializeMetric | php/Autometrics.php:86-126 | fails exactly when event_type must be copied into a tags or metadata value that is not an array, reporting tags first; on success both containers exist and type, value and created are non-empty |
| Params.InitializeMetricKeys | php/Autometrics.php:86-126 | every key but event_type survives; both containers, type, value and created are present; metric_name is added only for an event |
| Params.InitializeMetricEntries | php/Autometrics.php:86-126 | every stray key keeps its value; the name is kept, or becomes 'analytics.event' for an event without one; type and value keep non-empty input and otherwise default to 'counter' and '1'; created keeps a non-empty input and otherwise becomes now |
| Params.InitializeMetricEventType | php/Autometrics.php:100-110 | event_type is removed from the top level and copied into tags and metadata; the name defaults to 'analytics.event' only when absent |
| Params.InitializeComplete | php/Autometrics.php:86-126 | a bag that already has containers, a type and a value only gains a creation time |
| Params.ZeroValueBecomesOne | php/Autometrics.php:119-122 | an explicit value of 0 becomes '1' |
| Params.InitializeMetricIdempotent | php/Autometrics.php:86-126 | initialising an initialised bag changes nothing, whatever the clock reads |
| Params.FirstMissing | php/Autometrics.php:163-177 | the first required field that is absent, or none exactly when all are present |
| Params.CheckMetric | php/Autometrics.php:156-198 | passes exactly for a valid metric; otherwise reports the first failing check, in the order missing field, unsupported type, non-numeric value, unparseable time |
| Params.OnlyNameCanBeMissing | php/Autometrics.php:86-126 | after initialisation the only field that can be reported missing is metric_name, and it is reported exactly when absent |
| Params.Stray | php/Autometrics.php:133-147 | the stray keys are exactly the present keys outside the six canonical ones |
| Params.MoveNonStandardKeys | php/Autometrics.php:131-150 | fails exactly when there are strays and @metadata cannot take them; on success only canonical keys remain at the top level |
| Params.MoveNonStandardKeysEntries | php/Autometrics.php:131-150 | canonical entries other than @metadata are unchanged; every stray key is in @metadata with its original value; earlier metadata entries not named by a stray are kept; with no strays the bag is unchanged |
| Params.MoveNonStandardKeysIdempotent | php/Autometrics.php:131-150 | moving twice is moving once |
| Params.MovePreservesValidity | php/Autometrics.php:131-150 | moving the strays of an initialised valid metric keeps it valid and leaves exactly the six canonical keys |
| Producer.KSort | php/Autometrics.php:259 | the listing's keys strictly ascend, are exactly the map's keys, and each pair holds the map's value |
| Producer.MetricKeyOrderAscending | php/Autometrics.php:12-18 | @metadata, created, metric_name, metric_tags, metric_type, metric_value is ascending |
| Producer.KSortOfCanonical | php/Autometrics.php:259 | a map with exactly the six canonical keys lists them in that order |
| Producer.Enrich | php/Autometrics.php:254-255 | fails exactly when tags or metadata is not an array; otherwise existing entries are kept and server_type is set |
| Producer.Prepare | php/Autometrics.php:243-255 | a metric is rejected exactly when initialisation succeeds and validation fails; a ready metric is finished and keeps the initialised name, type, value and time |
| Producer.ProduceMetricFromParams | php/Autometrics.php:243-262 | raising happens only under Strict, returning false only under Lenient, and one of them exactly when validation rejects the metric |
| Producer.ProducedShape | php/Autometrics.php:243-262 | a produced metric lists exactly @metadata, created, metric_name, metric_tags, metric_type, metric_value in that order; @metadata is an array, created parses, the tags are an array holding server_type, the type is timer or counter and the value is numeric |
| Producer.ProducedListing | php/Autometrics.php:253-261 | a produced metric is the key-sorted listing of the prepared record |
| Producer.PolicyOnlyChangesRejection | php/Autometrics.php:247-251 | Strict raises exactly when Lenient returns false; otherwise both policies give the same outcome |
| Producer.ProducedName | php/Autometrics.php:243-262 | the produced name is the given one, or 'analytics.event' for an event without one |
| Producer.ProducedMovesStrayKeys | php/Autometrics.php:245-259 | a stray key other than event_type ends up in the produced @metadata with its original value |
| Producer.ValuesBagEntries | php/Autometrics.php:212-229 | the bag holds the positional arguments, overridden by the extra parameters; a non-array extra becomes event_type |
| Producer.ProduceMetricFromValues | php/Autometrics.php:212-233 | raising happens only under Strict and returning false only under Lenient |
| Producer.DefaultsProduceCounter | php/Autometrics.php:212-262 | with the defaults, whenever the string form of the clock reading is accepted as a date (`parses(Float(now))`), a name produces a counter of value 1 timed now, under either policy |
| Producer.ProducedFields | php/Autometrics.php:243-262 | the produced type, value and time are those initialisation assigned |
| Producer.ScalarExtraIsEventType | php/Autometrics.php:221-224 | a non-array extra argument reaches the produced tags and metadata as event_type |
| Producer.EventTypeReachesContainers | php/Autometrics.php:100-104 | an event_type parameter ends up in the prepared tags and metadata |
| LogLine.DigitsRoundTrip | python/autometrics.py:156 | the decimal digits of a number read back as that number |
| LogLine.ParseDecimal | python/autometrics.py:183 | int() of str(i) is i for every integer i |
| LogLine.Truncate | python/autometrics.py:183 | int() of a float truncates toward zero |
| LogLine.PyInt | python/autometrics.py:183 | int() keeps integers and raises on null, lists and objects |
| LogLine.ParseInt | python/autometrics.py:183 | int() of a text with no digit raises; a plain run of digits reads as its decimal value |
| LogLine.SpacedSignExample | python/autometrics.py:183 | whitespace may follow the sign: int('- 12') is -12 |
| LogLine.NoBreakSpaceExample | python/autometrics.py:183 | U+00A0 counts as whitespace: int(u'\xa012') is 12 |
| LogLine.RejectedNumeralExamples | python/autometrics.py:183 | a bare sign and digits split by a space do not parse |
| LogLine.ReplaceChar | python/autometrics.py:201-205 | after replacing c by a text without c, c is gone; no new characters appear; a one-character replacement never lengthens |
| LogLine.PyStr | python/autometrics.py:200 | str() raises UnicodeEncodeError exactly for a non-ASCII string; otherwise it gives the text `%s` would print |
| LogLine.CleanUpTagValue | python/autometrics.py:199-206 | raises exactly when str() of the value does; otherwise the scrubbed text of the value |
| LogLine.ScrubIsOnePass | python/autometrics.py:199-206 | the five replacements in a row equal one pass that maps ':' and ' ' to '_' and drops '<', '>' and the quote |
| LogLine.ScrubClean | python/autometrics.py:199-206 | a scrubbed value has none of ':', ' ', '<', '>' or the quote, and is no longer than its input |
| LogLine.ScrubIdempotent | python/autometrics.py:199-206 | scrubbing twice is scrubbing once |
| LogLine.ScrubKeepsOthers | python/autometrics.py:199-206 | a text with none of the five characters is left unchanged |
| LogLine.AbsorbRaises | python/autometrics.py:169-185 | one item raises exactly when it is a non-null tags item that is not an object or holds a kept non-ASCII string value, or a non-null timestamp int() rejects |
| LogLine.TagTextRaises | python/autometrics.py:178-180 | the tag text raises exactly when some kept tag has a non-ASCII string value |
| LogLine.NonAsciiTagRaises | python/autometrics.py:176-180 | a record whose tags hold 'Zürich' raises UnicodeEncodeError after metrics_read has risen, and is neither sent nor discarded |
| LogLine.AbsorbAllMeaning | python/autometrics.py:155-185 | reading a record raises exactly when some item raises (a tags item that is not an object or holds a non-ASCII kept value, or a timestamp int() rejects); otherwise the last non-null alias of name, type and value wins over the defaults, the timestamp is int() of the last one, and the tags come from the last tags object |
| LogLine.Format | python/autometrics.py:187-197 | a line is produced exactly for counter, meter and timer; it starts with the type's prefix, the name and a space, and ends with the tags and a newline |
| LogLine.HandleMetric | python/autometrics.py:150-197 | lines_read always rises by one; metrics_read by one once the line decodes; exactly one of sent or discarded rises when nothing raises, neither when something does |
| LogLine.HandleMetricEmits | python/autometrics.py:155-197 | a record is printed exactly when nothing raises and its last type alias (default counter) is counter, meter or timer; the line starts with that type's prefix and the name (default 'unidentified') |
| LogLine.HandleMetricTags | python/autometrics.py:159-180 | with no tags item the tags are ' env=unknown'; otherwise ' category=metrics' followed by the kept tags of the last tags object |
| LogLine.TagTextFilters | python/autometrics.py:178-180 | null and excluded tags (server_type, dc, host) are dropped; a kept tag contributes ' key=scrubbed value' in order |
| LogLine.TimestampRoundTrip | python/autometrics.py:183 | an integer timestamp, given as a number or as its decimal text, is read back unchanged |
| LogLine.HandleMetricBalanced | python/autometrics.py:163-197 | sent plus discarded never exceeds read, and read never exceeds lines read |
| LogLine.HandleAllExact | python/autometrics.py:163-197 | from counters where sent plus discarded, read and lines agree, a run in which nothing raises keeps them equal and counts every line |
| LogLine.SendMetrics | python/autometrics.py:224-238 | exactly four lines, in order 'autometrics.counters.' + lines.read, metrics.read, metrics.sent, metrics.discarded, each followed by the clock reading's decimal text and its counter's decimal text and a newline; afterwards every counter is zero |
| LogLine.SendMetricsReports | python/autometrics.py:230-233 | the last field of each of the four lines reads back, through int(), as the counter it reports |
| LogLine.ReportReadsBack | python/autometrics.py:230-233 | the last field of any report line reads back as its counter |

## Left out

- File reading, tailing and position files, signal handling, `main`, `write_delay` and the random sampling of the Python reader (python/autometrics.py:24-148, 208-266) are I/O, clocks and randomness. Printing is modelled as returning the line.
- JSON decoding is left out. `handle_metric` receives the decoded value, or `None` when decoding fails. JSON NaN and Infinity are not modelled.
- Python's `str()` of floats, lists and dictionaries is the parameter `render`, because its exact float formatting is not modelled. `str()` of strings, integers, booleans and null is modelled concretely, including the UnicodeEncodeError that Python 2 raises for a non-ASCII string.
- `LogLine.HandleMetric`: `printf` writes the name, value and tag keys to stdout after `metrics_sent` has risen. With a non-ASCII name, value or tag key this can raise UnicodeEncodeError, depending on the encoding of stdout. The model treats printing as always succeeding, because stdout's encoding is outside the program.
- `LogLine.PyInt`: Python 2 first maps Unicode decimal digits to ASCII digits and Unicode spaces to ' ', and only characters above U+00FF that are neither raise. The model knows the whitespace below U+0100 only, and treats digits outside ASCII and spaces above U+00FF as invalid. For such input it reports a raise where Python parses.
- `time.time()` and `microtime(true)` are the parameter `now`.
- `LogLine.SendMetrics`: `send_metrics` calls `time.time()` once per line (python/autometrics.py:230-233), so the four lines can carry different seconds. The model uses one clock reading for all four.
- `strtotime` and `date_create` are not modelled. Whether a creation time parses is the parameter `parses`, and `set_timestamp` takes an epoch timestamp, as read above. The ISO 8601 form it also stores is not modelled.
- `Producer.DefaultsProduceCounter`: because `parses` is a parameter, the lemma needs `parses(Float(now))`, that is, that `strtotime` accepts the string form of `microtime(true)`. Whether PHP's `strtotime` accepts such a float string is not modelled, so the lemma says nothing when it does not.
- `Helper_Analytics`, `Helper_Client`, `Helper_Environment` and `gethostname()` are not part of this model. Their answers are fields of an environment record.
  - `Helper_Analytics::add_if_not_exists_and_not_empty` is assumed to add a key only when it is absent and the value is non-empty.
  - The extra keys that `Helper_Analytics::add_required_metadata` and `add_extended_metadata` add are not modelled.
- `throw_if_not_live` is the `Strict`/`Lenient` policy parameter.
- `standard_deviation` takes a square root, which has no exact real counterpart. The model states the radicand only.
- Values are exact reals, not doubles, so rounding and float formatting are not modelled.
- PHP's integer array keys, and its conversion of numeric string keys to integers, are not modelled. All keys are strings.
- The order of entries inside nested arrays is not modelled. Only the top-level order, which `ksort` fixes, is.
- The byte-wise string order used for `ksort` assumes PHP 8 comparison of non-numeric keys. The canonical keys are all non-numeric.
- Writing into a `metric_tags` or `@metadata` value that is a string (the empty string included), a number or `true` is modelled as a crash. PHP 7.1 and later raise an Error there; older versions turned an empty string into an array.
- `percentile` sorts the data set's values in place. The model sorts a copy, so no later call sees a reordered flat list.
- The histogram's bins are keyed by index rather than by the string form of the lower edge. They are returned rather than kept in `$this->bins` across calls.
- `get_bins`, the getters, `__toString`, `to_array`, `to_json`, `extend_*_array`, `simple_array` and `holt_winters` are accessors or serialisers and are not modelled.
- The tag and metadata setters of `MetaDataFunctions`, `add_base_tags`/`add_base_metadata`, and the units and event type of timers and meters are inert setters and are not modelled.
- `DataSets.AddValue`: as written, `add_value` raises whenever the type is known, because `set_timestamp` cannot parse the epoch timestamp it receives. Its default `microtime(true)` and any integer timestamp are bare numbers, which `date_create` rejects without an `@` prefix (see the reading of `php/metric.php` lines 683-685 above). The model's success exactly for a known type holds only under that reading. `Metrics.BuildSimpleMetric` and `Metrics.SetTimestamp` rest on the same reading.
- `DataSets.AddMetricAsWritten`: as written, `$this->values` becomes a scalar. The model stands that scalar in as a one-element list. Under PHP 8, `count()` of the scalar raises a TypeError, and so do `avg`, `min` (line 456) and `percentile` (line 551), which count the values. That error is not modelled.
- `get_values` on a data set with no buckets returns PHP's undefined `$a` (null); the model returns the empty list.
- `Producer.ProduceMetricFromValues`: its own contract relates only its outcome to the policy. What it produces is stated by `Producer.ValuesBagEntries`, `Producer.DefaultsProduceCounter` and `Producer.ScalarExtraIsEventType` together with the `produce_metric_from_params` lemmas.
- `LogLine.Format`: its contract fixes the start and the end of the line but not the timestamp and value text in between, since `render` decides how a float value prints.
- `Stats.Percentile`: its contract states when it fails. The value is stated by `Stats.InterpolateBracket`, `Stats.PercentileWithinRange`, `Stats.PercentileMonotone` and the worked examples, not as a closed formula in the contract.

## Findings

| source | as written | input that shows it | evidently intended | confidence | as-written member | corrected member |
|---|---|---|---|---|---|---|
| php/metric.php:116 | `add_metric` assigns the new value to `$values`, replacing the flat list | adding two samples to a new data set logs both but leaves a single scalar in `$values`; under PHP 8, `count()` of it, and with it `avg` and `percentile`, raises a TypeError | append the value, so that `count`, `sum` and `percentile` see every sample | high; not executed | DataSets.AddMetricAsWritten, DataSets.AddMetricAsWrittenLosesValues | DataSets.AddMetric, DataSets.AddMetricKeepsEveryValue |
| php/metric.php:456 | `min($data)` tests `count($this->values)` rather than `count($data)` before reducing | `min([5])` on a data set with no own values returns 0 | test the list actually reduced, as `max` does at line 470 | high; not executed | Stats.MinAsWritten, Stats.MinAsWrittenIgnoresData | Stats.Min, DataSets.MinAsWrittenHarmlessInBuckets |
