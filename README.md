# prometheus_redis_client, modelled in Dafny

`prometheus_redis_client` is a Prometheus client that keeps metric values in Redis, so that
several processes can share them. A metric writes its series through Redis pipelines:

- every series is a Redis key `name + suffix + ":" + token`;
- the token is base 64 of `json.dumps(labels, sort_keys=True)`;
- every series key is listed in the set `name + "_group"`.

`Registry.output` reads the groups back. It drops the members whose value has expired and
renders each metric as a `# HELP` / `# TYPE` header followed by its lines, sorted.

The model covers the three core files.

- `base_metric.py`
  - Key building, `pack_labels` / `unpack_labels` and `parse_metric_key`.
  - `_check_labels`, `labels(...)` with its `WithLabels` handle, and `silent_wrapper`.
  - Both `output` renderers.
- `metrics.py`
  - `Metric.collect` and the write paths of `Counter`, `CommonGauge` and `Summary`.
  - `Gauge`: its shadow map `gauge_values`, the lazily allocated `gauge_index` label, the registration of `refresh_values`, and `refresh_values` and `cleanup` themselves.
  - `Histogram`: the descending buckets, `observe`, the missing-bucket reconstruction and `collect`.
- `registry.py`
  - `Registry.add_metric`, `output` and `cleanup_and_stop`.
  - The `Refresher`'s state and its `refresh_cycle` loop.

How the model represents the system:

- **Redis** is a value `Store.DB`: integer values, times to live and sets. A class `Store.Redis` holds that value and an `available` flag.
  - When the flag is down, every round trip raises `ConnectionError`.
  - A pipeline is a `seq<Command>` that `Store.Exec` runs as one transaction.
  - `Store.Elapse` is the expiry event: keys whose time to live has run out disappear.
- **Metrics with in-place state** are classes.
  - `Gauges.Gauge` updates `gaugeValues`, `index` and `refresherAdded`.
  - `Histograms.Histogram` holds the sorted bounds.
  - `Registry.Registry` updates `metrics`.
  - `Refresher.Refresher` updates its callback list and its flags.
- **Caller dicts** that the library writes into are `Dicts.LabelDict` objects, so the mutation is visible to the caller.
  - `Gauge` writes `gauge_index` into them and `Histogram.observe` writes `le`.
  - A second call through the same `WithLabels` handle therefore fails `_check_labels`. `Histograms.SecondObserveRejected` states this.
- **Dicts** are sequences of entries with distinct keys, in insertion order. `Dicts.SameMapping` says when two of them hold the same mapping.
- **JSON and base 64** are written out exactly: `json.dumps(sort_keys=True)` with its escapes, and the base 64 alphabet of section 4 of RFC 4648. Both are proved to round-trip.

## Model

| member | source | states |
|---|---|---|
| BaseMetric.GroupKey | prometheus_redis_client/base_metric.py:109-110 | the group key is the name followed by exactly `_group` |
| BaseMetric.GroupKeyInjective | prometheus_redis_client/base_metric.py:109-110 | different metric names never share a group key |
| BaseMetric.SuffixText | prometheus_redis_client/base_metric.py:115 | `suffix or ""`: an absent suffix is the empty text |
| BaseMetric.MetricKey | prometheus_redis_client/base_metric.py:112-117 | a series key is longer than its name and suffix (the `:` and the token follow) |
| BaseMetric.MetricKeySameMapping | prometheus_redis_client/base_metric.py:112-117 | for one name and suffix, two label dicts give the same key if and only if they hold the same mapping, whatever their insertion order |
| BaseMetric.GroupKeyIsNotMetricKey | prometheus_redis_client/base_metric.py:109-117 | a metric's group key is never one of its own series keys |
| BaseMetric.SeriesKeysDistinct | prometheus_redis_client/base_metric.py:112-117 | series keys with the suffixes the metrics use (none, `_sum`, `_count`, `_bucket`) never collide |
| BaseMetric.PackLabels | prometheus_redis_client/base_metric.py:122-125 | the token has no `:` and at least four characters |
| BaseMetric.UnpackPackLabels | prometheus_redis_client/base_metric.py:122-128 | `unpack_labels(pack_labels(L))` returns L's mapping, with its keys in sorted order |
| BaseMetric.PackLabelsSameMapping | prometheus_redis_client/base_metric.py:122-125 | two dicts get the same token if and only if they hold the same mapping |
| BaseMetric.PackEmptyLabels | prometheus_redis_client/base_metric.py:122-125 | the empty dict packs to `e30=` |
| BaseMetric.DecodeUtf8 | prometheus_redis_client/base_metric.py:116 | for ASCII text, decoding its UTF-8 bytes gives the text back |
| BaseMetric.DecodeAscii | prometheus_redis_client/base_metric.py:128 | decoding succeeds exactly on all-ASCII bytes and keeps each byte as one character |
| BaseMetric.SplitOnce | prometheus_redis_client/base_metric.py:120 | `split(':', maxsplit=1)` finds nothing if and only if there is no `:`; otherwise the text is the part before the first `:`, then `:`, then the rest |
| BaseMetric.FirstOccurrenceUnique | prometheus_redis_client/base_metric.py:120 | the split at the first separator is unique |
| BaseMetric.ParseMetricKeyFails | prometheus_redis_client/base_metric.py:119-120 | parsing fails exactly for a key without `:`; otherwise the two parts joined by `:` are the key |
| BaseMetric.ParseMetricKeyOf | prometheus_redis_client/base_metric.py:119-120 | for a name without `:`, parsing a series key gives the name with its suffix and the packed labels |
| BaseMetric.KeysToSet | prometheus_redis_client/base_metric.py:131 | `set(labels.keys())` is the dict's key set |
| BaseMetric.CheckLabels | prometheus_redis_client/base_metric.py:130-135 | the only error `_check_labels` raises is a `ValueError` |
| BaseMetric.CheckLabelsExact | prometheus_redis_client/base_metric.py:130-135 | the check passes if and only if the label keys equal the declared names as sets |
| BaseMetric.LabelsFor | prometheus_redis_client/base_metric.py:137-145 | on success the bound dict is `dict(zip(labelnames, args))` updated with `kwargs` |
| BaseMetric.LabelsOfValues | prometheus_redis_client/base_metric.py:138-139 | a keyword value overrides the positional one; otherwise the value is the one the positional arguments give |
| BaseMetric.ZipKeys | prometheus_redis_client/base_metric.py:138 | the positional arguments name exactly the first `min(len(labelnames), len(args))` declared labels |
| BaseMetric.LabelsForAccepted | prometheus_redis_client/base_metric.py:137-140 | `labels(...)` succeeds if and only if the positional names plus the keyword names are exactly the declared names |
| BaseMetric.MakeHandle | prometheus_redis_client/base_metric.py:137-145 | returns a handle if and only if the labels check, with the check's error otherwise; the handle binds a new dict holding the built labels, the metric and its operation list |
| BaseMetric.GetAttr | prometheus_redis_client/base_metric.py:74-80 | the handle's own fields and its class's attributes resolve normally; any other name is a `TypeError` exactly when it is outside the allow-list, and an allowed one is forwarded to the same metric with the same dict object |
| BaseMetric.QuoteNames | prometheus_redis_client/base_metric.py:76-78 | the error message lists each allowed name in quotes, in order |
| BaseMetric.Silent | prometheus_redis_client/base_metric.py:148-157 | the wrapper returns the wrapped result unchanged when the call returns, and `None` if and only if it raised; it never raises |
| BaseMetric.Pairs | prometheus_redis_client/base_metric.py:31-36 | one `key="value"` item per label, in order |
| BaseMetric.OutputBare | prometheus_redis_client/base_metric.py:27-43 | a line is `name value`, without braces, if and only if the labels are `None` or empty |
| BaseMetric.OutputKeyOrder | prometheus_redis_client/base_metric.py:31-38 | a labelled line lists `{k="v",...}` in the order of `sorted(labels.keys())` |
| BaseMetric.OutputSameMapping | prometheus_redis_client/base_metric.py:27-43 | a line depends only on the label mapping, not on insertion order |
| BaseMetric.DocHeaderLines | prometheus_redis_client/base_metric.py:53-58 | the header is exactly the two lines `# HELP name doc` and `# TYPE name type` |
| Base64.Encode | prometheus_redis_client/base_metric.py:123-125 | the encoding has `4 * ceil(n / 3)` characters, all from the alphabet or `=` |
| Base64.DecodeEncode | prometheus_redis_client/base_metric.py:123-128 | decoding an encoding gives the bytes back |
| Base64.EncodeHasNoColon | prometheus_redis_client/base_metric.py:116-120 | an encoding never contains `:`, so the first `:` of a series key is the one before the token |
| Base64.SextetRoundTrip | prometheus_redis_client/base_metric.py:123-128 | each six-bit value's alphabet character decodes back to that value |
| Json.DumpsAscii | prometheus_redis_client/base_metric.py:124 | `json.dumps` output is pure ASCII, so its UTF-8 encoding is one byte per character |
| Json.LoadsDumps | prometheus_redis_client/base_metric.py:124-128 | `json.loads(json.dumps(d, sort_keys=True))` is d's mapping in sorted key order |
| Json.DumpsSameMapping | prometheus_redis_client/metrics.py:339-353 | two dicts dump to the same text if and only if they hold the same mapping |
| Json.DumpsEmpty | prometheus_redis_client/metrics.py:343-345 | only the empty dict is written `{}` |
| Json.ParseCharEscape | prometheus_redis_client/base_metric.py:124-128 | each character's escape, surrogate pairs included, reads back as that character |
| Json.ParseStringBodyEscape | prometheus_redis_client/base_metric.py:124-128 | an escaped string literal reads back as the string |
| Json.ParseNumberOf | prometheus_redis_client/base_metric.py:124-128 | an integer label value's text reads back as the integer |
| Json.Hex4RoundTrip | prometheus_redis_client/base_metric.py:124-128 | a `\uXXXX` escape reads back as its code unit |
| Dicts.Put | prometheus_redis_client/metrics.py:227 | `d[k] = v` maps k to v and every other key as before; a new key goes last |
| Dicts.PutTwice | prometheus_redis_client/metrics.py:320 | setting `le` again overwrites it in the place the first write gave it |
| Dicts.PutKeys | prometheus_redis_client/metrics.py:227 | the keys after `d[k] = v` are the old keys plus k |
| Dicts.Remove | prometheus_redis_client/metrics.py:341-342 | `del labels['le']` removes exactly that key and keeps the other entries |
| Dicts.PutAll | prometheus_redis_client/base_metric.py:139 | `labels.update(kwargs)`: a key the pairs set takes their last value, and every other key keeps its value |
| Dicts.Zip | prometheus_redis_client/base_metric.py:138 | `zip` pairs names with values up to the shorter length |
| Dicts.SortByKey | prometheus_redis_client/base_metric.py:35 | sorting the items gives ascending keys with the same mapping and key set |
| Dicts.AscendingUnique | prometheus_redis_client/base_metric.py:124 | two dicts in ascending key order with the same mapping are equal |
| Dicts.SortByKeyDependsOnMappingOnly | prometheus_redis_client/base_metric.py:124 | sorted items depend only on the mapping |
| Dicts.SortByKeyKeys | prometheus_redis_client/base_metric.py:35 | the keys of the sorted dict are `sorted(labels.keys())` |
| Dicts.GetSome | prometheus_redis_client/base_metric.py:34 | a lookup finds a value if and only if the key is in the dict, and the value is that of an entry |
| Text.SortStrings | prometheus_redis_client/registry.py:71-73 | `sorted` on strings is ascending and a permutation |
| Text.SortedUnique | prometheus_redis_client/registry.py:71-73 | there is only one ascending arrangement of a collection of strings |
| Text.SplitJoin | prometheus_redis_client/registry.py:74-76 | splitting a `"\n".join` of lines without line breaks gives the lines back |
| Text.NatToStringRoundTrip | prometheus_redis_client/metrics.py:32 | the decimal text of a stored value reads back as that value |
| Text.LessEqTotal | prometheus_redis_client/registry.py:71-73 | the string order `sorted` uses is total |
| Text.LessEqAntisymmetric | prometheus_redis_client/registry.py:71-73 | the string order is antisymmetric |
| Text.LessEqTransitive | prometheus_redis_client/registry.py:71-73 | the string order is transitive |
| Store.Exec | prometheus_redis_client/metrics.py:73-76 | a pipeline returns one reply per command |
| Store.ExecConcat | prometheus_redis_client/metrics.py:73-76 | running two pipelines one after the other is running their concatenation |
| Store.Elapse | prometheus_redis_client/metrics.py:75 | after time passes, exactly the keys whose time to live has not run out remain, with their values; keys without a time to live stay |
| Store.DeleteKeys | prometheus_redis_client/metrics.py:293 | `DEL` removes exactly the given keys |
| Store.WithMembersTwice | prometheus_redis_client/metrics.py:27 | replacing a set twice is replacing it once with the second set |
| Store.Redis.Execute | prometheus_redis_client/metrics.py:76 | with the store reachable, every command runs and the replies return; otherwise nothing changes and `ConnectionError` is raised |
| Store.Redis.Run | prometheus_redis_client/metrics.py:270-272 | a single command: its effect and reply, or `ConnectionError` with nothing changed |
| Store.Redis.Get | prometheus_redis_client/metrics.py:25 | `GET` returns the stored value or `None`, or raises `ConnectionError` |
| Store.Redis.SMembers | prometheus_redis_client/metrics.py:19 | `SMEMBERS` returns the set, empty when missing, or raises `ConnectionError` |
| Store.Redis.Tick | prometheus_redis_client/metrics.py:75 | the expiry event: the store becomes its elapsed form |
| Pipelines.SAddEffect | prometheus_redis_client/metrics.py:74 | `SADD` adds the members and changes no other key |
| Pipelines.SRemEffect | prometheus_redis_client/metrics.py:27 | `SREM` removes the members and changes no other key |
| Pipelines.IncrByEffect | prometheus_redis_client/metrics.py:125 | `INCRBY` adds to the value (a missing key reads as 0), keeps the time to live, and replies with the new value |
| Pipelines.SetEffect | prometheus_redis_client/metrics.py:75 | `SET` overwrites the value, with a time to live exactly when `ex` is given |
| Pipelines.ExpireEffect | prometheus_redis_client/metrics.py:96 | `EXPIRE` sets the time to live of an existing key |
| Pipelines.DeleteEffect | prometheus_redis_client/metrics.py:293 | `DEL` leaves no value, set or time to live for the keys |
| Pipelines.CounterIncEffect | prometheus_redis_client/metrics.py:119-126 | the series joins the group, grows by the amount, and the second reply is the new total; nothing else changes |
| Pipelines.CounterSetEffect | prometheus_redis_client/metrics.py:143-150 | the series joins the group and holds the value without expiry; the second reply is `SET`'s `True` |
| Pipelines.CommonGaugeSetEffect | prometheus_redis_client/metrics.py:69-76 | the series joins the group and holds the value, expiring exactly when an expiry is given |
| Pipelines.CommonGaugeIncEffect | prometheus_redis_client/metrics.py:88-97 | the series joins the group and grows by the amount; `EXPIRE` is applied only for an expiry that is not 0, and otherwise the time to live is kept |
| Pipelines.EffectiveExpire | prometheus_redis_client/metrics.py:66 | `expire or self._expire`: a 0 (absent) per-call expiry falls back to the instance's |
| Pipelines.SummaryObserveEffect | prometheus_redis_client/metrics.py:167-177 | both `_sum` and `_count` join the group, the sum grows by the value and the count by 1, and the reply is the new sum |
| Pipelines.GaugeIncEffect | prometheus_redis_client/metrics.py:230-235 | the series joins the group, grows by the amount, and gets the gauge's expiry |
| Pipelines.GaugeSetEffect | prometheus_redis_client/metrics.py:252-260 | the series joins the group and holds the value with the gauge's expiry |
| Pipelines.GaugeSetTwiceOneMember | prometheus_redis_client/metrics.py:245-262 | two sets with the same labels, in any insertion order, leave one group member holding the second value |
| Pipelines.GaugeCleanupEffect | prometheus_redis_client/metrics.py:291-294 | cleanup removes exactly the given keys from the group and deletes them; every other key is unchanged |
| Pipelines.SortDescending | prometheus_redis_client/metrics.py:303 | the bounds are descending and a permutation of those given |
| Pipelines.Taken | prometheus_redis_client/metrics.py:317-319 | the loop visits a prefix of the bounds, all at or above the value, and stops at the first bound below it |
| Pipelines.TakenIsAtLeast | prometheus_redis_client/metrics.py:317-323 | over descending bounds, the visited bounds are exactly those at or above the value |
| Pipelines.BucketKeyInjective | prometheus_redis_client/metrics.py:320-321 | different bounds give different bucket keys |
| Pipelines.IncrEachMembers | prometheus_redis_client/metrics.py:322-323 | every visited bucket key joins the group |
| Pipelines.IncrEachValue | prometheus_redis_client/metrics.py:322-323 | each key is incremented once per occurrence |
| Pipelines.IncrEachUnchanged | prometheus_redis_client/metrics.py:322-323 | keys outside the loop's keys and the group are unchanged |
| Pipelines.HistogramObserveBuckets | prometheus_redis_client/metrics.py:311-327 | the bucket of bound b grows by 1 (per copy of b) exactly when the value is at most b |
| Pipelines.HistogramObserveRegisters | prometheus_redis_client/metrics.py:317-323 | every bucket at or above the value is in the group after the observation |
| Pipelines.HistogramObserveUnchanged | prometheus_redis_client/metrics.py:312-327 | the group gains exactly the buckets at or above the value plus `_sum` and `_count`, and every other key keeps its value, time to live and members |
| Pipelines.HistogramObserveSumCount | prometheus_redis_client/metrics.py:324-326 | count grows by 1 and sum by the value, even when the value exceeds every bound; both join the group |
| Refresher.Refresher.constructor | prometheus_redis_client/registry.py:11-16 | a new refresher has no callbacks, is not enabled, and has its close flag down |
| Refresher.Refresher.Clean | prometheus_redis_client/registry.py:18-22 | `_clean` returns to the initial state |
| Refresher.Refresher.StartIfNot | prometheus_redis_client/registry.py:29-34 | the loop starts if and only if it was not enabled, and it is enabled afterwards; callbacks are kept |
| Refresher.Refresher.AddRefreshFunction | prometheus_redis_client/registry.py:24-27 | the callback is appended, then the loop is started unless it already runs |
| Refresher.Refresher.CleanupAndStop | prometheus_redis_client/registry.py:36-40 | the refresher is back in its initial state, ready to start again |
| Refresher.Refresher.RefreshCycle | prometheus_redis_client/registry.py:42-55 | a run that sees the close flag at step n runs every callback, in registration order, once per completed period; when an invocation raises, the run stops right after it and reports the raise, since the unguarded callbacks end the thread |
| Refresher.Attempted | prometheus_redis_client/registry.py:52-54 | the invocations attempted are the whole run, or its prefix up to and including the raising invocation |
| Refresher.PeriodReached | prometheus_redis_client/registry.py:46-50 | the elapsed counter reaches the period after exactly `Period` steps, not before |
| Refresher.StepCount | prometheus_redis_client/registry.py:49-50 | each step either moves the counter on or resets it with one refresh more |
| Refresher.DefaultRefreshes | prometheus_redis_client/registry.py:9-15 | with the defaults (period 30, granule 1) the callbacks run every 30 steps |
| Refresher.ZeroGranuleNeverRefreshes | prometheus_redis_client/registry.py:46-50 | a zero granule never reaches a positive period |
| Metrics.Decoded | prometheus_redis_client/metrics.py:23-24 | a member that does not read back is a `ValueError` |
| Metrics.DecodedMetricKey | prometheus_redis_client/metrics.py:23-24 | a key the library wrote reads back as its name with suffix and its labels in key order |
| Metrics.MemberSample | prometheus_redis_client/metrics.py:29-33 | the representation of a present member: its decoded name and labels, and its value as text |
| Metrics.Present | prometheus_redis_client/metrics.py:25-28 | the members kept are exactly those with a value, without duplicates |
| Metrics.Pruned | prometheus_redis_client/metrics.py:26-27 | pruning keeps values and other keys; a group member stays if and only if it has a value or was not visited |
| Metrics.PrunedStep | prometheus_redis_client/metrics.py:25-28 | a present member changes nothing; an absent one is `SREM`ed |
| Metrics.CollectPrunes | prometheus_redis_client/metrics.py:16-34 | after `collect`, every absent member has left the group and every present one stays |
| Metrics.CollectAllExpired | prometheus_redis_client/metrics.py:16-34 | when every member has expired, `collect` yields nothing and the group ends up empty |
| Metrics.ExpiryLeavesGroup | prometheus_redis_client/metrics.py:16-34 | expiry removes the values but leaves the group for `collect` to prune |
| Metrics.CollectOnePerPresentMember | prometheus_redis_client/metrics.py:16-34 | `collect` yields exactly one representation per group member with a value |
| Metrics.PresentSamples | prometheus_redis_client/metrics.py:29-33 | each yielded representation is that of a present member |
| Metrics.Visit | prometheus_redis_client/metrics.py:23-33 | one member: a parse error raises `ValueError`; a present one gives its representation; an absent one leaves the group |
| Metrics.CollectGroup | prometheus_redis_client/metrics.py:16-34 | `Metric.collect` raises `ConnectionError` when the store is unreachable and `ValueError` if and only if a member does not read back; otherwise it yields the present members' representations and prunes the absent ones |
| Metrics.CollectMembers | prometheus_redis_client/metrics.py:22-34 | the loop over the fetched members, in the order it meets them, with the same result |
| Metrics.CollectKeys | prometheus_redis_client/metrics.py:22-34 | the loop over a given order of members: the samples and the pruned store |
| Metrics.VisitNext | prometheus_redis_client/metrics.py:22-33 | one turn of the loop, stated against the store before the loop |
| Metrics.Enumerate | prometheus_redis_client/metrics.py:22 | a `for` over a set meets each member exactly once |
| Metrics.CheckInt | prometheus_redis_client/metrics.py:112-115 | only an `int` is accepted; anything else is `ValueError`, not `TypeError` |
| Metrics.CounterAmountChecks | prometheus_redis_client/metrics.py:109-116 | labels are checked before the value; with good labels only an `int` is accepted |
| Metrics.GaugeSetValueChecks | prometheus_redis_client/metrics.py:61-66 | `set(None)` raises `ValueError` after the label check and before any store access |
| Metrics.ExecuteForInt | prometheus_redis_client/metrics.py:126 | under `silent_wrapper`, the call returns the chosen reply, or `None` when the store is unreachable |
| Metrics.CounterIncReply | prometheus_redis_client/metrics.py:126 | the second reply of `inc`'s pipeline is the new total |
| Metrics.Counter.Inc | prometheus_redis_client/metrics.py:104-126 | a label or type error raises with the store untouched; otherwise the pipeline runs and the new total is returned, or `None` when the store is unreachable |
| Metrics.Counter.IncBy | prometheus_redis_client/metrics.py:118-126 | `_inc` under the wrapper |
| Metrics.Counter.Set | prometheus_redis_client/metrics.py:128-150 | like `inc`, but overwrites, and returns `SET`'s reply rather than the value |
| Metrics.CommonGaugeIncReply | prometheus_redis_client/metrics.py:97 | the second reply is the new value, with or without `EXPIRE` |
| Metrics.CommonGaugeDecReply | prometheus_redis_client/metrics.py:83-86 | `dec(v)`'s reply is the value less v, as for `inc(-v)` |
| Metrics.CommonGauge.Set | prometheus_redis_client/metrics.py:61-76 | labels checked, then `None` rejected; the pipeline runs with the effective expiry, leaving the store unchanged when unreachable; the call returns `None` in every non-raising case, since `set` has no `return` |
| Metrics.CommonGauge.Inc | prometheus_redis_client/metrics.py:78-81 | labels checked; the new value is returned, with the effective expiry |
| Metrics.CommonGauge.Dec | prometheus_redis_client/metrics.py:83-86 | `dec(v)` is `inc(-v)` |
| Metrics.CommonGauge.IncBy | prometheus_redis_client/metrics.py:88-97 | `_inc` under the wrapper |
| Metrics.CommonGauge.DecBy | prometheus_redis_client/metrics.py:86-97 | `_inc` of the negated value under the wrapper |
| Metrics.SummaryObserveReply | prometheus_redis_client/metrics.py:177 | the second reply is the new sum |
| Metrics.Summary.Observe | prometheus_redis_client/metrics.py:161-177 | labels checked; the pipeline adds the value to the sum and 1 to the count and returns the new sum, or `None` when unreachable |
| Gauges.Indexed | prometheus_redis_client/metrics.py:227 | `labels['gauge_index'] = index` sets that label and keeps the others |
| Gauges.Shadow | prometheus_redis_client/metrics.py:207-211 | the shadow map gains the key, and other entries are kept |
| Gauges.WriteIndex | prometheus_redis_client/metrics.py:224-238 | the index is allocated once and reused; without an index and without the store nothing changes; otherwise the labels get the index and the shadow map gets the key |
| Gauges.WriteShadowKeys | prometheus_redis_client/metrics.py:234 | the shadow map never holds the group key |
| Gauges.WriteWithoutStore | prometheus_redis_client/metrics.py:224-238 | with the store unreachable and an index already held, the caller's dict and the shadow map are still updated |
| Gauges.WriteWithStore | prometheus_redis_client/metrics.py:224-238 | a write that reaches the store: allocation, labels, pipeline, shadow entry and callback count together |
| Gauges.WriteStore | prometheus_redis_client/metrics.py:230-235 | the series joins the group with the gauge's expiry; `set` overwrites and `inc` adds, in the store and in the shadow map, starting from 0 |
| Gauges.WriteSent | prometheus_redis_client/metrics.py:224-238 | the written labels carry the allocated index, and the store is the pipeline's result |
| Gauges.SendEffect | prometheus_redis_client/metrics.py:230-235 | the pipeline writes only the series and the group |
| Gauges.AllocateCounter | prometheus_redis_client/metrics.py:269-272 | allocating an index `INCR`s the shared counter, and the index is its new value |
| Gauges.IndexedLabelsCheck | prometheus_redis_client/metrics.py:215-227 | after the index is written into the caller's dict, the dict passes `_check_labels` again only if `gauge_index` is a declared label |
| Gauges.SetTwiceOneSeries | prometheus_redis_client/metrics.py:245-262 | two `set`s with the same labels in any order leave one group member holding the second value |
| Gauges.CallbacksOverTwoWrites | prometheus_redis_client/metrics.py:200-205 | the first write registers `refresh_values` twice when refreshing is enabled (once unconditionally in `make_gauge_index`), once otherwise; the second write none |
| Gauges.GaugeHandleOperations | prometheus_redis_client/metrics.py:182 | a gauge handle forwards `inc` and `set`, and `dec` is a `TypeError` |
| Gauges.Refreshed | prometheus_redis_client/metrics.py:278-283 | every shadow entry is written back with the expiry; other keys are untouched |
| Gauges.Gauge.constructor | prometheus_redis_client/metrics.py:186-198 | a new gauge has an empty shadow map, no index, and no refresher registered |
| Gauges.Gauge.AddRefresher | prometheus_redis_client/metrics.py:200-205 | `refresh_values` is registered once, and only when refreshing is enabled |
| Gauges.Gauge.GetGaugeIndex | prometheus_redis_client/metrics.py:264-276 | the index is allocated on first use, registering `refresh_values`; later it is reused |
| Gauges.Gauge.WriteWith | prometheus_redis_client/metrics.py:223-262 | the new state, caller's dict and reply are those of `Gauges.Write`, and the refresher gains that many callbacks |
| Gauges.Gauge.WriteOnline | prometheus_redis_client/metrics.py:223-262 | the same, when the store can be reached |
| Gauges.Gauge.WriteOffline | prometheus_redis_client/metrics.py:223-262 | the same, when it cannot |
| Gauges.Gauge.Stage | prometheus_redis_client/metrics.py:226-234 | the index, the labels and the shadow entry before the pipeline runs |
| Gauges.Gauge.Remember | prometheus_redis_client/metrics.py:207-211 | `_set_internal` or `_inc_internal` |
| Gauges.Gauge.Push | prometheus_redis_client/metrics.py:235-237 | the pipeline, then `add_refresher` once it went through |
| Gauges.Gauge.CheckedWrite | prometheus_redis_client/metrics.py:213-243 | label check, then the write through the caller's dict or a new empty one |
| Gauges.Gauge.CheckedWriteFresh | prometheus_redis_client/metrics.py:214 | `labels or {}` with no labels: the write goes through a new dict |
| Gauges.Gauge.CheckedWriteInto | prometheus_redis_client/metrics.py:214-216 | given labels are checked and then receive the index |
| Gauges.Gauge.Inc | prometheus_redis_client/metrics.py:213-216 | `inc`: the checked write that adds |
| Gauges.Gauge.Dec | prometheus_redis_client/metrics.py:218-221 | `dec(v)` is the checked write that adds -v |
| Gauges.Gauge.Set | prometheus_redis_client/metrics.py:240-243 | `set`: the checked write that overwrites |
| Gauges.Gauge.RefreshValues | prometheus_redis_client/metrics.py:278-283 | every shadow entry is `SET` back with the expiry; it raises only when the store is unreachable and there is something to send |
| Gauges.Gauge.RefreshAll | prometheus_redis_client/metrics.py:280-283 | the loop over the shadow entries |
| Gauges.Gauge.Cleanup | prometheus_redis_client/metrics.py:285-294 | with no shadow values nothing happens; otherwise exactly the shadow keys leave the group and are deleted, or `ConnectionError` with nothing changed |
| Histograms.AfterVisits | prometheus_redis_client/metrics.py:317-320 | after the loop, `le` holds the last visited bound and the other labels are kept |
| Histograms.ObservedLe | prometheus_redis_client/metrics.py:317-320 | some bound is visited if and only if one is at or above the value; `le` is then the smallest such bound |
| Histograms.TakenSmallest | prometheus_redis_client/metrics.py:317-320 | the last visited bound is at most every bound at or above the value |
| Histograms.SecondObserveRejected | prometheus_redis_client/metrics.py:306-320 | a dict that received `le` fails `_check_labels` on the next observation unless `le` is declared |
| Histograms.BoundLabels | prometheus_redis_client/metrics.py:347-350 | a bucket's labels: the group's labels with `le` set to the bound |
| Histograms.BucketsOfIn | prometheus_redis_client/metrics.py:347-351 | the buckets of a group are exactly its labels with each bound |
| Histograms.SameGroupSameBucketsOf | prometheus_redis_client/metrics.py:343-352 | two series in the same group have the same buckets |
| Histograms.StoredBucketGroup | prometheus_redis_client/metrics.py:339-343 | a stored series written as a bucket of a group belongs to that group |
| Histograms.MissingSnoc | prometheus_redis_client/metrics.py:338-354 | one more series: a new group adds its buckets, then the series' own key leaves the missing set |
| Histograms.CandidatesFrom | prometheus_redis_client/metrics.py:330-352 | a candidate is a bucket of the empty group or of a stored series' group |
| Histograms.FilledExactlyOnce | prometheus_redis_client/metrics.py:329-387 | each bucket of the empty group and of each stored group is filled in exactly once when not stored, and never when stored |
| Histograms.FilledAreBuckets | prometheus_redis_client/metrics.py:329-387 | every filled-in bucket is such a bucket and is not stored |
| Histograms.DumpsJsonLike | prometheus_redis_client/metrics.py:333-350 | `json.dumps` writes the same mapping the same way, only `{}` as `{}`, and never a lone brace; so the two-character set `set("{}")` never matches a group |
| Histograms.ZeroBuckets | prometheus_redis_client/metrics.py:363-369 | one zero-valued `_bucket` series per missing bucket, its labels read back from the JSON |
| Histograms.ZeroBucketLabels | prometheus_redis_client/metrics.py:366 | a filled-in bucket reads back as its group's labels plus its bound, in key order |
| Histograms.MissingStep | prometheus_redis_client/metrics.py:338-354 | one loop turn of `_get_missing_metric_values` in terms of its specification |
| Histograms.Histogram.constructor | prometheus_redis_client/metrics.py:301-303 | the bounds are kept descending and are a permutation of those given |
| Histograms.Histogram.Observe | prometheus_redis_client/metrics.py:306-327 | label check; the pipeline increments exactly the buckets at or above the value, plus `_count` and `_sum`; the caller's dict keeps the last `le` |
| Histograms.Histogram.ObserveFresh | prometheus_redis_client/metrics.py:307-309 | no labels: the label check, then the observation through a new dict |
| Histograms.Histogram.ObserveGiven | prometheus_redis_client/metrics.py:307-309 | given labels: checked, then written into |
| Histograms.Histogram.ObserveWith | prometheus_redis_client/metrics.py:311-327 | `_a_observe`: the pipeline sent and the caller's dict afterwards |
| Histograms.Histogram.QueueBuckets | prometheus_redis_client/metrics.py:317-323 | the loop: `SADD`/`INCR` per visited bound, and `le` written at each step |
| Histograms.Histogram.MissingValues | prometheus_redis_client/metrics.py:329-355 | the missing set is the buckets of every group not already stored, and `sc_flag` holds if and only if no stored series is in the empty group |
| Histograms.Histogram.VisitSeries | prometheus_redis_client/metrics.py:339-354 | one stored series: groups, missing set and flag afterwards |
| Histograms.Histogram.AddBounds | prometheus_redis_client/metrics.py:347-351 | the inner loop adds every bucket of the group |
| Histograms.Histogram.FillMissing | prometheus_redis_client/metrics.py:359-387 | the stored series, then each missing bucket once at 0, then zero `_sum` and `_count` exactly when `sc_flag` |
| Histograms.Histogram.Collect | prometheus_redis_client/metrics.py:357-387 | `Metric.collect`'s result and pruning, completed with the missing buckets as `FillMissing` states |
| Registry.Names | prometheus_redis_client/registry.py:79-84 | the set of names of the metrics |
| Registry.Outputs | prometheus_redis_client/registry.py:71-75 | each representation rendered by `output`, in order |
| Registry.RenderedSection | prometheus_redis_client/registry.py:66-76 | the lines are, metric by metric in registration order, the header followed by that metric's rendered series sorted ascending |
| Registry.SortedLinesUnique | prometheus_redis_client/registry.py:71-73 | the sorted lines do not depend on the order `collect` returned the series in |
| Registry.RenderedSnoc | prometheus_redis_client/registry.py:68-73 | one more metric appends its section to the lines |
| Registry.TraceSnoc | prometheus_redis_client/registry.py:68-70 | one more `collect` extends the run of collects, each starting from the store the last one left |
| Registry.CollectOf | prometheus_redis_client/registry.py:70 | `metric.collect()` for any kind: the `Metric.collect` or `Histogram.collect` result and the pruned group, or `ConnectionError`/`ValueError` |
| Registry.Shadows | prometheus_redis_client/registry.py:103-104 | what each metric's `cleanup` deletes, in order |
| Registry.NothingCleaned | prometheus_redis_client/registry.py:103-104 | without a gauge holding shadow values, cleaning up leaves the store as it was |
| Registry.CleanedUpStep | prometheus_redis_client/registry.py:103-104 | one more `cleanup`: the store after it, and whether anything was left to clean |
| Registry.CleanupOf | prometheus_redis_client/metrics.py:36-37 | `cleanup` does nothing for the other kinds and is `Gauge.cleanup` for a gauge |
| Registry.Registry.constructor | prometheus_redis_client/registry.py:60-64 | a new registry has no metrics and holds the given store and refresher |
| Registry.Registry.AddMetric | prometheus_redis_client/registry.py:78-92 | a new name that is already registered raises `ValueError` listing exactly the doubles, and nothing is appended; otherwise every metric is appended in argument order, duplicates within the call included; every registered metric writes to the registry's store and every gauge registers with its refresher, as `self.registry` makes them |
| Registry.Registry.Output | prometheus_redis_client/registry.py:66-76 | no metrics: `""`; otherwise the first failing `collect` raises; on success each metric was collected in turn from the store the previous one left, and the text is the `"\n"`-join of every header followed by its sorted lines |
| Registry.Registry.CollectNext | prometheus_redis_client/registry.py:68-70 | one `collect` of `output`'s loop extends the run of collects |
| Registry.Registry.CleanupAndStop | prometheus_redis_client/registry.py:100-105 | the refresher is back in its initial state, and since every registered gauge registers with that refresher, no gauge callback stays registered and the loop is not enabled; every metric runs `cleanup` in order and the list is emptied; a gauge whose cleanup cannot reach the store raises and leaves the list as it was |

## Left out

- `exposition.py`, the Django example, `setup.py` and the tests' Redis connection: they are callers and I/O, not the core.
- Floats: values, amounts and bucket bounds are integers. `incrbyfloat` and the float text Redis stores (`"1.0"`, `28.4`) are not modelled. `Counter`'s `isinstance(value, int)` check is kept by marking a value as integer or float.
- Redis itself: the client and its transport are not modelled. The network is the `available` flag, and time passing is an explicit `Tick`.
- Set iteration order: `collect`, `add_metric`'s message and `_get_missing_metric_values` iterate over sets. The models visit them in some order fixed by `Metrics.Enumerate`, and the contracts hold for every order.
- Registry.Registry.Output: states, for each metric, that some visiting order of its group produced the collected series, and does not say which order.
- Histograms.Histogram.MissingValues: takes the JSON writer as a parameter, with the properties of `json.dumps` it relies on as a precondition. `Histogram.Collect` passes `Json.Dumps` itself.
- Threads and locks: the `Gauge` lock, the `Refresher`'s thread, `join` and `time.sleep` are not modelled. `refresh_cycle` is a method told at which step it first sees the close flag and which invocation, if any, raises. It returns the sequence of callback invocations rather than performing them.
- `helpers.timeit` and the `timeit` partials of `Summary` and `Histogram`: they read the wall clock.
- `async_silent_wrapper`: it is asynchronous.
- `print` in `Summary.observe` and the logging in `silent_wrapper`: they have no effect on state.
- `Registry.set_redis` and `set_refresher`: the store and the refresher are fixed when a registry is made, and registration requires every metric to use the registry's store.
- Registration from `BaseMetric.__init__`: the metric constructors do not call `add_metric`. `Registry.Registry.AddMetric` is a separate call.
- `labels or {}` for `Counter`, `CommonGauge` and `Summary`: they take the label dict as a value, because they never write into it.
- Pipelines.EffectiveExpire: an expiry of 0 stands for Python's `None`, so `None` and an explicit `0` are not told apart. For a `CommonGauge` whose call and instance expiries are both `0`, `set` sends `SET k v EX 0`; Redis refuses it, and `silent_wrapper` swallows the error, so the value is not written. The model writes the value with no time to live instead. `inc` is unaffected, because `if expire:` skips a 0.
- Gauges.Gauge.constructor: the expiry is a positive number of seconds (`Gauges.Seconds`). Python also accepts `expire=None`, with which `set` writes without a time to live and `inc` sends `EXPIRE k None`, which is refused; and `expire=0`, with which `set` sends a refused `EX 0` and `inc`'s `EXPIRE k 0` deletes the series just written. Neither is modelled.
- BaseMetric.GetAttr: the attributes inherited from `object` are those of Python 3 before 3.11 (3.11 adds `__getstate__`); other names of the class hierarchy, such as `__class__`'s own attributes, are not listed.
- Base64.Decode: accepts only canonical padded input. Python's non-validating `b64decode` also skips characters outside the alphabet.
- Json.Loads: parses the canonical form that `json.dumps(sort_keys=True)` writes (flat objects of strings and integers), not all of JSON.
