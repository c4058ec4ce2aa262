/**
 * `Registry`: the metrics registered under unique names, their text rendering, and the
 * shutdown that stops the refresher and cleans every metric up.
 */
module Registry {
  import opened Errors
  import opened Store
  import opened BaseMetric
  import opened Pipelines
  import opened Metrics
  import Text
  import Gauges
  import Histograms
  import R = Refresher

  /** A registered metric, of any of the library's kinds. */
  datatype AnyMetric =
    | CounterMetric(counter: Counter)
    | CommonGaugeMetric(commonGauge: CommonGauge)
    | SummaryMetric(summary: Summary)
    | GaugeMetric(gauge: Gauges.Gauge)
    | HistogramMetric(histogram: Histograms.Histogram)

  function NameOf(m: AnyMetric): string
  {
    match m
    case CounterMetric(c) => c.name
    case CommonGaugeMetric(c) => c.name
    case SummaryMetric(s) => s.name
    case GaugeMetric(g) => g.name
    case HistogramMetric(h) => h.name
  }

  /** The class attribute `type`. */
  function KindOf(m: AnyMetric): string
  {
    match m
    case CounterMetric(_) => "counter"
    case CommonGaugeMetric(_) => "gauge"
    case SummaryMetric(_) => "summary"
    case GaugeMetric(_) => "gauge"
    case HistogramMetric(_) => "histogram"
  }

  function DocumentationOf(m: AnyMetric): string
  {
    match m
    case CounterMetric(c) => c.documentation
    case CommonGaugeMetric(c) => c.documentation
    case SummaryMetric(s) => s.documentation
    case GaugeMetric(g) => g.documentation
    case HistogramMetric(h) => h.documentation
  }

  /** The store the metric talks to: its registry's `redis`. */
  function StoreOf(m: AnyMetric): Redis
  {
    match m
    case CounterMetric(c) => c.redis
    case CommonGaugeMetric(c) => c.redis
    case SummaryMetric(s) => s.redis
    case GaugeMetric(g) => g.redis
    case HistogramMetric(h) => h.redis
  }

  /** `metric.registry` is the registry of this store and refresher: the metric writes to the one, a gauge registers with the other. */
  predicate BoundTo(m: AnyMetric, redis: Redis, refresher: R.Refresher<Gauges.Gauge>)
  {
    StoreOf(m) == redis && (m.GaugeMetric? ==> m.gauge.refresher == refresher)
  }

  /** `doc_string().output()`. */
  function DocOf(m: AnyMetric): string
  {
    DocHeader(NameOf(m), KindOf(m), DocumentationOf(m))
  }

  function Names(ms: seq<AnyMetric>): (r: set<string>)
    ensures forall n :: n in r <==> exists i :: 0 <= i < |ms| && NameOf(ms[i]) == n
  {
    set i | 0 <= i < |ms| :: NameOf(ms[i])
  }

  /** The message of the `ValueError` of `add_metric`. */
  function AlreadyAdded(doubles: seq<string>): string
  {
    "Metrics " + Text.Join(", ", doubles) + " already added"
  }

  // ---------------------------------------------------------------------------------------
  // `output`

  /** The rendered lines of some samples, in their order. */
  function Outputs(samples: seq<Sample>): (r: seq<string>)
    ensures |r| == |samples| && forall i :: 0 <= i < |r| ==> r[i] == Output(samples[i])
  {
    seq(|samples|, i requires 0 <= i < |samples| => Output(samples[i]))
  }

  /** The lists of `all_metric` laid end to end. */
  function Flatten<T>(xss: seq<seq<T>>): seq<T>
    decreases |xss|
  {
    if |xss| == 0 then [] else Flatten(xss[..|xss| - 1]) + xss[|xss| - 1]
  }

  lemma {:induction false} FlattenAppend<T>(a: seq<seq<T>>, b: seq<seq<T>>)
    ensures Flatten(a + b) == Flatten(a) + Flatten(b)
    decreases |b|
  {
    if |b| > 0 {
      var n := |b| - 1;
      assert (a + b)[..|a| + n] == a + b[..n];
      FlattenAppend(a, b[..n]);
    } else {
      assert a + b == a;
    }
  }

  /** One metric's part of `output`: its header, then its series sorted by their text. */
  function Section(m: AnyMetric, samples: seq<Sample>): seq<string>
  {
    [DocOf(m)] + Text.SortStrings(Outputs(samples))
  }

  function Sections(ms: seq<AnyMetric>, collected: seq<seq<Sample>>): (r: seq<seq<string>>)
    requires |ms| == |collected|
    ensures |r| == |ms| && forall i :: 0 <= i < |r| ==> r[i] == Section(ms[i], collected[i])
  {
    seq(|ms|, i requires 0 <= i < |ms| => Section(ms[i], collected[i]))
  }

  /** All the lines of `output`: for each metric in turn, its header and then its sorted lines. */
  function Rendered(ms: seq<AnyMetric>, collected: seq<seq<Sample>>): seq<string>
    requires |ms| == |collected|
  {
    Flatten(Sections(ms, collected))
  }

  /**
   * The layout of `output`'s lines: the metrics in registration order, each one's header
   * right before its own lines, which are sorted and are exactly the rendered samples its
   * `collect` gave.
   */
  lemma RenderedSection(ms: seq<AnyMetric>, collected: seq<seq<Sample>>, i: nat)
    requires |ms| == |collected| && i < |ms|
    ensures Rendered(ms, collected)
            == Rendered(ms[..i], collected[..i]) + (Section(ms[i], collected[i]) + Rendered(ms[i + 1..], collected[i + 1..]))
    ensures var lines := Section(ms[i], collected[i])[1..];
            Section(ms[i], collected[i])[0] == DocOf(ms[i])
            && Text.Sorted(lines) && multiset(lines) == multiset(Outputs(collected[i]))
  {
    var ss := Sections(ms, collected);
    var before, after := Sections(ms[..i], collected[..i]), Sections(ms[i + 1..], collected[i + 1..]);
    assert before == ss[..i] by {
      forall k | 0 <= k < i ensures before[k] == ss[k] {
        assert ms[..i][k] == ms[k] && collected[..i][k] == collected[k];
      }
    }
    assert after == ss[i + 1..] by {
      forall k | 0 <= k < |ms| - i - 1 ensures after[k] == ss[i + 1 + k] {
        assert ms[i + 1..][k] == ms[i + 1 + k] && collected[i + 1..][k] == collected[i + 1 + k];
      }
    }
    FlattenAt(ss, i);
  }

  lemma FlattenAt<T>(ss: seq<seq<T>>, i: nat)
    requires i < |ss|
    ensures Flatten(ss) == Flatten(ss[..i]) + (ss[i] + Flatten(ss[i + 1..]))
  {
    FlattenSplit(ss, i + 1);
    assert ss[..i + 1][..i] == ss[..i];
    Associative(Flatten(ss[..i]), ss[i], Flatten(ss[i + 1..]));
  }

  lemma FlattenSplit<T>(ss: seq<seq<T>>, k: nat)
    requires k <= |ss|
    ensures Flatten(ss) == Flatten(ss[..k]) + Flatten(ss[k..])
  {
    assert ss == ss[..k] + ss[k..];
    FlattenAppend(ss[..k], ss[k..]);
  }

  lemma Associative<T>(a: seq<T>, b: seq<T>, c: seq<T>)
    ensures (a + b) + c == a + (b + c)
  {
  }

  /**
   * `sorted(ms, key=lambda x: x.output())` followed by rendering gives the one sorted
   * arrangement of the rendered lines, whichever order `collect` returned them in.
   */
  lemma SortedLinesUnique(samples: seq<Sample>, lines: seq<string>)
    requires Text.Sorted(lines) && multiset(lines) == multiset(Outputs(samples))
    ensures lines == Text.SortStrings(Outputs(samples))
  {
    Text.SortedUnique(lines, Text.SortStrings(Outputs(samples)));
  }

  /** The series a metric's `collect` reads back from `db`: each group member once, all decodable. */
  ghost predicate ReadBack(db: DB, g: string, order: seq<string>)
  {
    NoDuplicates(order)
    && (forall k :: k in order <==> k in Members(db, g))
    && (forall k :: k in order ==> Decoded(k).Returned?)
  }

  /** What the metric's `collect` returns on `db`: `Metric.collect`, or `Histogram.collect`. */
  ghost predicate Collected(m: AnyMetric, db: DB, samples: seq<Sample>)
  {
    exists order: seq<string> ::
      ReadBack(db, GroupKey(NameOf(m)), order)
      && if m.HistogramMetric? then
           exists zeros: seq<string> :: m.histogram.FilledIn(Samples(db, Present(db, order)), zeros, samples)
         else samples == Samples(db, Present(db, order))
  }

  /** The store after a metric's `collect`: the members without a value are out of its group. */
  function AfterCollect(m: AnyMetric, db: DB): DB
  {
    Pruned(db, GroupKey(NameOf(m)), Members(db, GroupKey(NameOf(m))))
  }

  /** One more metric rendered: its section follows the others'. */
  lemma RenderedSnoc(ms: seq<AnyMetric>, collected: seq<seq<Sample>>, m: AnyMetric, samples: seq<Sample>)
    requires |ms| == |collected|
    ensures Rendered(ms + [m], collected + [samples]) == Rendered(ms, collected) + Section(m, samples)
  {
    var ss := Sections(ms + [m], collected + [samples]);
    assert ss[..|ms|] == Sections(ms, collected) by {
      forall k | 0 <= k < |ms| ensures ss[k] == Sections(ms, collected)[k] {
        assert (ms + [m])[k] == ms[k] && (collected + [samples])[k] == collected[k];
      }
    }
    assert ss[|ms|] == Section(m, samples) by {
      assert (ms + [m])[|ms|] == m && (collected + [samples])[|ms|] == samples;
    }
  }

  /**
   * The run of `collect` calls in `output`: `states[j]` is the store metric `j` read, each
   * call leaves its group pruned for the next, and `db` is the store after the last.
   */
  ghost predicate Trace(ms: seq<AnyMetric>, db0: DB, collected: seq<seq<Sample>>, states: seq<DB>, db: DB)
  {
    |collected| == |ms| && |states| == |ms|
    && (ms == [] ==> db == db0)
    && (ms != [] ==> states[0] == db0 && db == AfterCollect(ms[|ms| - 1], states[|ms| - 1]))
    && (forall j :: 0 < j < |ms| ==> states[j] == AfterCollect(ms[j - 1], states[j - 1]))
    && (forall j :: 0 <= j < |ms| ==> Collected(ms[j], states[j], collected[j]))
  }

  lemma TraceSnoc(ms: seq<AnyMetric>, db0: DB, collected: seq<seq<Sample>>, states: seq<DB>, db: DB,
                  m: AnyMetric, samples: seq<Sample>)
    requires Trace(ms, db0, collected, states, db) && Collected(m, db, samples)
    ensures Trace(ms + [m], db0, collected + [samples], states + [db], AfterCollect(m, db))
  {
    var ms', cs', ss' := ms + [m], collected + [samples], states + [db];
    forall j | 0 <= j < |ms'| ensures Collected(ms'[j], ss'[j], cs'[j]) {
      if j < |ms| {
        assert ms'[j] == ms[j] && ss'[j] == states[j] && cs'[j] == collected[j];
      }
    }
    forall j | 0 < j < |ms'| ensures ss'[j] == AfterCollect(ms'[j - 1], ss'[j - 1]) {
      if j < |ms| {
        assert ms'[j - 1] == ms[j - 1] && ss'[j - 1] == states[j - 1] && ss'[j] == states[j];
      } else {
        assert ms'[j - 1] == ms[|ms| - 1] && ss'[j - 1] == states[|ms| - 1] && ss'[j] == db;
      }
    }
  }

  /** `metric.collect()`, for a metric of any kind. */
  method CollectOf(m: AnyMetric) returns (r: Outcome<seq<Sample>>)
    modifies StoreOf(m)
    ensures StoreOf(m).available == old(StoreOf(m).available)
    ensures StoreOf(m).db.values == old(StoreOf(m).db.values) && StoreOf(m).db.ttl == old(StoreOf(m).db.ttl)
    ensures !old(StoreOf(m).available) ==> r == Raised(ConnectionError) && StoreOf(m).db == old(StoreOf(m).db)
    ensures r.Raised? ==> r.error == ConnectionError || r.error.ValueError?
    ensures r.Returned? ==>
              Collected(m, old(StoreOf(m).db), r.value) && StoreOf(m).db == AfterCollect(m, old(StoreOf(m).db))
  {
    ghost var db := StoreOf(m).db;
    ghost var order: seq<string>;
    match m
    case CounterMetric(c) =>
      r, order := CollectGroup(c.redis, c.name);
      if r.Returned? { GroupCollected(m, db, order, r.value); }
    case CommonGaugeMetric(c) =>
      r, order := CollectGroup(c.redis, c.name);
      if r.Returned? { GroupCollected(m, db, order, r.value); }
    case SummaryMetric(s) =>
      r, order := CollectGroup(s.redis, s.name);
      if r.Returned? { GroupCollected(m, db, order, r.value); }
    case GaugeMetric(g) =>
      r, order := CollectGroup(g.redis, g.name);
      if r.Returned? { GroupCollected(m, db, order, r.value); }
    case HistogramMetric(h) =>
      ghost var zeros;
      r, order, zeros := h.Collect();
      if r.Returned? { HistogramCollected(m, db, order, zeros, r.value); }
  }

  lemma GroupCollected(m: AnyMetric, db: DB, order: seq<string>, samples: seq<Sample>)
    requires !m.HistogramMetric? && ReadBack(db, GroupKey(NameOf(m)), order)
    requires samples == Samples(db, Present(db, order))
    ensures Collected(m, db, samples)
  {
  }

  lemma HistogramCollected(m: AnyMetric, db: DB, order: seq<string>, zeros: seq<string>, samples: seq<Sample>)
    requires m.HistogramMetric? && ReadBack(db, GroupKey(NameOf(m)), order)
    requires m.histogram.FilledIn(Samples(db, Present(db, order)), zeros, samples)
    ensures Collected(m, db, samples)
  {
  }

  // ---------------------------------------------------------------------------------------
  // `cleanup_and_stop`

  /** The gauges among the metrics: the only ones whose `cleanup` does anything. */
  function GaugesOf(ms: seq<AnyMetric>): set<Gauges.Gauge>
  {
    set i | 0 <= i < |ms| && ms[i].GaugeMetric? :: ms[i].gauge
  }

  /** What a metric's `cleanup` deletes: a gauge's name and the keys of its shadow values, if any. */
  type Shadow = Option<(string, set<string>)>

  ghost function ShadowOf(m: AnyMetric): Shadow
    reads if m.GaugeMetric? then {m.gauge} else {}
  {
    if m.GaugeMetric? && m.gauge.gaugeValues != map[] then Some((m.gauge.name, m.gauge.gaugeValues.Keys))
    else None
  }

  /** The shadows of the metrics, in order. */
  ghost function Shadows(ms: seq<AnyMetric>): (r: seq<Shadow>)
    reads GaugesOf(ms)
    ensures |r| == |ms| && forall i :: 0 <= i < |ms| ==> r[i] == ShadowOf(ms[i])
    decreases |ms|
  {
    if |ms| == 0 then []
    else
      var n := |ms| - 1;
      assert GaugesOf(ms[..n]) <= GaugesOf(ms) by {
        forall g | g in GaugesOf(ms[..n]) ensures g in GaugesOf(ms) {
          var i :| 0 <= i < n && ms[..n][i].GaugeMetric? && ms[..n][i].gauge == g;
          assert ms[i] == ms[..n][i];
        }
      }
      Shadows(ms[..n]) + [ShadowOf(ms[n])]
  }

  /** The store once every metric has run `cleanup`, in order, with the store reachable. */
  function CleanedUp(db: DB, shadows: seq<Shadow>): DB
    decreases |shadows|
  {
    if |shadows| == 0 then db
    else
      var n := |shadows| - 1;
      var before := CleanedUp(db, shadows[..n]);
      match shadows[n]
      case None => before
      case Some((name, keys)) => Exec(before, GaugeCleanup(name, keys)).0
  }

  /** Metrics whose `cleanup` would not reach the store: none is a gauge holding shadow values. */
  predicate NothingToClean(shadows: seq<Shadow>)
  {
    forall i :: 0 <= i < |shadows| ==> shadows[i].None?
  }

  /** Without a gauge holding shadow values, cleaning up leaves the store as it was. */
  lemma {:induction false} NothingCleaned(db: DB, shadows: seq<Shadow>)
    requires NothingToClean(shadows)
    ensures CleanedUp(db, shadows) == db
    decreases |shadows|
  {
    if |shadows| > 0 {
      var n := |shadows| - 1;
      assert NothingToClean(shadows[..n]) by {
        forall i | 0 <= i < n ensures shadows[..n][i].None? {
          assert shadows[..n][i] == shadows[i];
        }
      }
      NothingCleaned(db, shadows[..n]);
    }
  }

  /** One more metric cleaned up. */
  lemma CleanedUpStep(db: DB, shadows: seq<Shadow>, i: nat)
    requires i < |shadows|
    ensures CleanedUp(db, shadows[..i + 1])
            == match shadows[i]
               case None => CleanedUp(db, shadows[..i])
               case Some((name, keys)) => Exec(CleanedUp(db, shadows[..i]), GaugeCleanup(name, keys)).0
    ensures NothingToClean(shadows[..i + 1]) <==> NothingToClean(shadows[..i]) && shadows[i].None?
  {
    var pre, init := shadows[..i + 1], shadows[..i];
    assert pre[..i] == init && pre[i] == shadows[i];
    if NothingToClean(init) && shadows[i].None? {
      forall j | 0 <= j < i + 1 ensures pre[j].None? {
        if j < i { assert pre[j] == init[j]; }
      }
    }
    if NothingToClean(pre) {
      forall j | 0 <= j < i ensures init[j].None? {
        assert pre[j] == init[j];
      }
    }
  }

  class Registry {
    var metrics: seq<AnyMetric>
    const redis: Redis
    const refresher: R.Refresher<Gauges.Gauge>

    /**
     * Every registered metric talks to this registry's store, and every gauge registers its
     * callback with this registry's refresher.
     */
    ghost predicate Valid()
      reads this
    {
      forall i :: 0 <= i < |metrics| ==> BoundTo(metrics[i], redis, refresher)
    }

    constructor (redis: Redis, refresher: R.Refresher<Gauges.Gauge>)
      ensures this.redis == redis && this.refresher == refresher
      ensures metrics == [] && Valid()
    {
      this.redis := redis;
      this.refresher := refresher;
      metrics := [];
    }

    /**
     * `add_metric`: when a new name is already registered, `ValueError` naming the doubles
     * and nothing added; otherwise every new metric is appended, in order. Two metrics of
     * the same name in one call are both accepted.
     */
    method AddMetric(ms: seq<AnyMetric>) returns (r: Outcome<()>, ghost doubles: seq<string>)
      requires Valid() && forall i :: 0 <= i < |ms| ==> BoundTo(ms[i], redis, refresher)
      modifies this
      ensures Valid()
      ensures Names(old(metrics)) * Names(ms) == {} ==> r == Returned(()) && metrics == old(metrics) + ms
      ensures Names(old(metrics)) * Names(ms) != {} ==>
                r == Raised(ValueError(AlreadyAdded(doubles))) && metrics == old(metrics)
                && NoDuplicates(doubles) && forall n :: n in doubles <==> n in Names(old(metrics)) * Names(ms)
    {
      var alreadyAdded := Names(metrics);
      var newMetrics := Names(ms);
      var found := alreadyAdded * newMetrics;
      doubles := [];
      if found != {} {
        var listed := Enumerate(found);
        doubles := listed;
        return Raised(ValueError(AlreadyAdded(listed))), doubles;
      }
      for i := 0 to |ms|
        invariant metrics == old(metrics) + ms[..i]
        invariant Valid()
      {
        metrics := metrics + [ms[i]];
      }
      assert ms[..|ms|] == ms;
      r := Returned(());
    }

    /**
     * `output`: for each metric in turn, its header, then its collected series sorted by
     * their rendered text, all joined by line breaks. The first `collect` that raises ends
     * it. `states` are the store before each `collect`; each one only prunes its own group.
     */
    method Output() returns (r: Outcome<string>, ghost collected: seq<seq<Sample>>, ghost states: seq<DB>)
      requires Valid()
      modifies redis
      ensures redis.available == old(redis.available)
      ensures redis.db.values == old(redis.db.values) && redis.db.ttl == old(redis.db.ttl)
      ensures metrics == [] ==> r == Returned("") && redis.db == old(redis.db)
      ensures metrics != [] && !old(redis.available) ==> r == Raised(ConnectionError)
      ensures r.Raised? ==> r.error == ConnectionError || r.error.ValueError?
      ensures r.Returned? ==>
                Trace(metrics, old(redis.db), collected, states, redis.db)
                && r.value == Text.Join("\n", Rendered(metrics, collected))
    {
      var lines: seq<string> := [];
      collected, states := [], [];
      for i := 0 to |metrics|
        invariant |collected| == i
        invariant lines == Rendered(metrics[..i], collected)
        invariant redis.available == old(redis.available) && (i > 0 ==> old(redis.available))
        invariant redis.db.values == old(redis.db.values) && redis.db.ttl == old(redis.db.ttl)
        invariant Trace(metrics[..i], old(redis.db), collected, states, redis.db)
      {
        var m := metrics[i];
        ghost var before := redis.db;
        var samples := CollectNext(m, metrics[..i], old(redis.db), collected, states);
        if samples.Raised? {
          return Raised(samples.error), collected, states;
        }
        TakeOneMore(metrics, i);
        RenderedSnoc(metrics[..i], collected, m, samples.value);
        lines := lines + ([DocOf(m)] + Text.SortStrings(Outputs(samples.value)));
        collected := collected + [samples.value];
        states := states + [before];
      }
      assert metrics[..|metrics|] == metrics;
      r := Returned(Text.Join("\n", lines));
    }

    /** One more `collect` in `output`: the run so far grows by one metric. */
    method CollectNext(m: AnyMetric, ghost done: seq<AnyMetric>, ghost db0: DB,
                       ghost collected: seq<seq<Sample>>, ghost states: seq<DB>) returns (r: Outcome<seq<Sample>>)
      requires StoreOf(m) == redis && Trace(done, db0, collected, states, redis.db)
      modifies redis
      ensures redis.available == old(redis.available)
      ensures redis.db.values == old(redis.db.values) && redis.db.ttl == old(redis.db.ttl)
      ensures !old(redis.available) ==> r == Raised(ConnectionError)
      ensures r.Raised? ==> r.error == ConnectionError || r.error.ValueError?
      ensures r.Returned? ==> Trace(done + [m], db0, collected + [r.value], states + [old(redis.db)], redis.db)
    {
      ghost var before := redis.db;
      r := CollectOf(m);
      if r.Returned? {
        TraceSnoc(done, db0, collected, states, before, m, r.value);
      }
    }

    /**
     * `cleanup_and_stop`: the refresher is stopped and reset, then every metric runs
     * `cleanup` in order, and the list is emptied. A gauge whose `cleanup` cannot reach the
     * store raises, and the list is then left as it was.
     */
    method CleanupAndStop() returns (r: Outcome<()>)
      requires Valid()
      modifies this, refresher, redis
      ensures refresher.Initial() && refresher.Valid()
      ensures forall i :: 0 <= i < |old(metrics)| && old(metrics)[i].GaugeMetric? ==>
                old(metrics)[i].gauge.refresher.functions == [] && !old(metrics)[i].gauge.refresher.enabled
      ensures redis.available == old(redis.available)
      ensures old(redis.available) ==>
                r == Returned(()) && metrics == [] && redis.db == CleanedUp(old(redis.db), old(Shadows(metrics)))
      ensures !old(redis.available) ==> redis.db == old(redis.db)
      ensures !old(redis.available) ==>
                (r.Returned? <==> NothingToClean(old(Shadows(metrics))))
                && (r.Returned? ==> metrics == []) && (r.Raised? ==> r.error == ConnectionError && metrics == old(metrics))
    {
      ghost var shadows := Shadows(metrics);
      refresher.CleanupAndStop();
      for i := 0 to |metrics|
        invariant metrics == old(metrics)
        invariant redis.available == old(redis.available)
        invariant old(redis.available) ==> redis.db == CleanedUp(old(redis.db), shadows[..i])
        invariant !old(redis.available) ==> redis.db == old(redis.db) && NothingToClean(shadows[..i])
        invariant refresher.Initial() && refresher.Valid()
      {
        assert ShadowOf(metrics[i]) == shadows[i];
        var c := CleanupOf(metrics[i]);
        CleanedUpStep(old(redis.db), shadows, i);
        if c.Raised? {
          assert !NothingToClean(shadows) by {
            assert shadows[i].Some?;
          }
          return c;
        }
      }
      assert shadows[..|metrics|] == shadows;
      metrics := [];
      r := Returned(());
    }
  }

  /** `metric.cleanup()`: a gauge's series are deleted; for the other kinds it does nothing. */
  method CleanupOf(m: AnyMetric) returns (r: Outcome<()>)
    modifies StoreOf(m)
    ensures StoreOf(m).available == old(StoreOf(m).available)
    ensures ShadowOf(m) == old(ShadowOf(m))
    ensures ShadowOf(m).None? ==> r == Returned(()) && StoreOf(m).db == old(StoreOf(m).db)
    ensures ShadowOf(m).Some? ==>
              (old(StoreOf(m).available) ==>
                 r == Returned(()) && StoreOf(m).db == Exec(old(StoreOf(m).db), GaugeCleanup(ShadowOf(m).value.0, ShadowOf(m).value.1)).0)
              && (!old(StoreOf(m).available) ==> r == Raised(ConnectionError) && StoreOf(m).db == old(StoreOf(m).db))
  {
    match m
    case GaugeMetric(g) =>
      r := g.Cleanup();
    case _ =>
      r := Returned(());
  }
}
