/**
 * `Gauge`: each process keeps its own series, told apart by a `gauge_index` label that the
 * instance allocates from a shared counter on its first write. Every write is mirrored in a
 * per-instance shadow map, which the refresher writes back to the store periodically so
 * that the series of a live process do not expire, and which `cleanup` removes.
 */
module Gauges {
  import opened Errors
  import opened Dicts
  import opened Store
  import opened BaseMetric
  import opened Pipelines
  import R = Refresher

  /** A positive number of seconds, as `EXPIRE` and `SET ... EX` take it. */
  type Seconds = n: nat | n > 0 witness 1

  const DefaultGaugeIndexKey: string := "GLOBAL_GAUGE_INDEX"
  const DefaultExpire: Seconds := 60
  const IndexLabel: string := "gauge_index"

  /** A handle of a gauge forwards these, and not `dec`. */
  const GaugeOperations: seq<string> := ["inc", "set"]

  /** What a write does to its series: `_inc` adds to it, `_set` overwrites it. */
  datatype Op = Add(amount: int) | Overwrite(value: int)

  /** The gauge's settings, fixed when it is made. */
  datatype Config = Config(name: string, expire: Seconds, refreshEnable: bool, indexKey: string)

  /**
   * What a write reads and changes: the store and whether it can be reached, the instance's
   * index, its shadow values and whether it has added its refresher.
   */
  datatype View = View(db: DB, available: bool, index: Option<int>, shadow: map<string, int>, added: bool)

  /**
   * What a write leaves: the new view, the caller's labels once written into, the number of
   * times it registered the instance's `refresh_values`, and the replies, or `None` when
   * the wrapper swallowed a connection error.
   */
  datatype Written = Written(after: View, labels: Labels, callbacks: nat, reply: Option<seq<Reply>>)

  /** `labels['gauge_index'] = index`. */
  function Indexed(labels: Labels, index: int): (r: Labels)
    ensures Get(r, IndexLabel) == Some(Num(index))
    ensures forall k :: k != IndexLabel ==> Get(r, k) == Get(labels, k)
  {
    Put(labels, IndexLabel, Num(index))
  }

  /** `_inc_internal` and `_set_internal` on a `defaultdict` whose missing entries read as 0. */
  function Shadow(m: map<string, int>, key: string, op: Op): (r: map<string, int>)
    ensures r.Keys == m.Keys + {key}
    ensures forall k :: k in m && k != key ==> r[k] == m[k]
  {
    match op
    case Add(n) => m[key := (if key in m then m[key] else 0) + n]
    case Overwrite(v) => m[key := v]
  }

  /** The pipeline of `_inc` or `_set`. */
  function GaugeCommands(name: string, labels: Labels, op: Op, expire: Seconds): seq<Command>
  {
    match op
    case Add(n) => GaugeInc(name, labels, n, expire)
    case Overwrite(v) => GaugeSet(name, labels, v, expire)
  }

  /**
   * `_inc` and `_set` under the exception-swallowing wrapper. The index comes first: taken
   * from the instance or, on the first write, from `INCR` of the shared counter, which also
   * registers `refresh_values`. Then the labels get the index, the shadow map the write, and
   * the pipeline is sent; only once it has gone through is the guarded refresher added.
   */
  function Write(c: Config, v: View, labels: Labels, op: Op): Written
  {
    if v.index.None? && !v.available then Written(v, labels, 0, None)
    else
      var (n, db) := Allocate(c.indexKey, v.index, v.db);
      var l := Indexed(labels, n);
      var shadow := Shadow(v.shadow, MetricKey(c.name, l, None), op);
      if !v.available then Written(v.(shadow := shadow), l, 0, None)
      else
        var sent := Send(db, c.name, l, op, c.expire);
        var first := if v.index.None? then 1 else 0;
        var adding := c.refreshEnable && !v.added;
        Written(View(sent.0, true, Some(n), shadow, v.added || c.refreshEnable), l,
                first + (if adding then 1 else 0), Some(sent.1))
  }

  /**
   * The index is allocated on the first write that reaches the store and kept from then on;
   * once there is one, the caller's labels carry it and the shadow map has the series.
   * Without one, nothing changes.
   */
  lemma WriteIndex(c: Config, v: View, labels: Labels, op: Op)
    ensures var w := Write(c, v, labels, op);
            w.after.available == v.available && (w.reply.Some? <==> v.available)
            && (v.index.Some? ==> w.after.index == v.index)
            && (w.after.index.Some? <==> v.index.Some? || v.available)
            && (w.after.index.None? ==> w.after == v && w.labels == labels && w.callbacks == 0)
            && (w.after.index.Some? ==>
                  w.labels == Indexed(labels, w.after.index.value)
                  && w.after.shadow.Keys == v.shadow.Keys + {MetricKey(c.name, w.labels, None)})
  {
  }

  /** The shadow map never holds the group key. */
  lemma WriteShadowKeys(c: Config, v: View, labels: Labels, op: Op)
    requires GroupKey(c.name) !in v.shadow
    ensures GroupKey(c.name) !in Write(c, v, labels, op).after.shadow
  {
    var w := Write(c, v, labels, op);
    if w.after.index.Some? {
      WriteIndex(c, v, labels, op);
      GroupKeyIsNotMetricKey(c.name, w.labels, None);
    }
  }

  /** A write when the store cannot be reached: without an index, nothing; with one, the labels and the shadow map only. */
  lemma WriteWithoutStore(c: Config, v: View, labels: Labels, op: Op)
    requires !v.available
    ensures Write(c, v, labels, op)
            == if v.index.None? then Written(v, labels, 0, None)
               else
                 var l := Indexed(labels, v.index.value);
                 Written(v.(shadow := Shadow(v.shadow, MetricKey(c.name, l, None), op)), l, 0, None)
  {
  }

  /** A write that reaches the store, as one value: every part of what it leaves. */
  lemma WriteWithStore(c: Config, v: View, labels: Labels, op: Op)
    requires v.available
    ensures var (n, before) := Allocate(c.indexKey, v.index, v.db);
            var l := Indexed(labels, n);
            var sent := Send(before, c.name, l, op, c.expire);
            Write(c, v, labels, op)
            == Written(View(sent.0, true, Some(n), Shadow(v.shadow, MetricKey(c.name, l, None), op), v.added || c.refreshEnable),
                       l, (if v.index.None? then 1 else 0) + (if c.refreshEnable && !v.added then 1 else 0), Some(sent.1))
  {
  }

  /** Two optional registrations of the same callback after those already there, counted. */
  lemma RepeatEach<F>(fs: seq<F>, f: F, a: bool, b: bool)
    ensures fs + (if a then [f] else []) + (if b then [f] else [])
            == fs + R.Repeat([f], (if a then 1 else 0) + (if b then 1 else 0))
  {
    if a && b {
      assert R.Repeat([f], 2) == R.Repeat([f], 1) + [f];
      assert fs + [f] + [f] == fs + [f, f];
    }
  }

  /** `get_gauge_index`: the index the instance has, or the shared counter's next value and the store after `INCR`. */
  function Allocate(indexKey: string, index: Option<int>, db: DB): (int, DB)
  {
    if index.Some? then (index.value, db) else (Value(db, indexKey) + 1, Apply(db, Incr(indexKey)).0)
  }

  /** The pipeline sent: the store after it and its replies. */
  function Send(db: DB, name: string, labels: Labels, op: Op, expire: Seconds): (DB, seq<Reply>)
  {
    Exec(db, GaugeCommands(name, labels, op, expire))
  }

  /** The store after `SET k v EX expire` for every shadow entry. */
  function Refreshed(db: DB, shadow: map<string, int>, expire: Seconds): (r: DB)
    ensures r.sets == db.sets
    ensures forall k :: k in shadow ==> k in r.values && r.values[k] == shadow[k] && k in r.ttl && r.ttl[k] == expire
    ensures forall k :: k !in shadow ==> SameKey(db, r, k)
  {
    DB(db.values + shadow, db.ttl + Expiring(shadow.Keys, expire), db.sets)
  }

  /** The time to live `expire` for each of `keys`. */
  function Expiring(keys: set<string>, expire: Seconds): (r: map<string, nat>)
    ensures r.Keys == keys && forall k :: k in r ==> r[k] == expire
  {
    map k | k in keys :: expire as nat
  }

  lemma ExpiringOneMore(keys: set<string>, k: string, expire: Seconds)
    ensures Expiring(keys + {k}, expire) == Expiring(keys, expire)[k := expire]
  {
  }

  lemma MergeThenUpdate<K, V>(m: map<K, V>, n: map<K, V>, k: K, v: V)
    ensures (m + n)[k := v] == m + n[k := v]
  {
  }

  /** The shared counter's key moves on by one when an index is allocated; nothing else changes. */
  lemma AllocateCounter(indexKey: string, db: DB)
    ensures var (n, d) := Allocate(indexKey, None, db);
            n == Value(db, indexKey) + 1 && Value(d, indexKey) == n && indexKey in d.values
            && Unchanged(db, d, {indexKey}) && d.sets == db.sets
  {
    IncrByEffect(db, indexKey, 1);
  }

  /**
   * A write that reaches the store registers the series and either overwrites it or grows
   * it by the amount, renewing the gauge's expiry, and changes nothing else beyond what
   * allocating the index changed; the shadow map takes the same write.
   */
  lemma WriteStore(c: Config, v: View, labels: Labels, op: Op)
    requires v.available
    ensures var w := Write(c, v, labels, op);
            var k, g := MetricKey(c.name, w.labels, None), GroupKey(c.name);
            var before := Allocate(c.indexKey, v.index, v.db).1;
            var was := if k in v.shadow then v.shadow[k] else 0;
            Members(w.after.db, g) == Members(v.db, g) + {k}
            && k in w.after.db.ttl && w.after.db.ttl[k] == c.expire
            && Unchanged(before, w.after.db, {k, g})
            && (op.Overwrite? ==> Value(w.after.db, k) == op.value && w.after.shadow[k] == op.value)
            && (op.Add? ==> Value(w.after.db, k) == Value(before, k) + op.amount
                            && w.after.shadow[k] == was + op.amount)
  {
    var (n, before) := Allocate(c.indexKey, v.index, v.db);
    WriteSent(c, v, labels, op);
    SendEffect(before, c.name, Indexed(labels, n), op, c.expire);
    if v.index.None? {
      AllocateCounter(c.indexKey, v.db);
    }
  }

  /** A write that reaches the store, step by step: the index, the labels, the pipeline and the shadow entry. */
  lemma WriteSent(c: Config, v: View, labels: Labels, op: Op)
    requires v.available
    ensures var (n, before) := Allocate(c.indexKey, v.index, v.db);
            var w := Write(c, v, labels, op);
            w.labels == Indexed(labels, n) && w.after.index == Some(n) && w.after.available
            && w.after.db == Send(before, c.name, w.labels, op, c.expire).0
            && w.after.shadow == Shadow(v.shadow, MetricKey(c.name, w.labels, None), op)
  {
  }

  /** The pipeline of a write: the series joins the group, is written and gets the expiry; nothing else changes. */
  lemma SendEffect(db: DB, name: string, labels: Labels, op: Op, expire: Seconds)
    ensures var k, g := MetricKey(name, labels, None), GroupKey(name);
            var d := Send(db, name, labels, op, expire).0;
            Members(d, g) == Members(db, g) + {k} && k in d.ttl && d.ttl[k] == expire
            && Unchanged(db, d, {k, g})
            && Value(d, k) == (if op.Add? then Value(db, k) + op.amount else op.value)
  {
    match op
    case Add(a) => GaugeIncEffect(db, name, labels, a, expire);
    case Overwrite(x) => GaugeSetEffect(db, name, labels, x, expire);
  }

  /**
   * A write leaves `gauge_index` in the caller's dict, so the same dict passed again, as a
   * label-bound handle passes it, passes the label check only when `gauge_index` is itself
   * one of the label names.
   */
  lemma IndexedLabelsCheck(labelnames: seq<string>, labels: Labels, n: int)
    requires CheckLabels(labelnames, labels).Returned?
    ensures CheckLabels(labelnames, Indexed(labels, n)).Returned? <==> IndexLabel in labelnames
  {
    CheckLabelsExact(labelnames, labels);
    CheckLabelsExact(labelnames, Indexed(labels, n));
    PutKeys(labels, IndexLabel, Num(n));
  }

  /**
   * Setting a gauge twice with the same labels, in whatever insertion order, writes one
   * series: the group gains one member, which holds the second value, and the shadow map
   * one entry.
   */
  lemma SetTwiceOneSeries(c: Config, v: View, a: Labels, b: Labels, x: int, y: int)
    requires v.available && SameMapping(a, b)
    ensures var w1 := Write(c, v, a, Overwrite(x));
            var w2 := Write(c, w1.after, b, Overwrite(y));
            var k := MetricKey(c.name, w1.labels, None);
            Members(w2.after.db, GroupKey(c.name)) == Members(v.db, GroupKey(c.name)) + {k}
            && Value(w2.after.db, k) == y && w2.after.shadow.Keys == v.shadow.Keys + {k}
  {
    var w1 := Write(c, v, a, Overwrite(x));
    WriteStore(c, v, a, Overwrite(x));
    WriteIndex(c, v, a, Overwrite(x));
    WriteStore(c, w1.after, b, Overwrite(y));
    WriteIndex(c, w1.after, b, Overwrite(y));
    IndexedSameMapping(a, b, w1.after.index.value);
    MetricKeySameMapping(c.name, None, w1.labels, Write(c, w1.after, b, Overwrite(y)).labels);
  }

  lemma IndexedSameMapping(a: Labels, b: Labels, n: int)
    requires SameMapping(a, b)
    ensures SameMapping(Indexed(a, n), Indexed(b, n))
  {
  }

  /**
   * Allocating the index registers `refresh_values`, and the guarded `add_refresher` after
   * the first write that goes through registers it again when refreshing is enabled; the
   * writes after that register nothing.
   */
  lemma CallbacksOverTwoWrites(c: Config, v: View, a: Labels, b: Labels, op1: Op, op2: Op)
    requires v.available && v.index.None? && !v.added
    ensures var w1 := Write(c, v, a, op1);
            var w2 := Write(c, w1.after, b, op2);
            w1.callbacks == (if c.refreshEnable then 2 else 1) && w2.callbacks == 0
  {
  }

  /** A label-bound handle of a gauge forwards `inc` and `set`, and `dec` is a `TypeError`. */
  lemma GaugeHandleOperations<M>(h: Handle<M>)
    requires h.operations == GaugeOperations
    ensures GetAttr(h, "inc").Returned? && GetAttr(h, "inc").value.Bound?
    ensures GetAttr(h, "set").Returned? && GetAttr(h, "set").value.Bound?
    ensures GetAttr(h, "dec").Raised? && GetAttr(h, "dec").error.TypeError?
  {
    assert "dec" != "inc" && "dec" != "set";
    assert "dec" !in HandleFields && "dec" !in ClassAttributes;
    assert "inc" !in HandleFields && "inc" !in ClassAttributes;
    assert "set" !in HandleFields && "set" !in ClassAttributes;
  }

  /** One more `SET k v EX expire` of a shadow entry not yet written back. */
  lemma RefreshedStep(db: DB, done: map<string, int>, k: string, x: int, expire: Seconds)
    requires k !in done
    ensures Apply(Refreshed(db, done, expire), Set(k, x, expire)).0 == Refreshed(db, done[k := x], expire)
  {
    var r := Refreshed(db, done, expire);
    MergeThenUpdate(db.values, done, k, x);
    MergeThenUpdate(db.ttl, Expiring(done.Keys, expire), k, expire as nat);
    ExpiringOneMore(done.Keys, k, expire);
    assert done[k := x].Keys == done.Keys + {k};
  }

  /** Taking one more key out of the set still to be handled adds its entry to those done. */
  lemma OneKeyLess(m: map<string, int>, keys: set<string>, k: string)
    requires k in keys && keys <= m.Keys
    ensures k !in m - keys && m - (keys - {k}) == (m - keys)[k := m[k]]
  {
  }

  class Gauge {
    const name: string
    const documentation: string
    const labelnames: seq<string>
    const redis: Redis
    const refresher: R.Refresher<Gauge>
    const expire: Seconds
    const refreshEnable: bool
    const gaugeIndexKey: string
    var refresherAdded: bool
    /** `gauge_values`: the value this instance last wrote to each of its series. */
    var gaugeValues: map<string, int>
    var index: Option<int>

    ghost function Settings(): Config
    {
      Config(name, expire, refreshEnable, gaugeIndexKey)
    }

    ghost function State(): View
      reads this, redis
    {
      View(redis.db, redis.available, index, gaugeValues, refresherAdded)
    }

    ghost predicate Valid()
      reads this, refresher
    {
      refresher.Valid() && GroupKey(name) !in gaugeValues
    }

    constructor (name: string, documentation: string, labelnames: seq<string>, redis: Redis,
                 refresher: R.Refresher<Gauge>, expire: Seconds, refreshEnable: bool, gaugeIndexKey: string)
      requires refresher.Valid()
      ensures this.name == name && this.documentation == documentation && this.labelnames == labelnames
      ensures this.redis == redis && this.refresher == refresher && this.expire == expire
      ensures this.refreshEnable == refreshEnable && this.gaugeIndexKey == gaugeIndexKey
      ensures !refresherAdded && gaugeValues == map[] && index == None && Valid()
    {
      this.name := name;
      this.documentation := documentation;
      this.labelnames := labelnames;
      this.redis := redis;
      this.refresher := refresher;
      this.expire := expire;
      this.refreshEnable := refreshEnable;
      this.gaugeIndexKey := gaugeIndexKey;
      refresherAdded := false;
      gaugeValues := map[];
      index := None;
    }

    /** `add_refresher`: register `refresh_values` once, when refreshing is enabled. */
    method AddRefresher()
      requires Valid()
      modifies this, refresher
      ensures Valid() && refresherAdded == (old(refresherAdded) || refreshEnable)
      ensures refresher.functions == old(refresher.functions) + (if refreshEnable && !old(refresherAdded) then [this] else [])
      ensures gaugeValues == old(gaugeValues) && index == old(index)
    {
      if refreshEnable && !refresherAdded {
        var _ := refresher.AddRefreshFunction(this);
        refresherAdded := true;
      }
    }

    /**
     * `get_gauge_index`: the instance's index or, the first time, the shared counter after
     * `INCR`, which also registers `refresh_values`. A connection error leaves the index unset.
     */
    method GetGaugeIndex() returns (r: Outcome<int>)
      requires Valid()
      modifies this, redis, refresher
      ensures Valid() && redis.available == old(redis.available)
      ensures gaugeValues == old(gaugeValues) && refresherAdded == old(refresherAdded)
      ensures old(index).None? && !old(redis.available) ==>
                r == Raised(ConnectionError) && index == None && redis.db == old(redis.db)
                && refresher.functions == old(refresher.functions)
      ensures old(index).Some? || old(redis.available) ==>
                var (n, db) := Allocate(gaugeIndexKey, old(index), old(redis.db));
                r == Returned(n) && index == Some(n) && redis.db == db
                && refresher.functions == old(refresher.functions) + (if old(index).None? then [this] else [])
    {
      if index.Some? {
        return Returned(index.value);
      }
      var reply := redis.Run(Incr(gaugeIndexKey));
      if reply.Raised? {
        return Raised(reply.error);
      }
      match reply.value
      case IntReply(n) =>
        var _ := refresher.AddRefreshFunction(this);
        index := Some(n);
        r := Returned(n);
      case BoolReply(_) =>
        assert false;
    }

    /**
     * `_inc` and `_set` under the wrapper: a write through the caller's dict `d`, as `Write`
     * describes it, with the connection error of either step swallowed.
     */
    method WriteWith(op: Op, d: LabelDict) returns (r: Option<seq<Reply>>)
      requires Valid()
      modifies this, redis, refresher, d
      ensures Valid()
      ensures var w := Write(Settings(), old(State()), old(d.entries), op);
              State() == w.after && d.entries == w.labels && r == w.reply
              && refresher.functions == old(refresher.functions) + R.Repeat([this], w.callbacks)
    {
      if redis.available {
        r := WriteOnline(op, d);
      } else {
        r := WriteOffline(op, d);
      }
    }

    /** A write when the store can be reached: the index, the labels, the shadow entry, the pipeline, the refresher. */
    method WriteOnline(op: Op, d: LabelDict) returns (r: Option<seq<Reply>>)
      requires Valid() && redis.available
      modifies this, redis, refresher, d
      ensures Valid()
      ensures var w := Write(Settings(), old(State()), old(d.entries), op);
              State() == w.after && d.entries == w.labels && r == w.reply
              && refresher.functions == old(refresher.functions) + R.Repeat([this], w.callbacks)
    {
      ghost var v, labels := State(), d.entries;
      WriteWithStore(Settings(), v, labels, op);
      RepeatEach(refresher.functions, this, v.index.None?, refreshEnable && !v.added);
      var written := Stage(op, d);
      r := Push(op, written);
    }

    /**
     * The part of a write before the pipeline, once an index can be had: the index, the
     * indexed labels and the shadow entry.
     */
    method Stage(op: Op, d: LabelDict) returns (written: Labels)
      requires Valid() && (index.Some? || redis.available)
      modifies this, redis, refresher, d
      ensures Valid() && redis.available == old(redis.available) && refresherAdded == old(refresherAdded)
      ensures var (n, db) := Allocate(gaugeIndexKey, old(index), old(redis.db));
              written == Indexed(old(d.entries), n) && d.entries == written && index == Some(n) && redis.db == db
              && gaugeValues == Shadow(old(gaugeValues), MetricKey(name, written, None), op)
              && refresher.functions == old(refresher.functions) + (if old(index).None? then [this] else [])
    {
      var i := GetGaugeIndex();
      written := Indexed(d.entries, i.value);
      d.entries := written;
      var key := MetricKey(name, written, None);
      GroupKeyIsNotMetricKey(name, written, None);
      Remember(op, key);
    }

    /**
     * A write when the store cannot be reached: without an index the connection error comes
     * first and nothing changes; with one, the labels and the shadow entry are written before
     * the pipeline fails.
     */
    method WriteOffline(op: Op, d: LabelDict) returns (r: Option<seq<Reply>>)
      requires Valid() && !redis.available
      modifies this, redis, refresher, d
      ensures Valid()
      ensures var w := Write(Settings(), old(State()), old(d.entries), op);
              State() == w.after && d.entries == w.labels && r == w.reply
              && refresher.functions == old(refresher.functions) + R.Repeat([this], w.callbacks)
    {
      WriteWithoutStore(Settings(), State(), d.entries, op);
      if index.None? {
        var _ := GetGaugeIndex();
        return None;
      }
      var written := Stage(op, d);
      r := Push(op, written);
    }

    /** `_inc_internal` or `_set_internal` on a series of this gauge. */
    method Remember(op: Op, key: string)
      requires Valid() && key != GroupKey(name)
      modifies this
      ensures Valid() && index == old(index) && refresherAdded == old(refresherAdded)
      ensures gaugeValues == Shadow(old(gaugeValues), key, op)
    {
      gaugeValues := Shadow(gaugeValues, key, op);
    }

    /** The pipeline of the write, then `add_refresher` once it went through. */
    method Push(op: Op, labels: Labels) returns (r: Option<seq<Reply>>)
      requires Valid()
      modifies this, redis, refresher
      ensures Valid() && index == old(index) && gaugeValues == old(gaugeValues)
      ensures redis.available == old(redis.available)
      ensures !old(redis.available) ==>
                r == None && redis.db == old(redis.db) && refresherAdded == old(refresherAdded)
                && refresher.functions == old(refresher.functions)
      ensures old(redis.available) ==>
                var sent := Send(old(redis.db), name, labels, op, expire);
                r == Some(sent.1) && redis.db == sent.0 && refresherAdded == (old(refresherAdded) || refreshEnable)
                && refresher.functions == old(refresher.functions) + (if refreshEnable && !old(refresherAdded) then [this] else [])
    {
      var replies := redis.Execute(GaugeCommands(name, labels, op, expire));
      if replies.Raised? {
        return None;
      }
      AddRefresher();
      r := Some(replies.value);
    }

    /**
     * The effect of a checked write of `given` on the instance, the store and the refresher:
     * when the check raises, nothing changes; otherwise it is the write.
     */
    twostate predicate Outcomes(given: Labels, op: Op, new r: Outcome<Option<seq<Reply>>>)
      reads this, redis, refresher
    {
      match CheckLabels(labelnames, given)
      case Raised(e) =>
        r == Raised(e) && State() == old(State()) && refresher.functions == old(refresher.functions)
      case Returned(_) =>
        var w := Write(Settings(), old(State()), given, op);
        r == Returned(w.reply) && State() == w.after
        && refresher.functions == old(refresher.functions) + R.Repeat([this], w.callbacks)
    }

    /**
     * What `inc`, `dec` and `set` promise: `labels or {}` is checked and written as above;
     * the write goes through the caller's dict, unless that dict is missing or empty, in which
     * case a new one is written into and the caller's is left as it was, as it is when the
     * check raises.
     */
    twostate predicate Wrote(labels: LabelDict?, op: Op, new r: Outcome<Option<seq<Reply>>>)
      reads this, redis, refresher, labels
    {
      var given := if labels == null then [] else old(labels.entries);
      Outcomes(given, op, r)
      && (labels != null ==>
            if given == [] || CheckLabels(labelnames, given).Raised? then labels.entries == old(labels.entries)
            else labels.entries == Write(Settings(), old(State()), given, op).labels)
    }

    /** The checks shared by `inc`, `dec` and `set`, then the write. */
    method CheckedWrite(op: Op, labels: LabelDict?) returns (r: Outcome<Option<seq<Reply>>>)
      requires Valid()
      modifies this, redis, refresher, labels
      ensures Valid() && Wrote(labels, op, r)
    {
      if labels == null || labels.entries == [] {
        r := CheckedWriteFresh(op);
      } else {
        r := CheckedWriteInto(op, labels);
      }
    }

    /** No labels, or an empty dictionary: the write goes through a new empty one. */
    method CheckedWriteFresh(op: Op) returns (r: Outcome<Option<seq<Reply>>>)
      requires Valid()
      modifies this, redis, refresher
      ensures Valid() && Outcomes([], op, r)
    {
      var d := new LabelDict([]);
      var check := CheckLabels(labelnames, d.entries);
      if check.Raised? {
        return Raised(check.error);
      }
      var reply := WriteWith(op, d);
      r := Returned(reply);
    }

    /** Labels given: they are checked, and the write gives the caller's dictionary its index. */
    method CheckedWriteInto(op: Op, labels: LabelDict) returns (r: Outcome<Option<seq<Reply>>>)
      requires Valid() && labels.entries != []
      modifies this, redis, refresher, labels
      ensures Valid() && Wrote(labels, op, r)
    {
      var check := CheckLabels(labelnames, labels.entries);
      if check.Raised? {
        return Raised(check.error);
      }
      var reply := WriteWith(op, labels);
      r := Returned(reply);
    }

    /** `inc`: add the value to the instance's series. */
    method Inc(value: int, labels: LabelDict?) returns (r: Outcome<Option<seq<Reply>>>)
      requires Valid()
      modifies this, redis, refresher, labels
      ensures Valid() && Wrote(labels, Add(value), r)
    {
      r := CheckedWrite(Add(value), labels);
    }

    /** `dec`: add the negated value. */
    method Dec(value: int, labels: LabelDict?) returns (r: Outcome<Option<seq<Reply>>>)
      requires Valid()
      modifies this, redis, refresher, labels
      ensures Valid() && Wrote(labels, Add(-value), r)
    {
      r := CheckedWrite(Add(-value), labels);
    }

    /** `set`: overwrite the instance's series with the value. */
    method Set(value: int, labels: LabelDict?) returns (r: Outcome<Option<seq<Reply>>>)
      requires Valid()
      modifies this, redis, refresher, labels
      ensures Valid() && Wrote(labels, Overwrite(value), r)
    {
      r := CheckedWrite(Overwrite(value), labels);
    }

    /**
     * `refresh_values`: `SET` every shadow value back with the expiry, so that the series
     * of a live process do not expire. The first `SET` raises when the store cannot be
     * reached; with no shadow values nothing is sent.
     */
    method RefreshValues() returns (r: Outcome<()>)
      modifies redis
      ensures redis.available == old(redis.available)
      ensures r.Raised? <==> !old(redis.available) && gaugeValues != map[]
      ensures r.Raised? ==> r.error == ConnectionError && redis.db == old(redis.db)
      ensures r.Returned? ==> redis.db == Refreshed(old(redis.db), gaugeValues, expire)
    {
      if redis.available {
        RefreshAll();
        return Returned(());
      }
      if gaugeValues == map[] {
        assert Refreshed(redis.db, gaugeValues, expire) == redis.db;
        return Returned(());
      }
      var k :| k in gaugeValues;
      var reply := redis.Run(Command.Set(k, gaugeValues[k], expire));
      r := Raised(reply.error);
    }

    /** The loop of `refresh_values` when every `SET` goes through. */
    method RefreshAll()
      requires redis.available
      modifies redis
      ensures redis.available
      ensures redis.db == Refreshed(old(redis.db), gaugeValues, expire)
    {
      var keys := gaugeValues.Keys;
      assert gaugeValues - keys == map[];
      while keys != {}
        invariant keys <= gaugeValues.Keys && redis.available
        invariant redis.db == Refreshed(old(redis.db), gaugeValues - keys, expire)
        decreases keys
      {
        var k :| k in keys;
        var _ := redis.Run(Command.Set(k, gaugeValues[k], expire));
        OneKeyLess(gaugeValues, keys, k);
        RefreshedStep(old(redis.db), gaugeValues - keys, k, gaugeValues[k], expire);
        keys := keys - {k};
      }
      assert gaugeValues - keys == gaugeValues;
    }

    /**
     * `cleanup`: with no shadow values, nothing; otherwise the instance's series leave the
     * group and are deleted. The shadow map itself is kept.
     */
    method Cleanup() returns (r: Outcome<()>)
      modifies redis
      ensures redis.available == old(redis.available)
      ensures gaugeValues == map[] ==> r == Returned(()) && redis.db == old(redis.db)
      ensures gaugeValues != map[] && old(redis.available) ==>
                r == Returned(()) && redis.db == Exec(old(redis.db), GaugeCleanup(name, gaugeValues.Keys)).0
      ensures gaugeValues != map[] && !old(redis.available) ==>
                r == Raised(ConnectionError) && redis.db == old(redis.db)
    {
      if gaugeValues == map[] {
        return Returned(());
      }
      var replies := redis.Execute(GaugeCleanup(name, gaugeValues.Keys));
      if replies.Raised? {
        return Raised(replies.error);
      }
      r := Returned(());
    }
  }
}
