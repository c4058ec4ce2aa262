/**
 * The metric variants that keep one value per series: the shared `collect`, which reads
 * every series of a metric back from the store and prunes the ones that expired, and the
 * `Counter`, `CommonGauge` and `Summary` write paths. Writes go through the exception-
 * swallowing wrapper: a store that cannot be reached makes them return `None`, while a label
 * or value error is raised to the caller before the store is touched.
 */
module Metrics {
  import opened Errors
  import opened Dicts
  import opened Store
  import opened BaseMetric
  import opened Pipelines
  import Text

  predicate NoDuplicates(s: seq<string>)
  {
    forall i, j :: 0 <= i < j < |s| ==> s[i] != s[j]
  }

  // ---------------------------------------------------------------------------------------
  // `Metric.collect`

  /** A group member read back as a series name and its labels: `parse_metric_key`, then `unpack_labels`. */
  function Decoded(key: string): (r: Outcome<(string, Labels)>)
    ensures r.Raised? ==> r.error.ValueError?
  {
    match ParseMetricKey(key)
    case Raised(e) => Raised(e)
    case Returned(p) =>
      match UnpackLabels(p.1)
      case Raised(e) => Raised(e)
      case Returned(labels) => Returned((p.0, labels))
  }

  /** A series key the library wrote reads back as its name with suffix and its labels in key order. */
  lemma DecodedMetricKey(name: string, labels: Labels, suffix: Option<string>)
    requires ':' !in name + SuffixText(suffix)
    ensures Decoded(MetricKey(name, labels, suffix)) == Returned((name + SuffixText(suffix), SortByKey(labels)))
  {
    ParseMetricKeyOf(name, labels, suffix);
    UnpackPackLabels(labels);
  }

  /** The representation of a member whose value is present. */
  function MemberSample(db: DB, key: string): (r: Sample)
    requires Decoded(key).Returned? && key in db.values
    ensures r.name == Decoded(key).value.0 && r.labels == Some(Decoded(key).value.1)
    ensures r.value == Text.IntToString(db.values[key])
  {
    Sample(Decoded(key).value.0, Some(Decoded(key).value.1), Text.IntToString(db.values[key]))
  }

  /** The members of `ks` whose value is present, in the order of `ks`. */
  function Present(db: DB, ks: seq<string>): (r: seq<string>)
    ensures forall k :: k in r <==> k in ks && k in db.values
    ensures NoDuplicates(ks) ==> NoDuplicates(r)
  {
    if |ks| == 0 then []
    else
      var init := Present(db, ks[..|ks| - 1]);
      var last := ks[|ks| - 1];
      assert NoDuplicates(ks) ==> last !in ks[..|ks| - 1];
      if last in db.values then init + [last] else init
  }

  /** The representations of the given members, one each, in order. */
  function Samples(db: DB, ks: seq<string>): (r: seq<Sample>)
    requires forall k :: k in ks ==> Decoded(k).Returned? && k in db.values
  {
    seq(|ks|, i requires 0 <= i < |ks| => MemberSample(db, ks[i]))
  }

  /** The store once `collect` has visited the members in `visited`: the absent ones are out of the group. */
  function Pruned(db: DB, g: string, visited: set<string>): (r: DB)
    ensures r.values == db.values && r.ttl == db.ttl
    ensures forall k :: k != g ==> Members(r, k) == Members(db, k)
    ensures forall k :: k in Members(r, g) <==> k in Members(db, g) && (k in db.values || k !in visited)
  {
    var gone := set k | k in visited && k in Members(db, g) && k !in db.values;
    assert forall k :: k in gone <==> k in visited && k in Members(db, g) && k !in db.values;
    if gone == {} then db else WithMembers(db, g, Members(db, g) - gone)
  }

  /** Visiting one more member: a present one changes nothing, an absent one is `SREM`ed. */
  lemma PrunedStep(db: DB, g: string, visited: set<string>, k: string)
    requires k in Members(db, g) && k !in visited
    ensures k in db.values ==> Pruned(db, g, visited + {k}) == Pruned(db, g, visited)
    ensures k !in db.values ==> Pruned(db, g, visited + {k}) == Apply(Pruned(db, g, visited), SRem(g, {k})).0
  {
    var m := Members(db, g);
    var gone := set x | x in visited && x in m && x !in db.values;
    var gone' := set x | x in visited + {k} && x in m && x !in db.values;
    if k in db.values {
      assert gone' == gone;
    } else {
      assert gone' == gone + {k};
      var cur := Pruned(db, g, visited);
      assert Members(cur, g) == m - gone;
      if gone != {} {
        WithMembersTwice(db, g, m - gone, m - gone - {k});
      }
      assert m - gone - {k} == m - gone';
    }
  }

  /** Every absent member leaves the group and every present one stays. */
  lemma CollectPrunes(db: DB, g: string)
    ensures var r := Pruned(db, g, Members(db, g));
            (forall k :: k in Members(r, g) <==> k in Members(db, g) && k in db.values)
            && r.values == db.values && forall k :: k != g ==> Members(r, k) == Members(db, k)
  {
  }

  /**
   * Once every member of the group has lost its value, `collect` yields nothing and leaves
   * the group empty.
   */
  lemma {:induction false} CollectAllExpired(db: DB, g: string, order: seq<string>)
    requires forall k :: k in Members(db, g) ==> k !in db.values
    requires forall k :: k in order ==> k in Members(db, g)
    ensures Present(db, order) == [] && Members(Pruned(db, g, Members(db, g)), g) == {}
  {
    if |Present(db, order)| > 0 {
      assert Present(db, order)[0] in Present(db, order);
    }
  }

  /**
   * A group whose every series carries a time to live that runs out within `seconds`, and
   * which carries none itself, still lists them all afterwards but none has a value: the
   * state `collect` then empties.
   */
  lemma ExpiryLeavesGroup(db: DB, g: string, seconds: nat)
    requires g !in db.ttl && g in db.sets
    requires forall k :: k in Members(db, g) ==> k in db.ttl && db.ttl[k] <= seconds
    ensures var d := Elapse(db, seconds);
            Members(d, g) == Members(db, g) && forall k :: k in Members(d, g) ==> k !in d.values
  {
  }

  lemma PresentSnoc(db: DB, ks: seq<string>, k: string)
    ensures Present(db, ks + [k]) == Present(db, ks) + (if k in db.values then [k] else [])
  {
    assert (ks + [k])[..|ks|] == ks;
  }

  lemma SamplesSnoc(db: DB, ks: seq<string>, k: string)
    requires forall x :: x in ks + [k] ==> Decoded(x).Returned? && x in db.values
    ensures Samples(db, ks + [k]) == Samples(db, ks) + [MemberSample(db, k)]
  {
    assert (ks + [k])[..|ks|] == ks;
  }

  /**
   * One turn of `collect`'s loop: the member read back as a name and labels, then its value;
   * a member without a value is removed from the group instead.
   */
  method Visit(redis: Redis, g: string, k: string) returns (r: Outcome<Option<Sample>>)
    requires redis.available
    modifies redis
    ensures redis.available
    ensures r.Raised? <==> Decoded(k).Raised?
    ensures r.Raised? ==> r.error == Decoded(k).error && redis.db == old(redis.db)
    ensures r.Returned? && k in old(redis.db).values ==>
              r.value == Some(MemberSample(old(redis.db), k)) && redis.db == old(redis.db)
    ensures r.Returned? && k !in old(redis.db).values ==>
              r.value == None && redis.db == Apply(old(redis.db), SRem(g, {k})).0
  {
    var parsed := ParseMetricKey(k);
    if parsed.Raised? {
      return Raised(parsed.error);
    }
    var labels := UnpackLabels(parsed.value.1);
    if labels.Raised? {
      return Raised(labels.error);
    }
    assert Decoded(k) == Returned((parsed.value.0, labels.value));
    var value := redis.Get(k);
    match value {
      case Raised(_) =>
        assert false;
      case Returned(None) =>
        var _ := redis.Run(SRem(g, {k}));
        r := Returned(None);
      case Returned(Some(v)) =>
        r := Returned(Some(Sample(parsed.value.0, Some(labels.value), Text.IntToString(v))));
    }
  }

  /** `Metric.collect`: the members are taken once, then visited one at a time in some order. */
  method CollectGroup(redis: Redis, name: string) returns (r: Outcome<seq<Sample>>, ghost order: seq<string>)
    modifies redis
    ensures redis.available == old(redis.available)
    ensures redis.db.values == old(redis.db.values) && redis.db.ttl == old(redis.db.ttl)
    ensures !old(redis.available) ==> r == Raised(ConnectionError) && redis.db == old(redis.db)
    ensures old(redis.available) ==>
              (r.Returned? <==> forall k :: k in Members(old(redis.db), GroupKey(name)) ==> Decoded(k).Returned?)
    ensures old(redis.available) && r.Raised? ==> r.error.ValueError?
    ensures r.Returned? ==>
              NoDuplicates(order)
              && (forall k :: k in order <==> k in Members(old(redis.db), GroupKey(name)))
              && (forall k :: k in order ==> Decoded(k).Returned?)
              && r.value == Samples(old(redis.db), Present(old(redis.db), order))
              && redis.db == Pruned(old(redis.db), GroupKey(name), Members(old(redis.db), GroupKey(name)))
  {
    order := [];
    var g := GroupKey(name);
    var fetched := redis.SMembers(g);
    if fetched.Raised? {
      return Raised(fetched.error), order;
    }
    r, order := CollectMembers(redis, g, fetched.value);
  }

  lemma TakeOneMore<T>(s: seq<T>, i: nat)
    requires i < |s|
    ensures s[..i + 1] == s[..i] + [s[i]]
  {
  }

  lemma ToSetPrefixStep(keys: seq<string>, i: nat)
    requires i < |keys|
    ensures ToSet(keys[..i + 1]) == ToSet(keys[..i]) + {keys[i]}
  {
    TakeOneMore(keys, i);
    assert forall x :: x in ToSet(keys[..i + 1]) <==> x in ToSet(keys[..i]) + {keys[i]};
  }

  lemma DecodedPrefix(keys: seq<string>, i: nat)
    requires i < |keys| && Decoded(keys[i]).Returned?
    requires forall j :: 0 <= j < i ==> Decoded(keys[j]).Returned?
    ensures forall j :: 0 <= j < i + 1 ==> Decoded(keys[j]).Returned?
  {
  }

  lemma TakeAll<T>(s: seq<T>)
    ensures s[..|s|] == s
  {
  }

  /** The members of a set in the order a `for` loop over it meets them. */
  method Enumerate(members: set<string>) returns (order: seq<string>)
    ensures NoDuplicates(order) && forall k :: k in order <==> k in members
  {
    order := [];
    var todo := members;
    while todo != {}
      invariant todo <= members && NoDuplicates(order)
      invariant forall k :: k in order <==> k in members && k !in todo
      decreases |todo|
    {
      var k :| k in todo;
      order := order + [k];
      todo := todo - {k};
    }
  }

  /** `collect`'s loop over the members it fetched: stop at the first member that does not read back. */
  method CollectMembers(redis: Redis, g: string, members: set<string>) returns (r: Outcome<seq<Sample>>, ghost order: seq<string>)
    requires redis.available && members == Members(redis.db, g)
    modifies redis
    ensures redis.available
    ensures redis.db.values == old(redis.db.values) && redis.db.ttl == old(redis.db.ttl)
    ensures NoDuplicates(order) && forall k :: k in order <==> k in members
    ensures r.Returned? <==> forall k :: k in members ==> Decoded(k).Returned?
    ensures r.Raised? ==> r.error.ValueError?
    ensures r.Returned? ==>
              r.value == Samples(old(redis.db), Present(old(redis.db), order))
              && redis.db == Pruned(old(redis.db), g, members)
  {
    var keys := Enumerate(members);
    order := keys;
    r := CollectKeys(redis, g, keys);
    if r.Returned? {
      assert ToSet(keys) == members;
    } else {
      var j :| 0 <= j < |keys| && Decoded(keys[j]).Raised?;
      assert keys[j] in members;
    }
  }

  /** The loop itself, over the members in the order it visits them. */
  method CollectKeys(redis: Redis, g: string, keys: seq<string>) returns (r: Outcome<seq<Sample>>)
    requires redis.available && NoDuplicates(keys)
    requires forall k :: k in keys ==> k in Members(redis.db, g)
    modifies redis
    ensures redis.available
    ensures redis.db.values == old(redis.db.values) && redis.db.ttl == old(redis.db.ttl)
    ensures r.Returned? <==> forall j :: 0 <= j < |keys| ==> Decoded(keys[j]).Returned?
    ensures r.Raised? ==> r.error.ValueError?
    ensures r.Returned? ==>
              r.value == Samples(old(redis.db), Present(old(redis.db), keys))
              && redis.db == Pruned(old(redis.db), g, ToSet(keys))
  {
    ghost var db0 := redis.db;
    var result: seq<Sample> := [];
    for i := 0 to |keys|
      invariant redis.available
      invariant forall j :: 0 <= j < i ==> Decoded(keys[j]).Returned?
      invariant redis.db == Pruned(db0, g, ToSet(keys[..i]))
      invariant result == Samples(db0, Present(db0, keys[..i]))
    {
      assert keys[i] !in keys[..i];
      var next := VisitNext(redis, g, db0, ToSet(keys[..i]), keys[i], keys[..i], result);
      if next.Raised? {
        return Raised(next.error);
      }
      DecodedPrefix(keys, i);
      result := next.value;
      TakeOneMore(keys, i);
      ToSetPrefixStep(keys, i);
    }
    TakeAll(keys);
    r := Returned(result);
  }

  /** One turn of `collect`'s loop, in terms of the store as it was before the loop. */
  method VisitNext(redis: Redis, g: string, ghost db0: DB, ghost visited: set<string>, k: string,
                   ghost order: seq<string>, result: seq<Sample>) returns (r: Outcome<seq<Sample>>)
    requires redis.available && k in Members(db0, g) && k !in visited
    requires redis.db == Pruned(db0, g, visited)
    requires forall x :: x in order ==> Decoded(x).Returned?
    requires result == Samples(db0, Present(db0, order))
    modifies redis
    ensures redis.available
    ensures r.Raised? <==> Decoded(k).Raised?
    ensures r.Raised? ==> r.error.ValueError? && redis.db == old(redis.db)
    ensures r.Returned? ==>
              redis.db == Pruned(db0, g, visited + {k}) && r.value == Samples(db0, Present(db0, order + [k]))
  {
    PrunedStep(db0, g, visited, k);
    var visit := Visit(redis, g, k);
    if visit.Raised? {
      return Raised(visit.error);
    }
    PresentSnoc(db0, order, k);
    if visit.value.Some? {
      SamplesSnoc(db0, Present(db0, order), k);
      r := Returned(result + [visit.value.value]);
    } else {
      r := Returned(result);
    }
  }

  lemma PresentSamples(db: DB, order: seq<string>)
    requires forall k :: k in order ==> Decoded(k).Returned?
    ensures var s := Samples(db, Present(db, order));
            forall x :: x in s <==> exists k :: k in order && k in db.values && x == MemberSample(db, k)
  {
    var ps := Present(db, order);
    var s := Samples(db, ps);
    forall x | x in s ensures exists k :: k in order && k in db.values && x == MemberSample(db, k) {
      var i :| 0 <= i < |s| && s[i] == x;
      assert ps[i] in ps;
    }
    forall k | k in order && k in db.values ensures MemberSample(db, k) in s {
      var i :| 0 <= i < |ps| && ps[i] == k;
      assert s[i] == MemberSample(db, k);
    }
  }

  /**
   * `collect` yields one representation per member whose value is present, each once: its
   * name, its labels and its value as decimal text.
   */
  lemma CollectOnePerPresentMember(db: DB, g: string, order: seq<string>)
    requires NoDuplicates(order) && forall k :: k in order <==> k in Members(db, g)
    requires forall k :: k in order ==> Decoded(k).Returned?
    ensures var ps := Present(db, order);
            NoDuplicates(ps) && (forall k :: k in ps <==> k in Members(db, g) && k in db.values)
            && |Samples(db, ps)| == |ps|
            && forall x :: x in Samples(db, ps) <==>
                 exists k :: k in Members(db, g) && k in db.values && x == MemberSample(db, k)
  {
    PresentSamples(db, order);
  }

  // ---------------------------------------------------------------------------------------
  // Values callers pass

  /** What a caller can pass as a value where an `int` or a `float` goes. */
  datatype Number = IntValue(i: int) | FloatValue(approx: int)

  /** What `Counter` raises for a `float`, and what `CommonGauge.set` raises for `None`. */
  const NotAnInt: Error := ValueError("Value should be int, got <class 'float'>")
  const NoValue: Error := ValueError("value can not be None")

  /** `isinstance(value, int)`, then the error `Counter` raises for anything else. */
  function CheckInt(n: Number): (r: Outcome<int>)
    ensures r.Returned? <==> n.IntValue?
    ensures r.Returned? ==> r.value == n.i
    ensures r.Raised? ==> r.error == NotAnInt
  {
    match n
    case IntValue(i) => Returned(i)
    case FloatValue(_) => Raised(NotAnInt)
  }

  /**
   * A pipeline sent under the exception-swallowing wrapper, keeping the integer reply at
   * `index`: `None` when the store cannot be reached.
   */
  method ExecuteForInt(redis: Redis, cmds: seq<Command>, index: nat, ghost n: int) returns (r: Outcome<Option<int>>)
    requires index < |cmds| && (redis.available ==> Exec(redis.db, cmds).1[index] == IntReply(n))
    modifies redis
    ensures redis.available == old(redis.available)
    ensures !old(redis.available) ==> r == Returned(None) && redis.db == old(redis.db)
    ensures old(redis.available) ==> redis.db == Exec(old(redis.db), cmds).0 && r == Returned(Some(n))
  {
    var replies := redis.Execute(cmds);
    match replies
    case Raised(_) =>
      return Returned(None);
    case Returned(rs) =>
    match rs[index]
    case IntReply(v) =>
      return Returned(Some(v));
    case BoolReply(_) =>
      assert false;
  }

  /** The labels are checked first, then the value: the amount a counter write adds, or the first error. */
  function CounterAmount(labelnames: seq<string>, labels: Labels, value: Number): Outcome<int>
  {
    match CheckLabels(labelnames, labels)
    case Raised(e) => Raised(e)
    case Returned(_) => CheckInt(value)
  }

  /** A label error wins over a value error; with good labels, only an `int` is accepted. */
  lemma CounterAmountChecks(labelnames: seq<string>, labels: Labels, value: Number)
    ensures var v := CounterAmount(labelnames, labels, value);
            (KeySet(labels) != ToSet(labelnames) ==> v.Raised? && v.error.ValueError? && v.error != NotAnInt)
            && (KeySet(labels) == ToSet(labelnames) ==>
                  (v.Returned? <==> value.IntValue?) && (v.Returned? ==> v.value == value.i)
                  && (v.Raised? ==> v.error == NotAnInt))
  {
    CheckLabelsExact(labelnames, labels);
    var c := CheckLabels(labelnames, labels);
    if c.Raised? {
      assert c.error.message[0] == 'E';
    }
  }

  /** `CommonGauge.set`'s checks: the labels first, then that there is a value. */
  function GaugeSetValue(labelnames: seq<string>, labels: Labels, value: Option<int>): Outcome<int>
  {
    match CheckLabels(labelnames, labels)
    case Raised(e) => Raised(e)
    case Returned(_) => if value.None? then Raised(NoValue) else Returned(value.value)
  }

  /** A label error wins over a missing value; with good labels, any present value is accepted as it is. */
  lemma GaugeSetValueChecks(labelnames: seq<string>, labels: Labels, value: Option<int>)
    ensures var v := GaugeSetValue(labelnames, labels, value);
            (KeySet(labels) != ToSet(labelnames) ==> v.Raised? && v.error.ValueError? && v.error != NoValue)
            && (KeySet(labels) == ToSet(labelnames) ==>
                  (v.Returned? <==> value.Some?) && (v.Returned? ==> v.value == value.value)
                  && (v.Raised? ==> v.error == NoValue))
  {
    CheckLabelsExact(labelnames, labels);
    var c := CheckLabels(labelnames, labels);
    if c.Raised? {
      assert c.error.message[0] == 'E';
    }
  }

  const CounterOperations: seq<string> := ["inc", "set"]
  const CommonGaugeOperations: seq<string> := ["set", "inc", "dec"]
  const SummaryOperations: seq<string> := ["observe"]

  // ---------------------------------------------------------------------------------------
  // Counter

  /** The second reply of `Counter.inc`'s pipeline is the new total. */
  lemma CounterIncReply(db: DB, name: string, labels: Labels, amount: int)
    ensures Exec(db, CounterInc(name, labels, amount)).1[1]
            == IntReply(Value(db, MetricKey(name, labels, None)) + amount)
  {
    CounterIncEffect(db, name, labels, amount);
  }

  class Counter {
    const name: string
    const documentation: string
    const labelnames: seq<string>
    const redis: Redis

    constructor (name: string, documentation: string, labelnames: seq<string>, redis: Redis)
      ensures this.name == name && this.documentation == documentation
      ensures this.labelnames == labelnames && this.redis == redis
    {
      this.name := name;
      this.documentation := documentation;
      this.labelnames := labelnames;
      this.redis := redis;
    }

    /**
     * `Counter.inc`: the labels and then the value are checked, with the store untouched on
     * either error. Then the series joins the group and grows by the value, and the new
     * total is returned, or `None` when the store cannot be reached.
     */
    method Inc(value: Number, labels: Labels) returns (r: Outcome<Option<int>>)
      modifies redis
      ensures redis.available == old(redis.available)
      ensures var v := CounterAmount(labelnames, labels, value);
              (v.Raised? ==> r == Raised(v.error) && redis.db == old(redis.db))
              && (v.Returned? && !old(redis.available) ==> r == Returned(None) && redis.db == old(redis.db))
              && (v.Returned? && old(redis.available) ==>
                    redis.db == Exec(old(redis.db), CounterInc(name, labels, v.value)).0
                    && r == Returned(Some(Value(old(redis.db), MetricKey(name, labels, None)) + v.value)))
    {
      var v := CounterAmount(labelnames, labels, value);
      if v.Raised? {
        return Raised(v.error);
      }
      r := IncBy(v.value, labels);
    }

    /** The write half of `Counter.inc`, under the wrapper: the second reply, or `None`. */
    method IncBy(amount: int, labels: Labels) returns (r: Outcome<Option<int>>)
      modifies redis
      ensures redis.available == old(redis.available)
      ensures !old(redis.available) ==> r == Returned(None) && redis.db == old(redis.db)
      ensures old(redis.available) ==>
                redis.db == Exec(old(redis.db), CounterInc(name, labels, amount)).0
                && r == Returned(Some(Value(old(redis.db), MetricKey(name, labels, None)) + amount))
    {
      CounterIncReply(redis.db, name, labels, amount);
      r := ExecuteForInt(redis, CounterInc(name, labels, amount), 1,
                         Value(redis.db, MetricKey(name, labels, None)) + amount);
    }

    /**
     * `Counter.set`: the same checks, then the series joins the group and is overwritten by
     * the value with no expiry; what is returned is the reply to `SET`, not the value.
     */
    method Set(value: Number, labels: Labels) returns (r: Outcome<Option<bool>>)
      modifies redis
      ensures redis.available == old(redis.available)
      ensures var v := CounterAmount(labelnames, labels, value);
              (v.Raised? ==> r == Raised(v.error) && redis.db == old(redis.db))
              && (v.Returned? && !old(redis.available) ==> r == Returned(None) && redis.db == old(redis.db))
              && (v.Returned? && old(redis.available) ==>
                    redis.db == Exec(old(redis.db), CounterSet(name, labels, v.value)).0 && r == Returned(Some(true)))
    {
      var v := CounterAmount(labelnames, labels, value);
      if v.Raised? {
        return Raised(v.error);
      }
      CounterSetEffect(redis.db, name, labels, v.value);
      var replies := redis.Execute(CounterSet(name, labels, v.value));
      match replies
      case Raised(_) =>
        return Returned(None);
      case Returned(rs) =>
      match rs[1]
      case BoolReply(b) =>
        return Returned(Some(b));
      case IntReply(_) =>
        assert false;
    }
  }

  // ---------------------------------------------------------------------------------------
  // CommonGauge

  /** The second reply of `CommonGauge._inc`'s pipeline is the new value, with or without the expiry. */
  lemma CommonGaugeIncReply(db: DB, name: string, labels: Labels, amount: int, expire: nat)
    ensures Exec(db, CommonGaugeInc(name, labels, amount, expire)).1[1]
            == IntReply(Value(db, MetricKey(name, labels, None)) + amount)
  {
    CommonGaugeIncEffect(db, name, labels, amount, expire);
  }

  /** The same reply for `dec`, which increments by the negated value. */
  lemma CommonGaugeDecReply(db: DB, name: string, labels: Labels, amount: int, expire: nat)
    ensures Exec(db, CommonGaugeInc(name, labels, -amount, expire)).1[1]
            == IntReply(Value(db, MetricKey(name, labels, None)) - amount)
  {
    CommonGaugeIncReply(db, name, labels, -amount, expire);
  }

  class CommonGauge {
    const name: string
    const documentation: string
    const labelnames: seq<string>
    const redis: Redis
    /** `_expire`, 0 standing for `None`. */
    const expire: nat

    constructor (name: string, documentation: string, labelnames: seq<string>, redis: Redis, expire: nat)
      ensures this.name == name && this.documentation == documentation
      ensures this.labelnames == labelnames && this.redis == redis && this.expire == expire
    {
      this.name := name;
      this.documentation := documentation;
      this.labelnames := labelnames;
      this.redis := redis;
      this.expire := expire;
    }

    /**
     * `CommonGauge.set`: the labels are checked, then a missing value is a `ValueError`,
     * both before the store is touched. Then the series is registered and set, expiring
     * after the call's expiry or, when that is 0, the metric's. `set` itself has no
     * `return`: it returns `None` whether or not the store could be reached, and the
     * replies of `_set` are dropped.
     */
    method Set(value: Option<int>, labels: Labels, expire: nat) returns (r: Outcome<()>)
      modifies redis
      ensures redis.available == old(redis.available)
      ensures var v := GaugeSetValue(labelnames, labels, value);
              (v.Raised? ==> r == Raised(v.error) && redis.db == old(redis.db))
              && (v.Returned? ==> r == Returned(()))
              && (v.Returned? && !old(redis.available) ==> redis.db == old(redis.db))
              && (v.Returned? && old(redis.available) ==>
                    redis.db == Exec(old(redis.db), CommonGaugeSet(name, labels, v.value, EffectiveExpire(expire, this.expire))).0)
    {
      var v := GaugeSetValue(labelnames, labels, value);
      if v.Raised? {
        return Raised(v.error);
      }
      var replies := redis.Execute(CommonGaugeSet(name, labels, v.value, EffectiveExpire(expire, this.expire)));
      var _ := Silent(replies);
      r := Returned(());
    }

    /**
     * `CommonGauge.inc`: after the labels are checked, the series is registered, grows by
     * the value, and gets the expiry when there is one; the new value is returned.
     */
    method Inc(value: int, labels: Labels, expire: nat) returns (r: Outcome<Option<int>>)
      modifies redis
      ensures redis.available == old(redis.available)
      ensures var c := CheckLabels(labelnames, labels);
              (c.Raised? ==> r == Raised(c.error) && redis.db == old(redis.db))
              && (c.Returned? && !old(redis.available) ==> r == Returned(None) && redis.db == old(redis.db))
              && (c.Returned? && old(redis.available) ==>
                    redis.db == Exec(old(redis.db), CommonGaugeInc(name, labels, value, EffectiveExpire(expire, this.expire))).0
                    && r == Returned(Some(Value(old(redis.db), MetricKey(name, labels, None)) + value)))
    {
      var c := CheckLabels(labelnames, labels);
      if c.Raised? {
        return Raised(c.error);
      }
      r := IncBy(value, labels, EffectiveExpire(expire, this.expire));
    }

    /** `CommonGauge.dec`: `inc` by the negated value. */
    method Dec(value: int, labels: Labels, expire: nat) returns (r: Outcome<Option<int>>)
      modifies redis
      ensures redis.available == old(redis.available)
      ensures var c := CheckLabels(labelnames, labels);
              (c.Raised? ==> r == Raised(c.error) && redis.db == old(redis.db))
              && (c.Returned? && !old(redis.available) ==> r == Returned(None) && redis.db == old(redis.db))
              && (c.Returned? && old(redis.available) ==>
                    redis.db == Exec(old(redis.db), CommonGaugeInc(name, labels, -value, EffectiveExpire(expire, this.expire))).0
                    && r == Returned(Some(Value(old(redis.db), MetricKey(name, labels, None)) - value)))
    {
      var c := CheckLabels(labelnames, labels);
      if c.Raised? {
        return Raised(c.error);
      }
      r := DecBy(value, labels, EffectiveExpire(expire, this.expire));
    }

    /** `CommonGauge._inc` of the negated value under the wrapper. */
    method DecBy(value: int, labels: Labels, expire: nat) returns (r: Outcome<Option<int>>)
      modifies redis
      ensures redis.available == old(redis.available)
      ensures !old(redis.available) ==> r == Returned(None) && redis.db == old(redis.db)
      ensures old(redis.available) ==>
                redis.db == Exec(old(redis.db), CommonGaugeInc(name, labels, -value, expire)).0
                && r == Returned(Some(Value(old(redis.db), MetricKey(name, labels, None)) - value))
    {
      CommonGaugeDecReply(redis.db, name, labels, value, expire);
      r := ExecuteForInt(redis, CommonGaugeInc(name, labels, -value, expire), 1,
                         Value(redis.db, MetricKey(name, labels, None)) - value);
    }

    /** `CommonGauge._inc` under the wrapper: the second reply, or `None` when the store cannot be reached. */
    method IncBy(value: int, labels: Labels, expire: nat) returns (r: Outcome<Option<int>>)
      modifies redis
      ensures redis.available == old(redis.available)
      ensures !old(redis.available) ==> r == Returned(None) && redis.db == old(redis.db)
      ensures old(redis.available) ==>
                redis.db == Exec(old(redis.db), CommonGaugeInc(name, labels, value, expire)).0
                && r == Returned(Some(Value(old(redis.db), MetricKey(name, labels, None)) + value))
    {
      CommonGaugeIncReply(redis.db, name, labels, value, expire);
      r := ExecuteForInt(redis, CommonGaugeInc(name, labels, value, expire), 1,
                         Value(redis.db, MetricKey(name, labels, None)) + value);
    }
  }

  // ---------------------------------------------------------------------------------------
  // Summary

  /** The second reply of `Summary.observe`'s pipeline is the new sum. */
  lemma SummaryObserveReply(db: DB, name: string, labels: Labels, value: int)
    ensures Exec(db, SummaryObserve(name, labels, value)).1[1]
            == IntReply(Value(db, MetricKey(name, labels, Some("_sum"))) + value)
  {
    SummaryObserveEffect(db, name, labels, value);
  }

  class Summary {
    const name: string
    const documentation: string
    const labelnames: seq<string>
    const redis: Redis

    constructor (name: string, documentation: string, labelnames: seq<string>, redis: Redis)
      ensures this.name == name && this.documentation == documentation
      ensures this.labelnames == labelnames && this.redis == redis
    {
      this.name := name;
      this.documentation := documentation;
      this.labelnames := labelnames;
      this.redis := redis;
    }

    /**
     * `Summary.observe`: after the labels are checked, both series join the group, the sum
     * grows by the value and the count by one, and the new sum is returned.
     */
    method Observe(value: int, labels: Labels) returns (r: Outcome<Option<int>>)
      modifies redis
      ensures redis.available == old(redis.available)
      ensures var c := CheckLabels(labelnames, labels);
              (c.Raised? ==> r == Raised(c.error) && redis.db == old(redis.db))
              && (c.Returned? && !old(redis.available) ==> r == Returned(None) && redis.db == old(redis.db))
              && (c.Returned? && old(redis.available) ==>
                    redis.db == Exec(old(redis.db), SummaryObserve(name, labels, value)).0
                    && r == Returned(Some(Value(old(redis.db), MetricKey(name, labels, Some("_sum"))) + value)))
    {
      var c := CheckLabels(labelnames, labels);
      if c.Raised? {
        return Raised(c.error);
      }
      SummaryObserveReply(redis.db, name, labels, value);
      r := ExecuteForInt(redis, SummaryObserve(name, labels, value), 1,
                         Value(redis.db, MetricKey(name, labels, Some("_sum"))) + value);
    }
  }
}
