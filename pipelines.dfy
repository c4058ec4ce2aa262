/**
 * The pipelines the metrics send, as command sequences, and what each does to the store:
 * which keys change and how, what the reply the caller sees is, and that nothing else
 * changes.
 */
module Pipelines {
  import opened Errors
  import opened Dicts
  import opened Store
  import opened BaseMetric

  /** Every key outside `keys` has the same value, time to live and members after as before. */
  ghost predicate Unchanged(before: DB, after: DB, keys: set<string>)
  {
    forall k :: k !in keys ==> SameKey(before, after, k)
  }

  /** `k` has the same value, time to live and members in both. */
  ghost predicate SameKey(before: DB, after: DB, k: string)
  {
    (k in after.values <==> k in before.values) && Value(after, k) == Value(before, k)
    && (k in after.ttl <==> k in before.ttl) && (k in after.ttl ==> after.ttl[k] == before.ttl[k])
    && Members(after, k) == Members(before, k)
  }

  lemma UnchangedTrans(a: DB, b: DB, c: DB, k1: set<string>, k2: set<string>)
    requires Unchanged(a, b, k1) && Unchanged(b, c, k2)
    ensures Unchanged(a, c, k1 + k2)
  {
  }

  lemma Exec1(db: DB, a: Command)
    ensures Exec(db, [a]) == (Apply(db, a).0, [Apply(db, a).1])
  {
    assert [a][1..] == [];
    assert Exec(Apply(db, a).0, []) == (Apply(db, a).0, []);
    assert [Apply(db, a).1] + [] == [Apply(db, a).1];
  }

  lemma Exec2(db: DB, a: Command, b: Command)
    ensures Exec(db, [a, b]).0 == Apply(Apply(db, a).0, b).0
    ensures Exec(db, [a, b]).1 == [Apply(db, a).1, Apply(Apply(db, a).0, b).1]
  {
    assert [a, b][1..] == [b];
    Exec1(Apply(db, a).0, b);
  }

  lemma Exec3(db: DB, a: Command, b: Command, c: Command)
    ensures var d1 := Apply(db, a).0; var d2 := Apply(d1, b).0;
            Exec(db, [a, b, c]).0 == Apply(d2, c).0
            && Exec(db, [a, b, c]).1 == [Apply(db, a).1, Apply(d1, b).1, Apply(d2, c).1]
  {
    assert [a, b, c][1..] == [b, c];
    Exec2(Apply(db, a).0, b, c);
  }

  // What each command does, over any keys.

  lemma SAddEffect(db: DB, g: string, ms: set<string>)
    ensures var d := Apply(db, SAdd(g, ms)).0;
            Members(d, g) == Members(db, g) + ms && d.values == db.values && Unchanged(db, d, {g})
  {
  }

  lemma SRemEffect(db: DB, g: string, ms: set<string>)
    ensures var d := Apply(db, SRem(g, ms)).0;
            Members(d, g) == Members(db, g) - ms && d.values == db.values && Unchanged(db, d, {g})
  {
  }

  lemma IncrByEffect(db: DB, k: string, n: int)
    ensures var r := Apply(db, IncrBy(k, n));
            k in r.0.values && Value(r.0, k) == Value(db, k) + n && r.1 == IntReply(Value(db, k) + n)
            && (k in r.0.ttl <==> k in db.ttl) && (k in db.ttl ==> r.0.ttl[k] == db.ttl[k])
            && Unchanged(db, r.0, {k})
  {
  }

  lemma SetEffect(db: DB, k: string, v: int, ex: nat)
    ensures var r := Apply(db, Set(k, v, ex));
            k in r.0.values && Value(r.0, k) == v && r.1 == BoolReply(true)
            && (k in r.0.ttl <==> ex > 0) && (ex > 0 ==> r.0.ttl[k] == ex)
            && Unchanged(db, r.0, {k})
  {
  }

  lemma ExpireEffect(db: DB, k: string, s: nat)
    requires k in db.values && s > 0
    ensures var r := Apply(db, Expire(k, s));
            r.0.values == db.values && k in r.0.ttl && r.0.ttl[k] == s && r.1 == BoolReply(true)
            && Unchanged(db, r.0, {k})
  {
  }

  lemma DeleteEffect(db: DB, ks: set<string>)
    ensures var d := Apply(db, Delete(ks)).0;
            (forall k :: k in ks ==> k !in d.values && k !in d.sets && k !in d.ttl)
            && Unchanged(db, d, ks)
  {
    var d := Apply(db, Delete(ks)).0;
    assert d == DeleteKeys(db, ks);
  }

  // The shapes of the pipelines, over any keys.

  /** `SADD g k` then `INCRBY k n`. */
  lemma RegisterIncrBy(db: DB, g: string, k: string, n: int)
    requires g != k
    ensures var r := Exec(db, [SAdd(g, {k}), IncrBy(k, n)]);
            Members(r.0, g) == Members(db, g) + {k}
            && k in r.0.values && Value(r.0, k) == Value(db, k) + n
            && (k in r.0.ttl <==> k in db.ttl) && (k in db.ttl ==> r.0.ttl[k] == db.ttl[k])
            && r.1[1] == IntReply(Value(db, k) + n)
            && Unchanged(db, r.0, {k, g})
  {
    var d1 := Apply(db, SAdd(g, {k})).0;
    SAddEffect(db, g, {k});
    IncrByEffect(d1, k, n);
    UnchangedTrans(db, d1, Apply(d1, IncrBy(k, n)).0, {g}, {k});
    Exec2(db, SAdd(g, {k}), IncrBy(k, n));
  }

  /** `SADD g k` then `SET k v [EX ex]`. */
  lemma RegisterSet(db: DB, g: string, k: string, v: int, ex: nat)
    requires g != k
    ensures var r := Exec(db, [SAdd(g, {k}), Set(k, v, ex)]);
            Members(r.0, g) == Members(db, g) + {k}
            && k in r.0.values && Value(r.0, k) == v
            && (k in r.0.ttl <==> ex > 0) && (ex > 0 ==> r.0.ttl[k] == ex)
            && r.1[1] == BoolReply(true)
            && Unchanged(db, r.0, {k, g})
  {
    var d1 := Apply(db, SAdd(g, {k})).0;
    SAddEffect(db, g, {k});
    SetEffect(d1, k, v, ex);
    UnchangedTrans(db, d1, Apply(d1, Set(k, v, ex)).0, {g}, {k});
    Exec2(db, SAdd(g, {k}), Set(k, v, ex));
  }

  /** `SADD g k`, `INCRBY k n`, then `EXPIRE k s`. */
  lemma RegisterIncrByExpire(db: DB, g: string, k: string, n: int, s: nat)
    requires g != k && s > 0
    ensures var r := Exec(db, [SAdd(g, {k}), IncrBy(k, n), Expire(k, s)]);
            Members(r.0, g) == Members(db, g) + {k}
            && k in r.0.values && Value(r.0, k) == Value(db, k) + n
            && k in r.0.ttl && r.0.ttl[k] == s
            && r.1[1] == IntReply(Value(db, k) + n)
            && Unchanged(db, r.0, {k, g})
  {
    var d2 := Exec(db, [SAdd(g, {k}), IncrBy(k, n)]).0;
    RegisterIncrBy(db, g, k, n);
    ExpireEffect(d2, k, s);
    UnchangedTrans(db, d2, Apply(d2, Expire(k, s)).0, {k, g}, {k});
    assert {k, g} + {k} == {k, g};
    Exec2(db, SAdd(g, {k}), IncrBy(k, n));
    Exec3(db, SAdd(g, {k}), IncrBy(k, n), Expire(k, s));
  }

  /** `SADD g a b`, `INCRBY a n`, then `INCRBY b m`. */
  lemma RegisterTwo(db: DB, g: string, a: string, b: string, n: int, m: int)
    requires g != a && g != b && a != b
    ensures var r := Exec(db, [SAdd(g, {a, b}), IncrBy(a, n), IncrBy(b, m)]);
            Members(r.0, g) == Members(db, g) + {a, b}
            && a in r.0.values && b in r.0.values
            && Value(r.0, a) == Value(db, a) + n && Value(r.0, b) == Value(db, b) + m
            && r.1[1] == IntReply(Value(db, a) + n)
            && Unchanged(db, r.0, {a, b, g})
  {
    var d1 := Apply(db, SAdd(g, {a, b})).0;
    var d2 := Apply(d1, IncrBy(a, n)).0;
    var d3 := Apply(d2, IncrBy(b, m)).0;
    RegisterTwoFirst(db, g, a, b, n);
    IncrByEffect(d2, b, m);
    UnchangedTrans(db, d2, d3, {a, g}, {b});
    assert {a, g} + {b} == {a, b, g};
    Exec3(db, SAdd(g, {a, b}), IncrBy(a, n), IncrBy(b, m));
  }

  lemma RegisterTwoFirst(db: DB, g: string, a: string, b: string, n: int)
    requires g != a && g != b && a != b
    ensures var d1 := Apply(db, SAdd(g, {a, b})).0; var d2 := Apply(d1, IncrBy(a, n)).0;
            Members(d2, g) == Members(db, g) + {a, b}
            && a in d2.values && Value(d2, a) == Value(db, a) + n
            && Apply(d1, IncrBy(a, n)).1 == IntReply(Value(db, a) + n)
            && Unchanged(db, d2, {a, g})
  {
    var d1 := Apply(db, SAdd(g, {a, b})).0;
    SAddEffect(db, g, {a, b});
    IncrByEffect(d1, a, n);
    UnchangedTrans(db, d1, Apply(d1, IncrBy(a, n)).0, {g}, {a});
    assert {g} + {a} == {a, g};
  }

  /** `SREM g ks...` then `DEL ks...`. */
  lemma RemoveAndDelete(db: DB, g: string, ks: set<string>)
    requires g !in ks
    ensures var d := Exec(db, [SRem(g, ks), Delete(ks)]).0;
            Members(d, g) == Members(db, g) - ks
            && (forall k :: k in ks ==> k !in d.values && k !in d.sets && k !in d.ttl)
            && Unchanged(db, d, ks + {g})
  {
    var d1 := Apply(db, SRem(g, ks)).0;
    SRemEffect(db, g, ks);
    DeleteEffect(d1, ks);
    UnchangedTrans(db, d1, Apply(d1, Delete(ks)).0, {g}, ks);
    Exec2(db, SRem(g, ks), Delete(ks));
  }

  /** `SADD g k` and `INCR k` for each key in turn. */
  function IncrEach(g: string, ks: seq<string>): (r: seq<Command>)
    ensures |r| == 2 * |ks|
  {
    if |ks| == 0 then [] else [SAdd(g, {ks[0]}), IncrBy(ks[0], 1)] + IncrEach(g, ks[1..])
  }

  /** Running `IncrEach` is running its first two commands, then `IncrEach` of the rest. */
  lemma IncrEachStep(db: DB, g: string, ks: seq<string>)
    requires |ks| > 0
    ensures Exec(db, IncrEach(g, ks)).0
            == Exec(Exec(db, [SAdd(g, {ks[0]}), IncrBy(ks[0], 1)]).0, IncrEach(g, ks[1..])).0
  {
    ExecConcat(db, [SAdd(g, {ks[0]}), IncrBy(ks[0], 1)], IncrEach(g, ks[1..]));
  }

  /** Every key joins the group. */
  lemma {:induction false} IncrEachMembers(db: DB, g: string, ks: seq<string>)
    requires g !in ks
    ensures Members(Exec(db, IncrEach(g, ks)).0, g) == Members(db, g) + ToSet(ks)
    decreases |ks|
  {
    if |ks| == 0 {
      assert Exec(db, []) == (db, []);
    } else {
      var d1 := Exec(db, [SAdd(g, {ks[0]}), IncrBy(ks[0], 1)]).0;
      RegisterIncrBy(db, g, ks[0], 1);
      IncrEachStep(db, g, ks);
      assert g !in ks[1..];
      IncrEachMembers(d1, g, ks[1..]);
    }
  }

  /** Every key other than the group's is incremented once per occurrence. */
  lemma {:induction false} IncrEachValue(db: DB, g: string, ks: seq<string>, k: string)
    requires g !in ks && k != g
    ensures k in ks ==> k in Exec(db, IncrEach(g, ks)).0.values
    ensures Value(Exec(db, IncrEach(g, ks)).0, k) == Value(db, k) + multiset(ks)[k]
    decreases |ks|
  {
    if |ks| == 0 {
      assert Exec(db, []) == (db, []);
    } else {
      var d1 := Exec(db, [SAdd(g, {ks[0]}), IncrBy(ks[0], 1)]).0;
      IncrOneValue(db, g, ks[0], k);
      IncrEachStep(db, g, ks);
      assert g !in ks[1..];
      IncrEachValue(d1, g, ks[1..], k);
      if k !in ks[1..] {
        IncrEachUnchanged(d1, g, ks[1..]);
      }
      MultisetCons(ks, k);
    }
  }

  /** The first two commands of `IncrEach` add one to their key and leave every other key's value. */
  lemma IncrOneValue(db: DB, g: string, k0: string, k: string)
    requires g != k0 && k != g
    ensures var d1 := Exec(db, [SAdd(g, {k0}), IncrBy(k0, 1)]).0;
            Value(d1, k) == Value(db, k) + (if k == k0 then 1 else 0)
            && (k == k0 ==> k in d1.values)
  {
    var d1 := Exec(db, [SAdd(g, {k0}), IncrBy(k0, 1)]).0;
    RegisterIncrBy(db, g, k0, 1);
    if k != k0 {
      assert SameKey(db, d1, k);
    }
  }

  lemma MultisetCons<T>(s: seq<T>, x: T)
    requires |s| > 0
    ensures multiset(s)[x] == (if x == s[0] then 1 else 0) + multiset(s[1..])[x]
  {
    assert s == [s[0]] + s[1..];
  }

  /** Every key outside the sequence and the group is left exactly as it was. */
  lemma {:induction false} IncrEachUnchanged(db: DB, g: string, ks: seq<string>)
    requires g !in ks
    ensures Unchanged(db, Exec(db, IncrEach(g, ks)).0, ToSet(ks) + {g})
    decreases |ks|
  {
    if |ks| == 0 {
      assert Exec(db, []) == (db, []);
    } else {
      var d1 := Exec(db, [SAdd(g, {ks[0]}), IncrBy(ks[0], 1)]).0;
      RegisterIncrBy(db, g, ks[0], 1);
      IncrEachStep(db, g, ks);
      assert g !in ks[1..];
      IncrEachUnchanged(d1, g, ks[1..]);
      var d := Exec(d1, IncrEach(g, ks[1..])).0;
      UnchangedTrans(db, d1, d, {ks[0], g}, ToSet(ks[1..]) + {g});
      assert {ks[0], g} + (ToSet(ks[1..]) + {g}) == ToSet(ks) + {g};
    }
  }

  // ---------------------------------------------------------------------------------------
  // Counter

  /** `Counter._inc`: register the series in the group, then `INCRBY` it. */
  function CounterInc(name: string, labels: Labels, amount: int): seq<Command>
  {
    var key := MetricKey(name, labels, None);
    [SAdd(GroupKey(name), {key}), IncrBy(key, amount)]
  }

  /** `Counter._set`: register the series in the group, then `SET` it without expiry. */
  function CounterSet(name: string, labels: Labels, value: int): seq<Command>
  {
    var key := MetricKey(name, labels, None);
    [SAdd(GroupKey(name), {key}), Set(key, value, 0)]
  }

  /** The series is in the group, its value grew by `amount`, and the reply is the new value. */
  lemma CounterIncEffect(db: DB, name: string, labels: Labels, amount: int)
    ensures var k, g := MetricKey(name, labels, None), GroupKey(name);
            var r := Exec(db, CounterInc(name, labels, amount));
            Members(r.0, g) == Members(db, g) + {k}
            && k in r.0.values && Value(r.0, k) == Value(db, k) + amount
            && (k in r.0.ttl <==> k in db.ttl)
            && r.1[1] == IntReply(Value(db, k) + amount)
            && Unchanged(db, r.0, {k, g})
  {
    GroupKeyIsNotMetricKey(name, labels, None);
    RegisterIncrBy(db, GroupKey(name), MetricKey(name, labels, None), amount);
  }

  /** The series is in the group and holds `value` with no expiry; the reply is `SET`'s `True`. */
  lemma CounterSetEffect(db: DB, name: string, labels: Labels, value: int)
    ensures var k, g := MetricKey(name, labels, None), GroupKey(name);
            var r := Exec(db, CounterSet(name, labels, value));
            Members(r.0, g) == Members(db, g) + {k}
            && k in r.0.values && Value(r.0, k) == value && k !in r.0.ttl
            && r.1[1] == BoolReply(true)
            && Unchanged(db, r.0, {k, g})
  {
    GroupKeyIsNotMetricKey(name, labels, None);
    RegisterSet(db, GroupKey(name), MetricKey(name, labels, None), value, 0);
  }

  // ---------------------------------------------------------------------------------------
  // CommonGauge

  /** `CommonGauge._set`: register the series, then `SET` it, with `EX` when `expire` is not 0. */
  function CommonGaugeSet(name: string, labels: Labels, value: int, expire: nat): seq<Command>
  {
    var key := MetricKey(name, labels, None);
    [SAdd(GroupKey(name), {key}), Set(key, value, expire)]
  }

  /** `CommonGauge._inc`: register the series, add to it, and set its expiry only when there is one. */
  function CommonGaugeInc(name: string, labels: Labels, amount: int, expire: nat): seq<Command>
  {
    var key := MetricKey(name, labels, None);
    if expire > 0 then [SAdd(GroupKey(name), {key}), IncrBy(key, amount), Expire(key, expire)]
    else [SAdd(GroupKey(name), {key}), IncrBy(key, amount)]
  }

  /** `expire or self._expire`: a zero (absent) expiry in the call falls back to the metric's. */
  function EffectiveExpire(expire: nat, default: nat): (r: nat)
    ensures expire > 0 ==> r == expire
    ensures expire == 0 ==> r == default
  {
    if expire > 0 then expire else default
  }

  lemma CommonGaugeSetEffect(db: DB, name: string, labels: Labels, value: int, expire: nat)
    ensures var k, g := MetricKey(name, labels, None), GroupKey(name);
            var r := Exec(db, CommonGaugeSet(name, labels, value, expire));
            Members(r.0, g) == Members(db, g) + {k}
            && k in r.0.values && Value(r.0, k) == value
            && (k in r.0.ttl <==> expire > 0) && (expire > 0 ==> r.0.ttl[k] == expire)
            && Unchanged(db, r.0, {k, g})
  {
    GroupKeyIsNotMetricKey(name, labels, None);
    RegisterSet(db, GroupKey(name), MetricKey(name, labels, None), value, expire);
  }

  /**
   * The value grows by `amount` and the reply is the new value; the expiry is renewed when
   * one is given and left as it was otherwise.
   */
  lemma CommonGaugeIncEffect(db: DB, name: string, labels: Labels, amount: int, expire: nat)
    ensures var k, g := MetricKey(name, labels, None), GroupKey(name);
            var r := Exec(db, CommonGaugeInc(name, labels, amount, expire));
            Members(r.0, g) == Members(db, g) + {k}
            && k in r.0.values && Value(r.0, k) == Value(db, k) + amount
            && (expire > 0 ==> k in r.0.ttl && r.0.ttl[k] == expire)
            && (expire == 0 ==> (k in r.0.ttl <==> k in db.ttl) && (k in db.ttl ==> r.0.ttl[k] == db.ttl[k]))
            && r.1[1] == IntReply(Value(db, k) + amount)
            && Unchanged(db, r.0, {k, g})
  {
    GroupKeyIsNotMetricKey(name, labels, None);
    if expire > 0 {
      RegisterIncrByExpire(db, GroupKey(name), MetricKey(name, labels, None), amount, expire);
    } else {
      RegisterIncrBy(db, GroupKey(name), MetricKey(name, labels, None), amount);
    }
  }

  // ---------------------------------------------------------------------------------------
  // Summary

  /** `Summary._observer`: register both series, add to the sum, count one more. */
  function SummaryObserve(name: string, labels: Labels, value: int): seq<Command>
  {
    var sum, count := MetricKey(name, labels, Some("_sum")), MetricKey(name, labels, Some("_count"));
    [SAdd(GroupKey(name), {sum, count}), IncrBy(sum, value), IncrBy(count, 1)]
  }

  /** Both series are in the group; the sum grows by `value`, the count by one; the reply is the new sum. */
  lemma SummaryObserveEffect(db: DB, name: string, labels: Labels, value: int)
    ensures var sum, count := MetricKey(name, labels, Some("_sum")), MetricKey(name, labels, Some("_count"));
            var g := GroupKey(name);
            var r := Exec(db, SummaryObserve(name, labels, value));
            Members(r.0, g) == Members(db, g) + {sum, count}
            && Value(r.0, sum) == Value(db, sum) + value && Value(r.0, count) == Value(db, count) + 1
            && sum in r.0.values && count in r.0.values
            && r.1[1] == IntReply(Value(db, sum) + value)
            && Unchanged(db, r.0, {sum, count, g})
  {
    GroupKeyIsNotMetricKey(name, labels, Some("_sum"));
    GroupKeyIsNotMetricKey(name, labels, Some("_count"));
    SeriesKeysDistinct(name, labels, labels, Some("_sum"), Some("_count"));
    var sum, count := MetricKey(name, labels, Some("_sum")), MetricKey(name, labels, Some("_count"));
    RegisterTwo(db, GroupKey(name), sum, count, value, 1);
  }

  // ---------------------------------------------------------------------------------------
  // Gauge

  /** `Gauge._inc`: register the series, add to it, and renew its expiry. */
  function GaugeInc(name: string, labels: Labels, amount: int, expire: nat): seq<Command>
  {
    var key := MetricKey(name, labels, None);
    [SAdd(GroupKey(name), {key}), IncrBy(key, amount), Expire(key, expire)]
  }

  /** `Gauge._set`: register the series and `SET` it with `EX`. */
  function GaugeSet(name: string, labels: Labels, value: int, expire: nat): seq<Command>
  {
    var key := MetricKey(name, labels, None);
    [SAdd(GroupKey(name), {key}), Set(key, value, expire)]
  }

  /** `Gauge.cleanup`: drop the keys from the group and delete them. */
  function GaugeCleanup(name: string, keys: set<string>): seq<Command>
  {
    [SRem(GroupKey(name), keys), Delete(keys)]
  }

  lemma GaugeIncEffect(db: DB, name: string, labels: Labels, amount: int, expire: nat)
    requires expire > 0
    ensures var k, g := MetricKey(name, labels, None), GroupKey(name);
            var r := Exec(db, GaugeInc(name, labels, amount, expire));
            Members(r.0, g) == Members(db, g) + {k}
            && k in r.0.values && Value(r.0, k) == Value(db, k) + amount
            && k in r.0.ttl && r.0.ttl[k] == expire
            && Unchanged(db, r.0, {k, g})
  {
    GroupKeyIsNotMetricKey(name, labels, None);
    RegisterIncrByExpire(db, GroupKey(name), MetricKey(name, labels, None), amount, expire);
  }

  lemma GaugeSetEffect(db: DB, name: string, labels: Labels, value: int, expire: nat)
    requires expire > 0
    ensures var k, g := MetricKey(name, labels, None), GroupKey(name);
            var r := Exec(db, GaugeSet(name, labels, value, expire));
            Members(r.0, g) == Members(db, g) + {k}
            && k in r.0.values && Value(r.0, k) == value
            && k in r.0.ttl && r.0.ttl[k] == expire
            && Unchanged(db, r.0, {k, g})
  {
    GroupKeyIsNotMetricKey(name, labels, None);
    RegisterSet(db, GroupKey(name), MetricKey(name, labels, None), value, expire);
  }

  /** Setting a gauge twice with the same labels, in any insertion order, leaves one group member. */
  lemma GaugeSetTwiceOneMember(db: DB, name: string, a: Labels, b: Labels, v: int, w: int, expire: nat)
    requires expire > 0 && SameMapping(a, b)
    ensures var d1 := Exec(db, GaugeSet(name, a, v, expire)).0;
            var d2 := Exec(d1, GaugeSet(name, b, w, expire)).0;
            Members(d2, GroupKey(name)) == Members(db, GroupKey(name)) + {MetricKey(name, a, None)}
            && Value(d2, MetricKey(name, a, None)) == w
  {
    MetricKeySameMapping(name, None, a, b);
    GaugeSetEffect(db, name, a, v, expire);
    GaugeSetEffect(Exec(db, GaugeSet(name, a, v, expire)).0, name, b, w, expire);
  }

  /** Cleanup takes exactly the given keys out of the group and deletes them; nothing else changes. */
  lemma GaugeCleanupEffect(db: DB, name: string, keys: set<string>)
    requires GroupKey(name) !in keys
    ensures var g := GroupKey(name);
            var d := Exec(db, GaugeCleanup(name, keys)).0;
            Members(d, g) == Members(db, g) - keys
            && (forall k :: k in keys ==> k !in d.values && k !in d.sets && k !in d.ttl)
            && Unchanged(db, d, keys + {g})
  {
    RemoveAndDelete(db, GroupKey(name), keys);
  }

  // ---------------------------------------------------------------------------------------
  // Histogram

  predicate Descending(s: seq<int>)
  {
    forall i, j :: 0 <= i < j < |s| ==> s[i] >= s[j]
  }

  /** `sorted(buckets, reverse=True)`, one bound at a time. */
  function InsertDescending(x: int, s: seq<int>): (r: seq<int>)
    requires Descending(s)
    ensures Descending(r) && multiset(r) == multiset(s) + multiset{x}
  {
    if |s| == 0 then [x]
    else if x >= s[0] then [x] + s
    else
      var rest := InsertDescending(x, s[1..]);
      InsertBelow(x, s, rest);
      [s[0]] + rest
  }

  lemma InsertBelow(x: int, s: seq<int>, rest: seq<int>)
    requires Descending(s) && |s| > 0 && x < s[0]
    requires Descending(rest) && multiset(rest) == multiset(s[1..]) + multiset{x}
    ensures Descending([s[0]] + rest) && multiset([s[0]] + rest) == multiset(s) + multiset{x}
  {
    assert s == [s[0]] + s[1..];
    forall j | 0 <= j < |rest| ensures s[0] >= rest[j] {
      assert rest[j] in multiset(rest);
      if rest[j] != x {
        assert rest[j] in s[1..];
      }
    }
    var r := [s[0]] + rest;
    forall i, j | 0 <= i < j < |r| ensures r[i] >= r[j] {
      if i > 0 { assert r[i] == rest[i - 1] && r[j] == rest[j - 1]; }
      else { assert r[j] == rest[j - 1]; }
    }
  }

  /** `sorted(buckets, reverse=True)`: the bounds from largest to smallest. */
  function SortDescending(s: seq<int>): (r: seq<int>)
    ensures Descending(r) && multiset(r) == multiset(s)
  {
    if |s| == 0 then []
    else
      assert s == [s[0]] + s[1..];
      InsertDescending(s[0], SortDescending(s[1..]))
  }

  /** The bounds `observe` visits before `value > bucket` stops it. */
  function Taken(buckets: seq<int>, value: int): (r: seq<int>)
    ensures |r| <= |buckets| && r == buckets[..|r|]
    ensures forall i :: 0 <= i < |r| ==> value <= r[i]
    ensures |r| < |buckets| ==> value > buckets[|r|]
  {
    if |buckets| == 0 || value > buckets[0] then []
    else [buckets[0]] + Taken(buckets[1..], value)
  }

  /** The bounds at or above `value`, in their order. */
  function Filter(buckets: seq<int>, value: int): (r: seq<int>)
    ensures forall b :: b in r <==> b in buckets && value <= b
  {
    if |buckets| == 0 then []
    else (if value <= buckets[0] then [buckets[0]] else []) + Filter(buckets[1..], value)
  }

  lemma {:induction false} FilterSplit(a: seq<int>, b: seq<int>, value: int)
    ensures Filter(a + b, value) == Filter(a, value) + Filter(b, value)
  {
    if |a| > 0 {
      assert (a + b)[0] == a[0] && (a + b)[1..] == a[1..] + b;
      FilterSplit(a[1..], b, value);
    } else {
      assert a + b == b;
    }
  }

  lemma {:induction false} FilterAll(a: seq<int>, value: int)
    requires forall i :: 0 <= i < |a| ==> value <= a[i]
    ensures Filter(a, value) == a
  {
    if |a| > 0 { FilterAll(a[1..], value); }
  }

  lemma {:induction false} FilterNone(a: seq<int>, value: int)
    requires forall i :: 0 <= i < |a| ==> value > a[i]
    ensures Filter(a, value) == []
  {
    if |a| > 0 { FilterNone(a[1..], value); }
  }

  lemma {:induction false} FilterCount(buckets: seq<int>, value: int, b: int)
    ensures multiset(Filter(buckets, value))[b] == if value <= b then multiset(buckets)[b] else 0
  {
    if |buckets| > 0 {
      FilterCount(buckets[1..], value, b);
      assert buckets == [buckets[0]] + buckets[1..];
    }
  }

  /** Over descending bounds, the loop visits exactly the bounds at or above the value. */
  lemma TakenIsAtLeast(buckets: seq<int>, value: int)
    requires Descending(buckets)
    ensures Taken(buckets, value) == Filter(buckets, value)
  {
    var t := Taken(buckets, value);
    var rest := buckets[|t|..];
    assert buckets == t + rest;
    forall i | 0 <= i < |rest| ensures value > rest[i] {
      assert rest[i] == buckets[|t| + i];
      if i > 0 {
        assert buckets[|t|] >= buckets[|t| + i];
      }
    }
    FilterSplit(t, rest, value);
    FilterAll(t, value);
    FilterNone(rest, value);
  }

  /** The series key of one bucket: the caller's labels with `le` set to the bound. */
  function BucketKey(name: string, labels: Labels, bound: int): string
  {
    MetricKey(name, Put(labels, "le", Num(bound)), Some("_bucket"))
  }

  function BucketKeys(name: string, labels: Labels, bounds: seq<int>): seq<string>
  {
    seq(|bounds|, i requires 0 <= i < |bounds| => BucketKey(name, labels, bounds[i]))
  }

  /** `SADD g k` and `INCR k` for each key, then `SADD g sum count`, `INCR count` and `INCRBY sum value`. */
  function ObserveAll(g: string, ks: seq<string>, sum: string, count: string, value: int): seq<Command>
  {
    IncrEach(g, ks) + ObserveTail(g, sum, count, value)
  }

  function ObserveTail(g: string, sum: string, count: string, value: int): seq<Command>
  {
    [SAdd(g, {sum, count}), IncrBy(count, 1), IncrBy(sum, value)]
  }

  /**
   * `Histogram._a_observe`: the bucket series of the visited bounds, then the sum and the
   * count. The sum and count keys are taken before the loop writes `le` into the labels.
   */
  function HistogramObserve(name: string, labels: Labels, buckets: seq<int>, value: int): seq<Command>
  {
    ObserveAll(GroupKey(name), BucketKeys(name, labels, Taken(buckets, value)),
               MetricKey(name, labels, Some("_sum")), MetricKey(name, labels, Some("_count")), value)
  }

  /** Different bounds give different bucket keys. */
  lemma BucketKeyInjective(name: string, labels: Labels, a: int, b: int)
    requires BucketKey(name, labels, a) == BucketKey(name, labels, b)
    ensures a == b
  {
    MetricKeySameMapping(name, Some("_bucket"), Put(labels, "le", Num(a)), Put(labels, "le", Num(b)));
    assert Get(Put(labels, "le", Num(a)), "le") == Some(Num(a));
  }

  /** Two sequences that match position by position have matching counts. */
  lemma {:induction false} CountMatching(ks: seq<string>, bounds: seq<int>, k: string, b: int)
    requires |ks| == |bounds|
    requires forall i :: 0 <= i < |ks| ==> (ks[i] == k <==> bounds[i] == b)
    ensures multiset(ks)[k] == multiset(bounds)[b]
  {
    if |ks| > 0 {
      CountMatching(ks[1..], bounds[1..], k, b);
      assert ks == [ks[0]] + ks[1..];
      assert bounds == [bounds[0]] + bounds[1..];
    }
  }

  /** The visited bucket keys are neither the group key nor the sum or count key. */
  lemma BucketKeysApart(name: string, labels: Labels, t: seq<int>)
    ensures var ks := BucketKeys(name, labels, t);
            GroupKey(name) !in ks
            && MetricKey(name, labels, Some("_sum")) !in ks && MetricKey(name, labels, Some("_count")) !in ks
  {
    var ks := BucketKeys(name, labels, t);
    forall i | 0 <= i < |ks|
      ensures ks[i] != GroupKey(name)
      ensures ks[i] != MetricKey(name, labels, Some("_sum")) && ks[i] != MetricKey(name, labels, Some("_count"))
    {
      var li := Put(labels, "le", Num(t[i]));
      GroupKeyIsNotMetricKey(name, li, Some("_bucket"));
      SeriesKeysDistinct(name, li, labels, Some("_bucket"), Some("_sum"));
      SeriesKeysDistinct(name, li, labels, Some("_bucket"), Some("_count"));
    }
  }

  /** A bucket key occurs among the visited keys as often as its bound among the visited bounds. */
  lemma BucketKeyCount(name: string, labels: Labels, t: seq<int>, b: int)
    ensures multiset(BucketKeys(name, labels, t))[BucketKey(name, labels, b)] == multiset(t)[b]
  {
    var ks, bk := BucketKeys(name, labels, t), BucketKey(name, labels, b);
    forall i | 0 <= i < |ks| ensures ks[i] == bk <==> t[i] == b {
      if ks[i] == bk { BucketKeyInjective(name, labels, t[i], b); }
    }
    CountMatching(ks, t, bk, b);
  }

  /** The sum and count commands: both keys join the group, count goes up by one, sum by the value. */
  lemma ObserveTailEffect(db: DB, g: string, sum: string, count: string, value: int, k: string)
    requires g != sum && g != count && sum != count && k != g
    ensures var d := Exec(db, ObserveTail(g, sum, count, value)).0;
            Members(d, g) == Members(db, g) + {sum, count}
            && Value(d, k) == Value(db, k) + (if k == count then 1 else 0) + (if k == sum then value else 0)
  {
    assert {sum, count} == {count, sum};
    RegisterTwo(db, g, count, sum, 1, value);
    if k != count && k != sum {
      assert SameKey(db, Exec(db, ObserveTail(g, sum, count, value)).0, k);
    }
  }

  /** Each key's final value after `ObserveAll`. */
  lemma ObserveAllValue(db: DB, g: string, ks: seq<string>, sum: string, count: string, value: int, k: string)
    requires g !in ks && sum !in ks && count !in ks
    requires g != sum && g != count && sum != count && k != g
    ensures Value(Exec(db, ObserveAll(g, ks, sum, count, value)).0, k)
            == Value(db, k) + multiset(ks)[k] + (if k == count then 1 else 0) + (if k == sum then value else 0)
  {
    var d1 := Exec(db, IncrEach(g, ks)).0;
    ExecConcat(db, IncrEach(g, ks), ObserveTail(g, sum, count, value));
    IncrEachValue(db, g, ks, k);
    ObserveTailEffect(d1, g, sum, count, value, k);
    if k == count || k == sum {
      assert multiset(ks)[k] == 0;
    }
  }

  /** The group's final members after `ObserveAll`. */
  lemma ObserveAllMembers(db: DB, g: string, ks: seq<string>, sum: string, count: string, value: int)
    requires g !in ks && sum !in ks && count !in ks
    requires g != sum && g != count && sum != count
    ensures Members(Exec(db, ObserveAll(g, ks, sum, count, value)).0, g) == Members(db, g) + ToSet(ks) + {sum, count}
  {
    var d1 := Exec(db, IncrEach(g, ks)).0;
    ExecConcat(db, IncrEach(g, ks), ObserveTail(g, sum, count, value));
    IncrEachMembers(db, g, ks);
    ObserveTailEffect(d1, g, sum, count, value, sum);
  }

  /** `ObserveAll`'s requirements on keys, for the keys of one histogram observation. */
  lemma HistogramKeysApart(name: string, labels: Labels, t: seq<int>)
    ensures var g, ks := GroupKey(name), BucketKeys(name, labels, t);
            var sum, count := MetricKey(name, labels, Some("_sum")), MetricKey(name, labels, Some("_count"));
            g !in ks && sum !in ks && count !in ks && g != sum && g != count && sum != count
  {
    BucketKeysApart(name, labels, t);
    GroupKeyIsNotMetricKey(name, labels, Some("_sum"));
    GroupKeyIsNotMetricKey(name, labels, Some("_count"));
    SeriesKeysDistinct(name, labels, labels, Some("_sum"), Some("_count"));
  }

  /** A bucket key is neither the group key nor the sum or count key. */
  lemma BucketKeyApart(name: string, labels: Labels, b: int)
    ensures var bk := BucketKey(name, labels, b);
            bk != GroupKey(name) && bk != MetricKey(name, labels, Some("_sum"))
            && bk != MetricKey(name, labels, Some("_count"))
  {
    GroupKeyIsNotMetricKey(name, Put(labels, "le", Num(b)), Some("_bucket"));
    SeriesKeysDistinct(name, Put(labels, "le", Num(b)), labels, Some("_bucket"), Some("_sum"));
    SeriesKeysDistinct(name, Put(labels, "le", Num(b)), labels, Some("_bucket"), Some("_count"));
  }

  /**
   * An observation increments the bucket of every bound at or above the value, once per time
   * the bound is listed.
   */
  lemma HistogramObserveBuckets(db: DB, name: string, labels: Labels, buckets: seq<int>, value: int, b: int)
    requires Descending(buckets)
    ensures var d := Exec(db, HistogramObserve(name, labels, buckets, value)).0;
            var bk := BucketKey(name, labels, b);
            Value(d, bk) == Value(db, bk) + (if value <= b then multiset(buckets)[b] else 0)
  {
    var t := Taken(buckets, value);
    var ks := BucketKeys(name, labels, t);
    var bk := BucketKey(name, labels, b);
    HistogramKeysApart(name, labels, t);
    BucketKeyApart(name, labels, b);
    ObserveAllValue(db, GroupKey(name), ks, MetricKey(name, labels, Some("_sum")),
                    MetricKey(name, labels, Some("_count")), value, bk);
    assert multiset(ks)[bk] == (if value <= b then multiset(buckets)[b] else 0) by {
      BucketKeyCount(name, labels, t, b);
      TakenIsAtLeast(buckets, value);
      FilterCount(buckets, value, b);
    }
  }

  /** After an observation, the bucket of every listed bound at or above the value is in the group. */
  lemma HistogramObserveRegisters(db: DB, name: string, labels: Labels, buckets: seq<int>, value: int, b: int)
    requires Descending(buckets) && b in buckets && value <= b
    ensures BucketKey(name, labels, b) in Members(Exec(db, HistogramObserve(name, labels, buckets, value)).0, GroupKey(name))
  {
    var t := Taken(buckets, value);
    var ks := BucketKeys(name, labels, t);
    HistogramKeysApart(name, labels, t);
    ObserveAllMembers(db, GroupKey(name), ks, MetricKey(name, labels, Some("_sum")),
                      MetricKey(name, labels, Some("_count")), value);
    TakenIsAtLeast(buckets, value);
    var i :| 0 <= i < |t| && t[i] == b;
    assert ks[i] == BucketKey(name, labels, b);
  }

  /** An observation always counts one more observation and adds the value to the sum. */
  lemma HistogramObserveSumCount(db: DB, name: string, labels: Labels, buckets: seq<int>, value: int)
    ensures var sum, count := MetricKey(name, labels, Some("_sum")), MetricKey(name, labels, Some("_count"));
            var d := Exec(db, HistogramObserve(name, labels, buckets, value)).0;
            Value(d, count) == Value(db, count) + 1 && Value(d, sum) == Value(db, sum) + value
            && {sum, count} <= Members(d, GroupKey(name))
  {
    var sum, count := MetricKey(name, labels, Some("_sum")), MetricKey(name, labels, Some("_count"));
    var ks := BucketKeys(name, labels, Taken(buckets, value));
    HistogramKeysApart(name, labels, Taken(buckets, value));
    ObserveAllValue(db, GroupKey(name), ks, sum, count, value, sum);
    ObserveAllValue(db, GroupKey(name), ks, sum, count, value, count);
    ObserveAllMembers(db, GroupKey(name), ks, sum, count, value);
  }

  /** The bucket keys of the listed bounds at or above `value`. */
  ghost function ObservedBuckets(name: string, labels: Labels, buckets: seq<int>, value: int): set<string>
  {
    set b | b in buckets && value <= b :: BucketKey(name, labels, b)
  }

  /** The keys the loop visits are the bucket keys of the bounds at or above the value. */
  lemma TakenBucketKeys(name: string, labels: Labels, buckets: seq<int>, value: int)
    requires Descending(buckets)
    ensures ToSet(BucketKeys(name, labels, Taken(buckets, value))) == ObservedBuckets(name, labels, buckets, value)
  {
    var ks := BucketKeys(name, labels, Taken(buckets, value));
    forall k | k in ObservedBuckets(name, labels, buckets, value) ensures k in ks {
      var b :| b in buckets && value <= b && k == BucketKey(name, labels, b);
      ObservedBucketVisited(name, labels, buckets, value, b);
    }
    forall k | k in ks ensures k in ObservedBuckets(name, labels, buckets, value) {
      var i :| 0 <= i < |ks| && ks[i] == k;
      VisitedBucketObserved(name, labels, buckets, value, i);
    }
  }

  /** A listed bound at or above the value has its bucket key visited. */
  lemma ObservedBucketVisited(name: string, labels: Labels, buckets: seq<int>, value: int, b: int)
    requires Descending(buckets) && b in buckets && value <= b
    ensures BucketKey(name, labels, b) in BucketKeys(name, labels, Taken(buckets, value))
  {
    var t := Taken(buckets, value);
    TakenIsAtLeast(buckets, value);
    FilterCount(buckets, value, b);
    assert b in multiset(t);
    var i :| 0 <= i < |t| && t[i] == b;
    assert BucketKeys(name, labels, t)[i] == BucketKey(name, labels, b);
  }

  /** A visited bucket key is the key of a listed bound at or above the value. */
  lemma VisitedBucketObserved(name: string, labels: Labels, buckets: seq<int>, value: int, i: nat)
    requires i < |Taken(buckets, value)|
    ensures BucketKeys(name, labels, Taken(buckets, value))[i] in ObservedBuckets(name, labels, buckets, value)
  {
    var t := Taken(buckets, value);
    assert t[i] == buckets[i] && value <= t[i];
    assert BucketKeys(name, labels, t)[i] == BucketKey(name, labels, t[i]);
  }

  /**
   * An observation changes nothing but the group, the buckets at or above the value, the sum
   * and the count; the group gains exactly those series.
   */
  lemma HistogramObserveUnchanged(db: DB, name: string, labels: Labels, buckets: seq<int>, value: int)
    requires Descending(buckets)
    ensures var g, bks := GroupKey(name), ObservedBuckets(name, labels, buckets, value);
            var sum, count := MetricKey(name, labels, Some("_sum")), MetricKey(name, labels, Some("_count"));
            var d := Exec(db, HistogramObserve(name, labels, buckets, value)).0;
            Members(d, g) == Members(db, g) + bks + {sum, count}
            && Unchanged(db, d, bks + {sum, count, g})
  {
    var g := GroupKey(name);
    var sum, count := MetricKey(name, labels, Some("_sum")), MetricKey(name, labels, Some("_count"));
    var ks := BucketKeys(name, labels, Taken(buckets, value));
    HistogramKeysApart(name, labels, Taken(buckets, value));
    TakenBucketKeys(name, labels, buckets, value);
    ObserveAllMembers(db, g, ks, sum, count, value);
    ObserveAllUnchanged(db, g, ks, sum, count, value);
  }

  /** `ObserveAll` leaves every key other than the group, the listed keys, the sum and the count. */
  lemma ObserveAllUnchanged(db: DB, g: string, ks: seq<string>, sum: string, count: string, value: int)
    requires g !in ks && sum !in ks && count !in ks
    requires g != sum && g != count && sum != count
    ensures Unchanged(db, Exec(db, ObserveAll(g, ks, sum, count, value)).0, ToSet(ks) + {sum, count, g})
  {
    var d1 := Exec(db, IncrEach(g, ks)).0;
    var d2 := Exec(d1, ObserveTail(g, sum, count, value)).0;
    ExecConcat(db, IncrEach(g, ks), ObserveTail(g, sum, count, value));
    IncrEachUnchanged(db, g, ks);
    ObserveTailUnchanged(d1, g, sum, count, value);
    UnchangedTrans(db, d1, d2, ToSet(ks) + {g}, {sum, count, g});
    assert ToSet(ks) + {g} + {sum, count, g} == ToSet(ks) + {sum, count, g};
  }

  /** The sum and count commands touch only the group, the sum and the count. */
  lemma ObserveTailUnchanged(db: DB, g: string, sum: string, count: string, value: int)
    requires g != sum && g != count && sum != count
    ensures Unchanged(db, Exec(db, ObserveTail(g, sum, count, value)).0, {sum, count, g})
  {
    assert {sum, count} == {count, sum};
    assert ObserveTail(g, sum, count, value) == [SAdd(g, {count, sum}), IncrBy(count, 1), IncrBy(sum, value)];
    RegisterTwo(db, g, count, sum, 1, value);
    assert {count, sum, g} == {sum, count, g};
  }
}
