/**
 * `Histogram`: an observation increments the bucket series of every bound at or above the
 * value, then the count and the sum. `collect` adds a zero series for each bound that a
 * label group lacks, so that every group reads back with all its buckets.
 */
module Histograms {
  import opened Errors
  import opened Dicts
  import opened Store
  import opened BaseMetric
  import opened Pipelines
  import opened Metrics
  import Json
  import Text

  /** The label a bucket series carries its bound in. */
  const Le: string := "le"

  /** A histogram forwards only `observe` through its handles. */
  const HistogramOperations: seq<string> := ["observe"]

  // ---------------------------------------------------------------------------------------
  // `observe`

  /** The labels once the loop has written `le` for each visited bound in turn. */
  function AfterVisits(labels: Labels, visited: seq<int>): (r: Labels)
    ensures |visited| == 0 ==> r == labels
    ensures |visited| > 0 ==> Get(r, Le) == Some(Num(visited[|visited| - 1]))
    ensures forall k :: k != Le ==> Get(r, k) == Get(labels, k)
  {
    if |visited| == 0 then labels else Put(labels, Le, Num(visited[|visited| - 1]))
  }

  lemma {:induction false} IncrEachSnoc(g: string, ks: seq<string>, k: string)
    ensures IncrEach(g, ks + [k]) == IncrEach(g, ks) + [SAdd(g, {k}), IncrBy(k, 1)]
  {
    if |ks| > 0 {
      assert (ks + [k])[0] == ks[0] && (ks + [k])[1..] == ks[1..] + [k];
      IncrEachSnoc(g, ks[1..], k);
    }
  }

  lemma BucketKeysSnoc(name: string, labels: Labels, bs: seq<int>, b: int)
    ensures BucketKeys(name, labels, bs + [b]) == BucketKeys(name, labels, bs) + [BucketKey(name, labels, b)]
  {
  }

  /**
   * One more visited bound: the labels get its `le` (the earlier one is overwritten in place),
   * and the pipeline its bucket commands.
   */
  lemma VisitOneMore(name: string, g: string, labels: Labels, t: seq<int>, i: nat)
    requires i < |t|
    ensures AfterVisits(labels, t[..i + 1]) == Put(AfterVisits(labels, t[..i]), Le, Num(t[i]))
    ensures IncrEach(g, BucketKeys(name, labels, t[..i + 1]))
            == IncrEach(g, BucketKeys(name, labels, t[..i]))
               + [SAdd(g, {BucketKey(name, labels, t[i])}), IncrBy(BucketKey(name, labels, t[i]), 1)]
  {
    assert t[..i + 1] == t[..i] + [t[i]];
    if i > 0 {
      PutTwice(labels, Le, Num(t[i - 1]), Num(t[i]));
    }
    BucketKeysSnoc(name, labels, t[..i], t[i]);
    IncrEachSnoc(g, BucketKeys(name, labels, t[..i]), BucketKey(name, labels, t[i]));
  }

  /**
   * Over descending bounds, the `le` the caller's labels are left with is the smallest bound
   * at or above the value, when there is one.
   */
  lemma ObservedLe(labels: Labels, buckets: seq<int>, value: int)
    requires Descending(buckets)
    ensures var t := Taken(buckets, value);
            (|t| > 0 <==> exists b :: b in buckets && value <= b)
            && (|t| > 0 ==>
                  var le := t[|t| - 1];
                  Get(AfterVisits(labels, t), Le) == Some(Num(le)) && le in buckets && value <= le
                  && forall b :: b in buckets && value <= b ==> le <= b)
  {
    var t := Taken(buckets, value);
    TakenIsAtLeast(buckets, value);
    if |t| > 0 {
      assert t[0] in buckets && value <= t[0];
      var le := t[|t| - 1];
      assert buckets[|t| - 1] == le;
      forall b | b in buckets && value <= b ensures le <= b {
        TakenSmallest(buckets, value, b);
      }
    }
  }

  /** The last bound visited is at most every bound at or above the value. */
  lemma TakenSmallest(buckets: seq<int>, value: int, b: int)
    requires Descending(buckets) && b in buckets && value <= b
    ensures var t := Taken(buckets, value); |t| > 0 && t[|t| - 1] <= b
  {
    var t := Taken(buckets, value);
    TakenIsAtLeast(buckets, value);
    assert b in t;
    var j :| 0 <= j < |t| && t[j] == b;
    assert buckets[j] == b && buckets[|t| - 1] == t[|t| - 1];
  }

  /**
   * A dict that passed the check and had a bound written into it fails the check the next
   * time, unless `le` is one of the declared names: a handle that passes the same dict again
   * is refused.
   */
  lemma SecondObserveRejected(labelnames: seq<string>, labels: Labels, buckets: seq<int>, value: int)
    requires CheckLabels(labelnames, labels).Returned? && Le !in labelnames
    requires |Taken(buckets, value)| > 0
    ensures CheckLabels(labelnames, AfterVisits(labels, Taken(buckets, value))).Raised?
  {
    var t := Taken(buckets, value);
    CheckLabelsExact(labelnames, labels);
    CheckLabelsExact(labelnames, AfterVisits(labels, t));
    PutKeys(labels, Le, Num(t[|t| - 1]));
    assert Le in KeySet(AfterVisits(labels, t));
  }

  // ---------------------------------------------------------------------------------------
  // `_get_missing_metric_values`

  /** A series' label group: its labels without `le`. */
  function GroupOf(l: Labels): Labels
  {
    Remove(l, Le)
  }

  /** The labels of the bucket of bound `b` in the group of `l`. */
  function BoundLabels(l: Labels, b: int): (r: Labels)
    ensures Get(r, Le) == Some(Num(b))
    ensures forall k :: k != Le ==> Get(r, k) == Get(l, k)
  {
    Put(GroupOf(l), Le, Num(b))
  }

  /**
   * A way of writing labels down that tells two dicts apart exactly when their mappings
   * differ, as `json.dumps(..., sort_keys=True)` does. The sets below are stated for any such
   * writing; `collect` uses `json.dumps`.
   */
  ghost predicate Faithful<K>(write: Labels -> K)
  {
    forall a: Labels, b: Labels :: write(a) == write(b) <==> SameMapping(a, b)
  }

  lemma DumpsFaithful()
    ensures Faithful(Json.Dumps)
  {
    forall a: Labels, b: Labels ensures Json.Dumps(a) == Json.Dumps(b) <==> SameMapping(a, b) {
      Json.DumpsSameMapping(a, b);
    }
  }

  /** The written labels of every bucket of the group of `l`. */
  function BucketsOf<K(==)>(write: Labels -> K, l: Labels, buckets: seq<int>): set<K>
    decreases |buckets|
  {
    if |buckets| == 0 then {}
    else BucketsOf(write, l, buckets[..|buckets| - 1]) + {write(BoundLabels(l, buckets[|buckets| - 1]))}
  }

  /** The written labels of the stored series. */
  function StoredKeys<K(==)>(write: Labels -> K, ls: seq<Labels>): set<K>
    decreases |ls|
  {
    if |ls| == 0 then {} else StoredKeys(write, ls[..|ls| - 1]) + {write(ls[|ls| - 1])}
  }

  /** The written label groups of the stored series. */
  function StoredGroups<K(==)>(write: Labels -> K, ls: seq<Labels>): set<K>
    decreases |ls|
  {
    if |ls| == 0 then {} else StoredGroups(write, ls[..|ls| - 1]) + {write(GroupOf(ls[|ls| - 1]))}
  }

  /** Every bucket of the empty group and of each stored series' group, written. */
  function Candidates<K(==)>(write: Labels -> K, buckets: seq<int>, ls: seq<Labels>): set<K>
    decreases |ls|
  {
    if |ls| == 0 then BucketsOf(write, [], buckets)
    else Candidates(write, buckets, ls[..|ls| - 1]) + BucketsOf(write, ls[|ls| - 1], buckets)
  }

  /** The buckets `collect` must fill in: the candidates no stored series already has. */
  function MissingBuckets<K(==)>(write: Labels -> K, buckets: seq<int>, ls: seq<Labels>): set<K>
  {
    Candidates(write, buckets, ls) - StoredKeys(write, ls)
  }

  /** `sc_flag`: no stored series is in the empty group. */
  predicate NoEmptyGroup(ls: seq<Labels>)
  {
    forall l :: l in ls ==> GroupOf(l) != []
  }

  lemma {:induction false} BucketsOfIn<K>(write: Labels -> K, l: Labels, buckets: seq<int>, x: K)
    ensures x in BucketsOf(write, l, buckets) <==> exists b :: b in buckets && x == write(BoundLabels(l, b))
    decreases |buckets|
  {
    if |buckets| > 0 {
      var init, last := buckets[..|buckets| - 1], buckets[|buckets| - 1];
      assert buckets == init + [last];
      BucketsOfIn(write, l, init, x);
      if x == write(BoundLabels(l, last)) {
        assert last in buckets;
      } else if x in BucketsOf(write, l, init) {
        var b :| b in init && x == write(BoundLabels(l, b));
        assert b in buckets;
      } else {
        forall b | b in buckets ensures x != write(BoundLabels(l, b)) {
          if b != last { assert b in init; }
        }
      }
    }
  }

  lemma {:induction false} StoredKeysIn<K>(write: Labels -> K, ls: seq<Labels>, x: K)
    ensures x in StoredKeys(write, ls) <==> exists m :: m in ls && x == write(m)
    decreases |ls|
  {
    if |ls| > 0 {
      var init, last := ls[..|ls| - 1], ls[|ls| - 1];
      assert ls == init + [last];
      StoredKeysIn(write, init, x);
      if x == write(last) {
        assert last in ls;
      } else if x in StoredKeys(write, init) {
        var m :| m in init && x == write(m);
        assert m in ls;
      } else {
        forall m | m in ls ensures x != write(m) {
          if m != last { assert m in init; }
        }
      }
    }
  }

  lemma {:induction false} StoredGroupsIn<K>(write: Labels -> K, ls: seq<Labels>, x: K)
    ensures x in StoredGroups(write, ls) <==> exists m :: m in ls && x == write(GroupOf(m))
    decreases |ls|
  {
    if |ls| > 0 {
      var init, last := ls[..|ls| - 1], ls[|ls| - 1];
      assert ls == init + [last];
      StoredGroupsIn(write, init, x);
      if x == write(GroupOf(last)) {
        assert last in ls;
      } else if x in StoredGroups(write, init) {
        var m :| m in init && x == write(GroupOf(m));
        assert m in ls;
      } else {
        forall m | m in ls ensures x != write(GroupOf(m)) {
          if m != last { assert m in init; }
        }
      }
    }
  }

  /** The buckets of each stored series' group are candidates. */
  lemma {:induction false} CandidatesHold<K>(write: Labels -> K, buckets: seq<int>, ls: seq<Labels>, m: Labels)
    requires m in ls
    ensures BucketsOf(write, m, buckets) <= Candidates(write, buckets, ls)
    decreases |ls|
  {
    var init, last := ls[..|ls| - 1], ls[|ls| - 1];
    assert ls == init + [last];
    if m != last {
      assert m in init;
      CandidatesHold(write, buckets, init, m);
    }
  }

  /** The empty group's buckets are always candidates. */
  lemma {:induction false} EmptyGroupCandidates<K>(write: Labels -> K, buckets: seq<int>, ls: seq<Labels>)
    ensures BucketsOf(write, [], buckets) <= Candidates(write, buckets, ls)
    decreases |ls|
  {
    if |ls| > 0 {
      EmptyGroupCandidates(write, buckets, ls[..|ls| - 1]);
    }
  }

  /** A candidate is a bucket of the empty group or of a stored series' group. */
  lemma {:induction false} CandidatesFrom<K>(write: Labels -> K, buckets: seq<int>, ls: seq<Labels>, x: K)
    requires x in Candidates(write, buckets, ls)
    ensures x in BucketsOf(write, [], buckets) || exists m :: m in ls && x in BucketsOf(write, m, buckets)
    decreases |ls|
  {
    if |ls| > 0 {
      var init, last := ls[..|ls| - 1], ls[|ls| - 1];
      assert ls == init + [last];
      if x in BucketsOf(write, last, buckets) {
        assert last in ls;
      } else {
        CandidatesFrom(write, buckets, init, x);
        if x !in BucketsOf(write, [], buckets) {
          var m :| m in init && x in BucketsOf(write, m, buckets);
          assert m in ls;
        }
      }
    }
  }

  /** Series in the same group have the same buckets. */
  lemma SameGroupSameBuckets<K>(write: Labels -> K, a: Labels, b: Labels, x: int)
    requires Faithful(write) && SameMapping(GroupOf(a), GroupOf(b))
    ensures write(BoundLabels(a, x)) == write(BoundLabels(b, x))
  {
    forall k ensures Get(BoundLabels(a, x), k) == Get(BoundLabels(b, x), k) {
      if k != Le { assert Get(GroupOf(a), k) == Get(GroupOf(b), k); }
    }
  }

  /** A stored series written as a bucket of some group belongs to that group. */
  lemma StoredBucketGroup<K>(write: Labels -> K, s: Labels, l: Labels, x: int)
    requires Faithful(write) && write(s) == write(BoundLabels(l, x))
    ensures write(GroupOf(s)) == write(GroupOf(l))
  {
    forall k ensures Get(GroupOf(s), k) == Get(GroupOf(l), k) {
      assert Get(s, k) == Get(BoundLabels(l, x), k);
    }
  }

  /** Two series in the same group have the same buckets, all of them. */
  lemma {:induction false} SameGroupSameBucketsOf<K>(write: Labels -> K, a: Labels, b: Labels, buckets: seq<int>)
    requires Faithful(write) && SameMapping(GroupOf(a), GroupOf(b))
    ensures BucketsOf(write, a, buckets) == BucketsOf(write, b, buckets)
    decreases |buckets|
  {
    if |buckets| > 0 {
      SameGroupSameBucketsOf(write, a, b, buckets[..|buckets| - 1]);
      SameGroupSameBuckets(write, a, b, buckets[|buckets| - 1]);
    }
  }

  /**
   * One more stored series: its key leaves the missing set, and its group's buckets join it
   * when the group is new. A group already met adds nothing new, and a new group's buckets
   * are none of the keys removed before, so adding them late is the same as adding them first.
   */
  lemma MissingSnoc<K>(write: Labels -> K, buckets: seq<int>, ls: seq<Labels>, l: Labels)
    requires Faithful(write)
    ensures var g := write(GroupOf(l));
            MissingBuckets(write, buckets, ls + [l])
            == (if g in StoredGroups(write, ls) then MissingBuckets(write, buckets, ls)
                else MissingBuckets(write, buckets, ls) + BucketsOf(write, l, buckets)) - {write(l)}
  {
    var g := write(GroupOf(l));
    var c, s, b := Candidates(write, buckets, ls), StoredKeys(write, ls), BucketsOf(write, l, buckets);
    assert (ls + [l])[..|ls|] == ls;
    assert Candidates(write, buckets, ls + [l]) == c + b;
    assert StoredKeys(write, ls + [l]) == s + {write(l)};
    if g in StoredGroups(write, ls) {
      StoredGroupsIn(write, ls, g);
      var m :| m in ls && g == write(GroupOf(m));
      SameGroupSameBucketsOf(write, m, l, buckets);
      CandidatesHold(write, buckets, ls, m);
    } else {
      forall x | x in b ensures x !in s {
        BucketsOfIn(write, l, buckets, x);
        var y :| y in buckets && x == write(BoundLabels(l, y));
        StoredKeysIn(write, ls, x);
        if x in s {
          var m :| m in ls && x == write(m);
          StoredBucketGroup(write, m, l, y);
          StoredGroupsIn(write, ls, g);
        }
      }
    }
  }

  /**
   * What `_get_missing_metric_values` relies on in its writing of labels: it is faithful, it
   * writes the empty dict as `{}` and nothing else so, and it never gives one of the two
   * one-character strings `set("{}")` holds.
   */
  ghost predicate JsonLike(write: Labels -> string)
  {
    Faithful(write) && write([]) == "{}"
    && (forall d: Labels :: write(d) == "{}" ==> d == [])
    && (forall d: Labels :: write(d) != "{" && write(d) != "}")
  }

  lemma DumpsJsonLike()
    ensures JsonLike(Json.Dumps)
  {
    DumpsFaithful();
    forall d: Labels ensures (Json.Dumps(d) == "{}" ==> d == []) && Json.Dumps(d) != "{" && Json.Dumps(d) != "}" {
      Json.DumpsEmpty(d);
      DumpsIsNotABrace(d);
    }
  }

  /** The written group is never one of the two one-character strings `set("{}")` holds. */
  lemma DumpsIsNotABrace(d: Labels)
    ensures Json.Dumps(d) != "{" && Json.Dumps(d) != "}"
  {
    assert |Json.Dumps(d)| >= 2;
  }

  predicate Distinct<K(==)>(s: seq<K>)
  {
    forall i, j :: 0 <= i < j < |s| ==> s[i] != s[j]
  }

  /** In a sequence without duplicates, an element occurs once. */
  lemma {:induction false} OnlyOnce<K>(s: seq<K>, i: nat)
    requires Distinct(s) && i < |s|
    ensures multiset(s)[s[i]] == 1
  {
    assert s == [s[0]] + s[1..];
    if i == 0 {
      assert s[0] !in s[1..];
    } else {
      assert Distinct(s[1..]) && s[1..][i - 1] == s[i];
      OnlyOnce(s[1..], i - 1);
    }
  }

  /**
   * What `collect` fills in, bound by bound: for the empty group and for each stored series'
   * group, the bucket of every bound is either stored or filled in, exactly once.
   */
  lemma FilledExactlyOnce<K>(write: Labels -> K, buckets: seq<int>, ls: seq<Labels>, zeros: seq<K>, group: Labels, b: int)
    requires Distinct(zeros)
    requires forall k :: k in zeros ==> k in MissingBuckets(write, buckets, ls)
    requires forall k :: k in MissingBuckets(write, buckets, ls) ==> k in zeros
    requires b in buckets && (group == [] || group in ls)
    ensures var k := write(BoundLabels(group, b));
            (k in StoredKeys(write, ls) ==> multiset(zeros)[k] == 0)
            && (k !in StoredKeys(write, ls) ==> multiset(zeros)[k] == 1)
  {
    var k := write(BoundLabels(group, b));
    BucketsOfIn(write, group, buckets, k);
    if group == [] {
      EmptyGroupCandidates(write, buckets, ls);
    } else {
      CandidatesHold(write, buckets, ls, group);
    }
    assert k in Candidates(write, buckets, ls);
    if k in zeros {
      var i :| 0 <= i < |zeros| && zeros[i] == k;
      OnlyOnce(zeros, i);
    } else {
      assert k !in MissingBuckets(write, buckets, ls);
    }
  }

  /** Every filled-in bucket is a bucket of the empty group or of a stored series' group, and is not stored. */
  lemma FilledAreBuckets<K>(write: Labels -> K, buckets: seq<int>, ls: seq<Labels>, k: K)
    requires k in MissingBuckets(write, buckets, ls)
    ensures k !in StoredKeys(write, ls)
    ensures exists group, b :: b in buckets && (group == [] || group in ls) && k == write(BoundLabels(group, b))
  {
    CandidatesFrom(write, buckets, ls, k);
    if k in BucketsOf(write, [], buckets) {
      BucketsOfIn(write, [], buckets, k);
      var b :| b in buckets && k == write(BoundLabels([], b));
    } else {
      var m :| m in ls && k in BucketsOf(write, m, buckets);
      BucketsOfIn(write, m, buckets, k);
      var b :| b in buckets && k == write(BoundLabels(m, b));
    }
  }

  /** The labels of the stored samples, which `collect` always gives. */
  function SampleLabels(samples: seq<Sample>): (r: seq<Labels>)
    requires forall i :: 0 <= i < |samples| ==> samples[i].labels.Some?
    ensures |r| == |samples| && forall i :: 0 <= i < |r| ==> r[i] == samples[i].labels.value
  {
    seq(|samples|, i requires 0 <= i < |samples| => samples[i].labels.value)
  }

  // ---------------------------------------------------------------------------------------
  // `collect`

  /** The zero bucket series of the missing buckets, in the order they are met. */
  function ZeroBuckets(name: string, missing: seq<string>): (r: seq<Sample>)
    ensures |r| == |missing|
    ensures forall i :: 0 <= i < |r| ==> r[i] == Sample(name + "_bucket", Json.Loads(missing[i]), Text.IntToString(0))
  {
    seq(|missing|, i requires 0 <= i < |missing| => Sample(name + "_bucket", Json.Loads(missing[i]), Text.IntToString(0)))
  }

  /** The zero sum and count series of the empty group. */
  function ZeroSumCount(name: string): seq<Sample>
  {
    [Sample(name + "_sum", Some([]), Text.IntToString(0)), Sample(name + "_count", Some([]), Text.IntToString(0))]
  }

  /** A filled-in bucket reads back as its group's labels with its bound, in key order. */
  lemma ZeroBucketLabels(name: string, group: Labels, b: int)
    ensures var k := Json.Dumps(BoundLabels(group, b));
            ZeroBuckets(name, [k])[0].labels == Some(SortByKey(BoundLabels(group, b)))
  {
    Json.LoadsDumps(BoundLabels(group, b));
  }

  /** A scan from the largest bound that stops at the first bound below the value stops after `Taken`. */
  lemma TakenStops(buckets: seq<int>, value: int, i: nat)
    requires i <= |Taken(buckets, value)|
    requires i == |buckets| || value > buckets[i]
    ensures i == |Taken(buckets, value)|
  {
  }

  /** One more series visited by `_get_missing_metric_values`, in the terms of its loop. */
  lemma MissingStep<K>(write: Labels -> K, buckets: seq<int>, ls: seq<Labels>, i: nat)
    requires Faithful(write) && i < |ls|
    ensures var l := ls[i];
            var m := MissingBuckets(write, buckets, ls[..i]);
            MissingBuckets(write, buckets, ls[..i + 1])
            == (if write(GroupOf(l)) in StoredGroups(write, ls[..i]) then m
                else m + BucketsOf(write, l, buckets)) - {write(l)}
    ensures StoredGroups(write, ls[..i + 1]) == StoredGroups(write, ls[..i]) + {write(GroupOf(ls[i]))}
    ensures NoEmptyGroup(ls[..i + 1]) <==> NoEmptyGroup(ls[..i]) && GroupOf(ls[i]) != []
  {
    assert ls[..i + 1] == ls[..i] + [ls[i]];
    MissingSnoc(write, buckets, ls[..i], ls[i]);
  }

  class Histogram {
    const name: string
    const documentation: string
    const labelnames: seq<string>
    const redis: Redis
    const buckets: seq<int>

    /** `__init__`: the bounds are kept from largest to smallest. */
    constructor (name: string, documentation: string, labelnames: seq<string>, redis: Redis, buckets: seq<int>)
      ensures this.name == name && this.documentation == documentation
      ensures this.labelnames == labelnames && this.redis == redis
      ensures Descending(this.buckets) && multiset(this.buckets) == multiset(buckets)
    {
      this.name := name;
      this.documentation := documentation;
      this.labelnames := labelnames;
      this.redis := redis;
      this.buckets := SortDescending(buckets);
    }

    /** What the pipeline of one observation of `given` does to the store, and its replies. */
    twostate predicate Sent(given: Labels, value: int, new r: Option<seq<Reply>>)
      reads redis
    {
      var cmds := HistogramObserve(name, given, buckets, value);
      redis.available == old(redis.available)
      && (old(redis.available) ==> redis.db == Exec(old(redis.db), cmds).0 && r == Some(Exec(old(redis.db), cmds).1))
      && (!old(redis.available) ==> redis.db == old(redis.db) && r == None)
    }

    /**
     * What `observe` promises: `labels or {}` is checked and, when that raises, nothing
     * changes; otherwise the pipeline is sent, and the caller's dict, unless it is missing or
     * empty, is left with the `le` of the last bound visited.
     */
    twostate predicate Observed(labels: LabelDict?, value: int, new r: Outcome<Option<seq<Reply>>>)
      reads redis, labels
    {
      var given := if labels == null then [] else old(labels.entries);
      match CheckLabels(labelnames, given)
      case Raised(e) =>
        r == Raised(e) && redis.db == old(redis.db) && redis.available == old(redis.available)
        && (labels != null ==> labels.entries == old(labels.entries))
      case Returned(_) =>
        r.Returned? && Sent(given, value, r.value)
        && (labels != null ==>
              labels.entries == if given == [] then given else AfterVisits(given, Taken(buckets, value)))
    }

    /** `observe`. */
    method Observe(value: int, labels: LabelDict?) returns (r: Outcome<Option<seq<Reply>>>)
      modifies redis, labels
      ensures Observed(labels, value, r)
    {
      if labels == null || labels.entries == [] {
        r := ObserveFresh(value);
      } else {
        r := ObserveGiven(value, labels);
      }
    }

    /** No labels, or an empty dict: the observation goes through a new empty one. */
    method ObserveFresh(value: int) returns (r: Outcome<Option<seq<Reply>>>)
      modifies redis
      ensures match CheckLabels(labelnames, [])
              case Raised(e) => r == Raised(e) && redis.db == old(redis.db) && redis.available == old(redis.available)
              case Returned(_) => r.Returned? && Sent([], value, r.value)
    {
      var d := new LabelDict([]);
      var check := CheckLabels(labelnames, d.entries);
      if check.Raised? {
        return Raised(check.error);
      }
      var reply := ObserveWith(value, d);
      r := Returned(reply);
    }

    /** Labels given: they are checked, and the observation writes `le` into the caller's dict. */
    method ObserveGiven(value: int, labels: LabelDict) returns (r: Outcome<Option<seq<Reply>>>)
      requires labels.entries != []
      modifies redis, labels
      ensures Observed(labels, value, r)
    {
      var check := CheckLabels(labelnames, labels.entries);
      if check.Raised? {
        return Raised(check.error);
      }
      var reply := ObserveWith(value, labels);
      r := Returned(reply);
    }

    /**
     * `_a_observe` under `silent_wrapper`: the sum and count keys are taken first; then, over
     * the bounds from largest to smallest until one is below the value, `le` is written into
     * the dict and that bucket's commands queued; then the sum and count commands. A
     * connection error at `execute` gives `None`.
     */
    method ObserveWith(value: int, d: LabelDict) returns (r: Option<seq<Reply>>)
      modifies redis, d
      ensures Sent(old(d.entries), value, r)
      ensures d.entries == AfterVisits(old(d.entries), Taken(buckets, value))
    {
      var g := GroupKey(name);
      var sumKey := MetricKey(name, d.entries, Some("_sum"));
      var countKey := MetricKey(name, d.entries, Some("_count"));
      var cmds := QueueBuckets(value, g, d);
      cmds := cmds + ObserveTail(g, sumKey, countKey, value);
      var replies := redis.Execute(cmds);
      r := Silent(replies);
    }

    /** The loop of `_a_observe`: the bucket commands, and `le` left in the dict. */
    method QueueBuckets(value: int, g: string, d: LabelDict) returns (cmds: seq<Command>)
      modifies d
      ensures d.entries == AfterVisits(old(d.entries), Taken(buckets, value))
      ensures cmds == IncrEach(g, BucketKeys(name, old(d.entries), Taken(buckets, value)))
    {
      ghost var given := d.entries;
      ghost var t := Taken(buckets, value);
      cmds := [];
      var i := 0;
      while i < |buckets| && value <= buckets[i]
        invariant i <= |t|
        invariant d.entries == AfterVisits(given, t[..i])
        invariant cmds == IncrEach(g, BucketKeys(name, given, t[..i]))
      {
        assert i < |t| && t[i] == buckets[i];
        VisitOneMore(name, g, given, t, i);
        d.entries := Put(d.entries, Le, Num(buckets[i]));
        var bucketKey := MetricKey(name, d.entries, Some("_bucket"));
        assert bucketKey == BucketKey(name, given, t[i]);
        cmds := cmds + [SAdd(g, {bucketKey}), IncrBy(bucketKey, 1)];
        i := i + 1;
      }
      TakenStops(buckets, value, i);
      assert t[..i] == t;
    }

    /**
     * `_get_missing_metric_values`: the written bucket labels still to be filled in, and
     * whether no stored series is in the empty group. The writing of labels,
     * `json.dumps(..., sort_keys=True)`, is passed in as `write`, and `Collect` passes
     * `Json.Dumps`; only the properties `JsonLike` names are used here.
     */
    method MissingValues(write: Labels -> string, samples: seq<Sample>) returns (missing: set<string>, scFlag: bool)
      requires JsonLike(write)
      requires forall i :: 0 <= i < |samples| ==> samples[i].labels.Some?
      ensures missing == MissingBuckets(write, buckets, SampleLabels(samples))
      ensures scFlag <==> NoEmptyGroup(SampleLabels(samples))
    {
      ghost var ls := SampleLabels(samples);
      missing := AddBounds(write, {}, []);
      var groups := {"{", "}"};
      scFlag := true;
      for i := 0 to |samples|
        invariant missing == MissingBuckets(write, buckets, ls[..i])
        invariant groups == {"{", "}"} + StoredGroups(write, ls[..i])
        invariant scFlag <==> NoEmptyGroup(ls[..i])
      {
        MissingStep(write, buckets, ls, i);
        missing, groups, scFlag := VisitSeries(write, missing, groups, scFlag, samples[i].labels.value);
      }
      assert ls[..|samples|] == ls;
    }

    /** The body of the loop of `_get_missing_metric_values`, for one stored series. */
    method VisitSeries(write: Labels -> string, missing: set<string>, groups: set<string>, scFlag: bool, labels: Labels)
      returns (missing': set<string>, groups': set<string>, scFlag': bool)
      ensures groups' == groups + {write(GroupOf(labels))}
      ensures missing' == (if write(GroupOf(labels)) in groups then missing
                           else missing + BucketsOf(write, labels, buckets)) - {write(labels)}
      ensures scFlag' <==> scFlag && write(GroupOf(labels)) != "{}"
    {
      var key := write(labels);
      var group := GroupOf(labels);
      var groupKey := write(group);
      missing', groups', scFlag' := missing, groups, scFlag;
      if groupKey == "{}" {
        scFlag' := false;
      }
      if groupKey !in groups {
        missing' := AddBounds(write, missing, labels);
        groups' := groups + {groupKey};
      }
      if key in missing' {
        missing' := missing' - {key};
      }
    }

    /** The inner loop: the bucket of every bound in the group of `labels`, written, joins the set. */
    method AddBounds(write: Labels -> string, missing: set<string>, labels: Labels) returns (r: set<string>)
      ensures r == missing + BucketsOf(write, labels, buckets)
    {
      var group := GroupOf(labels);
      r := missing;
      for j := 0 to |buckets|
        invariant r == missing + BucketsOf(write, labels, buckets[..j])
      {
        assert buckets[..j + 1][..j] == buckets[..j];
        r := r + {write(Put(group, Le, Num(buckets[j])))};
      }
      assert buckets[..|buckets|] == buckets;
    }

    /**
     * What `collect` adds to the stored series: a zero bucket for each missing bucket, each
     * once, in the order `zeros` gives, then zero `_sum` and `_count` for the empty group when
     * no stored series is in it.
     */
    ghost predicate FilledIn(stored: seq<Sample>, zeros: seq<string>, out: seq<Sample>)
    {
      (forall i :: 0 <= i < |stored| ==> stored[i].labels.Some?)
      && var ls := SampleLabels(stored);
         Distinct(zeros)
         && (forall k :: k in zeros <==> k in MissingBuckets(Json.Dumps, buckets, ls))
         && out == stored + (ZeroBuckets(name, zeros) + if NoEmptyGroup(ls) then ZeroSumCount(name) else [])
    }

    /**
     * `Histogram.collect`: the stored series as `Metric.collect` reads them, with the
     * missing buckets filled in after them.
     */
    method Collect() returns (r: Outcome<seq<Sample>>, ghost order: seq<string>, ghost zeros: seq<string>)
      modifies redis
      ensures redis.available == old(redis.available)
      ensures redis.db.values == old(redis.db.values) && redis.db.ttl == old(redis.db.ttl)
      ensures !old(redis.available) ==> r == Raised(ConnectionError) && redis.db == old(redis.db)
      ensures old(redis.available) ==>
                (r.Returned? <==> forall k :: k in Members(old(redis.db), GroupKey(name)) ==> Decoded(k).Returned?)
      ensures old(redis.available) && r.Raised? ==> r.error.ValueError?
      ensures r.Returned? ==>
                NoDuplicates(order)
                && (forall k :: k in order <==> k in Members(old(redis.db), GroupKey(name)))
                && (forall k :: k in order ==> Decoded(k).Returned?)
                && redis.db == Pruned(old(redis.db), GroupKey(name), Members(old(redis.db), GroupKey(name)))
                && FilledIn(Samples(old(redis.db), Present(old(redis.db), order)), zeros, r.value)
    {
      var stored;
      stored, order := CollectGroup(redis, name);
      zeros := [];
      if stored.Raised? {
        return Raised(stored.error), order, zeros;
      }
      var all;
      all, zeros := FillMissing(stored.value);
      r := Returned(all);
    }

    /** The part of `collect` after `Metric.collect`. */
    method FillMissing(stored: seq<Sample>) returns (r: seq<Sample>, ghost zeros: seq<string>)
      requires forall i :: 0 <= i < |stored| ==> stored[i].labels.Some?
      ensures FilledIn(stored, zeros, r)
    {
      DumpsJsonLike();
      var missing, scFlag := MissingValues(Json.Dumps, stored);
      var keys := Enumerate(missing);
      zeros := keys;
      var missingValues := ZeroBuckets(name, keys);
      if scFlag {
        missingValues := missingValues + ZeroSumCount(name);
      } else {
        assert missingValues + [] == missingValues;
      }
      r := stored + missingValues;
    }
  }
}
