/**
 * Label sets as Python keeps them: a `dict` from label name to label value, which remembers
 * the order in which its keys were first inserted. `Labels` is such a dict as a value;
 * `LabelDict` is a dict object that several holders can share and update in place.
 */
module Dicts {
  import opened Errors
  import Text

  /** The label values the library writes: strings from callers, integers for `le` and `gauge_index`. */
  datatype LabelValue = Str(s: string) | Num(n: int)

  type Entry = (string, LabelValue)

  predicate DistinctKeys(d: seq<Entry>)
  {
    forall i, j :: 0 <= i < j < |d| ==> d[i].0 != d[j].0
  }

  /** A dict: its items in insertion order, each key once. */
  type Labels = d: seq<Entry> | DistinctKeys(d)

  /** `list(d.keys())`. */
  function Keys(d: seq<Entry>): (r: seq<string>)
    ensures |r| == |d| && forall i :: 0 <= i < |d| ==> r[i] == d[i].0
  {
    if |d| == 0 then [] else [d[0].0] + Keys(d[1..])
  }

  /** `set(d.keys())`. */
  function KeySet(d: seq<Entry>): set<string>
  {
    set i | 0 <= i < |d| :: d[i].0
  }

  lemma KeySetCons(d: seq<Entry>)
    requires |d| > 0
    ensures KeySet(d) == {d[0].0} + KeySet(d[1..])
  {
    forall x | x in KeySet(d) ensures x in {d[0].0} + KeySet(d[1..]) {
      var j :| 0 <= j < |d| && d[j].0 == x;
      if j > 0 { assert d[1..][j - 1].0 == x; }
    }
    forall x | x in KeySet(d[1..]) ensures x in KeySet(d) {
      var j :| 0 <= j < |d[1..]| && d[1..][j].0 == x;
      assert d[j + 1].0 == x;
    }
  }

  /** `d.get(k)`: the value of the first item with key `k`. */
  function Get(d: seq<Entry>, k: string): Option<LabelValue>
  {
    if |d| == 0 then None else if d[0].0 == k then Some(d[0].1) else Get(d[1..], k)
  }

  lemma {:induction false} GetAt(d: Labels, i: nat)
    requires i < |d|
    ensures Get(d, d[i].0) == Some(d[i].1)
  {
    if i > 0 {
      GetAt(d[1..], i - 1);
    }
  }

  lemma {:induction false} GetSome(d: seq<Entry>, k: string)
    ensures Get(d, k).Some? <==> k in KeySet(d)
    ensures Get(d, k).Some? ==> exists i :: 0 <= i < |d| && d[i] == (k, Get(d, k).value)
  {
    if |d| > 0 {
      GetSome(d[1..], k);
      if d[0].0 != k {
        if k in KeySet(d) {
          var i :| 0 <= i < |d| && d[i].0 == k;
          assert d[1..][i - 1].0 == k;
        }
        if Get(d, k).Some? {
          var i :| 0 <= i < |d[1..]| && d[1..][i] == (k, Get(d, k).value);
          assert d[i + 1] == (k, Get(d, k).value);
        }
      }
    }
  }

  /** Two dicts hold the same mapping, whatever the order of their items. */
  ghost predicate SameMapping(a: seq<Entry>, b: seq<Entry>)
  {
    forall k :: Get(a, k) == Get(b, k)
  }

  /** `d[k] = v`: an existing key keeps its place, a new key goes last. */
  function Put(d: Labels, k: string, v: LabelValue): (r: Labels)
    ensures forall k' :: Get(r, k') == if k' == k then Some(v) else Get(d, k')
    ensures k !in KeySet(d) ==> r == d + [(k, v)]
  {
    if |d| == 0 then
      [(k, v)]
    else if d[0].0 == k then
      PutFirst(d, k, v);
      [(k, v)] + d[1..]
    else
      var rest := Put(d[1..], k, v);
      PutBehind(d, k, v, rest);
      [d[0]] + rest
  }

  /** The keys after `d[k] = v`: those before and `k`. */
  lemma PutKeys(d: Labels, k: string, v: LabelValue)
    ensures KeySet(Put(d, k, v)) == KeySet(d) + {k}
  {
    var r := Put(d, k, v);
    forall x ensures x in KeySet(r) <==> x in KeySet(d) + {k} {
      GetSome(r, x);
      GetSome(d, x);
    }
  }

  lemma PutFirst(d: Labels, k: string, v: LabelValue)
    requires |d| > 0 && d[0].0 == k
    ensures var r := [(k, v)] + d[1..];
      DistinctKeys(r) && forall k' :: Get(r, k') == if k' == k then Some(v) else Get(d, k')
  {
    var r := [(k, v)] + d[1..];
    assert forall j :: 0 < j < |d| ==> d[j].0 != k;
    assert DistinctKeys(r) by {
      forall i, j | 0 <= i < j < |r| ensures r[i].0 != r[j].0 {
        assert r[j] == d[j];
        if i > 0 { assert r[i] == d[i]; }
      }
    }
    assert r[1..] == d[1..];
  }

  lemma PutBehind(d: Labels, k: string, v: LabelValue, rest: Labels)
    requires |d| > 0 && d[0].0 != k
    requires forall k' :: Get(rest, k') == if k' == k then Some(v) else Get(d[1..], k')
    requires k !in KeySet(d[1..]) ==> rest == d[1..] + [(k, v)]
    ensures var r := [d[0]] + rest;
      DistinctKeys(r)
      && (forall k' :: Get(r, k') == if k' == k then Some(v) else Get(d, k'))
      && (k !in KeySet(d) ==> r == d + [(k, v)])
  {
    KeySetCons(d);
    assert d[0].0 !in KeySet(rest) by {
      GetSome(rest, d[0].0);
      GetSome(d[1..], d[0].0);
    }
    var r := [d[0]] + rest;
    assert r[1..] == rest;
    assert DistinctKeys(r) by {
      forall i, j | 0 <= i < j < |r| ensures r[i].0 != r[j].0 {
        if i == 0 { assert r[j].0 in KeySet(rest) by { assert rest[j - 1] == r[j]; } }
        else { assert r[i] == rest[i - 1] && r[j] == rest[j - 1]; }
      }
    }
    if k !in KeySet(d) {
      assert d == [d[0]] + d[1..];
    }
  }

  /** Setting a key twice: the second value stands, in the place the first one took. */
  lemma {:induction false} PutTwice(d: Labels, k: string, a: LabelValue, b: LabelValue)
    ensures Put(Put(d, k, a), k, b) == Put(d, k, b)
  {
    if |d| > 0 && d[0].0 != k {
      var tail: Labels := d[1..];
      PutTwice(tail, k, a, b);
      assert Put(d, k, a) == [d[0]] + Put(tail, k, a);
      assert Put(d, k, a)[1..] == Put(tail, k, a);
    }
  }

  /** `del d[k]` after `if k in d`: the other items keep their order. */
  function Remove(d: Labels, k: string): (r: Labels)
    ensures forall k' :: Get(r, k') == if k' == k then None else Get(d, k')
    ensures KeySet(r) == KeySet(d) - {k}
    ensures k !in KeySet(d) ==> r == d
  {
    if |d| == 0 then d
    else
      var rest := Remove(d[1..], k);
      KeySetCons(d);
      assert d[0].0 !in KeySet(d[1..]);
      if d[0].0 == k then
        assert rest == d[1..];
        rest
      else
        var r := [d[0]] + rest;
        assert DistinctKeys(r) by {
          forall i, j | 0 <= i < j < |r| ensures r[i].0 != r[j].0 {
            if i == 0 { assert r[j].0 in KeySet(rest) by { assert rest[j - 1] == r[j]; } }
          }
        }
        KeySetCons(r);
        assert k !in KeySet(d) ==> r == d by {
          if k !in KeySet(d) { assert d == [d[0]] + d[1..]; }
        }
        r
  }

  /** The value the last pair with key `k` gives, as a dict built from the pairs keeps it. */
  function LastGet(ps: seq<Entry>, k: string): Option<LabelValue>
  {
    if |ps| == 0 then None
    else if ps[|ps| - 1].0 == k then Some(ps[|ps| - 1].1)
    else LastGet(ps[..|ps| - 1], k)
  }

  /** `d.update(ps)`, or `dict(ps)` when `d` is empty: the pairs are put one after another. */
  function PutAll(d: Labels, ps: seq<Entry>): (r: Labels)
    ensures forall k :: Get(r, k) == if LastGet(ps, k).Some? then LastGet(ps, k) else Get(d, k)
    decreases |ps|
  {
    if |ps| == 0 then d
    else
      var r := Put(PutAll(d, ps[..|ps| - 1]), ps[|ps| - 1].0, ps[|ps| - 1].1);
      r
  }

  /** For pairs with distinct keys, the last pair with a key is the only one. */
  lemma {:induction false} LastGetDistinct(ps: Labels, k: string)
    ensures LastGet(ps, k) == Get(ps, k)
  {
    if |ps| > 0 {
      var last := ps[|ps| - 1];
      var init: Labels := ps[..|ps| - 1];
      LastGetDistinct(init, k);
      GetSome(init, k);
      GetSome(ps, k);
      if last.0 == k {
        GetAt(ps, |ps| - 1);
      } else if Get(ps, k).Some? {
        var i :| 0 <= i < |ps| && ps[i] == (k, Get(ps, k).value);
        assert init[i] == ps[i];
        GetAt(init, i);
        GetAt(ps, i);
      }
    }
  }

  /** `dict(zip(names, values))` before any update: the pairs of the shorter length. */
  function Zip(names: seq<string>, values: seq<LabelValue>): (r: seq<Entry>)
    ensures |r| <= |names| && |r| <= |values|
    ensures |r| == |names| || |r| == |values|
    ensures forall i :: 0 <= i < |r| ==> r[i] == (names[i], values[i])
  {
    if |names| == 0 || |values| == 0 then [] else [(names[0], values[0])] + Zip(names[1..], values[1..])
  }

  // ---------------------------------------------------------------------------------------
  // `sorted(d.items())`, as `json.dumps(d, sort_keys=True)` does it

  predicate KeysAscending(d: seq<Entry>)
  {
    forall i, j :: 0 <= i < j < |d| ==> Text.Less(d[i].0, d[j].0)
  }

  function InsertByKey(e: Entry, s: Labels): (r: Labels)
    requires KeysAscending(s) && e.0 !in KeySet(s)
    ensures KeysAscending(r) && |r| == |s| + 1
    ensures forall k :: Get(r, k) == if k == e.0 then Some(e.1) else Get(s, k)
    ensures KeySet(r) == KeySet(s) + {e.0}
  {
    if |s| == 0 then
      KeySetCons([e]);
      [e]
    else if Text.LessEq(e.0, s[0].0) then
      InsertFirst(e, s);
      [e] + s
    else
      Text.LessEqTotal(e.0, s[0].0);
      KeySetCons(s);
      var rest := InsertByKey(e, s[1..]);
      InsertLater(e, s, rest);
      [s[0]] + rest
  }

  lemma InsertFirst(e: Entry, s: Labels)
    requires KeysAscending(s) && e.0 !in KeySet(s) && |s| > 0 && Text.LessEq(e.0, s[0].0)
    ensures var r := [e] + s; KeysAscending(r) && KeySet(r) == KeySet(s) + {e.0}
  {
    assert e.0 != s[0].0 by { assert s[0].0 in KeySet(s); }
    var r := [e] + s;
    assert KeysAscending(r) by {
      forall i, j | 0 <= i < j < |r| ensures Text.Less(r[i].0, r[j].0) {
        if i == 0 && j > 1 { Text.LessTransitive(e.0, s[0].0, s[j - 1].0); }
      }
    }
    assert r[1..] == s;
    KeySetCons(r);
  }

  lemma InsertLater(e: Entry, s: Labels, rest: Labels)
    requires KeysAscending(s) && |s| > 0 && Text.Less(s[0].0, e.0)
    requires KeysAscending(rest) && KeySet(rest) == KeySet(s[1..]) + {e.0}
    ensures var r := [s[0]] + rest; KeysAscending(r) && KeySet(r) == KeySet(s) + {e.0}
  {
    KeySetCons(s);
    var tail: Labels := s[1..];
    var r := [s[0]] + rest;
    assert forall j :: 0 <= j < |rest| ==> Text.Less(s[0].0, rest[j].0) by {
      forall j | 0 <= j < |rest| ensures Text.Less(s[0].0, rest[j].0) {
        assert rest[j].0 in KeySet(rest);
        if rest[j].0 != e.0 {
          var m :| 0 <= m < |tail| && tail[m].0 == rest[j].0;
          assert s[m + 1].0 == rest[j].0;
        }
      }
    }
    assert KeysAscending(r);
    assert r[1..] == rest;
    KeySetCons(r);
  }

  /** `sorted(d.items())`: the same mapping with keys in ascending order. */
  function SortByKey(d: Labels): (r: Labels)
    ensures KeysAscending(r) && |r| == |d| && SameMapping(r, d)
    ensures KeySet(r) == KeySet(d)
  {
    if |d| == 0 then []
    else
      var tail: Labels := d[1..];
      var rest := SortByKey(tail);
      assert d[0].0 !in KeySet(tail);
      KeySetCons(d);
      InsertByKey(d[0], rest)
  }

  /** Two dicts in ascending key order that hold the same mapping are the same sequence. */
  lemma {:induction false} AscendingUnique(a: Labels, b: Labels)
    requires KeysAscending(a) && KeysAscending(b) && SameMapping(a, b)
    ensures a == b
  {
    if |a| == 0 && |b| > 0 {
      GetAt(b, 0);
      assert false;
    } else if |a| > 0 && |b| == 0 {
      GetAt(a, 0);
      assert false;
    } else if |a| > 0 {
      var ka, kb := a[0].0, b[0].0;
      GetAt(a, 0);
      GetAt(b, 0);
      GetSome(b, ka);
      GetSome(a, kb);
      var j :| 0 <= j < |b| && b[j] == (ka, Get(b, ka).value);
      var i :| 0 <= i < |a| && a[i] == (kb, Get(a, kb).value);
      if ka != kb {
        assert i > 0 && j > 0;
        assert Text.Less(kb, ka) && Text.Less(ka, kb);
        Text.LessEqAntisymmetric(ka, kb);
      }
      assert a[0] == b[0];
      var ta: Labels, tb: Labels := a[1..], b[1..];
      forall k ensures Get(ta, k) == Get(tb, k) {
        if k == ka {
          GetSome(ta, k);
          GetSome(tb, k);
        } else {
          assert Get(a, k) == Get(ta, k) && Get(b, k) == Get(tb, k);
        }
      }
      AscendingUnique(ta, tb);
      assert a == [a[0]] + ta && b == [b[0]] + tb;
    }
  }

  /** Sorting by key depends only on the mapping, not on the order keys were inserted in. */
  lemma SortByKeyDependsOnMappingOnly(a: Labels, b: Labels)
    requires SameMapping(a, b)
    ensures SortByKey(a) == SortByKey(b)
  {
    AscendingUnique(SortByKey(a), SortByKey(b));
  }

  /** A dict already in ascending key order is its own sorted form. */
  lemma SortByKeyOfAscending(d: Labels)
    requires KeysAscending(d)
    ensures SortByKey(d) == d
  {
    AscendingUnique(SortByKey(d), d);
  }

  /** Each key of a dict occurs once among its keys. */
  lemma {:induction false} KeysOccurOnce(d: Labels)
    ensures forall k :: multiset(Keys(d))[k] == if k in KeySet(d) then 1 else 0
  {
    if |d| > 0 {
      var tail: Labels := d[1..];
      KeysOccurOnce(tail);
      KeySetCons(d);
      assert Keys(d) == [d[0].0] + Keys(tail);
      assert d[0].0 !in KeySet(tail);
    }
  }

  /** The keys of the sorted dict are `sorted(d.keys())`. */
  lemma SortByKeyKeys(d: Labels)
    ensures Keys(SortByKey(d)) == Text.SortStrings(Keys(d))
  {
    var r := SortByKey(d);
    KeysOccurOnce(r);
    KeysOccurOnce(d);
    assert multiset(Keys(r)) == multiset(Keys(d));
    assert Text.Sorted(Keys(r)) by {
      forall i, j | 0 <= i < j < |r| ensures Text.LessEq(Keys(r)[i], Keys(r)[j]) {
        assert Text.Less(r[i].0, r[j].0);
      }
    }
    Text.SortedUnique(Keys(r), Text.SortStrings(Keys(d)));
  }

  /** A Python dict object: shared by reference and updated in place. */
  class LabelDict {
    var entries: Labels

    constructor (entries: Labels)
      ensures this.entries == entries
    {
      this.entries := entries;
    }
  }
}
