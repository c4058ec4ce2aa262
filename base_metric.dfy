/**
 * What every metric shares: the store keys it writes under, the label token inside those
 * keys, label validation, the label-bound handle, the exception-swallowing wrapper, and the
 * text lines of the exposition format.
 */
module BaseMetric {
  import opened Errors
  import opened Dicts
  import Text
  import Json
  import Base64

  // ---------------------------------------------------------------------------------------
  // Store keys

  /** The set key that lists every series key of a metric. */
  function GroupKey(name: string): (r: string)
    ensures |r| == |name| + 6 && r[..|name|] == name && r[|name|..] == "_group"
  {
    name + "_group"
  }

  /** Two metrics with different names never share a group. */
  lemma GroupKeyInjective(a: string, b: string)
    requires GroupKey(a) == GroupKey(b)
    ensures a == b
  {
    assert |a| == |b|;
    assert a == GroupKey(a)[..|a|];
  }

  /** `suffix or ""`: a missing suffix and the empty suffix are the same. */
  function SuffixText(suffix: Option<string>): (r: string)
    ensures suffix.None? ==> r == ""
    ensures suffix.Some? ==> r == suffix.value
  {
    if suffix.Some? then suffix.value else ""
  }

  /** The suffixes the metrics use for their series. */
  predicate IsSeriesSuffix(suffix: Option<string>)
  {
    suffix == None || suffix == Some("_sum") || suffix == Some("_count") || suffix == Some("_bucket")
  }

  /** `str.encode('utf-8')` for ASCII text: one byte per character. */
  function Utf8(s: string): (b: seq<Base64.byte>)
    requires Json.IsAscii(s)
    ensures |b| == |s| && forall i :: 0 <= i < |s| ==> b[i] == s[i] as int
  {
    if |s| == 0 then [] else [s[0] as int] + Utf8(s[1..])
  }

  /** `bytes.decode('utf-8')` for bytes that are all ASCII; other bytes are an error here. */
  function DecodeAscii(b: seq<Base64.byte>): (r: Option<string>)
    ensures r.Some? <==> forall i :: 0 <= i < |b| ==> b[i] < 128
    ensures r.Some? ==> |r.value| == |b| && forall i :: 0 <= i < |b| ==> r.value[i] as int == b[i]
  {
    if |b| == 0 then Some("")
    else if b[0] >= 128 then None
    else
      match DecodeAscii(b[1..])
      case None => None
      case Some(rest) => Some([b[0] as char] + rest)
  }

  lemma {:induction false} DecodeUtf8(s: string)
    requires Json.IsAscii(s)
    ensures DecodeAscii(Utf8(s)) == Some(s)
  {
    if |s| > 0 {
      var b := Utf8(s);
      assert b[1..] == Utf8(s[1..]);
      assert Json.IsAscii(s[1..]);
      DecodeUtf8(s[1..]);
      assert b[0] as char == s[0];
      assert [s[0]] + s[1..] == s;
    }
  }

  /** The label token: base 64 of `json.dumps(labels, sort_keys=True)`. */
  function PackLabels(labels: Labels): (r: string)
    ensures ':' !in r && |r| >= 4
  {
    Json.DumpsAscii(labels);
    var text := Json.Dumps(labels);
    assert |text| >= 2;
    Base64.Encode(Utf8(text))
  }

  /** The token read back into a dict; text that is not a token is a `ValueError`. */
  function UnpackLabels(token: string): (r: Outcome<Labels>)
  {
    match Base64.Decode(token)
    case None => Raised(ValueError("Incorrect padding"))
    case Some(bytes) =>
      match DecodeAscii(bytes)
      case None => Raised(ValueError("'utf-8' codec can't decode"))
      case Some(text) =>
        match Json.Loads(text)
        case None => Raised(ValueError("Expecting value"))
        case Some(labels) => Returned(labels)
  }

  /** Reading a token back gives the labels, in key order: the same mapping. */
  lemma UnpackPackLabels(labels: Labels)
    ensures UnpackLabels(PackLabels(labels)) == Returned(SortByKey(labels))
    ensures SameMapping(SortByKey(labels), labels)
  {
    Json.DumpsAscii(labels);
    var text := Json.Dumps(labels);
    Base64.DecodeEncode(Utf8(text));
    DecodeUtf8(text);
    Json.LoadsDumps(labels);
  }

  /** The token depends on the mapping alone, and different mappings get different tokens. */
  lemma PackLabelsSameMapping(a: Labels, b: Labels)
    ensures PackLabels(a) == PackLabels(b) <==> SameMapping(a, b)
  {
    Json.DumpsSameMapping(a, b);
    Json.DumpsAscii(a);
    Json.DumpsAscii(b);
    if PackLabels(a) == PackLabels(b) {
      Base64.DecodeEncode(Utf8(Json.Dumps(a)));
      Base64.DecodeEncode(Utf8(Json.Dumps(b)));
      DecodeUtf8(Json.Dumps(a));
      DecodeUtf8(Json.Dumps(b));
    }
  }

  /** The empty dict packs to `e30=`, the base 64 of `{}`. */
  lemma PackEmptyLabels()
    ensures PackLabels([]) == "e30="
  {
    assert SortByKey([]) == [];
    assert Json.Dumps([]) == "{}";
    assert Utf8("{}") == [123, 125];
  }

  /** A series key: the metric name, the suffix, `:` and the label token. */
  function MetricKey(name: string, labels: Labels, suffix: Option<string>): (r: string)
    ensures |r| > |name| + |SuffixText(suffix)|
  {
    name + SuffixText(suffix) + ":" + PackLabels(labels)
  }

  /** The same metric and suffix give the same key exactly for the same mapping. */
  lemma MetricKeySameMapping(name: string, suffix: Option<string>, a: Labels, b: Labels)
    ensures MetricKey(name, a, suffix) == MetricKey(name, b, suffix) <==> SameMapping(a, b)
  {
    PackLabelsSameMapping(a, b);
    var p := name + SuffixText(suffix) + ":";
    Json.DropPrefix(p, PackLabels(a));
    Json.DropPrefix(p, PackLabels(b));
  }

  /** The characters of a key just after the metric name: the suffix's, or the `:`. */
  lemma AfterName(name: string, suffix: string, token: string)
    ensures var k := name + suffix + ":" + token;
      (|suffix| == 0 ==> k[|name|] == ':')
      && (|suffix| >= 2 ==> k[|name|] == suffix[0] && k[|name| + 1] == suffix[1])
  {
    var k := name + suffix + ":" + token;
    assert k == name + (suffix + ":" + token);
  }

  /** A metric's group key is never one of its own series keys. */
  lemma GroupKeyIsNotMetricKey(name: string, labels: Labels, suffix: Option<string>)
    requires IsSeriesSuffix(suffix)
    ensures GroupKey(name) != MetricKey(name, labels, suffix)
  {
    var g := GroupKey(name);
    var n := |name|;
    assert g[n] == '_' && g[n + 1] == 'g';
    AfterName(name, SuffixText(suffix), PackLabels(labels));
  }

  /** The suffixes start with `_` and differ in their second character. */
  lemma SuffixMark(s: Option<string>)
    requires IsSeriesSuffix(s) && s.Some?
    ensures |SuffixText(s)| >= 2 && SuffixText(s)[0] == '_'
    ensures SuffixText(s)[1] == if s == Some("_sum") then 's' else if s == Some("_count") then 'c' else 'b'
  {
  }

  /** Series of one metric with different suffixes never share a key. */
  lemma SeriesKeysDistinct(name: string, a: Labels, b: Labels, s: Option<string>, t: Option<string>)
    requires IsSeriesSuffix(s) && IsSeriesSuffix(t) && s != t
    ensures MetricKey(name, a, s) != MetricKey(name, b, t)
  {
    AfterName(name, SuffixText(s), PackLabels(a));
    AfterName(name, SuffixText(t), PackLabels(b));
    if s.Some? {
      SuffixMark(s);
    }
    if t.Some? {
      SuffixMark(t);
    }
  }

  /** `s.split(c, maxsplit=1)` when `c` occurs: the text before its first occurrence and after it. */
  function SplitOnce(s: string, c: char): (r: Option<(string, string)>)
    ensures r.None? <==> c !in s
    ensures r.Some? ==> c !in r.value.0 && s == r.value.0 + [c] + r.value.1
  {
    if |s| == 0 then None
    else if s[0] == c then Some(("", s[1..]))
    else
      match SplitOnce(s[1..], c)
      case None => None
      case Some(p) => Some(([s[0]] + p.0, p.1))
  }

  lemma SeparatorAt(a: string, c: char, b: string, x: string, y: string)
    ensures a + [c] + b == x + [c] + y && |a| < |x| ==> x[|a|] == c
  {
    if a + [c] + b == x + [c] + y && |a| < |x| {
      assert (a + [c] + b)[|a|] == c;
      assert (x + [c] + y)[|a|] == x[|a|];
    }
  }

  /** Where a separator occurs first is unique. */
  lemma FirstOccurrenceUnique(a: string, b: string, x: string, y: string, c: char)
    requires a + [c] + b == x + [c] + y && c !in a && c !in x
    ensures a == x && b == y
  {
    var s := a + [c] + b;
    if |a| < |x| {
      SeparatorAt(a, c, b, x, y);
      assert false;
    } else if |x| < |a| {
      SeparatorAt(x, c, y, a, b);
      assert false;
    }
    assert a == s[..|a|] && x == s[..|x|];
    assert b == s[|a| + 1..] && y == s[|x| + 1..];
  }

  /**
   * `name, packed = key.split(':', maxsplit=1)`: a key without `:` does not unpack into two
   * values and raises `ValueError`.
   */
  function ParseMetricKey(key: string): (r: Outcome<(string, string)>)
  {
    match SplitOnce(key, ':')
    case None => Raised(ValueError("not enough values to unpack (expected 2, got 1)"))
    case Some(p) => Returned(p)
  }

  /** A key is a parse error exactly when it has no `:`. */
  lemma ParseMetricKeyFails(key: string)
    ensures ParseMetricKey(key).Raised? <==> ':' !in key
    ensures ParseMetricKey(key).Returned? ==> key == ParseMetricKey(key).value.0 + ":" + ParseMetricKey(key).value.1
  {
  }

  /** Parsing a series key of a name without `:` gives back the name with its suffix and the token. */
  lemma ParseMetricKeyOf(name: string, labels: Labels, suffix: Option<string>)
    requires ':' !in name + SuffixText(suffix)
    ensures ParseMetricKey(MetricKey(name, labels, suffix)) == Returned((name + SuffixText(suffix), PackLabels(labels)))
  {
    var key := MetricKey(name, labels, suffix);
    var p := SplitOnce(key, ':').value;
    FirstOccurrenceUnique(p.0, p.1, name + SuffixText(suffix), PackLabels(labels), ':');
  }

  // ---------------------------------------------------------------------------------------
  // Labels

  /** `set(xs)`. */
  function ToSet(xs: seq<string>): (r: set<string>)
    ensures forall x :: x in r <==> x in xs
  {
    if |xs| == 0 then {} else {xs[0]} + ToSet(xs[1..])
  }

  /** `set(d.keys())` is the dict's key set. */
  lemma KeysToSet(d: Labels)
    ensures ToSet(Keys(d)) == KeySet(d)
  {
    forall k ensures k in ToSet(Keys(d)) <==> k in KeySet(d) {
      if k in KeySet(d) {
        var i :| 0 <= i < |d| && d[i].0 == k;
        assert Keys(d)[i] == k;
      }
    }
  }

  /** `_check_labels`: the label names given must be exactly the declared ones. */
  function CheckLabels(labelnames: seq<string>, labels: Labels): (r: Outcome<()>)
    ensures r.Raised? ==> r.error.ValueError?
  {
    if ToSet(Keys(labels)) != ToSet(labelnames) then
      Raised(ValueError("Expect define all labels: " + Text.Join(", ", labelnames)
                        + ". Got only: " + Text.Join(", ", Keys(labels))))
    else Returned(())
  }

  /** The check passes exactly when the dict's keys are the declared names, as sets. */
  lemma CheckLabelsExact(labelnames: seq<string>, labels: Labels)
    ensures CheckLabels(labelnames, labels).Returned? <==> KeySet(labels) == ToSet(labelnames)
  {
    KeysToSet(labels);
  }

  /** `dict(zip(labelnames, args))` updated with `kwargs`: the dict `labels(*args, **kwargs)` builds. */
  function LabelsOf(labelnames: seq<string>, args: seq<LabelValue>, kwargs: Labels): Labels
  {
    PutAll(PutAll([], Zip(labelnames, args)), kwargs)
  }

  /** `labels(*args, **kwargs)` up to the handle it wraps the dict in: the dict, once it is valid. */
  function LabelsFor(labelnames: seq<string>, args: seq<LabelValue>, kwargs: Labels): (r: Outcome<Labels>)
    ensures r.Returned? ==> r.value == LabelsOf(labelnames, args, kwargs)
  {
    var labels := LabelsOf(labelnames, args, kwargs);
    match CheckLabels(labelnames, labels)
    case Raised(e) => Raised(e)
    case Returned(_) => Returned(labels)
  }

  /** The positional arguments name the first `min(|labelnames|, |args|)` labels. */
  lemma {:induction false} ZipKeys(labelnames: seq<string>, args: seq<LabelValue>)
    ensures forall k :: LastGet(Zip(labelnames, args), k).Some? <==> k in labelnames[..|Zip(labelnames, args)|]
    ensures forall i :: 0 <= i < |Zip(labelnames, args)| ==> LastGet(Zip(labelnames, args), labelnames[i]).Some?
  {
    var z := Zip(labelnames, args);
    LastGetIn(z);
    forall k ensures k in labelnames[..|z|] <==> exists i :: 0 <= i < |z| && z[i].0 == k {
      if k in labelnames[..|z|] {
        var i :| 0 <= i < |z| && labelnames[..|z|][i] == k;
        assert z[i].0 == k;
      }
    }
  }

  lemma {:induction false} LastGetIn(ps: seq<Entry>)
    ensures forall k :: LastGet(ps, k).Some? <==> exists i :: 0 <= i < |ps| && ps[i].0 == k
    decreases |ps|
  {
    if |ps| > 0 {
      var init := ps[..|ps| - 1];
      LastGetIn(init);
      forall k ensures LastGet(ps, k).Some? <==> exists i :: 0 <= i < |ps| && ps[i].0 == k {
        if LastGet(ps, k).Some? && ps[|ps| - 1].0 != k {
          assert LastGet(init, k).Some?;
          var i :| 0 <= i < |init| && init[i].0 == k;
          assert ps[i].0 == k;
        }
        if (exists i :: 0 <= i < |ps| && ps[i].0 == k) && ps[|ps| - 1].0 != k {
          var i :| 0 <= i < |ps| && ps[i].0 == k;
          assert init[i].0 == k;
        }
      }
    }
  }

  /**
   * What `labels(*args, **kwargs)` binds: a keyword value wins over a positional one, and
   * among positional values for a repeated name the last wins.
   */
  lemma LabelsOfValues(labelnames: seq<string>, args: seq<LabelValue>, kwargs: Labels, k: string)
    ensures Get(LabelsOf(labelnames, args, kwargs), k)
         == if k in KeySet(kwargs) then Get(kwargs, k) else LastGet(Zip(labelnames, args), k)
  {
    LastGetDistinct(kwargs, k);
    GetSome(kwargs, k);
    assert Get([], k) == None;
  }

  /**
   * `labels(*args, **kwargs)` is accepted exactly when the positional arguments and the
   * keywords together name every declared label and nothing else.
   */
  lemma LabelsForAccepted(labelnames: seq<string>, args: seq<LabelValue>, kwargs: Labels)
    ensures LabelsFor(labelnames, args, kwargs).Returned?
        <==> ToSet(labelnames[..|Zip(labelnames, args)|]) + KeySet(kwargs) == ToSet(labelnames)
  {
    var labels := LabelsOf(labelnames, args, kwargs);
    var n := |Zip(labelnames, args)|;
    CheckLabelsExact(labelnames, labels);
    ZipKeys(labelnames, args);
    forall k ensures k in KeySet(labels) <==> k in ToSet(labelnames[..n]) + KeySet(kwargs) {
      LabelsOfValues(labelnames, args, kwargs, k);
      GetSome(labels, k);
      GetSome(kwargs, k);
    }
    assert KeySet(labels) == ToSet(labelnames[..n]) + KeySet(kwargs);
  }

  /** A label-bound handle: the metric, the dict it binds, and the operations it forwards. */
  datatype Handle<M> = Handle(instance: M, labels: LabelDict, operations: seq<string>)

  /** An operation looked up on a handle: the metric's operation with `labels=` already bound. */
  datatype BoundCall<M> = BoundCall(instance: M, operation: string, labels: LabelDict)

  /** `repr` of a list of plain names, as in `['inc', 'set']`. */
  function ListRepr(names: seq<string>): string
  {
    "[" + Text.Join(", ", QuoteNames(names)) + "]"
  }

  function QuoteNames(names: seq<string>): (r: seq<string>)
    ensures |r| == |names| && forall i :: 0 <= i < |names| ==> r[i] == "'" + names[i] + "'"
  {
    if |names| == 0 then [] else ["'" + names[0] + "'"] + QuoteNames(names[1..])
  }

  /** What reading an attribute of a handle gives. */
  datatype Attribute<M> =
      /** One of the handle's own instance fields. */
    | Field(name: string)
      /** An attribute of the class `WithLabels` or of `object`. */
    | ClassAttribute(name: string)
      /** An operation forwarded by `__getattr__`. */
    | Bound(call: BoundCall<M>)

  /** The instance fields `WithLabels.__init__` sets; `__slot__` declares no slots, so they are ordinary fields. */
  const HandleFields: set<string> := {"instance", "labels", "wrapped_functions_names"}

  /** The names the class `WithLabels` defines, and those every Python 3 object inherits from `object`. */
  const ClassAttributes: set<string> := {
    "__slot__", "__init__", "__getattr__", "__module__", "__doc__", "__dict__", "__weakref__",
    "__class__", "__delattr__", "__dir__", "__eq__", "__format__", "__ge__", "__getattribute__",
    "__gt__", "__hash__", "__init_subclass__", "__le__", "__lt__", "__ne__", "__new__",
    "__reduce__", "__reduce_ex__", "__repr__", "__setattr__", "__sizeof__", "__str__",
    "__subclasshook__"
  }

  /**
   * Reading an attribute of a `WithLabels` handle. The ordinary lookup finds its own fields and
   * its class's attributes; only when it fails does `__getattr__` run, which forwards a listed
   * operation with `labels=` bound and raises `TypeError` for any other name.
   */
  function GetAttr<M>(h: Handle<M>, name: string): (r: Outcome<Attribute<M>>)
    ensures name in HandleFields ==> r == Returned(Field(name))
    ensures name !in HandleFields && name in ClassAttributes ==> r == Returned(ClassAttribute(name))
    ensures r.Raised? <==> name !in HandleFields && name !in ClassAttributes && name !in h.operations
    ensures r.Raised? ==> r.error.TypeError?
    ensures r.Returned? && r.value.Bound? <==> name !in HandleFields && name !in ClassAttributes && name in h.operations
    ensures r.Returned? && r.value.Bound? ==>
              r.value.call.instance == h.instance && r.value.call.labels == h.labels && r.value.call.operation == name
  {
    if name in HandleFields then Returned(Field(name))
    else if name in ClassAttributes then Returned(ClassAttribute(name))
    else if name !in h.operations then
      Raised(TypeError("Labels work with functions " + ListRepr(h.operations) + " only"))
    else Returned(Bound(BoundCall(h.instance, name, h.labels)))
  }

  /** `labels(*args, **kwargs)`: validate the labels and bind a new dict of them to the metric. */
  method MakeHandle<M>(instance: M, labelnames: seq<string>, operations: seq<string>,
                       args: seq<LabelValue>, kwargs: Labels) returns (r: Outcome<Handle<M>>)
    ensures r.Returned? <==> LabelsFor(labelnames, args, kwargs).Returned?
    ensures r.Raised? ==> r.error == LabelsFor(labelnames, args, kwargs).error
    ensures r.Returned? ==> fresh(r.value.labels) && r.value.labels.entries == LabelsOf(labelnames, args, kwargs)
    ensures r.Returned? ==> r.value.instance == instance && r.value.operations == operations
  {
    match LabelsFor(labelnames, args, kwargs)
    case Raised(e) =>
      r := Raised(e);
    case Returned(labels) =>
      var d := new LabelDict(labels);
      r := Returned(Handle(instance, d, operations));
  }

  // ---------------------------------------------------------------------------------------
  // `silent_wrapper`

  /** The wrapped call's result when it returns, and `None` (after logging) when it raises. */
  function Silent<T>(o: Outcome<T>): (r: Option<T>)
    ensures r.Some? <==> o.Returned?
    ensures o.Returned? ==> r == Some(o.value)
  {
    match o
    case Returned(v) => Some(v)
    case Raised(_) => None
  }

  // ---------------------------------------------------------------------------------------
  // Exposition lines

  /** `MetricRepresentation`: a series name, its labels and its value as text. */
  datatype Sample = Sample(name: string, labels: Option<Labels>, value: string)

  /** `str(v)` for a label value. */
  function ValueString(v: LabelValue): string
  {
    match v
    case Str(s) => s
    case Num(n) => Text.IntToString(n)
  }

  /** `key="value"`. */
  function Pair(e: Entry): (r: string)
    ensures |r| > 0
  {
    e.0 + "=\"" + ValueString(e.1) + "\""
  }

  function Pairs(d: seq<Entry>): (r: seq<string>)
    ensures |r| == |d| && forall i :: 0 <= i < |d| ==> r[i] == Pair(d[i])
  {
    if |d| == 0 then [] else [Pair(d[0])] + Pairs(d[1..])
  }

  /** The labels part of a line: `{k1="v1",...}` in key order, or nothing. */
  function LabelsText(labels: Option<Labels>): string
  {
    match labels
    case None => ""
    case Some(d) =>
      var body := Text.Join(",", Pairs(SortByKey(d)));
      if body == "" then "" else "{" + body + "}"
  }

  /** `MetricRepresentation.output`. */
  function Output(m: Sample): string
  {
    m.name + LabelsText(m.labels) + " " + m.value
  }

  lemma JoinNonempty(sep: string, xs: seq<string>)
    requires |xs| > 0 && |xs[0]| > 0
    ensures |Text.Join(sep, xs)| > 0
  {
  }

  /** A line has no braces exactly when its labels are `None` or empty. */
  lemma OutputBare(m: Sample)
    ensures Output(m) == m.name + " " + m.value <==> m.labels.None? || |m.labels.value| == 0
  {
    if m.labels.Some? && |m.labels.value| > 0 {
      var ps := Pairs(SortByKey(m.labels.value));
      JoinNonempty(",", ps);
      assert LabelsText(m.labels) != "";
      assert |Output(m)| > |m.name + " " + m.value|;
    }
  }

  /** A labelled line lists the labels in the order of `sorted(labels.keys())`. */
  lemma OutputKeyOrder(d: Labels)
    ensures |SortByKey(d)| == |d| && Keys(SortByKey(d)) == Text.SortStrings(Keys(d))
    ensures |d| > 0 ==> LabelsText(Some(d)) == "{" + Text.Join(",", Pairs(SortByKey(d))) + "}"
  {
    SortByKeyKeys(d);
    if |d| > 0 {
      JoinNonempty(",", Pairs(SortByKey(d)));
    }
  }

  /** A line depends on the label mapping only, not on the order the dict was filled in. */
  lemma OutputSameMapping(name: string, a: Labels, b: Labels, value: string)
    requires SameMapping(a, b)
    ensures Output(Sample(name, Some(a), value)) == Output(Sample(name, Some(b), value))
  {
    SortByKeyDependsOnMappingOnly(a, b);
  }

  /** `DocRepresentation.output`: the `HELP` and `TYPE` lines of a metric. */
  function DocHeader(name: string, kind: string, documentation: string): string
  {
    "# HELP " + name + " " + documentation + "\n# TYPE " + name + " " + kind
  }

  /** The header is two lines when the name, type and documentation have no line break. */
  lemma DocHeaderLines(name: string, kind: string, documentation: string)
    requires '\n' !in name && '\n' !in kind && '\n' !in documentation
    ensures Text.Split(DocHeader(name, kind, documentation), '\n')
         == ["# HELP " + name + " " + documentation, "# TYPE " + name + " " + kind]
  {
    var help := "# HELP " + name + " " + documentation;
    var typ := "# TYPE " + name + " " + kind;
    assert '\n' !in help && '\n' !in typ;
    assert DocHeader(name, kind, documentation) == Text.Join("\n", [help, typ]);
    Text.SplitJoin([help, typ], '\n');
  }
}
