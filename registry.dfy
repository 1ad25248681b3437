/** The metric records and the registry that holds them: a JavaScript `Map`
    from metric name to record, which remembers the order in which names were
    first set. Also the validation `registerMetric` applies and the filter the
    collection tick applies to the registry's values. */
module MetricRegistry {
  import opened Values

  /** The `MetricType` enumeration and its string values. */
  datatype MetricType = Meter | Histogram | Counter | Gauge | Metric {
    function Value(): string {
      match this
      case Meter => "meter"
      case Histogram => "histogram"
      case Counter => "counter"
      case Gauge => "gauge"
      case Metric => "metric"
    }
  }

  /** The `MetricMeasurements` enumeration and its string values. */
  datatype MetricMeasurement =
    | Min | Max | Sum | Count | Variance | Mean | Stddev | Median | P75 | P95 | P99 | P999
  {
    function Value(): string {
      match this
      case Min => "min"
      case Max => "max"
      case Sum => "sum"
      case Count => "count"
      case Variance => "variance"
      case Mean => "mean"
      case Stddev => "stddev"
      case Median => "median"
      case P75 => "p75"
      case P95 => "p95"
      case P99 => "p99"
      case P999 => "p999"
    }
  }

  /** A metric record as the registry stores it. Every field is as loosely
      typed as in JavaScript; `registerMetric` decides what it accepts. */
  datatype InternalMetric = InternalMetric(
    name: JsValue,
    kind: JsValue,
    id: JsValue,
    historic: JsValue,
    implementation: Option<Source>,
    unit: JsValue,
    handler: JsValue,
    value: JsValue)

  /** The options object a caller passes to a factory method. Tuning options
      that only the source constructors read are not modelled. */
  class MetricOptions {
    var name: JsValue
    var id: JsValue
    var historic: JsValue
    var unit: JsValue
    var measurement: JsValue
    var value: JsValue

    constructor (name: JsValue, id: JsValue, historic: JsValue, unit: JsValue, measurement: JsValue, value: JsValue)
      ensures this.name == name && this.id == id && this.historic == historic
      ensures this.unit == unit && this.measurement == measurement && this.value == value
    {
      this.name := name;
      this.id := id;
      this.historic := historic;
      this.unit := unit;
      this.measurement := measurement;
      this.value := value;
    }
  }

  /** The record a factory method builds from its options. */
  function Declared(opts: MetricOptions, t: MetricType, implementation: Option<Source>, handler: JsValue): InternalMetric
    reads opts
  {
    InternalMetric(opts.name, Str(t.Value()), opts.id, opts.historic, implementation, opts.unit, handler, Undefined)
  }

  /** The histogram's default: a missing `measurement` becomes `mean`. */
  function DefaultMeasurement(m: JsValue): (r: JsValue)
    ensures m.Undefined? || m.Null? ==> r == Str(Mean.Value())
    ensures !(m.Undefined? || m.Null?) ==> r == m
    ensures r != Undefined && r != Null
  {
    if m.Undefined? || m.Null? then Str(Mean.Value()) else m
  }

  /** The field `registerMetric` complains about, checked in this order. */
  datatype InvalidField = InvalidName | InvalidType | InvalidHandler

  function Validate(m: InternalMetric): Option<InvalidField> {
    if !m.name.Str? then Some(InvalidName)
    else if !m.kind.Str? then Some(InvalidType)
    else if !m.handler.Func? then Some(InvalidHandler)
    else None
  }

  /** A record is accepted exactly when its name and type are strings and its
      handler is a function; a diagnostic names the first field that fails. */
  lemma ValidateAccepts(m: InternalMetric)
    ensures Validate(m).None? <==> m.name.Str? && m.kind.Str? && m.handler.Func?
    ensures Validate(m) == Some(InvalidName) <==> !m.name.Str?
    ensures Validate(m) == Some(InvalidType) <==> m.name.Str? && !m.kind.Str?
    ensures Validate(m) == Some(InvalidHandler) <==> m.name.Str? && m.kind.Str? && !m.handler.Func?
  {
  }

  /** `historic` becomes `true` unless the caller gave a boolean. */
  function WithHistoric(m: InternalMetric): (r: InternalMetric)
    ensures r.historic.Bool?
    ensures m.historic.Bool? ==> r == m
    ensures !m.historic.Bool? ==> r.historic == Bool(true)
    ensures r == m.(historic := r.historic)
  {
    if m.historic.Bool? then m else m.(historic := Bool(true))
  }

  ghost predicate Distinct(s: seq<string>) {
    forall i, j :: 0 <= i < j < |s| ==> s[i] != s[j]
  }

  /** An insertion-ordered map from names to records: `keys` lists the names
      in the order they were first set. */
  datatype Registry = Registry(keys: seq<string>, entries: map<string, InternalMetric>)

  ghost predicate Valid(reg: Registry) {
    && Distinct(reg.keys)
    && (forall k :: k in reg.entries <==> k in reg.keys)
  }

  /** What `registerMetric` guarantees of every entry: it is keyed by its own
      name, its type is a string, its handler a function, `historic` a boolean. */
  ghost predicate WellFormed(reg: Registry) {
    forall k :: k in reg.entries ==>
      && reg.entries[k].name == Str(k)
      && reg.entries[k].kind.Str?
      && reg.entries[k].handler.Func?
      && reg.entries[k].historic.Bool?
  }

  function Empty(): (reg: Registry)
    ensures Valid(reg) && WellFormed(reg) && reg.entries == map[]
  {
    Registry([], map[])
  }

  /** `Map.prototype.set`: overwrite in place, or append a new name. */
  function Put(reg: Registry, k: string, v: InternalMetric): (r: Registry)
    requires Valid(reg)
    ensures Valid(r)
    ensures WellFormed(reg) && v.name == Str(k) && v.kind.Str? && v.handler.Func? && v.historic.Bool? ==> WellFormed(r)
  {
    Registry(if k in reg.entries then reg.keys else reg.keys + [k], reg.entries[k := v])
  }

  /** The position of the first occurrence of `k` in `s`. */
  function IndexOf(s: seq<string>, k: string): (i: nat)
    requires k in s
    ensures i < |s| && s[i] == k && k !in s[..i]
  {
    if s[0] == k then 0 else IndexOf(s[1..], k) + 1
  }

  /** Taking `k` out of the tail and putting the head back in front drops the
      position of `k` in the whole sequence. */
  lemma DropAtCons(s: seq<string>, k: string, rest: seq<string>)
    requires s != [] && s[0] != k && k in s[1..]
    requires rest == s[1..][..IndexOf(s[1..], k)] + s[1..][IndexOf(s[1..], k) + 1..]
    ensures [s[0]] + rest == s[..IndexOf(s, k)] + s[IndexOf(s, k) + 1..]
  {
    assert s[..IndexOf(s, k)] == [s[0]] + s[1..][..IndexOf(s[1..], k)];
  }

  /** `s` with every occurrence of `k` taken out, the rest in order. */
  function Without(s: seq<string>, k: string): (r: seq<string>)
    ensures forall x :: x in r <==> x in s && x != k
    ensures k !in s ==> r == s
  {
    if s == [] then []
    else if s[0] == k then Without(s[1..], k)
    else [s[0]] + Without(s[1..], k)
  }

  /** Taking a key out of a sequence without duplicates leaves one without
      duplicates; when the key was there, exactly its position is dropped and
      every other key keeps its place in the order. */
  lemma {:induction false} WithoutDropsPosition(s: seq<string>, k: string)
    requires Distinct(s)
    ensures Distinct(Without(s, k))
    ensures k in s ==> |Without(s, k)| == |s| - 1
    ensures k in s ==> Without(s, k) == s[..IndexOf(s, k)] + s[IndexOf(s, k) + 1..]
  {
    if s != [] {
      assert Distinct(s[1..]);
      WithoutDropsPosition(s[1..], k);
      if s[0] != k {
        assert s[0] !in s[1..];
        if k in s {
          DropAtCons(s, k, Without(s[1..], k));
        }
      }
    }
  }

  /** `Map.prototype.delete`: the map without `k`, and whether `k` was there. */
  function Remove(reg: Registry, k: string): (r: (Registry, bool))
    requires Valid(reg)
    ensures Valid(r.0)
    ensures WellFormed(reg) ==> WellFormed(r.0)
  {
    WithoutDropsPosition(reg.keys, k);
    (Registry(Without(reg.keys, k), reg.entries - {k}), k in reg.entries)
  }

  /** `Map.prototype.values`, in key order. */
  function ValuesOf(reg: Registry): (vs: seq<InternalMetric>)
    requires Valid(reg)
    ensures |vs| == |reg.keys|
    ensures forall i :: 0 <= i < |vs| ==> reg.keys[i] in reg.entries && vs[i] == reg.entries[reg.keys[i]]
  {
    seq(|reg.keys|, i requires 0 <= i < |reg.keys| && reg.keys[i] in reg.entries => reg.entries[reg.keys[i]])
  }

  /** The registry after `registerMetric(m)`: unchanged when `m` is rejected,
      otherwise `m`, with `historic` defaulted, stored under its name. */
  function Registered(reg: Registry, m: InternalMetric): Registry
    requires Valid(reg)
  {
    if Validate(m).None? then Put(reg, m.name.s, WithHistoric(m)) else reg
  }

  /** `Array.prototype.filter` with the transport test on each record's value. */
  function Filtered(vs: seq<InternalMetric>): seq<InternalMetric> {
    if vs == [] then []
    else if TransportSafe(vs[|vs| - 1].value) then Filtered(vs[..|vs| - 1]) + [vs[|vs| - 1]]
    else Filtered(vs[..|vs| - 1])
  }

  /** The batch of a registry: its values that pass the transport test. */
  function Batch(reg: Registry): seq<InternalMetric>
    requires Valid(reg)
  {
    Filtered(ValuesOf(reg))
  }

  /** What a tick hands to the transport: the batch, or nothing when the filter
      throws on some record's value, which abandons the whole send. */
  function Send(reg: Registry): Option<seq<InternalMetric>>
    requires Valid(reg)
  {
    var vs := ValuesOf(reg);
    if exists i :: 0 <= i < |vs| && TestThrows(vs[i].value) then None else Some(Batch(reg))
  }

  // ---------------------------------------------------------------- lemmas

  lemma {:induction false} DistinctCardinality(s: seq<string>)
    requires Distinct(s)
    ensures |(set x | x in s)| == |s|
  {
    if s != [] {
      DistinctCardinality(s[1..]);
      assert (set x | x in s) == {s[0]} + (set x | x in s[1..]);
      assert s[0] !in (set x | x in s[1..]);
    }
  }

  /** The number of entries is the number of keys. */
  lemma SizeIsKeyCount(reg: Registry)
    requires Valid(reg)
    ensures |reg.entries| == |reg.keys|
  {
    DistinctCardinality(reg.keys);
    assert reg.entries.Keys == (set x | x in reg.keys);
  }

  /** `set` stores the value under its key, keeps every other entry and the
      position of an existing key, and adds one entry exactly when the key is
      new. */
  lemma PutStores(reg: Registry, k: string, v: InternalMetric)
    requires Valid(reg)
    ensures var r := Put(reg, k, v);
      && k in r.entries && r.entries[k] == v
      && (forall j :: j != k ==> (j in r.entries <==> j in reg.entries))
      && (forall j :: j != k && j in reg.entries ==> r.entries[j] == reg.entries[j])
      && (k in reg.entries ==> r.keys == reg.keys && |r.entries| == |reg.entries|)
      && (k !in reg.entries ==> r.keys == reg.keys + [k] && |r.entries| == |reg.entries| + 1)
  {
    var r := Put(reg, k, v);
    SizeIsKeyCount(reg);
    SizeIsKeyCount(r);
  }

  /** `delete` answers whether the key was present; afterwards it is absent,
      every other entry is kept, and deleting an absent key changes nothing. */
  lemma RemoveReportsPresence(reg: Registry, k: string)
    requires Valid(reg)
    ensures var (r, found) := Remove(reg, k);
      && found == (k in reg.entries)
      && k !in r.entries
      && (forall j :: j != k ==> (j in r.entries <==> j in reg.entries))
      && (forall j :: j != k && j in reg.entries ==> r.entries[j] == reg.entries[j])
      && (found ==> |r.entries| == |reg.entries| - 1)
      && (!found ==> r == reg)
  {
    var (r, found) := Remove(reg, k);
    SizeIsKeyCount(reg);
    SizeIsKeyCount(r);
    if !found {
      assert k !in reg.keys;
      assert r.entries == reg.entries;
    }
  }

  /** A rejected record leaves the registry as it was; an accepted one is
      stored under its name with `historic` true unless the caller gave a
      boolean, replacing any earlier record of that name, and every other
      entry is kept; the number of entries grows by one only for a new name. */
  lemma RegistrationOutcome(reg: Registry, m: InternalMetric)
    requires Valid(reg)
    ensures Validate(m).Some? ==> Registered(reg, m) == reg
    ensures Validate(m).None? ==>
      var r := Registered(reg, m);
      && m.name.s in r.entries
      && r.entries[m.name.s] == m.(historic := if m.historic.Bool? then m.historic else Bool(true))
      && (forall j :: j != m.name.s ==> (j in r.entries <==> j in reg.entries))
      && (forall j :: j != m.name.s && j in reg.entries ==> r.entries[j] == reg.entries[j])
      && |r.entries| == |reg.entries| + (if m.name.s in reg.entries then 0 else 1)
  {
    if Validate(m).None? {
      PutStores(reg, m.name.s, WithHistoric(m));
    }
  }

  /** After an accepted registration the registry's values hold exactly one
      record with that name. */
  lemma ExactlyOneWithName(reg: Registry, m: InternalMetric)
    requires Valid(reg) && WellFormed(reg) && Validate(m).None?
    ensures var vs := ValuesOf(Registered(reg, m));
      && (exists i :: 0 <= i < |vs| && vs[i].name == m.name)
      && (forall i, j :: 0 <= i < |vs| && 0 <= j < |vs| && vs[i].name == m.name && vs[j].name == m.name ==> i == j)
  {
    var r := Registered(reg, m);
    var vs := ValuesOf(r);
    var k := m.name.s;
    assert WellFormed(r);
    assert k in r.keys;
    var i :| 0 <= i < |r.keys| && r.keys[i] == k;
    assert vs[i].name == m.name;
    forall a, b | 0 <= a < |vs| && 0 <= b < |vs| && vs[a].name == m.name && vs[b].name == m.name
      ensures a == b
    {
      assert r.keys[a] == k && r.keys[b] == k;
    }
  }

  /** The filter keeps exactly the records whose value is transport-safe. */
  lemma {:induction false} FilteredExactly(vs: seq<InternalMetric>)
    ensures forall x :: x in Filtered(vs) <==> x in vs && TransportSafe(x.value)
    ensures |Filtered(vs)| <= |vs|
  {
    if vs != [] {
      var init := vs[..|vs| - 1];
      FilteredExactly(init);
      assert vs == init + [vs[|vs| - 1]];
    }
  }

  /** The filter keeps the records in their order, dropping none when all are
      transport-safe. */
  lemma {:induction false} FilteredAllSafe(vs: seq<InternalMetric>)
    requires forall i :: 0 <= i < |vs| ==> TransportSafe(vs[i].value)
    ensures Filtered(vs) == vs
  {
    if vs != [] {
      var init := vs[..|vs| - 1];
      FilteredAllSafe(init);
      assert vs == init + [vs[|vs| - 1]];
    }
  }

  /** A batch holds exactly the registry's records whose value is
      transport-safe, each at most once. */
  lemma BatchExactly(reg: Registry)
    requires Valid(reg)
    ensures forall x :: x in Batch(reg) <==> (exists k :: k in reg.entries && reg.entries[k] == x) && TransportSafe(x.value)
  {
    var vs := ValuesOf(reg);
    FilteredExactly(vs);
    forall x | (exists k :: k in reg.entries && reg.entries[k] == x)
      ensures x in vs
    {
      var k :| k in reg.entries && reg.entries[k] == x;
      var i :| 0 <= i < |reg.keys| && reg.keys[i] == k;
      assert vs[i] == x;
    }
  }

  /** A send is abandoned exactly when some record's value makes the test
      throw; otherwise the batch goes out, and it holds no such record. */
  lemma SendOutcome(reg: Registry)
    requires Valid(reg)
    ensures Send(reg).None? <==> exists k :: k in reg.entries && TestThrows(reg.entries[k].value)
    ensures Send(reg).Some? ==> Send(reg).value == Batch(reg)
    ensures Send(reg).Some? ==> forall x :: x in Send(reg).value ==> !TestThrows(x.value)
  {
    var vs := ValuesOf(reg);
    if k :| k in reg.entries && TestThrows(reg.entries[k].value) {
      var i :| 0 <= i < |reg.keys| && reg.keys[i] == k;
      assert TestThrows(vs[i].value);
    } else {
      forall x | x in Batch(reg)
        ensures !TestThrows(x.value)
      {
        BatchHasNoThrowing(reg, x);
      }
    }
  }

  /** Every record in a batch has a value that passes the test and that the
      test does not throw on. */
  lemma BatchHasNoThrowing(reg: Registry, x: InternalMetric)
    requires Valid(reg) && x in Batch(reg)
    ensures TransportSafe(x.value) && !TestThrows(x.value)
  {
    BatchExactly(reg);
  }
}
