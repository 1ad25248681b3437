/** The metric service: the registry of metric records, the factory methods
    that build records around measurement sources, deletion and teardown, and
    one tick of the periodic collection that refreshes every record's value and
    hands the transport-safe ones to the transport. */
module Service {
  import opened Values
  import opened MetricRegistry

  /** A record after `metric.value = metric.handler()`. */
  function Refreshed(m: InternalMetric): InternalMetric
    requires m.handler.Func?
    reads if m.handler.f.Guarded? then {m.handler.f.source} else {}
  {
    m.(value := Invoke(m.handler.f))
  }

  /** Replacing every record by its refreshed self keeps the registry
      consistent and every entry well formed. */
  lemma RefreshKeepsWellFormed(before: Registry, after: Registry)
    requires Valid(before) && WellFormed(before)
    requires after.keys == before.keys && after.entries.Keys == before.entries.Keys
    requires forall k :: k in before.entries ==> after.entries[k] == Refreshed(before.entries[k])
    ensures Valid(after) && WellFormed(after)
  {
  }

  /** The refresh loop of a tick: every record, visited in key order, gets
      its handler's answer as its value; nothing else about it changes. */
  method RefreshValues(keys: seq<string>, entries: map<string, InternalMetric>)
    returns (refreshed: map<string, InternalMetric>)
    requires Distinct(keys) && forall k :: k in entries <==> k in keys
    requires forall k :: k in entries ==> entries[k].handler.Func?
    ensures refreshed.Keys == entries.Keys
    ensures forall k :: k in entries ==> refreshed[k] == Refreshed(entries[k])
  {
    refreshed := entries;
    for i := 0 to |keys|
      invariant refreshed.Keys == entries.Keys
      invariant forall j :: 0 <= j < i ==> refreshed[keys[j]] == Refreshed(entries[keys[j]])
      invariant forall j :: i <= j < |keys| ==> refreshed[keys[j]] == entries[keys[j]]
    {
      var k := keys[i];
      refreshed := refreshed[k := Refreshed(refreshed[k])];
    }
    forall k | k in entries
      ensures refreshed[k] == Refreshed(entries[k])
    {
      var j :| 0 <= j < |keys| && keys[j] == k;
    }
  }

  /** The registry after the refresh loop: same names in the same order,
      every record refreshed, still consistent and well formed. */
  method RefreshRegistry(reg: Registry) returns (refreshed: Registry)
    requires Valid(reg) && WellFormed(reg)
    ensures Valid(refreshed) && WellFormed(refreshed)
    ensures refreshed.keys == reg.keys && refreshed.entries.Keys == reg.entries.Keys
    ensures forall k :: k in reg.entries ==> refreshed.entries[k] == Refreshed(reg.entries[k])
  {
    var entries := RefreshValues(reg.keys, reg.entries);
    refreshed := Registry(reg.keys, entries);
    RefreshKeepsWellFormed(reg, refreshed);
  }

  /** Once every record of a registry has been refreshed, a record is in the
      batch exactly when its handler's answer passes the transport test, so a
      record whose source has never been used is never sent. */
  lemma SentAfterRefresh(reg: Registry, refreshed: Registry, k: string)
    requires Valid(reg) && WellFormed(reg) && k in reg.entries
    requires refreshed.keys == reg.keys && refreshed.entries.Keys == reg.entries.Keys
    requires forall j :: j in reg.entries ==> refreshed.entries[j] == Refreshed(reg.entries[j])
    ensures Valid(refreshed)
    ensures refreshed.entries[k] in Batch(refreshed) <==> TransportSafe(Invoke(reg.entries[k].handler.f))
    ensures var f := reg.entries[k].handler.f;
      f.Guarded? && !f.source.used ==> refreshed.entries[k] !in Batch(refreshed)
  {
    assert Valid(refreshed);
    BatchExactly(refreshed);
    var f := reg.entries[k].handler.f;
    if f.Guarded? {
      GuardedHandlerAnswers(f.source, f.rounded);
    }
  }

  class MetricService {
    /** The name-to-record map. */
    var metrics: Registry
    /** Whether `this.transport` is a transport (true) or null (false). */
    var transport: bool
    /** `this.timer`: the handle of the last interval scheduled, or null. */
    var timer: Option<nat>
    /** Handles of the intervals scheduled and not yet cleared. */
    var live: set<nat>
    /** Handles handed out so far; the next interval gets this one. */
    var issued: nat

    ghost predicate Valid()
      reads this
    {
      && MetricRegistry.Valid(metrics)
      && WellFormed(metrics)
      && (timer.Some? ==> timer.value < issued)
      && (forall t :: t in live ==> t < issued)
    }

    constructor ()
      ensures Valid()
      ensures metrics == Empty() && !transport && timer == None && live == {} && issued == 0
    {
      metrics := Empty();
      transport := false;
      timer := None;
      live := {};
      issued := 0;
    }

    /** `init()`, with the service locator's answer passed in: a transport
        (`located`) or null. Without a transport no interval is scheduled. */
    method Init(located: bool)
      requires Valid()
      modifies this
      ensures Valid()
      ensures transport == located && metrics == old(metrics)
      ensures !located ==> timer == old(timer) && live == old(live) && issued == old(issued)
      ensures located ==> timer == Some(old(issued)) && old(issued) !in old(live)
      ensures located ==> live == old(live) + {old(issued)} && issued == old(issued) + 1
    {
      transport := located;
      if !located {
        return;
      }
      timer := Some(issued);
      live := live + {issued};
      issued := issued + 1;
    }

    /** The body of the interval callback. With no transport nothing is
        refreshed and nothing is sent (`None`); otherwise every record's value
        becomes its handler's answer, in key order, and then the records whose
        new value is transport-safe are sent, in key order, unless the filter
        throws on some value, in which case nothing is sent (`None`) but the
        values stay refreshed. */
    method Tick() returns (sent: Option<seq<InternalMetric>>)
      requires Valid()
      modifies this
      ensures Valid()
      ensures transport == old(transport) && timer == old(timer) && live == old(live) && issued == old(issued)
      ensures !transport ==> sent == None && metrics == old(metrics)
      ensures transport ==> metrics.keys == old(metrics.keys) && metrics.entries.Keys == old(metrics.entries.Keys)
      ensures transport ==> forall k :: k in old(metrics.entries) ==> metrics.entries[k] == Refreshed(old(metrics.entries)[k])
      ensures transport ==> sent == Send(metrics)
    {
      if !transport {
        return None;
      }
      metrics := RefreshRegistry(metrics);
      sent := Send(metrics);
    }

    /** `registerMetric(m)`: a record whose name or type is not a string, or
        whose handler is not a function, is refused with a diagnostic naming
        that field and the registry is left as it was; otherwise the record,
        with `historic` defaulted to true, is set under its name. */
    method RegisterMetric(m: InternalMetric) returns (diagnostic: Option<InvalidField>)
      requires Valid()
      modifies this
      ensures Valid()
      ensures transport == old(transport) && timer == old(timer) && live == old(live) && issued == old(issued)
      ensures diagnostic == Validate(m)
      ensures diagnostic.Some? ==> metrics == old(metrics)
      ensures metrics == Registered(old(metrics), m)
    {
      if !m.name.Str? {
        return Some(InvalidName);
      } else if !m.kind.Str? {
        return Some(InvalidType);
      } else if !m.handler.Func? {
        return Some(InvalidHandler);
      }
      var stored := m;
      if !m.historic.Bool? {
        stored := m.(historic := Bool(true));
      }
      metrics := Put(metrics, m.name.s, stored);
      diagnostic := None;
    }

    /** `meter(opts)`: a new meter is returned whether or not the record
        around it was accepted. */
    method Meter(opts: MetricOptions) returns (implementation: Option<Source>)
      requires Valid()
      modifies this
      ensures Valid()
      ensures transport == old(transport) && timer == old(timer) && live == old(live) && issued == old(issued)
      ensures implementation.Some? && fresh(implementation.value)
      ensures implementation.value.kind == MeterSource && !implementation.value.used
      ensures metrics == Registered(old(metrics),
        Declared(opts, MetricType.Meter, implementation, Func(Guarded(implementation.value, false))))
    {
      var src := new Source(MeterSource);
      var m := Declared(opts, MetricType.Meter, Some(src), Func(Guarded(src, false)));
      var _ := RegisterMetric(m);
      implementation := Some(src);
    }

    /** `counter(opts)`: as `meter`, around a new counter. */
    method Counter(opts: MetricOptions) returns (implementation: Option<Source>)
      requires Valid()
      modifies this
      ensures Valid()
      ensures transport == old(transport) && timer == old(timer) && live == old(live) && issued == old(issued)
      ensures implementation.Some? && fresh(implementation.value)
      ensures implementation.value.kind == CounterSource && !implementation.value.used
      ensures metrics == Registered(old(metrics),
        Declared(opts, MetricType.Counter, implementation, Func(Guarded(implementation.value, false))))
    {
      var src := new Source(CounterSource);
      var m := Declared(opts, MetricType.Counter, Some(src), Func(Guarded(src, false)));
      var _ := RegisterMetric(m);
      implementation := Some(src);
    }

    /** `histogram(opts)`: a missing `measurement` in the caller's options is
        set to `mean` before the histogram is built; its handler rounds the
        value to hundredths. */
    method Histogram(opts: MetricOptions) returns (implementation: Option<Source>)
      requires Valid()
      modifies this, opts
      ensures Valid()
      ensures transport == old(transport) && timer == old(timer) && live == old(live) && issued == old(issued)
      ensures opts.measurement == DefaultMeasurement(old(opts.measurement))
      ensures opts.name == old(opts.name) && opts.id == old(opts.id) && opts.historic == old(opts.historic)
      ensures opts.unit == old(opts.unit) && opts.value == old(opts.value)
      ensures implementation.Some? && fresh(implementation.value)
      ensures implementation.value.kind == HistogramSource(opts.measurement) && !implementation.value.used
      ensures metrics == Registered(old(metrics),
        Declared(opts, MetricType.Histogram, implementation, Func(Guarded(implementation.value, true))))
    {
      if opts.measurement.Undefined? || opts.measurement.Null? {
        opts.measurement := Str(Mean.Value());
      }
      var src := new Source(HistogramSource(opts.measurement));
      var m := Declared(opts, MetricType.Histogram, Some(src), Func(Guarded(src, true)));
      var _ := RegisterMetric(m);
      implementation := Some(src);
    }

    /** `metric(opts)`: when `opts.value` is a function it becomes the handler
        itself and no source is made (the result is `None`, JavaScript's
        undefined); otherwise a new gauge is made and returned. Both records
        have type `gauge`. */
    method Metric(opts: MetricOptions) returns (implementation: Option<Source>)
      requires Valid()
      modifies this
      ensures Valid()
      ensures transport == old(transport) && timer == old(timer) && live == old(live) && issued == old(issued)
      ensures opts.value.Func? ==> implementation == None
      ensures opts.value.Func? ==> metrics == Registered(old(metrics), Declared(opts, MetricType.Gauge, None, opts.value))
      ensures !opts.value.Func? ==> implementation.Some? && fresh(implementation.value)
      ensures !opts.value.Func? ==> implementation.value.kind == GaugeSource && !implementation.value.used
      ensures !opts.value.Func? ==> metrics == Registered(old(metrics),
        Declared(opts, MetricType.Gauge, implementation, Func(Guarded(implementation.value, false))))
    {
      var m;
      if opts.value.Func? {
        m := Declared(opts, MetricType.Gauge, None, opts.value);
      } else {
        var src := new Source(GaugeSource);
        m := Declared(opts, MetricType.Gauge, Some(src), Func(Guarded(src, false)));
      }
      var _ := RegisterMetric(m);
      implementation := m.implementation;
    }

    /** `deleteMetric(name)`: whether a record of that name was there; it is
        gone afterwards. */
    method DeleteMetric(name: string) returns (removed: bool)
      requires Valid()
      modifies this
      ensures Valid()
      ensures transport == old(transport) && timer == old(timer) && live == old(live) && issued == old(issued)
      ensures removed == (name in old(metrics.entries))
      ensures (metrics, removed) == Remove(old(metrics), name)
    {
      var r := Remove(metrics, name);
      metrics := r.0;
      removed := r.1;
    }

    /** `destroy()`: the interval `this.timer` refers to, if any, is cleared
        and the registry is emptied. `this.timer` itself keeps its value. */
    method Destroy()
      requires Valid()
      modifies this
      ensures Valid()
      ensures metrics == Empty() && ValuesOf(metrics) == []
      ensures transport == old(transport) && timer == old(timer) && issued == old(issued)
      ensures live == if timer.Some? then old(live) - {timer.value} else old(live)
    {
      if timer.Some? {
        live := live - {timer.value};
      }
      metrics := Empty();
    }
  }
}
