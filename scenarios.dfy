/** Uses of the metric service, each checked against the contracts of the
    service alone: a service without transport, teardown, and the handle
    returned for a refused record. */
module Scenarios {
  import opened Values
  import opened MetricRegistry
  import opened Service

  /** Without a transport no interval is scheduled and a tick does nothing. */
  method NoTransportNoCollection() {
    var svc := new MetricService();
    var opts := new MetricOptions(Str("reqs"), Undefined, Undefined, Undefined, Undefined, Undefined);
    var handle := svc.Counter(opts);
    handle.value.Observe(Finite(1.0));
    svc.Init(false);
    assert svc.timer == None && svc.live == {};
    ghost var before := svc.metrics;
    var sent := svc.Tick();
    assert sent == None && svc.metrics == before;
  }

  /** After teardown the registry is empty and the interval is cleared. */
  method DestroyClearsEverything() {
    var svc := new MetricService();
    var opts := new MetricOptions(Str("reqs"), Undefined, Undefined, Undefined, Undefined, Undefined);
    var handle := svc.Counter(opts);
    svc.Init(true);
    svc.Destroy();
    assert ValuesOf(svc.metrics) == [] && svc.live == {};
  }

  /** A record with a non-string name is refused, yet the factory still hands
      back a fresh source. */
  method RefusedStillReturnsSource() {
    var svc := new MetricService();
    var bad := new MetricOptions(Num(Finite(7.0)), Undefined, Undefined, Undefined, Undefined, Undefined);
    var h := svc.Meter(bad);
    assert h.Some? && svc.metrics == Empty();
  }

  /** A second `init` with a transport schedules a second interval and
      forgets the first: teardown then clears only the second. */
  method SecondInitLeavesFirstInterval() {
    var svc := new MetricService();
    svc.Init(true);
    svc.Init(true);
    svc.Destroy();
    assert svc.live == {0};
  }
}
