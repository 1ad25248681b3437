/** JavaScript values as the metric service sees them: numbers with NaN and
    the infinities, the `typeof` classes the registry tests, the handlers stored
    in metric records, and the measurement sources (meter, counter, histogram,
    gauge) that those handlers poll. */
module Values {

  datatype Option<+T> = None | Some(value: T)

  /** A JavaScript number. Double-precision rounding is not modelled: a finite
      number is a real. */
  datatype Number = NaN | PosInfinity | NegInfinity | Finite(x: real)

  /** `Math.round(n * 100) / 100`, with `Math.round(y)` the integer nearest to
      `y`, ties rounded up, that is `floor(y + 0.5)`. NaN and the infinities are
      left as they are by both the product and the rounding. */
  function RoundCents(n: Number): Number {
    match n
    case Finite(x) => Finite(((x * 100.0 + 0.5).Floor as real) / 100.0)
    case _ => n
  }

  /** The result of `RoundCents` on a finite number is a whole number of
      hundredths, and it is the nearest one (ties going up). */
  lemma RoundCentsIsNearestHundredth(x: real)
    ensures RoundCents(Finite(x)).Finite?
    ensures var y := RoundCents(Finite(x)).x;
      && (y * 100.0).Floor as real == y * 100.0
      && x - 0.005 < y <= x + 0.005
  {
    var f := (x * 100.0 + 0.5).Floor;
    assert f as real <= x * 100.0 + 0.5 < f as real + 1.0;
    var y := f as real / 100.0;
    assert y * 100.0 == f as real;
  }

  /** A JavaScript value, split by what `typeof` reports. */
  datatype JsValue =
    | Undefined
    | Null
    | Num(n: Number)
    | Str(s: string)
    | Bool(b: bool)
    | Func(f: Callable)   // typeof v === 'function'
    | Obj                 // any other object that converts to a primitive
      /** A BigInt, a Symbol, or an object with no conversion to a primitive:
          converting it to a number throws a TypeError. */
    | Unconvertible

  /** A zero-argument function that can serve as a metric handler. */
  datatype Callable =
      /** The handler the meter, counter, histogram and object-gauge factories
          build around their source: "is used ? value : NaN", with the value
          rounded to hundredths when `rounded` (the histogram's handler). */
    | Guarded(source: Source, rounded: bool)
      /** A function supplied by the caller; it returns `result`. */
    | UserFunction(result: JsValue)

  /** The kind of a measurement source, with the histogram's `measurement`
      option as passed to its constructor. */
  datatype SourceKind = MeterSource | CounterSource | HistogramSource(measurement: JsValue) | GaugeSource

  /** A measurement source (Meter, Counter, Histogram or Gauge). Its numeric
      algorithm lives outside the metric service; the service only asks
      `isUsed()` (modelled by `used`) and `val()` (modelled by `reading`). */
  class Source {
    const kind: SourceKind
    var used: bool
    var reading: Number

    constructor (kind: SourceKind)
      ensures this.kind == kind && !used
    {
      this.kind := kind;
      used := false;
      reading := Finite(0.0);
    }

    /** Any update made through the handle the caller holds (mark, inc, update,
        set): the source now has data, and `val()` returns `v`. */
    method Observe(v: Number)
      modifies this
      ensures used && reading == v
    {
      used := true;
      reading := v;
    }
  }

  /** Calling a handler, `metric.handler()`. */
  function Invoke(f: Callable): JsValue
    reads if f.Guarded? then {f.source} else {}
  {
    match f
    case Guarded(src, rounded) =>
      if !src.used then Num(NaN)
      else if rounded then Num(RoundCents(src.reading))
      else Num(src.reading)
    case UserFunction(r) => r
  }

  /** A source-backed handler answers NaN until its source is used, and a
      finite (for the histogram: rounded) reading once it is. */
  lemma GuardedHandlerAnswers(src: Source, rounded: bool)
    ensures !src.used ==> Invoke(Guarded(src, rounded)) == Num(NaN)
    ensures !src.used ==> !TransportSafe(Invoke(Guarded(src, rounded)))
    ensures src.used && src.reading.Finite? ==> TransportSafe(Invoke(Guarded(src, rounded)))
    ensures src.used && rounded ==> Invoke(Guarded(src, rounded)) == Num(RoundCents(src.reading))
    ensures src.used && !rounded ==> Invoke(Guarded(src, rounded)) == Num(src.reading)
  {
  }

  /** The test applied to each record's `value` before a batch is sent, for a
      value on which it does not throw. The answer of `isNaN` on another
      non-number is never used: it only matters together with `isNumber`. */
  predicate TransportSafe(v: JsValue) {
    if v.Undefined? || v.Null? then false
    else
      var isNumber := v.Num?;
      var isString := v.Str?;
      var isBoolean := v.Bool?;
      var isValidNumber := !(v.Num? && v.n.NaN?);
      isString || isBoolean || (isNumber && isValidNumber)
  }

  /** Whether the test throws on `v`: undefined and null are turned away
      first, and every other value goes through `isNaN`, which converts it to a
      number. */
  predicate TestThrows(v: JsValue) {
    !(v.Undefined? || v.Null?) && v.Unconvertible?
  }

  /** Exactly strings, booleans and numbers other than NaN go through; the
      infinities go through as well, since only NaN is tested. */
  lemma TransportSafeExactly(v: JsValue)
    ensures TransportSafe(v) <==> v.Str? || v.Bool? || (v.Num? && v.n != NaN)
    ensures v.Undefined? || v.Null? || v.Func? || v.Obj? || v == Num(NaN) ==> !TransportSafe(v)
    ensures TransportSafe(Num(PosInfinity)) && TransportSafe(Num(NegInfinity))
  {
  }
}
