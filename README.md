# Metric service of pm2-io-apm, in Dafny

This project models the `MetricService` of pm2-io-apm
(`build/main/services/metrics.js`). The service keeps a registry: a
JavaScript `Map` from metric name to metric record. The factory methods
`meter`, `counter`, `histogram` and `metric` build a record around a new
measurement source and register it. `registerMetric` validates a record and
stores it. `deleteMetric` removes a record by name. `init` looks up a
transport and schedules an interval. On every tick the interval refreshes
each record's `value` by calling its handler, and hands the records whose
value is a string, a boolean or a number other than NaN to the transport.
`destroy` clears the interval and empties the registry.

The project has three modules:

- `Values` (`values.dfy`) models JavaScript values as the service sees them.
  - A number is NaN, an infinity or a finite real.
  - A handler is either one of the source-backed closures that the factories
    build, or a caller-supplied function.
  - A measurement source is a class with the two things the service asks of
    it: whether it has been used and its current reading.
  - It also holds the handler rounding `Math.round(v * 100) / 100` and the
    transport test.
- `MetricRegistry` (`registry.dfy`) models the two enumerations and the
  metric record.
  - The registry is an insertion-ordered map value, with `set`, `delete` and
    `values`.
  - It also holds the validation that `registerMetric` applies and the filter
    that the tick applies.
- `Service` (`service.dfy`) holds the `MetricService` class.
  - Its fields are the registry, the transport (present or null), the timer
    handle, and the set of intervals scheduled and not yet cleared.
  - It has one method per operation. The interval callback is the method
    `Tick`.

`scenarios.dfy` strings the operations together in short runs that are
proved from the contracts alone.

Some behaviours of the code that a reader might not expect, all modelled as
written:

- `registerMetric` only checks that the type is a string. It does not check
  that the type is one of the `MetricType` values.
- An empty name is accepted.
- A factory returns its new source even when the record around it is
  refused.
- The infinities pass the transport test, since only NaN is excluded.
- The transport test converts every value other than undefined and null to a
  number. For a BigInt, a Symbol, or an object with no primitive conversion
  this throws. A tick that meets such a value sends nothing, although every
  value has already been refreshed.
- `metric()` gives both of its records the type `gauge`.
- Calling `init` twice with a transport schedules a second interval. The
  first one is then never cleared by `destroy`.

## Model

| member | source | states |
|---|---|---|
| Values.RoundCentsIsNearestHundredth | build/main/services/metrics.js:140-141 | the histogram rounding of a finite reading gives a whole number of hundredths within half a hundredth of the reading (ties upward) |
| Values.GuardedHandlerAnswers | build/main/services/metrics.js:106-108 | a source-backed handler answers NaN (so is never sent) while its source is unused; once used, it answers the reading, rounded for the histogram, and a finite reading is transport-safe |
| Values.TransportSafeExactly | build/main/services/metrics.js:64-73 | the transport test accepts exactly strings, booleans and numbers other than NaN; undefined, null, functions, objects and NaN are refused, and both infinities are accepted |
| MetricRegistry.DefaultMeasurement | build/main/services/metrics.js:129-131 | a missing (undefined or null) histogram measurement becomes "mean"; any other value is kept; the result is never missing |
| MetricRegistry.ValidateAccepts | build/main/services/metrics.js:80-91 | a record is accepted iff its name and type are strings and its handler is a function; the diagnostic names the first failing field, in the order name, type, handler |
| MetricRegistry.WithHistoric | build/main/services/metrics.js:92-94 | after registration `historic` is a boolean: the caller's boolean is kept, anything else becomes true, and no other field changes |
| MetricRegistry.Empty | build/main/services/metrics.js:45 | a new or cleared map is consistent and holds no entries |
| MetricRegistry.Put | build/main/services/metrics.js:96 | `set` keeps the ordered map consistent, and keeps every entry well formed when the new record is |
| MetricRegistry.PutStores | build/main/services/metrics.js:96 | `set` stores the record under its key and keeps every other entry; an existing key keeps its position and the size, a new key goes last and the size grows by one |
| MetricRegistry.Without | build/main/services/metrics.js:177 | removing a key from the key order keeps exactly the other keys, and changes nothing when the key was not there |
| MetricRegistry.WithoutDropsPosition | build/main/services/metrics.js:177 | on a key order without duplicates, removing a present key drops exactly its position: the keys before and after it keep their order, none is duplicated, and the length shrinks by one |
| MetricRegistry.Remove | build/main/services/metrics.js:177 | `delete` keeps the ordered map consistent and its entries well formed |
| MetricRegistry.RemoveReportsPresence | build/main/services/metrics.js:176-178 | `delete` returns whether the name was present; afterwards the name is absent and every other entry is kept; the size drops by one exactly when it was present; deleting an absent name changes nothing |
| MetricRegistry.ValuesOf | build/main/services/metrics.js:59 | `values()` lists one record per key, in key order |
| MetricRegistry.SizeIsKeyCount | build/main/services/metrics.js:45 | the number of entries equals the number of names in the insertion order |
| MetricRegistry.RegistrationOutcome | build/main/services/metrics.js:79-97 | a refused record leaves the registry unchanged; an accepted one is stored under its name with `historic` defaulted, replacing any earlier record of that name, and every other entry is kept; the size grows only for a new name |
| MetricRegistry.ExactlyOneWithName | build/main/services/metrics.js:95-96 | after an accepted registration the registry's values hold exactly one record with that name |
| MetricRegistry.FilteredExactly | build/main/services/metrics.js:63-74 | the filter keeps exactly the records whose value passes the transport test, and never lengthens the list |
| MetricRegistry.FilteredAllSafe | build/main/services/metrics.js:63-74 | when every value passes the transport test, the filter returns the list unchanged, order included |
| MetricRegistry.BatchExactly | build/main/services/metrics.js:63-74 | the batch holds exactly the registry's records whose value is transport-safe |
| MetricRegistry.BatchHasNoThrowing | build/main/services/metrics.js:63-74 | every record in a batch has a transport-safe value on which the test does not throw |
| MetricRegistry.SendOutcome | build/main/services/metrics.js:63-75 | a send is abandoned exactly when some record's value makes `isNaN` throw; otherwise the batch goes to the transport, and it holds no such record |
| Service.RefreshValues | build/main/services/metrics.js:59-61 | after the refresh loop every record's value is its handler's answer and nothing else changed, for every name in the registry |
| Service.RefreshRegistry | build/main/services/metrics.js:59-61 | the refreshed registry has the same names in the same order, every record refreshed, and stays consistent and well formed |
| Service.SentAfterRefresh | build/main/services/metrics.js:59-74 | after the refresh, a record is sent iff its handler's answer is transport-safe, so a record whose source was never used is never sent |
| Service.MetricService.constructor | build/main/services/metrics.js:44-49 | a new service has an empty registry, no transport and no timer |
| Service.MetricService.Init | build/main/services/metrics.js:50-55 | the transport is what the lookup found; without one nothing is scheduled; with one a new interval is scheduled and becomes `timer`, and the registry is untouched |
| Service.MetricService.Tick | build/main/services/metrics.js:55-76 | without a transport nothing changes and nothing is sent; otherwise every record's value becomes its handler's answer, and names and order are kept; then the transport-safe records are sent in key order, or nothing is sent when the test throws on some value |
| Service.MetricService.RegisterMetric | build/main/services/metrics.js:79-97 | the diagnostic is the first failing field, or none; a refused record leaves the registry unchanged; an accepted one is stored as `RegistrationOutcome` describes; transport and timers are untouched |
| Service.MetricService.Meter | build/main/services/metrics.js:98-112 | a new, unused meter is always returned; a record of type "meter" that carries the caller's name, id, historic and unit and has a handler guarded by that meter is registered |
| Service.MetricService.Counter | build/main/services/metrics.js:113-127 | as for `meter`, with a new counter and type "counter" |
| Service.MetricService.Histogram | build/main/services/metrics.js:128-146 | the caller's `measurement` is defaulted to "mean" in place, and no other option changes; a new histogram built with that measurement is returned; its record, of type "histogram", has a rounding guarded handler |
| Service.MetricService.Metric | build/main/services/metrics.js:147-175 | when `value` is a function, it becomes the handler of a "gauge" record and nothing is returned; otherwise a new unused gauge is returned and registered behind a guarded handler, also as type "gauge" |
| Service.MetricService.DeleteMetric | build/main/services/metrics.js:176-178 | the result is whether the name was registered, and the registry is the map with that name deleted |
| Service.MetricService.Destroy | build/main/services/metrics.js:179-184 | the registry is empty; the interval held in `timer`, if any, is cleared and no other interval is; the `timer` field itself keeps its value |

## Left out

- The interval machinery (`setInterval`, `clearInterval`, `unref` and the interval length) is left out. Intervals are numbered handles, and a tick is a call to `Tick`. How ticks interleave with the other operations in time is not modelled.
- The service locator lookup in `init` is replaced by a boolean parameter: a transport was found, or the lookup gave null. The service manager is not part of this model.
- `transport.setMetrics` is replaced by `Tick` returning the batch it would send. The transport itself is not part of this model.
- The `debug` logger, `console.error` and `console.trace` are left out. The diagnostic that `registerMetric` prints is returned as a value instead.
- The numeric algorithms of the meter, counter, histogram and gauge are left out. They live in other files, which are not part of this model. A source is reduced to `isUsed()` and `val()`, and `Observe` stands for any update made through the handle returned to the caller. Constructor options that only those algorithms read are not modelled either.
- Finite numbers are reals. Double-precision rounding in `val() * 100` and in the division by 100 is not modelled.
- A caller-supplied handler is a function that always returns the same value. Handlers that throw, or that answer differently from one call to the next, are not modelled.
- `this` binding inside handlers is left out. A source-backed handler refers to its source directly, not through `this.implementation`.
- Service.MetricService.RegisterMetric: records are values. When a caller passes its own object, the in-place write of `historic = true` into that object is not modelled; only the stored copy gets it. The same holds for the write of `value` on each tick. The factories' records never reach a caller, so for them nothing is lost.
- The filter's `metric === null || metric === undefined` branch is left out: a registry entry is always a record.
- What happens to the TypeError thrown by `isNaN` after it leaves the interval callback is left out: the process's handling of uncaught exceptions is not part of this model. The model only says that the tick sends nothing and the values stay refreshed.
- Conversions to a number that run caller code (`valueOf` or `toString` on an object, with their side effects) are left out. An object either converts, and is refused by the test, or it throws.
