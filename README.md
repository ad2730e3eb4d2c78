# raddec-filter: a verified model of the raddec acceptance filter

A raddec is a radio-detection record: one observation of a wireless
transmitter by one or more receivers. `RaddecFilter` (lib/raddecfilter.js)
decides whether a raddec is accepted. It is built once from a loosely typed
parameters object. The only criterion it knows is `acceptedEvents`, a list
of event tags such as `"appearance"` or `"displacement"`.

- **Construction.** `parameters || {}` replaces a falsy argument with an
  empty object. The filter then adopts `acceptedEvents` only when it is an
  own property of the parameters and `Array.isArray` holds of it. Anything
  else is ignored without an error.
- **Query.** The `hasAcceptedEvents` getter reports whether the criterion
  was adopted.
- **Decision.** `isPassing(raddec)` passes every raddec when no criterion
  is configured. Otherwise it calls `testAcceptedEvents`. That helper
  rejects a raddec with no own `events` property. It otherwise passes when
  some accepted tag is included in `raddec.events`.

The model is pure, as the source is:

- `wrappers.dfy` holds `Option`, which stands for a property that may be
  absent.
- `raddecfilter.dfy` holds the module `RaddecFilters`, with these parts:
  - the constructor's argument (`Parameters`, `Property`, `FieldValue`);
  - the immutable `RaddecFilter` datatype, with `HasAcceptedEvents` and
    `IsPassing`;
  - the constructor `New` and the helper `TestAcceptedEvents`;
  - `Includes` and `SomeIncluded`, the left-to-right scans done by
    `Array.prototype.includes` and `Array.prototype.some`. Their contracts
    prove that they compute membership and overlap ("some tag is in both
    lists").
- `raddecfilter_properties.dfy` holds the module `RaddecFilterProperties`,
  with lemmas about the constructor and the decision.

`isPassing` has no side effects. In the model this holds by construction:
`RaddecFilter` is an immutable datatype and `IsPassing` is a function of
the filter and the raddec. After any number of decisions, the filter's
`acceptedEvents` and `HasAcceptedEvents()` are what the constructor made
them.

Construction and evaluation can throw on some inputs, listed under
"## Left out". The model covers only the inputs on which the code returns a
filter or a verdict.

## Model

| member | source | states |
|---|---|---|
| `RaddecFilters.New` | lib/raddecfilter.js:18-25 | The criterion is adopted exactly when the argument is an object with an own `acceptedEvents` property that is an array. When adopted, the stored list is the one supplied. No modelled argument raises an error. |
| `RaddecFilters.RaddecFilter.HasAcceptedEvents` | lib/raddecfilter.js:30-32 | True exactly when the filter stores an accepted list. The first `ensures` of `New` ties this to construction. |
| `RaddecFilters.RaddecFilter.IsPassing` | lib/raddecfilter.js:38-44 | A raddec passes exactly when no criterion is configured, or when it has `events` and some tag occurs in both the accepted list and the events. |
| `RaddecFilters.TestAcceptedEvents` | lib/raddecfilter.js:54-62 | The helper is true exactly when the raddec has `events` and the two lists share a tag. It is false for a raddec without `events`. |
| `RaddecFilters.Includes` | lib/raddecfilter.js:59 | The `includes` scan is true exactly when the tag is an element of the list. |
| `RaddecFilters.SomeIncluded` | lib/raddecfilter.js:59 | The `some(event => events.includes(event))` scan is true exactly when some tag is in both lists. |
| `RaddecFilterProperties.VacuousPass` | lib/raddecfilter.js:38-44 | A filter without the criterion passes every raddec, including one with no properties. |
| `RaddecFilterProperties.VacuousPassAfterConstruction` | lib/raddecfilter.js:18-44 | Parameters that do not supply an own array give a filter that passes every raddec. |
| `RaddecFilterProperties.ConstructionShapeCheck` | lib/raddecfilter.js:18-32 | These arguments leave `hasAcceptedEvents` false: a falsy argument, a truthy primitive, a missing property, an inherited property and a non-array own property. An own array is adopted as given. |
| `RaddecFilterProperties.FailClosedWithoutEvents` | lib/raddecfilter.js:54-57 | With the criterion configured, a raddec without `events` is rejected. |
| `RaddecFilterProperties.EmptyAcceptedRejectsAll` | lib/raddecfilter.js:59 | An empty accepted list rejects every raddec. This holds both of the filter built from `{acceptedEvents: []}` and of any filter storing `[]`. |
| `RaddecFilterProperties.MonotoneInEvents` | lib/raddecfilter.js:59 | If a raddec's events include every event of another raddec, a pass for the second implies a pass for the first. An absent `events` counts as no events. |
| `RaddecFilterProperties.MonotoneInAccepted` | lib/raddecfilter.js:59 | Adding tags to the accepted list never turns a pass into a rejection. |
| `RaddecFilterProperties.OrderIndependent` | lib/raddecfilter.js:59 | The verdict depends only on which tags occur in each list, not on their order or repetition. |
| `RaddecFilterProperties.PermutationInvariant` | lib/raddecfilter.js:59 | Permuting the accepted list or the events leaves the verdict unchanged. |
| `RaddecFilterProperties.AppearanceExample` | lib/raddecfilter.js:38-61 | With `{acceptedEvents: ["appearance"]}`, events `["displacement"]` are rejected and events `["appearance", "disappearance"]` pass. |

## Left out

- Raddecs that make the code throw are outside the model. With the criterion configured, an `undefined` or `null` raddec makes `raddec.hasOwnProperty` throw a TypeError. An own `events` property holding `undefined` or `null` makes `includes` throw when the accepted list is not empty. The model's `Raddec` always has either no `events` or a list of strings.
- An `events` value that is a string or another non-array is not modelled. On a string, `includes` would do substring matching.
- The elements of both lists are modelled as strings. Non-string elements, holes in sparse arrays, and the `SameValueZero` comparison of `includes` on other values (NaN, -0) are not modelled.
- Parameters on which the constructor throws are not modelled. `Object.create(null)` has no `hasOwnProperty`, so `new RaddecFilter(Object.create(null))` throws a TypeError at lib/raddecfilter.js:21. The constructor also throws for an object whose own `hasOwnProperty` is not a function, and for an `acceptedEvents` getter that throws. An overridden `hasOwnProperty` that returns some other answer is not modelled either.
- Aliasing is not modelled. The constructor stores the caller's array itself, not a copy, so a caller who later mutates that array changes the filter. The model's stored list is an immutable value.
- Later versions of the library add criteria: transmitter and receiver signatures, id types, and minimum and maximum RSSI. They are not in lib/raddecfilter.js and are not part of this model.
- `module.exports` (lib/raddecfilter.js:65) is packaging only.
