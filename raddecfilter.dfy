/**
  The raddec acceptance filter of lib/raddecfilter.js.

  A filter is built once from a loosely typed parameters object and never
  changes afterwards. Its one criterion, `acceptedEvents`, is a list of event
  tags; a raddec passes when no criterion is configured, or when the raddec
  carries an `events` list sharing at least one tag with the accepted list.
*/
module RaddecFilters {
  import opened Wrappers

  /** What `Array.isArray` tells about the value stored under `acceptedEvents`. */
  datatype FieldValue =
    | ArrayOf(items: seq<string>)  // an array of event tags
    | NotArray                     // any other value, undefined and null included

  /** How the parameters object holds the key `acceptedEvents`. */
  datatype Property =
    | Missing
    | Inherited(inherited: FieldValue)  // reachable only through the prototype chain
    | Own(own: FieldValue)              // an own property, the one `hasOwnProperty` sees

  /** The constructor's argument, as far as the constructor inspects it. */
  datatype Parameters =
    | Falsy            // undefined, null, false, 0, NaN or "": `parameters || {}` gives {}
    | TruthyPrimitive  // true, another number, a non-empty string: no own `acceptedEvents`
    | Object(acceptedEvents: Property)

  /** A raddec as the filter sees it: `events` is `None` when the raddec has no own `events` property. */
  datatype Raddec = Raddec(events: Option<seq<string>>)

  /** Some tag occurs in both lists. */
  predicate Overlap(accepted: seq<string>, events: seq<string>) {
    exists tag :: tag in accepted && tag in events
  }

  /** The constructor's shape test: an own `acceptedEvents` property that is an array. */
  predicate SuppliesAcceptedEvents(parameters: Parameters) {
    parameters.Object? && parameters.acceptedEvents.Own? && parameters.acceptedEvents.own.ArrayOf?
  }

  /** A constructed filter; `acceptedEvents` is `None` unless the constructor adopted it. */
  datatype RaddecFilter = RaddecFilter(acceptedEvents: Option<seq<string>>) {

    /** The `hasAcceptedEvents` getter: was the criterion adopted? */
    predicate HasAcceptedEvents() {
      acceptedEvents.Some?
    }

    /** `isPassing(raddec)`: the only configured criterion, if any, must pass. */
    function IsPassing(raddec: Raddec): (passing: bool)
      ensures passing <==>
        !HasAcceptedEvents() || (raddec.events.Some? && Overlap(acceptedEvents.value, raddec.events.value))
    {
      !(HasAcceptedEvents() && !TestAcceptedEvents(raddec, acceptedEvents.value))
    }
  }

  /** `new RaddecFilter(parameters)`: adopt `acceptedEvents` only when it is an own array. */
  function New(parameters: Parameters): (filter: RaddecFilter)
    ensures filter.HasAcceptedEvents() <==> SuppliesAcceptedEvents(parameters)
    ensures filter.HasAcceptedEvents() ==> filter.acceptedEvents.value == parameters.acceptedEvents.own.items
  {
    var given := if parameters.Falsy? then Object(Missing) else parameters;
    match given
    case Object(Own(ArrayOf(items))) => RaddecFilter(Some(items))
    case _ => RaddecFilter(None)
  }

  /** `list.includes(tag)`: scan the list from the front for an element equal to `tag`. */
  function Includes(list: seq<string>, tag: string): (found: bool)
    ensures found <==> tag in list
  {
    |list| > 0 && (list[0] == tag || Includes(list[1..], tag))
  }

  /** `accepted.some(event => events.includes(event))`: scan `accepted` from the front. */
  function SomeIncluded(accepted: seq<string>, events: seq<string>): (some: bool)
    ensures some <==> Overlap(accepted, events)
  {
    |accepted| > 0 && (Includes(events, accepted[0]) || SomeIncluded(accepted[1..], events))
  }

  /** The helper `testAcceptedEvents`: fail closed without `events`, else look for a shared tag. */
  function TestAcceptedEvents(raddec: Raddec, acceptedEvents: seq<string>): (accepted: bool)
    ensures accepted <==> raddec.events.Some? && Overlap(acceptedEvents, raddec.events.value)
  {
    match raddec.events
    case None => false
    case Some(events) => SomeIncluded(acceptedEvents, events)
  }
}
