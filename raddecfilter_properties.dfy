/** Properties of the raddec acceptance filter, stated over the constructor and `IsPassing`. */
module RaddecFilterProperties {
  import opened Wrappers
  import opened RaddecFilters

  /** Every tag of `small` also occurs in `large`. */
  predicate Subsumes(large: seq<string>, small: seq<string>) {
    forall tag :: tag in small ==> tag in large
  }

  /** The two lists hold the same tags, in whatever order and multiplicity. */
  predicate SameTags(a: seq<string>, b: seq<string>) {
    Subsumes(a, b) && Subsumes(b, a)
  }

  /** The events of `more` include every event of `fewer`; an absent list has no events. */
  predicate MoreEvents(more: Raddec, fewer: Raddec) {
    fewer.events.None? || (more.events.Some? && Subsumes(more.events.value, fewer.events.value))
  }

  /** Without the criterion every raddec passes, even one with no properties at all. */
  lemma VacuousPass(filter: RaddecFilter, raddec: Raddec)
    requires !filter.HasAcceptedEvents()
    ensures filter.IsPassing(raddec) && filter.IsPassing(Raddec(None))
  {
  }

  /** Every parameters value that does not supply an own array yields a filter that lets everything pass. */
  lemma VacuousPassAfterConstruction(parameters: Parameters, raddec: Raddec)
    requires !SuppliesAcceptedEvents(parameters)
    ensures New(parameters).IsPassing(raddec)
  {
  }

  /** The shape test, case by case: only an own array property is adopted, and then as given. */
  lemma ConstructionShapeCheck(parameters: Parameters)
    ensures parameters.Falsy? ==> !New(parameters).HasAcceptedEvents()
    ensures parameters.TruthyPrimitive? ==> !New(parameters).HasAcceptedEvents()
    ensures parameters == Object(Missing) ==> !New(parameters).HasAcceptedEvents()
    ensures parameters.Object? && parameters.acceptedEvents.Inherited? ==> !New(parameters).HasAcceptedEvents()
    ensures parameters == Object(Own(NotArray)) ==> !New(parameters).HasAcceptedEvents()
    ensures parameters.Object? && parameters.acceptedEvents.Own? && parameters.acceptedEvents.own.ArrayOf? ==>
      New(parameters).acceptedEvents == Some(parameters.acceptedEvents.own.items)
  {
  }

  /** With the criterion configured, a raddec without `events` is rejected. */
  lemma FailClosedWithoutEvents(filter: RaddecFilter)
    requires filter.HasAcceptedEvents()
    ensures !filter.IsPassing(Raddec(None))
  {
  }

  /** An empty accepted list rejects every raddec. */
  lemma EmptyAcceptedRejectsAll(raddec: Raddec)
    ensures !New(Object(Own(ArrayOf([])))).IsPassing(raddec)
    ensures !RaddecFilter(Some([])).IsPassing(raddec)
  {
  }

  /** Adding tags to a raddec's events never turns a pass into a rejection. */
  lemma MonotoneInEvents(filter: RaddecFilter, fewer: Raddec, more: Raddec)
    requires MoreEvents(more, fewer)
    ensures filter.IsPassing(fewer) ==> filter.IsPassing(more)
  {
  }

  /** Adding entries to the accepted list never turns a pass into a rejection. */
  lemma MonotoneInAccepted(fewer: seq<string>, more: seq<string>, raddec: Raddec)
    requires Subsumes(more, fewer)
    ensures RaddecFilter(Some(fewer)).IsPassing(raddec) ==> RaddecFilter(Some(more)).IsPassing(raddec)
  {
  }

  /** Only which tags occur matters: reordering or repeating entries of either list keeps the verdict. */
  lemma OrderIndependent(accepted: seq<string>, accepted': seq<string>, events: seq<string>, events': seq<string>)
    requires SameTags(accepted, accepted') && SameTags(events, events')
    ensures RaddecFilter(Some(accepted)).IsPassing(Raddec(Some(events)))
        == RaddecFilter(Some(accepted')).IsPassing(Raddec(Some(events')))
  {
  }

  /** In particular, permuting either list keeps the verdict. */
  lemma PermutationInvariant(accepted: seq<string>, accepted': seq<string>, events: seq<string>, events': seq<string>)
    requires multiset(accepted) == multiset(accepted') && multiset(events) == multiset(events')
    ensures RaddecFilter(Some(accepted)).IsPassing(Raddec(Some(events)))
        == RaddecFilter(Some(accepted')).IsPassing(Raddec(Some(events')))
  {
    forall tag ensures (tag in accepted <==> tag in accepted') && (tag in events <==> tag in events') {
      assert tag in accepted <==> tag in multiset(accepted);
      assert tag in events <==> tag in multiset(events);
    }
    OrderIndependent(accepted, accepted', events, events');
  }

  /** A filter that accepts only appearances rejects a displacement and passes an appearance. */
  lemma AppearanceExample()
    ensures !New(Object(Own(ArrayOf(["appearance"])))).IsPassing(Raddec(Some(["displacement"])))
    ensures New(Object(Own(ArrayOf(["appearance"])))).IsPassing(Raddec(Some(["appearance", "disappearance"])))
  {
    assert "appearance" in ["appearance", "disappearance"];
  }
}
