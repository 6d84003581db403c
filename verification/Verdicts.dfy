/** From the reconcilers to the answer: what a validation request is told after any run. */
module Verdicts {
  import opened Admission
  import opened Policies
  import opened PolicyStore
  import opened Reconcilers
  import opened RunMeaning
  import opened WebhookRules

  ghost predicate ValidationRun(states: seq<Collections>, events: seq<Event>) {
    Run(states, events, false) && forall i :: 0 <= i < |events| ==> events[i].manifest.Validation?
  }

  /** Some live policy intercepts the tuple of the request, is violated and is enforced. */
  ghost predicate LiveDenies(live: Manifests, request: Rule, evaluate: Evaluation, lower: string -> string) {
    exists n :: n in live && Intercepts(live[n], request) && Denies(live[n], evaluate, lower)
  }

  lemma LiveValidations(states: seq<Collections>, events: seq<Event>, request: Rule)
    requires ValidationRun(states, events) && Literal(request)
    ensures Validations(At(states[|events|], KeyOf(request)))
    ensures Finds(At(states[|events|], KeyOf(request)), states[|events|], Live(events), request)
  {
    LookupAfterRun(states, events, false, request);
    var found := At(states[|events|], KeyOf(request));
    forall i | 0 <= i < |found| ensures found[i].Validation? {
      assert found[i] in found;
      var j := LiveWasReconciled(events, found[i].name);
    }
  }

  /** After every finite run, whatever the order of the collection: a literal request that can be read is denied if
      and only if some live policy that intercepts its tuple is violated and enforced. */
  lemma DeniedAfterRun<Doc>(states: seq<Collections>, events: seq<Event>, request: Rule, review: Review<Doc>,
                            evaluate: Evaluation, lower: string -> string)
    requires ValidationRun(states, events) && Literal(request)
    requires review.operation == request.operation && Populates(review)
    ensures Validations(At(states[|events|], KeyOf(request)))
    ensures !Verdict(review, At(states[|events|], KeyOf(request)), evaluate, lower).allowed <==>
            LiveDenies(Live(events), request, evaluate, lower)
  {
    var found := At(states[|events|], KeyOf(request));
    LiveValidations(states, events, request);
    DeniedExactly(review, found, evaluate, lower);
    LiveNamed(events);
    FoundDenies(found, states[|events|], Live(events), request, evaluate, lower);
  }

  ghost predicate SomeRefuses(events: seq<Event>, request: Rule, evaluate: Evaluation, lower: string -> string) {
    exists p :: Stands(events, p) && ListsTuple(p, request) && Refuses(p, evaluate, lower)
  }

  /** The same on the fields of the manifests: some manifest that was put in, with no later event about its name, lists
      the tuple, has a condition that does not evaluate to its value, and is to be enforced. */
  lemma DeniedByManifests<Doc>(states: seq<Collections>, events: seq<Event>, request: Rule, review: Review<Doc>,
                               evaluate: Evaluation, lower: string -> string)
    requires ValidationRun(states, events) && Literal(request)
    requires review.operation == request.operation && Readable(review)
    ensures Validations(At(states[|events|], KeyOf(request)))
    ensures !Verdict(review, At(states[|events|], KeyOf(request)), evaluate, lower).allowed <==>
            SomeRefuses(events, request, evaluate, lower)
  {
    ReadableExactly(review);
    DeniedAfterRun(states, events, request, review, evaluate, lower);
    LiveNamed(events);
    var live := Live(events);
    if LiveDenies(live, request, evaluate, lower) {
      var n :| n in live && Intercepts(live[n], request) && Denies(live[n], evaluate, lower);
      LiveExactly(events, live[n]);
      ListsTupleExactly(live[n], request);
      RefusesExactly(live[n], evaluate, lower);
    }
    if p :| Stands(events, p) && ListsTuple(p, request) && Refuses(p, evaluate, lower) {
      LiveExactly(events, p);
      ListsTupleExactly(p, request);
      RefusesExactly(p, evaluate, lower);
    }
  }

  lemma FoundDenies(found: seq<Policy>, c: Collections, live: Manifests, request: Rule, evaluate: Evaluation, lower: string -> string)
    requires Finds(found, c, live, request) && Named(live)
    ensures SomeDenies(found, evaluate, lower) <==> LiveDenies(live, request, evaluate, lower)
  {
    if SomeDenies(found, evaluate, lower) {
      var p :| p in found && Denies(p, evaluate, lower);
      assert p.name in live && live[p.name] == p;
    }
    if LiveDenies(live, request, evaluate, lower) {
      var n :| n in live && Intercepts(live[n], request) && Denies(live[n], evaluate, lower);
      assert live[n] in found;
    }
  }
}
