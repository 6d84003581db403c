/** The two admission handlers, from the decoded review to the response. Template evaluation, patch engines,
    JSON diff and case folding are parameters. */
module Admission {
  import opened Options
  import opened Policies

  /** Template evaluation in the context of a policy and its sources; None is an evaluation error. */
  type Evaluation = (Policy, Template) -> Option<string>

  // ---- conditions ----

  predicate ConditionHolds(p: Policy, c: Condition, evaluate: Evaluation) {
    evaluate(p, Template(c.engine, c.key)) == Some(c.value)
  }

  predicate Passes(p: Policy, evaluate: Evaluation) {
    forall i :: 0 <= i < |p.conditions| ==> ConditionHolds(p, p.conditions[i], evaluate)
  }

  /** IsPassingConditions: stops at the first condition that fails to evaluate or differs. */
  method IsPassingConditions(p: Policy, evaluate: Evaluation) returns (result: bool)
    ensures result <==> Passes(p, evaluate)
  {
    for i := 0 to |p.conditions|
      invariant forall j :: 0 <= j < i ==> ConditionHolds(p, p.conditions[j], evaluate)
    {
      var condition := p.conditions[i];
      var parsedKey := evaluate(p, Template(condition.engine, condition.key));
      if parsedKey.None? || parsedKey.value != condition.value {
        return false;
      }
    }
    result := true;
  }

  /** Every condition evaluates to its value. */
  ghost predicate Meets(p: Policy, evaluate: Evaluation) {
    forall c :: c in p.conditions ==> evaluate(p, Template(c.engine, c.key)) == Some(c.value)
  }

  lemma MeetsExactly(p: Policy, evaluate: Evaluation)
    ensures Meets(p, evaluate) <==> Passes(p, evaluate)
  {
    if Passes(p, evaluate) {
      forall c | c in p.conditions ensures evaluate(p, Template(c.engine, c.key)) == Some(c.value) {
        var i :| 0 <= i < |p.conditions| && p.conditions[i] == c;
        assert ConditionHolds(p, p.conditions[i], evaluate);
      }
    } else {
      var i :| 0 <= i < |p.conditions| && !ConditionHolds(p, p.conditions[i], evaluate);
      assert p.conditions[i] in p.conditions;
    }
  }

  // ---- the review ----

  /** The decoded parts of a request: an undecodable or absent document is None. */
  datatype Review<Doc> = Review(operation: string, oldDocument: Option<Doc>, document: Option<Doc>)

  function NormalizedOperation(operation: string): string {
    if operation == "ADDED" then "CREATE"
    else if operation == "MODIFIED" then "UPDATE"
    else if operation == "DELETED" then "DELETE"
    else operation
  }

  /** The names of watch events stand for the operations; every other name stands for itself. */
  lemma NormalizedExactly(operation: string)
    ensures var normalized := NormalizedOperation(operation);
            && (normalized == "CREATE" <==> operation == "CREATE" || operation == "ADDED")
            && (normalized == "UPDATE" <==> operation == "UPDATE" || operation == "MODIFIED")
            && (normalized == "DELETE" <==> operation == "DELETE" || operation == "DELETED")
            && (normalized !in ["CREATE", "UPDATE", "DELETE"] ==> normalized == operation)
  {
  }

  /** populatePolicyDataFromAdmission succeeds: the old object is only read on updates, the object always. */
  predicate Populates<Doc>(r: Review<Doc>) {
    (NormalizedOperation(r.operation) == "UPDATE" ==> r.oldDocument.Some?) && r.document.Some?
  }

  /** There is an object, and on an update an old one too. */
  ghost predicate Readable<Doc>(r: Review<Doc>) {
    r.document.Some? && (r.operation == "UPDATE" || r.operation == "MODIFIED" ==> r.oldDocument.Some?)
  }

  lemma ReadableExactly<Doc>(r: Review<Doc>)
    ensures Readable(r) <==> Populates(r)
  {
  }

  // ---- validation ----

  const PERMISSIVE := "permissive"
  const ENFORCE := "enforce"
  const NO_REASON := "Reason unavailable: message template failed. More info in controller logs."

  datatype KubeEvent = KubeEvent(policy: string, action: string, message: string)

  datatype ValidationResponse = ValidationResponse(allowed: bool, message: Option<string>)

  function MessageOf(p: Policy, evaluate: Evaluation): string
    requires p.Validation?
  {
    var parsed := evaluate(p, p.message);
    if parsed.Some? then parsed.value else NO_REASON
  }

  /** The policy is violated and enforced. */
  predicate Denies(p: Policy, evaluate: Evaluation, lower: string -> string) {
    p.Validation? && !Passes(p, evaluate) && lower(p.failureAction) == ENFORCE
  }

  function EventOf(p: Policy, evaluate: Evaluation, lower: string -> string): KubeEvent
    requires p.Validation?
  {
    KubeEvent(p.name, if lower(p.failureAction) == PERMISSIVE then "AllowedWithViolations" else "Rejected", MessageOf(p, evaluate))
  }

  predicate Validations(policies: seq<Policy>) {
    forall i :: 0 <= i < |policies| ==> policies[i].Validation?
  }

  /** One event for every violated policy, in order. */
  function EventsOf(policies: seq<Policy>, evaluate: Evaluation, lower: string -> string): seq<KubeEvent>
    requires Validations(policies)
  {
    if policies == [] then [] else
    var n := |policies| - 1;
    EventsOf(policies[..n], evaluate, lower) + (if Passes(policies[n], evaluate) then [] else [EventOf(policies[n], evaluate, lower)])
  }

  /** The first violated policy that is enforced, or the number of policies. */
  function FirstDenier(policies: seq<Policy>, evaluate: Evaluation, lower: string -> string): (d: nat)
    ensures d <= |policies|
    ensures d < |policies| ==> Denies(policies[d], evaluate, lower)
    ensures forall i :: 0 <= i < d ==> !Denies(policies[i], evaluate, lower)
  {
    if policies == [] || Denies(policies[0], evaluate, lower) then 0
    else
      var d := FirstDenier(policies[1..], evaluate, lower) + 1;
      assert forall i :: 1 <= i < |policies| ==> policies[i] == policies[1..][i - 1];
      d
  }

  /** The policies the loop looks at: all, or those up to and including the first denier. */
  function Considered(policies: seq<Policy>, evaluate: Evaluation, lower: string -> string): seq<Policy> {
    var d := FirstDenier(policies, evaluate, lower);
    if d < |policies| then policies[..d + 1] else policies
  }

  predicate NoneDenies(policies: seq<Policy>, n: nat, evaluate: Evaluation, lower: string -> string)
    requires n <= |policies|
  {
    forall i :: 0 <= i < n ==> !Denies(policies[i], evaluate, lower)
  }

  lemma FirstDenierIs(policies: seq<Policy>, evaluate: Evaluation, lower: string -> string, d: nat)
    requires d <= |policies| && NoneDenies(policies, d, evaluate, lower)
    requires d < |policies| ==> Denies(policies[d], evaluate, lower)
    ensures FirstDenier(policies, evaluate, lower) == d
  {
  }

  lemma EventsOneMore(policies: seq<Policy>, n: nat, evaluate: Evaluation, lower: string -> string)
    requires Validations(policies) && n < |policies|
    ensures EventsOf(policies[..n + 1], evaluate, lower)
         == EventsOf(policies[..n], evaluate, lower)
            + (if Passes(policies[n], evaluate) then [] else [EventOf(policies[n], evaluate, lower)])
  {
    assert policies[..n + 1][..n] == policies[..n];
  }

  /** A review that cannot be read is denied without a message; otherwise the first violated policy that is enforced
      denies it with its message, and without one it is allowed. */
  function Verdict<Doc>(review: Review<Doc>, policies: seq<Policy>, evaluate: Evaluation, lower: string -> string): ValidationResponse
    requires Validations(policies)
  {
    var d := FirstDenier(policies, evaluate, lower);
    if !Populates(review) then ValidationResponse(false, None)
    else if d < |policies| then ValidationResponse(false, Some(MessageOf(policies[d], evaluate)))
    else ValidationResponse(true, None)
  }

  // ---- the answer on the fields of the policies ----

  ghost predicate Refuses(p: Policy, evaluate: Evaluation, lower: string -> string) {
    p.Validation? && !Meets(p, evaluate) && lower(p.failureAction) == "enforce"
  }

  ghost predicate FirstRefuses(policies: seq<Policy>, i: nat, evaluate: Evaluation, lower: string -> string) {
    i < |policies| && Refuses(policies[i], evaluate, lower) && forall j :: 0 <= j < i ==> !Refuses(policies[j], evaluate, lower)
  }

  /** The message is what the template evaluates to, or the notice that it does not. */
  ghost predicate Tells(p: Policy, evaluate: Evaluation, message: string)
    requires p.Validation?
  {
    match evaluate(p, p.message)
    case Some(text) => message == text
    case None => message == "Reason unavailable: message template failed. More info in controller logs."
  }

  /** What is answered: nothing but a denial to a review that cannot be read, else the first policy that refuses, else
      that it is allowed. */
  ghost predicate AnswerIs<Doc>(review: Review<Doc>, policies: seq<Policy>, evaluate: Evaluation, lower: string -> string,
                                response: ValidationResponse)
    requires Validations(policies)
  {
    && (!Readable(review) ==> response == ValidationResponse(false, None))
    && (forall i: nat :: Readable(review) && FirstRefuses(policies, i, evaluate, lower) ==>
          !response.allowed && response.message.Some? && Tells(policies[i], evaluate, response.message.value))
    && (Readable(review) && (forall i: nat :: !FirstRefuses(policies, i, evaluate, lower)) ==> response == ValidationResponse(true, None))
  }

  lemma RefusesExactly(p: Policy, evaluate: Evaluation, lower: string -> string)
    ensures Refuses(p, evaluate, lower) <==> Denies(p, evaluate, lower)
  {
    MeetsExactly(p, evaluate);
  }

  lemma FirstRefusesExactly(policies: seq<Policy>, evaluate: Evaluation, lower: string -> string, i: nat)
    ensures FirstRefuses(policies, i, evaluate, lower) <==> i == FirstDenier(policies, evaluate, lower) < |policies|
  {
    forall j | 0 <= j < |policies| ensures Refuses(policies[j], evaluate, lower) <==> Denies(policies[j], evaluate, lower) {
      RefusesExactly(policies[j], evaluate, lower);
    }
    if FirstRefuses(policies, i, evaluate, lower) {
      FirstDenierIs(policies, evaluate, lower, i);
    }
  }

  lemma VerdictIsAnswer<Doc>(review: Review<Doc>, policies: seq<Policy>, evaluate: Evaluation, lower: string -> string)
    requires Validations(policies)
    ensures AnswerIs(review, policies, evaluate, lower, Verdict(review, policies, evaluate, lower))
  {
    ReadableExactly(review);
    var d := FirstDenier(policies, evaluate, lower);
    FirstRefusesExactly(policies, evaluate, lower, d);
    forall i: nat ensures FirstRefuses(policies, i, evaluate, lower) ==> i == d {
      FirstRefusesExactly(policies, evaluate, lower, i);
    }
  }

  ghost predicate SomeDenies(policies: seq<Policy>, evaluate: Evaluation, lower: string -> string) {
    exists p :: p in policies && Denies(p, evaluate, lower)
  }

  /** The order of the policies only shows in the message. */
  lemma DeniedExactly<Doc>(review: Review<Doc>, policies: seq<Policy>, evaluate: Evaluation, lower: string -> string)
    requires Validations(policies)
    ensures Verdict(review, policies, evaluate, lower).allowed <==> Populates(review) && !SomeDenies(policies, evaluate, lower)
  {
    var d := FirstDenier(policies, evaluate, lower);
    if d < |policies| {
      assert policies[d] in policies;
    }
  }

  /** The reviews of deletions carry no object, so every one of them is denied, even without any policy. */
  lemma DeletionDenied<Doc>(oldDocument: Option<Doc>, policies: seq<Policy>, evaluate: Evaluation, lower: string -> string)
    requires Validations(policies)
    ensures Verdict(Review("DELETE", oldDocument, None), policies, evaluate, lower) == ValidationResponse(false, None)
  {
  }

  /** handleValidationRequest: the verdict, and events for exactly the violated policies up to and including the first
      that denies. */
  method HandleValidationRequest<Doc>(review: Review<Doc>, policies: seq<Policy>, evaluate: Evaluation, lower: string -> string)
    returns (response: ValidationResponse, events: seq<KubeEvent>)
    requires Validations(policies)
    ensures response == Verdict(review, policies, evaluate, lower)
    ensures AnswerIs(review, policies, evaluate, lower, response)
    ensures events == if Populates(review) then EventsOf(Considered(policies, evaluate, lower), evaluate, lower) else []
  {
    VerdictIsAnswer(review, policies, evaluate, lower);
    response, events := ValidationResponse(false, None), [];
    if !Populates(review) {
      return;
    }
    for i := 0 to |policies|
      invariant NoneDenies(policies, i, evaluate, lower)
      invariant events == EventsOf(policies[..i], evaluate, lower)
    {
      response := response.(allowed := false);
      EventsOneMore(policies, i, evaluate, lower);
      var conditionsPassed := IsPassingConditions(policies[i], evaluate);
      if conditionsPassed {
        continue;
      }
      var event;
      response, event := Violated(policies[i], evaluate, lower);
      events := events + [event];
      if lower(policies[i].failureAction) == ENFORCE {
        FirstDenierIs(policies, evaluate, lower, i);
        return;
      }
    }
    FirstDenierIs(policies, evaluate, lower, |policies|);
    assert policies[..|policies|] == policies;
    response := ValidationResponse(true, None);
  }

  /** The rest of the loop body, for a policy whose conditions are not met. */
  method Violated(p: Policy, evaluate: Evaluation, lower: string -> string) returns (response: ValidationResponse, event: KubeEvent)
    requires p.Validation?
    ensures response == ValidationResponse(lower(p.failureAction) == PERMISSIVE, Some(MessageOf(p, evaluate)))
    ensures event == EventOf(p, evaluate, lower)
  {
    var parsed := evaluate(p, p.message);
    var parsedMessage := if parsed.Some? then parsed.value else NO_REASON;
    response := ValidationResponse(false, Some(parsedMessage));
    var action;
    if lower(p.failureAction) == PERMISSIVE {
      response := response.(allowed := true);
      action := "AllowedWithViolations";
    } else {
      action := "Rejected";
    }
    event := KubeEvent(p.name, action, parsedMessage);
  }

  /** The positions, in ascending order, of the first n policies that do not pass. */
  ghost predicate Positions(at: seq<nat>, passing: seq<bool>, n: nat)
    requires n <= |passing|
  {
    && (forall i, j :: 0 <= i < j < |at| ==> at[i] < at[j])
    && (forall k :: k in at <==> 0 <= k < n && !passing[k])
  }

  ghost predicate EventsAt(events: seq<KubeEvent>, policies: seq<Policy>, at: seq<nat>, evaluate: Evaluation, lower: string -> string)
    requires Validations(policies)
  {
    && |at| == |events|
    && (forall i :: 0 <= i < |at| ==> at[i] < |policies| && events[i] == EventOf(policies[at[i]], evaluate, lower))
  }

  lemma PositionsMore(at: seq<nat>, passing: seq<bool>, n: nat)
    requires n < |passing| && Positions(at, passing, n)
    ensures Positions(if passing[n] then at else at + [n], passing, n + 1)
  {
    if !passing[n] {
      var more := at + [n];
      forall i, j | 0 <= i < j < |more| ensures more[i] < more[j] {
        assert more[i] == at[i] && at[i] in at;
      }
    }
  }

  lemma EventsAtMore(events: seq<KubeEvent>, policies: seq<Policy>, at: seq<nat>, n: nat, evaluate: Evaluation, lower: string -> string)
    requires Validations(policies) && n < |policies| && EventsAt(events, policies, at, evaluate, lower)
    ensures EventsAt(events + [EventOf(policies[n], evaluate, lower)], policies, at + [n], evaluate, lower)
  {
  }

  /** The event list is the violated policies, in order. */
  lemma EventsAreTheViolated(policies: seq<Policy>, evaluate: Evaluation, lower: string -> string)
    returns (at: seq<nat>)
    requires Validations(policies)
    ensures |at| == |EventsOf(policies, evaluate, lower)|
    ensures forall i, j :: 0 <= i < j < |at| ==> at[i] < at[j]
    ensures forall i :: 0 <= i < |at| ==>
              at[i] < |policies| && EventsOf(policies, evaluate, lower)[i] == EventOf(policies[at[i]], evaluate, lower)
    ensures forall k :: k in at <==> 0 <= k < |policies| && !Passes(policies[k], evaluate)
  {
    assert policies[..|policies|] == policies;
    var passing := seq(|policies|, i requires 0 <= i < |policies| => Passes(policies[i], evaluate));
    at := EventsSoFar(policies, passing, |policies|, evaluate, lower);
  }

  lemma {:induction false} EventsSoFar(policies: seq<Policy>, passing: seq<bool>, n: nat, evaluate: Evaluation, lower: string -> string)
    returns (at: seq<nat>)
    requires Validations(policies) && n <= |policies| == |passing|
    requires forall k :: 0 <= k < |passing| ==> passing[k] == Passes(policies[k], evaluate)
    ensures Positions(at, passing, n) && EventsAt(EventsOf(policies[..n], evaluate, lower), policies, at, evaluate, lower)
  {
    if n == 0 {
      at := [];
    } else {
      at := EventsSoFar(policies, passing, n - 1, evaluate, lower);
      EventsOneMore(policies, n - 1, evaluate, lower);
      PositionsMore(at, passing, n - 1);
      if passing[n - 1] {
        assert EventsOf(policies[..n], evaluate, lower) == EventsOf(policies[..n - 1], evaluate, lower);
      } else {
        EventsAtMore(EventsOf(policies[..n - 1], evaluate, lower), policies, at, n - 1, evaluate, lower);
        at := at + [n - 1];
      }
    }
  }

  /** The event of a violated policy. */
  ghost predicate Reports(event: KubeEvent, p: Policy, evaluate: Evaluation, lower: string -> string) {
    && p.Validation? && event.policy == p.name && Tells(p, evaluate, event.message)
    && event.action == (if lower(p.failureAction) == "permissive" then "AllowedWithViolations" else "Rejected")
  }

  /** The events report exactly the policies at these positions. */
  ghost predicate ReportsAt(events: seq<KubeEvent>, policies: seq<Policy>, at: seq<nat>, evaluate: Evaluation, lower: string -> string) {
    |at| == |events| && forall i :: 0 <= i < |at| ==> at[i] < |policies| && Reports(events[i], policies[at[i]], evaluate, lower)
  }

  /** No policy in front of k refuses. */
  ghost predicate Reached(policies: seq<Policy>, k: nat, evaluate: Evaluation, lower: string -> string) {
    k < |policies| && forall i :: 0 <= i < k ==> !Refuses(policies[i], evaluate, lower)
  }

  lemma ReachedExactly(policies: seq<Policy>, k: nat, evaluate: Evaluation, lower: string -> string)
    ensures Reached(policies, k, evaluate, lower) <==> k < |Considered(policies, evaluate, lower)|
  {
    forall i | 0 <= i < |policies| ensures Refuses(policies[i], evaluate, lower) <==> Denies(policies[i], evaluate, lower) {
      RefusesExactly(policies[i], evaluate, lower);
    }
  }

  lemma EventReports(p: Policy, evaluate: Evaluation, lower: string -> string)
    requires p.Validation?
    ensures Reports(EventOf(p, evaluate, lower), p, evaluate, lower)
  {
  }

  /** The events of a review that can be read: in order, one for each policy whose conditions are not met, up to and with
      the first that refuses. */
  lemma EventsExactly(policies: seq<Policy>, evaluate: Evaluation, lower: string -> string) returns (at: seq<nat>)
    requires Validations(policies)
    ensures Validations(Considered(policies, evaluate, lower))
    ensures ReportsAt(EventsOf(Considered(policies, evaluate, lower), evaluate, lower), policies, at, evaluate, lower)
    ensures forall i, j :: 0 <= i < j < |at| ==> at[i] < at[j]
    ensures forall k: nat :: k in at <==> Reached(policies, k, evaluate, lower) && !Meets(policies[k], evaluate)
  {
    var considered := Considered(policies, evaluate, lower);
    assert considered <= policies;
    at := EventsAreTheViolated(considered, evaluate, lower);
    forall i | 0 <= i < |at|
      ensures at[i] < |policies| && Reports(EventsOf(considered, evaluate, lower)[i], policies[at[i]], evaluate, lower)
    {
      EventReports(considered[at[i]], evaluate, lower);
    }
    forall k: nat ensures k in at <==> Reached(policies, k, evaluate, lower) && !Meets(policies[k], evaluate) {
      ReachedExactly(policies, k, evaluate, lower);
      if k < |considered| {
        MeetsExactly(considered[k], evaluate);
      }
    }
  }

  // ---- mutation ----

  /** A patch document generator with its result and the operations leading there; None is an error. */
  datatype Change<Doc, Op> = Change(operations: seq<Op>, patched: Doc)

  /** The libraries: the three patch engines, the diff between two documents, and the application of one
      operation of a JSON Patch. */
  datatype Engines<!Doc, !Op> = Engines(
    jsonMerge: (Doc, string) -> Option<Doc>,
    strategicMerge: (Doc, string) -> Option<Doc>,
    jsonPatch: (Doc, string) -> Option<Doc>,
    diff: (Doc, Doc) -> Option<seq<Op>>,
    applyOne: (Op, Doc) -> Option<Doc>)

  /** Operations are applied one after the other (section 3 of RFC 6902). */
  ghost function ApplyAll<Doc, Op>(e: Engines<Doc, Op>, operations: seq<Op>, doc: Doc): Option<Doc> {
    if operations == [] then Some(doc) else
    var next := e.applyOne(operations[0], doc);
    if next.None? then None else ApplyAll(e, operations[1..], next.value)
  }

  /** What the diff library promises: applying a diff to the first document gives the second. */
  ghost predicate DiffLeads<Doc(!new), Op>(e: Engines<Doc, Op>) {
    forall a, b :: e.diff(a, b).Some? ==> ApplyAll(e, e.diff(a, b).value, a) == Some(b)
  }

  /** generateJsonPatchOperations: any unknown type is a JSON Patch. */
  function Generated<Doc, Op>(e: Engines<Doc, Op>, doc: Doc, patchType: string, patch: string): Option<Change<Doc, Op>> {
    var patched :=
      if patchType == "jsonmerge" then e.jsonMerge(doc, patch)
      else if patchType == "strategicmerge" then e.strategicMerge(doc, patch)
      else e.jsonPatch(doc, patch);
    if patched.None? then None else
    var operations := e.diff(doc, patched.value);
    if operations.None? then None else Some(Change(operations.value, patched.value))
  }

  /** What a policy does to the current document: nothing when its conditions, template, patch or diff fail. */
  function Contribution<Doc, Op>(e: Engines<Doc, Op>, p: Policy, doc: Doc, evaluate: Evaluation, lower: string -> string)
    : Option<Change<Doc, Op>>
    requires p.Mutation?
  {
    if !Passes(p, evaluate) then None else
    var parsed := evaluate(p, p.patch);
    if parsed.None? then None else Generated(e, doc, lower(p.patchType), parsed.value)
  }

  predicate Mutations(policies: seq<Policy>) {
    forall i :: 0 <= i < |policies| ==> policies[i].Mutation?
  }

  /** The document and the operations after the policies so far. */
  function Mutated<Doc, Op>(e: Engines<Doc, Op>, policies: seq<Policy>, doc: Doc, evaluate: Evaluation, lower: string -> string)
    : Change<Doc, Op>
    requires Mutations(policies)
  {
    if policies == [] then Change([], doc) else
    var n := |policies| - 1;
    var before := Mutated(e, policies[..n], doc, evaluate, lower);
    var more := Contribution(e, policies[n], before.patched, evaluate, lower);
    if more.None? then before else Change(before.operations + more.value.operations, more.value.patched)
  }

  /** The policies whose conditions hold but which contribute nothing are reported. */
  function Aborted<Doc, Op>(e: Engines<Doc, Op>, policies: seq<Policy>, doc: Doc, evaluate: Evaluation, lower: string -> string)
    : seq<string>
    requires Mutations(policies)
  {
    if policies == [] then [] else
    var n := |policies| - 1;
    var before := Mutated(e, policies[..n], doc, evaluate, lower);
    Aborted(e, policies[..n], doc, evaluate, lower)
    + (if Passes(policies[n], evaluate) && Contribution(e, policies[n], before.patched, evaluate, lower).None?
       then [policies[n].name] else [])
  }

  /** handleMutationRequest: the operations of the response, None when the review cannot be read; the request is
      allowed in any case. */
  method HandleMutationRequest<Doc, Op>(review: Review<Doc>, policies: seq<Policy>, e: Engines<Doc, Op>,
                                        evaluate: Evaluation, lower: string -> string)
    returns (response: Option<seq<Op>>, aborted: seq<string>)
    requires Mutations(policies)
    ensures response.Some? <==> Populates(review)
    ensures Populates(review) ==>
              && response.value == Mutated(e, policies, review.document.value, evaluate, lower).operations
              && aborted == Aborted(e, policies, review.document.value, evaluate, lower)
    ensures Populates(review) ==> exists t ::
              && Records(t, e, policies, review.document.value, evaluate, lower)
              && response.value == Concatenated(t.steps) && aborted == Reported(policies, t.reported)
  {
    aborted := [];
    if !Populates(review) {
      return None, aborted;
    }
    var request := review.document.value;
    var operations: seq<Op>, patched := [], request;
    for i := 0 to |policies|
      invariant Change(operations, patched) == Mutated(e, policies[..i], request, evaluate, lower)
      invariant aborted == Aborted(e, policies[..i], request, evaluate, lower)
    {
      var policy := policies[i];
      assert policies[..i + 1][..i] == policies[..i];
      var conditionsPassed := IsPassingConditions(policy, evaluate);
      if !conditionsPassed {
        continue;
      }
      var parsedPatch := evaluate(policy, policy.patch);
      if parsedPatch.Some? {
        var change := Generated(e, patched, lower(policy.patchType), parsedPatch.value);
        if change.Some? {
          patched := change.value.patched;
          operations := operations + change.value.operations;
          continue;
        }
      }
      aborted := aborted + [policy.name];
    }
    assert policies[..|policies|] == policies;
    ghost var t := MutatedExactly(e, policies, request, evaluate, lower);
    response := Some(operations);
  }

  // ---- each policy, on the fields of the engines ----

  /** A patched document and a diff to it are taken over; else nothing is, and the policy is reported. */
  ghost predicate TakesOver<Doc, Op>(e: Engines<Doc, Op>, doc: Doc, patched: Option<Doc>,
                                     operations: seq<Op>, next: Doc, reported: bool) {
    if patched.Some? && e.diff(doc, patched.value).Some?
    then operations == e.diff(doc, patched.value).value && next == patched.value && !reported
    else operations == [] && next == doc && reported
  }

  /** What one policy does to the current document: without its conditions nothing; without its template it is reported;
      else it is patched by the engine that its type names, every unknown type being a JSON Patch. */
  ghost predicate Round<Doc, Op>(e: Engines<Doc, Op>, p: Policy, doc: Doc, evaluate: Evaluation, lower: string -> string,
                                 operations: seq<Op>, next: Doc, reported: bool)
    requires p.Mutation?
  {
    if !Meets(p, evaluate) then operations == [] && next == doc && !reported
    else
      match evaluate(p, p.patch)
      case None => operations == [] && next == doc && reported
      case Some(text) =>
        var patchType := lower(p.patchType);
        && (patchType == "strategicmerge" ==> TakesOver(e, doc, e.strategicMerge(doc, text), operations, next, reported))
        && (patchType == "jsonmerge" ==> TakesOver(e, doc, e.jsonMerge(doc, text), operations, next, reported))
        && (patchType != "strategicmerge" && patchType != "jsonmerge" ==>
              TakesOver(e, doc, e.jsonPatch(doc, text), operations, next, reported))
  }

  /** The document before each policy and after the last, the operations of each, and whether it is reported. */
  datatype Transcript<Doc, Op> = Transcript(docs: seq<Doc>, steps: seq<seq<Op>>, reported: seq<bool>)

  ghost predicate Records<Doc, Op>(t: Transcript<Doc, Op>, e: Engines<Doc, Op>, policies: seq<Policy>, doc: Doc,
                                   evaluate: Evaluation, lower: string -> string)
    requires Mutations(policies)
  {
    && |t.docs| == |policies| + 1 && |t.steps| == |t.reported| == |policies| && t.docs[0] == doc
    && forall i :: 0 <= i < |policies| ==> Round(e, policies[i], t.docs[i], evaluate, lower, t.steps[i], t.docs[i + 1], t.reported[i])
  }

  ghost function Concatenated<Op>(steps: seq<seq<Op>>): seq<Op> {
    if steps == [] then [] else Concatenated(steps[..|steps| - 1]) + steps[|steps| - 1]
  }

  ghost function Reported(policies: seq<Policy>, reported: seq<bool>): seq<string>
    requires |reported| == |policies|
  {
    if policies == [] then [] else
    var n := |policies| - 1;
    Reported(policies[..n], reported[..n]) + (if reported[n] then [policies[n].name] else [])
  }

  lemma ContributionIsRound<Doc, Op>(e: Engines<Doc, Op>, p: Policy, doc: Doc, evaluate: Evaluation, lower: string -> string)
    requires p.Mutation?
    ensures var more := Contribution(e, p, doc, evaluate, lower);
            Round(e, p, doc, evaluate, lower, if more.Some? then more.value.operations else [],
                  if more.Some? then more.value.patched else doc, Passes(p, evaluate) && more.None?)
  {
    MeetsExactly(p, evaluate);
  }

  /** The handler's operations and reports are those of its policies in turn, each met with the document that the ones
      before it left. */
  lemma {:induction false} MutatedExactly<Doc, Op>(e: Engines<Doc, Op>, policies: seq<Policy>, doc: Doc, evaluate: Evaluation,
                                                  lower: string -> string) returns (t: Transcript<Doc, Op>)
    requires Mutations(policies)
    ensures Records(t, e, policies, doc, evaluate, lower)
    ensures Mutated(e, policies, doc, evaluate, lower) == Change(Concatenated(t.steps), t.docs[|policies|])
    ensures Aborted(e, policies, doc, evaluate, lower) == Reported(policies, t.reported)
  {
    if policies == [] {
      t := Transcript([doc], [], []);
    } else {
      var n := |policies| - 1;
      var before := MutatedExactly(e, policies[..n], doc, evaluate, lower);
      var more := Contribution(e, policies[n], before.docs[n], evaluate, lower);
      ContributionIsRound(e, policies[n], before.docs[n], evaluate, lower);
      t := Transcript(before.docs + [if more.Some? then more.value.patched else before.docs[n]],
                      before.steps + [if more.Some? then more.value.operations else []],
                      before.reported + [Passes(policies[n], evaluate) && more.None?]);
      assert t.steps[..n] == before.steps && t.reported[..n] == before.reported;
      forall i | 0 <= i < |policies|
        ensures Round(e, policies[i], t.docs[i], evaluate, lower, t.steps[i], t.docs[i + 1], t.reported[i])
      {
        if i < n {
          assert policies[..n][i] == policies[i];
        }
      }
    }
  }

  lemma {:induction false} ApplyAppended<Doc, Op>(e: Engines<Doc, Op>, a: seq<Op>, b: seq<Op>, doc: Doc)
    requires ApplyAll(e, a, doc).Some?
    ensures ApplyAll(e, a + b, doc) == ApplyAll(e, b, ApplyAll(e, a, doc).value)
    decreases |a|
  {
    if a == [] {
      assert a + b == b;
    } else {
      assert (a + b)[1..] == a[1..] + b;
      ApplyAppended(e, a[1..], b, e.applyOne(a[0], doc).value);
    }
  }

  /** Replay: after every prefix of the loop, the operations so far turn the request into the current document. */
  lemma {:induction false} Replay<Doc(!new), Op>(e: Engines<Doc, Op>, policies: seq<Policy>, doc: Doc, evaluate: Evaluation, lower: string -> string)
    requires Mutations(policies) && DiffLeads(e)
    ensures var r := Mutated(e, policies, doc, evaluate, lower);
            ApplyAll(e, r.operations, doc) == Some(r.patched)
  {
    if policies != [] {
      var n := |policies| - 1;
      Replay(e, policies[..n], doc, evaluate, lower);
      var before := Mutated(e, policies[..n], doc, evaluate, lower);
      var more := Contribution(e, policies[n], before.patched, evaluate, lower);
      if more.Some? {
        ApplyAppended(e, before.operations, more.value.operations, doc);
      }
    }
  }

  /** A policy that contributes nothing where it stands can be left out, with everything behind it unchanged. */
  lemma {:induction false} WithoutIdle<Doc, Op>(e: Engines<Doc, Op>, front: seq<Policy>, p: Policy, behind: seq<Policy>,
                                               doc: Doc, evaluate: Evaluation, lower: string -> string)
    requires Mutations(front) && p.Mutation? && Mutations(behind)
    requires Contribution(e, p, Mutated(e, front, doc, evaluate, lower).patched, evaluate, lower).None?
    ensures Mutated(e, front + [p] + behind, doc, evaluate, lower) == Mutated(e, front + behind, doc, evaluate, lower)
  {
    if behind == [] {
      assert (front + [p] + behind)[..|front|] == front && front + behind == front;
    } else {
      var n := |behind| - 1;
      WithoutIdle(e, front, p, behind[..n], doc, evaluate, lower);
      assert (front + [p] + behind)[..|front + [p] + behind| - 1] == front + [p] + behind[..n];
      assert (front + behind)[..|front + behind| - 1] == front + behind[..n];
    }
  }
}
