/** What is derived from the registries: the webhook rules, the lookups of the admission handlers, and the
    sources to watch. */
module WebhookRules {
  import opened Options
  import opened Ordering
  import opened Strings
  import opened Policies
  import opened PolicyStore
  import opened Reconcilers
  import opened Watch

  // ---- splitting what was joined ----

  predicate SlashFree(s: string) {
    '/' !in s
  }

  function Slashes(s: string): nat {
    if s == [] then 0 else (if s[0] == '/' then 1 else 0) + Slashes(s[1..])
  }

  lemma {:induction false} SlashesAdd(a: string, b: string)
    ensures Slashes(a + b) == Slashes(a) + Slashes(b)
  {
    if a == [] {
      assert a + b == b;
    } else {
      SlashesAdd(a[1..], b);
      assert (a + b)[1..] == a[1..] + b;
    }
  }

  lemma {:induction false} SlashFreeCount(s: string)
    ensures SlashFree(s) <==> Slashes(s) == 0
  {
    if s != [] {
      SlashFreeCount(s[1..]);
      assert s == [s[0]] + s[1..];
    }
  }

  lemma {:induction false} SplitCount(s: string)
    ensures |Split(s, '/')| == Slashes(s) + 1
  {
    if s != [] {
      SplitCount(s[1..]);
    }
  }

  lemma {:induction false} SplitFront(a: string, b: string)
    requires SlashFree(a)
    ensures Split(a + "/" + b, '/') == [a] + Split(b, '/')
  {
    if a == [] {
      assert a + "/" + b == "/" + b && ("/" + b)[1..] == b;
    } else {
      assert (a + "/" + b)[1..] == a[1..] + "/" + b;
      SplitFront(a[1..], b);
      assert a == [a[0]] + a[1..];
    }
  }

  /** Splitting recovers slash-free parts. */
  lemma {:induction false} SplitOfJoin(parts: seq<string>)
    requires parts != [] && forall i :: 0 <= i < |parts| ==> SlashFree(parts[i])
    ensures Split(Join(parts, "/"), '/') == parts
  {
    if |parts| == 1 {
      SplitNone(parts[0], '/');
    } else {
      SplitOfJoin(parts[1..]);
      SplitFront(parts[0], Join(parts[1..], "/"));
    }
  }

  /** Joining recovers what was split. */
  lemma {:induction false} JoinOfSplit(s: string)
    ensures Join(Split(s, '/'), "/") == s
    ensures forall i :: 0 <= i < |Split(s, '/')| ==> SlashFree(Split(s, '/')[i])
  {
    if s != [] {
      var rest := Split(s[1..], '/');
      JoinOfSplit(s[1..]);
      if s[0] == '/' {
        assert ([""] + rest)[1..] == rest;
        assert Join([""] + rest, "/") == "/" + s[1..];
      } else {
        var parts := [[s[0]] + rest[0]] + rest[1..];
        if |rest| > 1 {
          assert parts[1..] == rest[1..];
          assert Join(parts, "/") == [s[0]] + rest[0] + "/" + Join(rest[1..], "/");
          assert Join(rest, "/") == rest[0] + "/" + Join(rest[1..], "/");
        }
        assert Join(parts, "/") == [s[0]] + Join(rest, "/");
      }
    }
  }

  // ---- rules ----

  datatype Rule = Rule(group: string, version: string, resource: string, operation: string)

  function KeyOf(r: Rule): string {
    AdmissionKey(r.group, r.version, r.resource, r.operation)
  }

  predicate Literal(r: Rule) {
    SlashFree(r.group) && SlashFree(r.version) && SlashFree(r.resource) && SlashFree(r.operation)
  }

  /** The rule-building loop over the collection names; None is its error. */
  method BuildRules(store: PolicyStore) returns (r: Option<seq<Rule>>)
    ensures r.Some? <==> Buildable(store.collections)
    ensures r.Some? ==> NoRepeats(r.value) && |r.value| == |store.collections|
    ensures r.Some? ==> forall rule :: rule in r.value <==> Literal(rule) && KeyOf(rule) in store.collections
  {
    var patterns := store.GetCollectionNames();
    var rules: seq<Rule> := [];
    for i := 0 to |patterns|
      invariant |rules| == i
      invariant forall j :: 0 <= j < i ==> Literal(rules[j]) && KeyOf(rules[j]) == patterns[j]
      invariant forall j :: 0 <= j < i ==> |Split(patterns[j], '/')| == 4
    {
      var parts := Split(patterns[i], '/');
      if |parts| != 4 {
        assert patterns[i] in store.collections;
        return None;
      }
      JoinOfSplit(patterns[i]);
      var rule := Rule(parts[0], parts[1], parts[2], parts[3]);
      assert parts == [rule.group, rule.version, rule.resource, rule.operation];
      rules := rules + [rule];
    }
    r := Some(rules);
    RulesMatch(rules, patterns, store.collections);
  }

  lemma RulesMatch(rules: seq<Rule>, patterns: seq<string>, c: Collections)
    requires |rules| == |patterns| && NoRepeats(patterns) && forall key :: key in patterns <==> key in c
    requires forall j :: 0 <= j < |rules| ==> Literal(rules[j]) && KeyOf(rules[j]) == patterns[j]
    ensures NoRepeats(rules) && |rules| == |c|
    ensures forall rule :: rule in rules <==> Literal(rule) && KeyOf(rule) in c
  {
    forall rule | Literal(rule) && KeyOf(rule) in c ensures rule in rules {
      assert KeyOf(rule) in patterns;
      var j :| 0 <= j < |patterns| && patterns[j] == KeyOf(rule);
      KeyDeterminesRule(rule, rules[j]);
    }
    forall rule | rule in rules ensures Literal(rule) && KeyOf(rule) in c {
      var j :| 0 <= j < |rules| && rules[j] == rule;
      assert patterns[j] in patterns;
    }
    assert c.Keys == set key | key in patterns;
    CountMembers(patterns);
  }

  lemma {:induction false} CountMembers(s: seq<string>)
    requires NoRepeats(s)
    ensures |set x | x in s| == |s|
  {
    if s != [] {
      var n := |s| - 1;
      CountMembers(s[..n]);
      assert s == s[..n] + [s[n]];
      assert (set x | x in s) == (set x | x in s[..n]) + {s[n]};
    }
  }

  lemma KeyDeterminesRule(a: Rule, b: Rule)
    requires Literal(a) && Literal(b) && KeyOf(a) == KeyOf(b)
    ensures a == b
  {
    SplitOfJoin([a.group, a.version, a.resource, a.operation]);
    SplitOfJoin([b.group, b.version, b.resource, b.operation]);
    var p, q := [a.group, a.version, a.resource, a.operation], [b.group, b.version, b.resource, b.operation];
    assert p == q;
    assert p[0] == q[0] && p[1] == q[1] && p[2] == q[2] && p[3] == q[3];
  }

  // ---- rules, lookups and manifests agree ----

  /** The policy intercepts exactly this tuple: one of its groups, expanded, lists it. */
  ghost predicate Intercepts(p: Policy, r: Rule) {
    !p.Generation? && r.operation in OPERATIONS && exists i :: 0 <= i < |p.intercepted| && GroupIntercepts(p.intercepted[i], r)
  }

  ghost predicate GroupIntercepts(g: AdmissionGroup, r: Rule) {
    g.group == r.group && g.version == r.version && g.resource == r.resource && r.operation in Expanded(g.operations)
  }

  /** Some supported operation of the group makes it count. */
  ghost predicate Counts(g: AdmissionGroup) {
    exists i :: 0 <= i < |Expanded(g.operations)| && Expanded(g.operations)[i] in OPERATIONS
  }

  ghost predicate LiteralGroups(p: Policy) {
    !p.Generation? && forall i :: 0 <= i < |p.intercepted| && Counts(p.intercepted[i]) ==>
      SlashFree(p.intercepted[i].group) && SlashFree(p.intercepted[i].version) && SlashFree(p.intercepted[i].resource)
  }

  lemma OperationsSlashFree(operation: string)
    requires operation in OPERATIONS
    ensures SlashFree(operation)
  {
  }

  lemma PartsOfKey(g: string, v: string, r: string, o: string)
    requires SlashFree(o)
    ensures |Split(AdmissionKey(g, v, r, o), '/')| == 4 <==> SlashFree(g) && SlashFree(v) && SlashFree(r)
  {
    var key := g + ("/" + (v + ("/" + (r + ("/" + o)))));
    assert key == AdmissionKey(g, v, r, o) by {
      assert Join([r, o], "/") == r + "/" + o;
      assert Join([v, r, o], "/") == v + "/" + (r + "/" + o);
    }
    SplitCount(key);
    SlashesAdd(g, "/" + (v + ("/" + (r + ("/" + o)))));
    SlashesAdd("/", v + ("/" + (r + ("/" + o))));
    SlashesAdd(v, "/" + (r + ("/" + o)));
    SlashesAdd("/", r + ("/" + o));
    SlashesAdd(r, "/" + o);
    SlashesAdd("/", o);
    SlashFreeCount(g);
    SlashFreeCount(v);
    SlashFreeCount(r);
    SlashFreeCount(o);
    assert Slashes("/") == 1;
  }

  ghost predicate AdmissionManifests(live: Manifests) {
    Named(live) && forall n :: n in live ==> !live[n].Generation?
  }

  /** Every key of the registry splits into the four parts of a rule. */
  ghost predicate Buildable(c: Collections) {
    forall key :: key in c ==> |Split(key, '/')| == 4
  }

  ghost predicate AllLiteral(live: Manifests) {
    forall n :: n in live ==> LiteralGroups(live[n])
  }

  /** The rules can be built exactly when no live policy has a '/' in a group, version or resource that counts:
      one subresource such as pods/exec, and no rule at all is written. */
  lemma RulesBuildExactly(c: Collections, live: Manifests)
    requires Indexes(c, live) && AdmissionManifests(live)
    ensures Buildable(c) <==> AllLiteral(live)
  {
    if AllLiteral(live) {
      forall key | key in c ensures |Split(key, '/')| == 4 {
        ValidAt(c, key);
        var q := c[key][0];
        assert q in At(c, key) && Desires(q, key) && LiteralGroups(live[q.name]);
        var i :| 0 <= i < |q.intercepted| && Asks(q.intercepted[i], key);
        DesiredKeyParts(q.intercepted[i], key);
      }
    }
    if Buildable(c) {
      forall n, i | n in live && 0 <= i < |live[n].intercepted| && Counts(live[n].intercepted[i])
        ensures SlashFree(live[n].intercepted[i].group) && SlashFree(live[n].intercepted[i].version)
                && SlashFree(live[n].intercepted[i].resource)
      {
        var g := live[n].intercepted[i];
        var j :| 0 <= j < |Expanded(g.operations)| && Expanded(g.operations)[j] in OPERATIONS;
        var key := AdmissionKey(g.group, g.version, g.resource, Expanded(g.operations)[j]);
        assert Asks(g, key) && Desires(live[n], key);
        assert live[n] in At(c, key);
        DesiredKeyParts(g, key);
      }
    }
  }

  lemma DesiredKeyParts(g: AdmissionGroup, key: string)
    requires Asks(g, key)
    ensures Counts(g)
    ensures |Split(key, '/')| == 4 <==> SlashFree(g.group) && SlashFree(g.version) && SlashFree(g.resource)
  {
    var j :| 0 <= j < |Expanded(g.operations)| && Expanded(g.operations)[j] in OPERATIONS
             && key == AdmissionKey(g.group, g.version, g.resource, Expanded(g.operations)[j]);
    OperationsSlashFree(Expanded(g.operations)[j]);
    PartsOfKey(g.group, g.version, g.resource, Expanded(g.operations)[j]);
  }

  /** What a request tuple finds: exactly the live policies that intercept that very tuple, hence some policy
      exactly when one intercepts it, and exactly when there is a collection, and with BuildRules a rule, for it. */
  ghost predicate Finds(found: seq<Policy>, c: Collections, live: Manifests, request: Rule) {
    && (found != [] <==> exists n :: n in live && Intercepts(live[n], request))
    && (found != [] <==> KeyOf(request) in c)
    && (forall q :: q in found <==> q.name in live && live[q.name] == q && Intercepts(q, request))
  }

  lemma LookupAgrees(c: Collections, live: Manifests, request: Rule)
    requires Indexes(c, live) && AdmissionManifests(live) && Literal(request)
    ensures Finds(At(c, KeyOf(request)), c, live, request)
  {
    var key := KeyOf(request);
    ValidAt(c, key);
    forall q ensures q in At(c, key) <==> q.name in live && live[q.name] == q && Intercepts(q, request) {
      if q.name in live && live[q.name] == q {
        DesiresIsIntercepts(q, request);
      }
    }
    if At(c, key) != [] {
      assert At(c, key)[0] in At(c, key);
    }
    if exists n :: n in live && Intercepts(live[n], request) {
      var n :| n in live && Intercepts(live[n], request);
      assert live[n] in At(c, key);
    }
  }

  lemma DesiresIsIntercepts(p: Policy, request: Rule)
    requires !p.Generation? && Literal(request)
    ensures Desires(p, KeyOf(request)) <==> Intercepts(p, request)
  {
    var key := KeyOf(request);
    SplitOfJoin([request.group, request.version, request.resource, request.operation]);
    if Desires(p, key) {
      var i :| 0 <= i < |p.intercepted| && Asks(p.intercepted[i], key);
      var g := p.intercepted[i];
      var j :| 0 <= j < |Expanded(g.operations)| && Expanded(g.operations)[j] in OPERATIONS
               && key == AdmissionKey(g.group, g.version, g.resource, Expanded(g.operations)[j]);
      DesiredKeyParts(g, key);
      OperationsSlashFree(Expanded(g.operations)[j]);
      KeyDeterminesRule(request, Rule(g.group, g.version, g.resource, Expanded(g.operations)[j]));
      assert GroupIntercepts(p.intercepted[i], request);
    }
    if Intercepts(p, request) {
      var i :| 0 <= i < |p.intercepted| && GroupIntercepts(p.intercepted[i], request);
      var j :| 0 <= j < |Expanded(p.intercepted[i].operations)| && Expanded(p.intercepted[i].operations)[j] == request.operation;
      assert Asks(p.intercepted[i], key);
    }
  }

  // ---- the sources to watch ----

  method GetSourcesFromRegistries(generation: PolicyStore, mutation: PolicyStore, validation: PolicyStore)
    returns (candidates: seq<string>)
    ensures Ascending(candidates)
    ensures forall name :: name in candidates <==>
              Refers(generation.collections, name) || Refers(mutation.collections, name) || Refers(validation.collections, name)
  {
    var fromGeneration := generation.GetReferencedSources();
    var fromMutation := mutation.GetReferencedSources();
    var fromValidation := validation.GetReferencedSources();
    var all := fromGeneration + fromMutation + fromValidation;
    var sorted := Sorted(all);
    SameMultisetSameMembers(sorted, all);
    CompactSorted(sorted);
    candidates := Compact(sorted);
  }

  ghost predicate WantsSome(p: Policy) {
    exists key :: Desires(p, key)
  }

  ghost predicate LiveRefers(live: Manifests, name: string) {
    exists n :: n in live && WantsSome(live[n]) && PolicyRefers(live[n], name)
  }

  /** In terms of manifests: the non-zero sources of the live ones that want to be in some collection. */
  lemma SourcesOfLive(c: Collections, live: Manifests, name: string)
    requires Indexes(c, live) && Named(live)
    ensures Refers(c, name) <==> LiveRefers(live, name)
  {
    if Refers(c, name) {
      var key, i :| key in c && 0 <= i < |c[key]| && PolicyRefers(c[key][i], name);
      var q := c[key][i];
      assert q in At(c, key);
      assert Desires(q, key);
      assert q.name in live && WantsSome(live[q.name]);
    }
    forall n | n in live && WantsSome(live[n]) && PolicyRefers(live[n], name) ensures Refers(c, name) {
      LiveIsReferred(c, live, n, name);
    }
  }

  lemma LiveIsReferred(c: Collections, live: Manifests, n: string, name: string)
    requires Indexes(c, live) && n in live && live[n].name == n && WantsSome(live[n]) && PolicyRefers(live[n], name)
    ensures Refers(c, name)
  {
    var key :| Desires(live[n], key);
    assert live[n] in At(c, key);
    var i :| 0 <= i < |At(c, key)| && At(c, key)[i] == live[n];
    assert key in c && PolicyRefers(c[key][i], name);
  }

  // ---- after any run ----

  /** A run of the mutation or of the validation reconciler. */
  ghost predicate AdmissionRun(states: seq<Collections>, events: seq<Event>, prioritized: bool) {
    Run(states, events, prioritized) && forall i :: 0 <= i < |events| ==> !events[i].manifest.Generation?
  }

  lemma LiveAdmissionManifests(states: seq<Collections>, events: seq<Event>, prioritized: bool)
    requires AdmissionRun(states, events, prioritized)
    ensures Indexes(states[|events|], Live(events)) && AdmissionManifests(Live(events))
  {
    RunIndexes(states, events, prioritized);
    LiveNamed(events);
    forall n | n in Live(events) ensures !Live(events)[n].Generation? {
      var i := LiveWasReconciled(events, n);
    }
  }

  /** After every run: the rules can be built exactly when no live policy has a '/' in a group, version or resource
      that counts. */
  lemma RulesAfterRun(states: seq<Collections>, events: seq<Event>, prioritized: bool)
    requires AdmissionRun(states, events, prioritized)
    ensures Buildable(states[|events|]) <==> AllLiteral(Live(events))
  {
    LiveAdmissionManifests(states, events, prioritized);
    RulesBuildExactly(states[|events|], Live(events));
  }

  /** After every run: a literal request finds exactly the live policies that intercept its tuple. */
  lemma LookupAfterRun(states: seq<Collections>, events: seq<Event>, prioritized: bool, request: Rule)
    requires AdmissionRun(states, events, prioritized) && Literal(request)
    ensures Finds(At(states[|events|], KeyOf(request)), states[|events|], Live(events), request)
  {
    LiveAdmissionManifests(states, events, prioritized);
    LookupAgrees(states[|events|], Live(events), request);
  }

  /** After every run of any of the three reconcilers: the sources referred to are the non-zero sources of the live
      manifests that want to be in some collection. */
  lemma SourcesAfterRun(states: seq<Collections>, events: seq<Event>, prioritized: bool, name: string)
    requires Run(states, events, prioritized)
    ensures Refers(states[|events|], name) <==> LiveRefers(Live(events), name)
  {
    RunIndexes(states, events, prioritized);
    LiveNamed(events);
    SourcesOfLive(states[|events|], Live(events), name);
  }

  // ---- one policy blocks all rules ----

  const EXEC_POLICY: Policy :=
    Validation("exec", [], [], [AdmissionGroup("", "v1", "pods/exec", ["CONNECT"])], "enforce", Template("plain", ""))

  const EXEC_KEY: string := AdmissionKey("", "v1", "pods/exec", "CONNECT")

  lemma ExecDesires(key: string)
    ensures Desires(EXEC_POLICY, key) <==> key == EXEC_KEY
  {
    var g := EXEC_POLICY.intercepted[0];
    assert Expanded(g.operations) == ["CONNECT"] && "CONNECT" in OPERATIONS;
    assert key == EXEC_KEY ==> AdmissionKey(g.group, g.version, g.resource, Expanded(g.operations)[0]) == key;
    assert Asks(g, key) <==> key == EXEC_KEY;
  }

  lemma ExecRun()
    ensures AdmissionRun([map[], map[EXEC_KEY := [EXEC_POLICY]]], [Event(Modified, EXEC_POLICY)], false)
    ensures Live([Event(Modified, EXEC_POLICY)]) == map["exec" := EXEC_POLICY]
  {
    var after: Collections := map[EXEC_KEY := [EXEC_POLICY]];
    forall key ensures CollectionStep(At(map[], key), key, Modified, EXEC_POLICY, false, after) {
      ExecDesires(key);
    }
    var events := [Event(Modified, EXEC_POLICY)];
    assert events[..0] == [];
    assert Live(events) == After(Live([]), Modified, EXEC_POLICY);
  }

  lemma ExecNotLiteral()
    ensures !LiteralGroups(EXEC_POLICY)
  {
    var g := EXEC_POLICY.intercepted[0];
    assert "pods/exec"[4] == '/';
    assert Expanded(g.operations)[0] in OPERATIONS;
    assert Counts(g);
  }

  /** A policy on the subresource pods/exec: while it is live no rule can be built, for whatever other policies. */
  lemma SubresourceBlocksRules(states: seq<Collections>, events: seq<Event>, prioritized: bool)
    requires AdmissionRun(states, events, prioritized)
    requires "exec" in Live(events) && Live(events)["exec"] == EXEC_POLICY
    ensures !Buildable(states[|events|])
  {
    ExecNotLiteral();
    assert !AllLiteral(Live(events));
    RulesAfterRun(states, events, prioritized);
  }
}
