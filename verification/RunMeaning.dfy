/** What a run of a reconciler leaves behind, in terms of the fields of the manifests that were reconciled. */
module RunMeaning {
  import opened Options
  import opened Policies
  import opened PolicyStore
  import opened Reconcilers
  import opened Strings
  import opened Watch
  import opened WebhookRules

  // ---- which manifests count ----

  /** Event i put the manifest in, and no later event is about its name. */
  ghost predicate LastWord(events: seq<Event>, i: nat, p: Policy) {
    i < |events| && events[i] == Event(Modified, p) && forall j :: i < j < |events| ==> events[j].manifest.name != p.name
  }

  ghost predicate Stands(events: seq<Event>, p: Policy) {
    exists i :: LastWord(events, i, p)
  }

  lemma {:induction false} LiveExactly(events: seq<Event>, p: Policy)
    ensures p.name in Live(events) && Live(events)[p.name] == p <==> Stands(events, p)
  {
    if events != [] {
      var n := |events| - 1;
      var front := events[..n];
      LiveExactly(front, p);
      if events[n].manifest.name == p.name {
        assert events[n] == Event(Modified, p) ==> LastWord(events, n, p);
      } else {
        if i :| LastWord(front, i, p) {
          assert LastWord(events, i, p);
        }
        if i :| LastWord(events, i, p) {
          assert LastWord(front, i, p);
        }
      }
    }
  }

  // ---- where a manifest wants to be ----

  predicate Supported(operation: string) {
    operation == "CREATE" || operation == "UPDATE" || operation == "DELETE" || operation == "CONNECT"
  }

  /** The group lists the operation, or all of them. */
  ghost predicate Lists(g: AdmissionGroup, operation: string) {
    Supported(operation) && (operation in g.operations || "*" in g.operations)
  }

  ghost predicate AsksFor(g: AdmissionGroup, operation: string, key: string) {
    Lists(g, operation) && key == g.group + "/" + g.version + "/" + g.resource + "/" + operation
  }

  ghost predicate Wants(p: Policy, key: string) {
    if p.Generation? then
      exists i :: 0 <= i < |p.watched| && Watches(p.watched[i], key)
    else
      exists i, operation :: 0 <= i < |p.intercepted| && AsksFor(p.intercepted[i], operation, key)
  }

  ghost predicate Watches(w: WatchGroup, key: string) {
    key == w.group + "/" + w.version + "/" + w.resource + "/" + w.namespace + "/" + w.name
  }

  lemma JoinThree(a: string, b: string, c: string)
    ensures Join([a, b, c], "/") == a + "/" + b + "/" + c
  {
    assert [a, b, c][1..] == [b, c] && [b, c][1..] == [c];
    assert Join([b, c], "/") == b + "/" + c;
    assert a + "/" + (b + "/" + c) == a + "/" + b + "/" + c;
  }

  lemma JoinFour(a: string, b: string, c: string, d: string)
    ensures Join([a, b, c, d], "/") == a + "/" + b + "/" + c + "/" + d
  {
    JoinThree(b, c, d);
    assert [a, b, c, d][1..] == [b, c, d];
    assert a + "/" + (b + "/" + c + "/" + d) == a + "/" + b + "/" + c + "/" + d;
  }

  lemma JoinFive(a: string, b: string, c: string, d: string, e: string)
    ensures Join([a, b, c, d, e], "/") == a + "/" + b + "/" + c + "/" + d + "/" + e
  {
    JoinFour(b, c, d, e);
    assert [a, b, c, d, e][1..] == [b, c, d, e];
    assert a + "/" + (b + "/" + c + "/" + d + "/" + e) == a + "/" + b + "/" + c + "/" + d + "/" + e;
  }

  lemma AsksExactly(g: AdmissionGroup, key: string)
    ensures Asks(g, key) <==> exists operation :: AsksFor(g, operation, key)
  {
    var operations := Expanded(g.operations);
    if Asks(g, key) {
      var i :| 0 <= i < |operations| && operations[i] in OPERATIONS
               && key == AdmissionKey(g.group, g.version, g.resource, operations[i]);
      JoinFour(g.group, g.version, g.resource, operations[i]);
      assert AsksFor(g, operations[i], key);
    }
    if operation :| AsksFor(g, operation, key) {
      SupportedExactly(operation);
      JoinFour(g.group, g.version, g.resource, operation);
      assert operation in operations;
      var i :| 0 <= i < |operations| && operations[i] == operation;
    }
  }

  lemma SupportedExactly(operation: string)
    ensures Supported(operation) <==> operation in OPERATIONS
  {
    assert OPERATIONS[0] == "CREATE" && OPERATIONS[1] == "UPDATE" && OPERATIONS[2] == "DELETE" && OPERATIONS[3] == "CONNECT";
  }

  lemma WantsExactly(p: Policy, key: string)
    ensures Wants(p, key) <==> Desires(p, key)
  {
    if p.Generation? {
      forall i | 0 <= i < |p.watched| ensures WatchKey(p.watched[i]) == key <==> Watches(p.watched[i], key) {
        var w := p.watched[i];
        JoinFive(w.group, w.version, w.resource, w.namespace, w.name);
      }
    } else {
      forall i | 0 <= i < |p.intercepted|
        ensures Asks(p.intercepted[i], key) <==> exists operation :: AsksFor(p.intercepted[i], operation, key)
      {
        AsksExactly(p.intercepted[i], key);
      }
    }
  }

  // ---- the collections ----

  /** After every run: a policy is in a collection exactly when its last word was to be there; and no name is in it twice. */
  lemma HeldAfterRun(states: seq<Collections>, events: seq<Event>, prioritized: bool, key: string, p: Policy)
    requires Run(states, events, prioritized)
    ensures key in states[|events|] && p in states[|events|][key] <==> Stands(events, p) && Wants(p, key)
    ensures key in states[|events|] ==> states[|events|][key] != [] && UniqueNames(states[|events|][key])
  {
    RunIndexes(states, events, prioritized);
    LiveExactly(events, p);
    WantsExactly(p, key);
    assert p in At(states[|events|], key) <==> p.name in Live(events) && Live(events)[p.name] == p && Desires(p, key);
  }

  // ---- the sources ----

  /** The source has some field that is not empty, and this name. */
  ghost predicate Names(s: SourceGroup, name: string) {
    && (s.group != "" || s.version != "" || s.resource != "" || s.filters.Some?)
    && name == s.group + "/" + s.version + "/" + s.resource
  }

  lemma RefersExactly(p: Policy, name: string)
    ensures PolicyRefers(p, name) <==> exists i :: 0 <= i < |p.sources| && Names(p.sources[i], name)
  {
    forall i | 0 <= i < |p.sources|
      ensures !IsZero(p.sources[i]) && name == SourceName(p.sources[i]) <==> Names(p.sources[i], name)
    {
      JoinThree(p.sources[i].group, p.sources[i].version, p.sources[i].resource);
    }
  }

  ghost predicate SourceStands(events: seq<Event>, p: Policy, i: nat, name: string) {
    Stands(events, p) && (exists key :: Wants(p, key)) && i < |p.sources| && Names(p.sources[i], name)
  }

  /** After every run the registry refers to a source exactly when a manifest that stands, and wants to be somewhere,
      names it. */
  lemma ReferredAfterRun(states: seq<Collections>, events: seq<Event>, prioritized: bool, name: string)
    requires Run(states, events, prioritized)
    ensures Refers(states[|events|], name) <==> exists p, i :: SourceStands(events, p, i, name)
  {
    SourcesAfterRun(states, events, prioritized, name);
    LiveNamed(events);
    var live := Live(events);
    if LiveRefers(live, name) {
      var n :| n in live && WantsSome(live[n]) && PolicyRefers(live[n], name);
      var key :| Desires(live[n], key);
      WantsExactly(live[n], key);
      RefersExactly(live[n], name);
      LiveExactly(events, live[n]);
      var i :| 0 <= i < |live[n].sources| && Names(live[n].sources[i], name);
      assert SourceStands(events, live[n], i, name);
    }
    if p, i :| SourceStands(events, p, i, name) {
      var key :| Wants(p, key);
      WantsExactly(p, key);
      RefersExactly(p, name);
      LiveExactly(events, p);
      assert WantsSome(live[p.name]);
    }
  }

  // ---- what a request finds ----

  /** The policy lists the tuple of the request in one of its groups. */
  ghost predicate ListsTuple(p: Policy, r: Rule) {
    !p.Generation? && exists i :: 0 <= i < |p.intercepted| && ListedBy(p.intercepted[i], r)
  }

  ghost predicate ListedBy(g: AdmissionGroup, r: Rule) {
    Lists(g, r.operation) && g.group == r.group && g.version == r.version && g.resource == r.resource
  }

  lemma ListsTupleExactly(p: Policy, r: Rule)
    ensures ListsTuple(p, r) <==> Intercepts(p, r)
  {
    SupportedExactly(r.operation);
    if !p.Generation? {
      forall i | 0 <= i < |p.intercepted|
        ensures ListedBy(p.intercepted[i], r) <==> Supported(r.operation) && GroupIntercepts(p.intercepted[i], r)
      {
      }
    }
  }

  /** After every run of an admission reconciler: the collection under the tuple of a literal request holds exactly the
      policies that stand and list the tuple. */
  lemma FoundAfterRun(states: seq<Collections>, events: seq<Event>, prioritized: bool, r: Rule, p: Policy)
    requires AdmissionRun(states, events, prioritized) && Literal(r)
    ensures var key := r.group + "/" + r.version + "/" + r.resource + "/" + r.operation;
            key in states[|events|] && p in states[|events|][key] <==> Stands(events, p) && ListsTuple(p, r)
  {
    JoinFour(r.group, r.version, r.resource, r.operation);
    LookupAfterRun(states, events, prioritized, r);
    LiveExactly(events, p);
    ListsTupleExactly(p, r);
    assert p in At(states[|events|], KeyOf(r)) <==> p.name in Live(events) && Live(events)[p.name] == p && Intercepts(p, r);
  }
}
