/** The three reconcilers that keep a policy registry up to date, and what the registry is over whole runs. */
module Reconcilers {
  import opened Ordering
  import opened Strings
  import opened Policies
  import opened PolicyStore
  import opened Watch

  // ---- one reconcile, as a relation between registries ----

  ghost predicate UniqueNames(list: seq<Policy>) {
    forall i, j :: 0 <= i < j < |list| ==> list[i].name != list[j].name
  }

  /** What the registry keeps between reconciles: no empty collection, no name twice in one. */
  ghost predicate Valid(c: Collections) {
    forall key :: key in c ==> c[key] != [] && UniqueNames(c[key])
  }

  /** What a collection becomes, up to order: the manifest is put in or replaced where it is wanted, and
      taken out everywhere else. */
  ghost function Wanted(list: seq<Policy>, key: string, event: EventType, p: Policy): seq<Policy> {
    if event.Modified? && Desires(p, key) then Upserted(list, p) else Without(list, p.name)
  }

  ghost predicate Step(c: Collections, event: EventType, p: Policy, prioritized: bool, after: Collections) {
    forall key :: CollectionStep(At(c, key), key, event, p, prioritized, after)
  }

  ghost predicate CollectionStep(list: seq<Policy>, key: string, event: EventType, p: Policy, prioritized: bool,
                                 after: Collections) {
    var wanted := Wanted(list, key, event, p);
    && (key in after <==> wanted != [])
    && multiset(At(after, key)) == multiset(wanted)
    && (if prioritized then SortedBy(list, BeforeByPriority) ==> SortedBy(At(after, key), BeforeByPriority)
        else At(after, key) == wanted)
  }

  // ---- lists with unique names ----

  lemma WithoutMembers(list: seq<Policy>, name: string)
    requires UniqueNames(list)
    ensures UniqueNames(Without(list, name))
    ensures forall q :: q in Without(list, name) <==> q in list && q.name != name
  {
    var i, r := FirstNamed(list, name), Without(list, name);
    if i < |list| {
      DroppedMembers(list, i, r);
      forall j, k | 0 <= j < k < |r| ensures r[j].name != r[k].name {
        assert r[j] == list[if j < i then j else j + 1] && r[k] == list[if k < i then k else k + 1];
      }
    }
  }

  lemma PlacedMembers(list: seq<Policy>, i: nat, p: Policy, r: seq<Policy>)
    requires UniqueNames(list) && i <= |list|
    requires if i < |list| then list[i].name == p.name && r == list[i := p] else r == list + [p]
    requires forall j :: 0 <= j < i ==> list[j].name != p.name
    ensures UniqueNames(r)
    ensures forall q :: q in r <==> q == p || (q in list && q.name != p.name)
  {
    assert r[i] == p;
    forall q ensures q in r <==> q == p || (q in list && q.name != p.name) {
      if q in list && q.name != p.name {
        var j :| 0 <= j < |list| && list[j] == q;
        assert r[j] == q;
      }
      if q in r && q != p {
        var j :| 0 <= j < |r| && r[j] == q;
        assert list[j] == q;
      }
    }
  }

  lemma UpsertedMembers(list: seq<Policy>, p: Policy)
    requires UniqueNames(list)
    ensures Upserted(list, p) != [] && UniqueNames(Upserted(list, p))
    ensures forall q :: q in Upserted(list, p) <==> q == p || (q in list && q.name != p.name)
  {
    PlacedMembers(list, FirstNamed(list, p.name), p, Upserted(list, p));
  }

  lemma WithoutTwice(list: seq<Policy>, name: string)
    requires UniqueNames(list)
    ensures Without(Without(list, name), name) == Without(list, name)
  {
    WithoutMembers(list, name);
    var r := Without(list, name);
    assert forall j :: 0 <= j < |r| ==> r[j] in r;
    FirstNamedIs(r, name, |r|);
  }

  /** Reordering keeps names unique. */
  lemma ReorderedUnique(a: seq<Policy>, b: seq<Policy>)
    requires UniqueNames(a) && multiset(a) == multiset(b)
    ensures UniqueNames(b)
    ensures forall q :: q in a <==> q in b
  {
    SameMultisetSameMembers(a, b);
    forall x ensures multiset(b)[x] <= 1 {
      NoRepeatsCount(a, x);
    }
    CountNoRepeats(b);
    forall i, j | 0 <= i < j < |b| ensures b[i].name != b[j].name {
      assert b[i] in a && b[j] in a;
    }
  }

  lemma WithoutSorted(list: seq<Policy>, name: string)
    requires SortedBy(list, BeforeByPriority)
    ensures SortedBy(Without(list, name), BeforeByPriority)
  {
  }

  ghost predicate ByPriority(list: seq<Policy>) {
    && (forall i :: 0 <= i < |list| ==> list[i].Mutation?)
    && (forall i, j :: 0 <= i < j < |list| && list[i].Mutation? && list[j].Mutation? ==> list[i].priority <= list[j].priority)
  }

  /** Every collection holds mutation policies in ascending order of their priority fields. */
  ghost predicate AllByPriority(c: Collections) {
    forall key :: key in c ==> ByPriority(c[key])
  }

  lemma SortedByPriority(list: seq<Policy>)
    requires forall i :: 0 <= i < |list| ==> list[i].Mutation?
    ensures SortedBy(list, BeforeByPriority) <==> ByPriority(list)
  {
    if SortedBy(list, BeforeByPriority) {
      forall i, j | 0 <= i < j < |list| ensures list[i].priority <= list[j].priority {
        assert !BeforeByPriority(list[j], list[i]);
      }
    }
  }

  lemma PriorityIsOrder()
    ensures StrictWeakOrder(BeforeByPriority)
  {
  }

  // ---- the first loop of a reconcile ----

  /** The collections in done hold the manifest; the others are as they were. */
  ghost predicate Upserting(c: Collections, done: seq<string>, p: Policy, prioritized: bool, now: Collections) {
    forall key :: UpsertingAt(c, key, key in done, p, prioritized, now)
  }

  ghost predicate UpsertingAt(c: Collections, key: string, done: bool, p: Policy, prioritized: bool, now: Collections) {
    if done then
      var upserted := Upserted(At(c, key), p);
      && key in now && multiset(now[key]) == multiset(upserted)
      && (if prioritized then SortedBy(now[key], BeforeByPriority) else now[key] == upserted)
    else
      (key in now <==> key in c) && At(now, key) == At(c, key)
  }

  /** Each collection is as it was or without the manifest, perhaps re-sorted. */
  ghost predicate Removing(c: Collections, p: Policy, prioritized: bool, now: Collections) {
    forall key :: RemovingAt(At(c, key), p, prioritized, key in now, At(now, key))
  }

  ghost predicate RemovingAt(before: seq<Policy>, p: Policy, prioritized: bool, present: bool, now: seq<Policy>) {
    && (present <==> now != [])
    && (multiset(now) == multiset(before) || multiset(now) == multiset(Without(before, p.name)))
    && (if prioritized then SortedBy(before, BeforeByPriority) ==> SortedBy(now, BeforeByPriority)
        else now == before || now == Without(before, p.name))
  }

  ghost predicate LoopState(c: Collections, event: EventType, desired: seq<string>, p: Policy, prioritized: bool,
                            now: Collections) {
    if event.Modified? then Upserting(c, desired, p, prioritized, now)
    else desired == [] && Removing(c, p, prioritized, now)
  }

  lemma CountAt(list: seq<Policy>, i: nat)
    requires i < |list|
    ensures multiset(list[..i] + list[i + 1..]) == multiset(list) - multiset{list[i]}
  {
    assert list == list[..i] + [list[i]] + list[i + 1..];
  }

  lemma WithoutMultiset(list: seq<Policy>, name: string)
    ensures var i := FirstNamed(list, name);
            i < |list| ==> multiset(Without(list, name)) == multiset(list) - multiset{list[i]}
  {
    var i := FirstNamed(list, name);
    if i < |list| {
      CountAt(list, i);
      assert Without(list, name) == list[..i] + list[i + 1..];
    }
  }

  lemma WithoutReordered(a: seq<Policy>, b: seq<Policy>, name: string)
    requires UniqueNames(a) && multiset(a) == multiset(b)
    ensures multiset(Without(a, name)) == multiset(Without(b, name))
  {
    SameMultisetSameMembers(a, b);
    WithoutMultiset(a, name);
    WithoutMultiset(b, name);
    var i, j := FirstNamed(a, name), FirstNamed(b, name);
    assert i < |a| ==> a[i] in b;
    assert j < |b| ==> b[j] in a;
    assert i < |a| <==> j < |b|;
  }

  /** Taking the manifest out of one more collection, or again. */
  lemma RemovedAt(before: seq<Policy>, p: Policy, prioritized: bool, now: seq<Policy>)
    requires UniqueNames(before) && RemovingAt(before, p, prioritized, now != [], now)
    ensures var after := Without(now, p.name);
            && RemovingAt(before, p, prioritized, after != [], after)
            && multiset(after) == multiset(Without(before, p.name))
            && (!prioritized ==> after == Without(before, p.name))
  {
    WithoutMembers(before, p.name);
    WithoutTwice(before, p.name);
    if multiset(now) == multiset(before) {
      WithoutReordered(before, now, p.name);
    } else {
      WithoutReordered(Without(before, p.name), now, p.name);
    }
    if SortedBy(now, BeforeByPriority) {
      WithoutSorted(now, p.name);
    }
  }

  lemma ValidAt(c: Collections, key: string)
    requires Valid(c)
    ensures UniqueNames(At(c, key)) && (key in c <==> At(c, key) != [])
  {
  }

  lemma RemovedOne(start: Collections, p: Policy, prioritized: bool, now: Collections, key: string)
    requires Valid(start) && Removing(start, p, prioritized, now)
    ensures Removing(start, p, prioritized, Put(now, key, Without(At(now, key), p.name)))
  {
    var after := Put(now, key, Without(At(now, key), p.name));
    forall k ensures RemovingAt(At(start, k), p, prioritized, k in after, At(after, k)) {
      assert RemovingAt(At(start, k), p, prioritized, k in now, At(now, k));
      ValidAt(start, k);
      if k == key {
        RemovedAt(At(start, k), p, prioritized, At(now, k));
      }
    }
  }

  /** A collection sorted in place. */
  ghost predicate SortedOne(now: Collections, key: string, after: Collections) {
    && after.Keys == now.Keys
    && (forall k :: k in now && k != key ==> after[k] == now[k])
    && (key in now ==> multiset(after[key]) == multiset(now[key]) && SortedBy(after[key], BeforeByPriority))
  }

  lemma RemovingSorted(start: Collections, p: Policy, now: Collections, key: string, after: Collections)
    requires Removing(start, p, true, now) && SortedOne(now, key, after)
    ensures Removing(start, p, true, after)
  {
    forall k ensures RemovingAt(At(start, k), p, true, k in after, At(after, k)) {
      assert RemovingAt(At(start, k), p, true, k in now, At(now, k));
      if k == key && key in now {
        SameMultisetSameMembers(after[key], now[key]);
      }
    }
  }

  /** The manifest put into one more collection, and sorted where collections are. */
  lemma UpsertedOne(start: Collections, desired: seq<string>, p: Policy, prioritized: bool, now: Collections,
                    key: string, put: Collections, after: Collections)
    requires Upserting(start, desired, p, prioritized, now) && key !in desired && UniqueNames(At(start, key))
    requires put == Put(now, key, Upserted(At(now, key), p))
    requires if prioritized then SortedOne(put, key, after) else after == put
    ensures Upserting(start, desired + [key], p, prioritized, after)
  {
    assert UpsertingAt(start, key, false, p, prioritized, now);
    UpsertedMembers(At(start, key), p);
    forall k ensures UpsertingAt(start, k, k in desired + [key], p, prioritized, after) {
      assert UpsertingAt(start, k, k in desired, p, prioritized, now);
    }
  }

  /** The body of the first loop: one watched type. Only the mutation reconciler re-sorts. */
  method RegisterType(store: PolicyStore, event: EventType, manifest: Policy, watchedType: string,
                      desired: seq<string>, prioritized: bool, ghost start: Collections) returns (more: seq<string>)
    requires Valid(start) && LoopState(start, event, desired, manifest, prioritized, store.collections)
    modifies store
    ensures LoopState(start, event, more, manifest, prioritized, store.collections)
    ensures event.Modified? ==> forall key :: key in more <==> key in desired || key == watchedType
  {
    more := desired;
    if event.Deleted? {
      RemovedOne(start, manifest, prioritized, store.collections, watchedType);
      store.RemoveResource(watchedType, manifest);
      return;
    }
    if event.Modified? {
      if watchedType in desired {
        return;
      }
      more := desired + [watchedType];
      store.AddOrUpdateResource(watchedType, manifest);
    }
    ghost var put := store.collections;
    if prioritized {
      PriorityIsOrder();
      store.SortCollection(watchedType, BeforeByPriority);
      if !event.Modified? {
        RemovingSorted(start, manifest, put, watchedType, store.collections);
      }
    }
    if event.Modified? {
      ValidAt(start, watchedType);
      UpsertedOne(start, desired, manifest, prioritized, old(store.collections), watchedType, put, store.collections);
    }
  }

  // ---- the cleaning loop ----

  /** Takes the manifest out of every registered collection that is not desired. */
  method CleanUndesired(store: PolicyStore, desired: seq<string>, manifest: Policy)
    requires forall key :: key in store.collections ==> store.collections[key] != []
    modifies store
    ensures forall key :: CleanedAt(old(store.collections), key, key in desired, manifest, store.collections)
  {
    var names := store.GetCollectionNames();
    ghost var start := store.collections;
    for i := 0 to |names|
      invariant CleanedSoFar(start, names, i, desired, manifest, store.collections)
    {
      ghost var before := store.collections;
      if names[i] !in desired {
        store.RemoveResource(names[i], manifest);
      }
      CleanedOneMore(start, names, i, desired, manifest, before, store.collections);
    }
    CleanedEvery(start, names, desired, manifest, store.collections);
  }

  /** The first n collections are cleaned, the others as they were. */
  ghost predicate CleanedSoFar(start: Collections, names: seq<string>, n: nat, desired: seq<string>, p: Policy, now: Collections)
    requires n <= |names|
  {
    forall key :: CleanedAt(start, key, key in desired || key !in names[..n], p, now)
  }

  lemma CleanedOneMore(start: Collections, names: seq<string>, i: nat, desired: seq<string>, p: Policy,
                       before: Collections, after: Collections)
    requires NoRepeats(names) && i < |names| && CleanedSoFar(start, names, i, desired, p, before)
    requires after == if names[i] in desired then before else Put(before, names[i], Without(At(before, names[i]), p.name))
    ensures CleanedSoFar(start, names, i + 1, desired, p, after)
  {
    forall key ensures CleanedAt(start, key, key in desired || key !in names[..i + 1], p, after) {
      var kept := key in desired || key !in names[..i];
      assert CleanedAt(start, key, kept, p, before);
      InPrefix(names, i, key);
      CleanedKey(start, key, kept, p, before, names[i], names[i] !in desired, after);
    }
  }

  lemma InPrefix(names: seq<string>, i: nat, key: string)
    requires NoRepeats(names) && i < |names|
    ensures key in names[..i + 1] <==> key in names[..i] || key == names[i]
    ensures names[i] !in names[..i]
  {
    assert names[..i + 1] == names[..i] + [names[i]];
  }

  lemma CleanedKey(start: Collections, key: string, kept: bool, p: Policy, before: Collections, name: string,
                   dropped: bool, after: Collections)
    requires CleanedAt(start, key, kept, p, before) && (key == name ==> kept)
    requires after == if dropped then Put(before, name, Without(At(before, name), p.name)) else before
    ensures CleanedAt(start, key, kept && !(dropped && key == name), p, after)
  {
    PutAt(before, name, Without(At(before, name), p.name), key);
  }

  lemma PutAt(c: Collections, key: string, list: seq<Policy>, k: string)
    ensures At(Put(c, key, list), k) == if k == key then list else At(c, k)
    ensures k in Put(c, key, list) <==> if k == key then list != [] else k in c
  {
  }

  lemma CleanedEvery(start: Collections, names: seq<string>, desired: seq<string>, p: Policy, now: Collections)
    requires forall key :: key in names <==> key in start
    requires CleanedSoFar(start, names, |names|, desired, p, now)
    ensures forall key :: CleanedAt(start, key, key in desired, p, now)
  {
    assert names[..|names|] == names;
    forall key ensures CleanedAt(start, key, key in desired, p, now) {
      assert CleanedAt(start, key, key in desired || key !in names[..|names|], p, now);
    }
  }

  ghost predicate CleanedAt(before: Collections, key: string, kept: bool, p: Policy, now: Collections) {
    && At(now, key) == (if kept then At(before, key) else Without(At(before, key), p.name))
    && (key in now <==> At(now, key) != [])
  }

  // ---- the reconcilers ----

  /** The keys of the first n groups, and of the first m operations of the group behind them. */
  ghost predicate AskedSoFar(groups: seq<AdmissionGroup>, n: nat, m: nat, key: string)
    requires n <= |groups|
  {
    || (exists i :: 0 <= i < n && Asks(groups[i], key))
    || (n < |groups| && exists j :: 0 <= j < m && AsksAt(groups[n], j, key))
  }

  /** Operation j of the group is supported and names this collection. */
  predicate AsksAt(group: AdmissionGroup, j: nat, key: string) {
    var operations := Expanded(group.operations);
    j < |operations| && operations[j] in OPERATIONS
    && key == AdmissionKey(group.group, group.version, group.resource, operations[j])
  }

  lemma AsksIsSomeAsksAt(group: AdmissionGroup, key: string)
    ensures Asks(group, key) <==> exists j :: 0 <= j < |Expanded(group.operations)| && AsksAt(group, j, key)
  {
    var operations := Expanded(group.operations);
    if Asks(group, key) {
      var j :| 0 <= j < |operations| && operations[j] in OPERATIONS
               && key == AdmissionKey(group.group, group.version, group.resource, operations[j]);
      assert AsksAt(group, j, key);
    }
  }

  /** The two nested loops over intercepted resources. */
  method RegisterIntercepted(store: PolicyStore, event: EventType, manifest: Policy, prioritized: bool)
    returns (desired: seq<string>)
    requires !manifest.Generation? && Valid(store.collections)
    modifies store
    ensures LoopState(old(store.collections), event, desired, manifest, prioritized, store.collections)
    ensures event.Modified? ==> forall key :: key in desired <==> Desires(manifest, key)
  {
    ghost var start := store.collections;
    desired := [];
    var groups := manifest.intercepted;
    for n := 0 to |groups|
      invariant LoopState(start, event, desired, manifest, prioritized, store.collections)
      invariant event.Modified? ==> forall key :: key in desired <==> AskedSoFar(groups, n, 0, key)
    {
      var operations := Expanded(groups[n].operations);
      for m := 0 to |operations|
        invariant LoopState(start, event, desired, manifest, prioritized, store.collections)
        invariant event.Modified? ==> forall key :: key in desired <==> AskedSoFar(groups, n, m, key)
      {
        AskedOneMore(groups, n, m);
        if operations[m] !in OPERATIONS {
          assert forall key :: AskedSoFar(groups, n, m + 1, key) <==> AskedSoFar(groups, n, m, key);
          continue;
        }
        var watchedType := AdmissionKey(groups[n].group, groups[n].version, groups[n].resource, operations[m]);
        assert forall key :: AsksAt(groups[n], m, key) <==> key == watchedType;
        assert forall key :: AskedSoFar(groups, n, m + 1, key) <==> AskedSoFar(groups, n, m, key) || key == watchedType;
        desired := RegisterType(store, event, manifest, watchedType, desired, prioritized, start);
      }
      AskedGroup(groups, n);
    }
    AskedAll(manifest);
  }

  lemma AskedOneMore(groups: seq<AdmissionGroup>, n: nat, m: nat)
    requires n < |groups|
    ensures forall key :: AskedSoFar(groups, n, m + 1, key) <==> AskedSoFar(groups, n, m, key) || AsksAt(groups[n], m, key)
  {
  }

  lemma AskedGroup(groups: seq<AdmissionGroup>, n: nat)
    requires n < |groups|
    ensures forall key :: AskedSoFar(groups, n, |Expanded(groups[n].operations)|, key) <==> AskedSoFar(groups, n + 1, 0, key)
  {
    forall key
      ensures AskedSoFar(groups, n, |Expanded(groups[n].operations)|, key) <==> AskedSoFar(groups, n + 1, 0, key)
    {
      AsksIsSomeAsksAt(groups[n], key);
    }
  }

  lemma AskedAll(p: Policy)
    requires !p.Generation?
    ensures forall key :: AskedSoFar(p.intercepted, |p.intercepted|, 0, key) <==> Desires(p, key)
  {
  }

  /** The loop over watched resources. */
  method RegisterWatched(store: PolicyStore, event: EventType, manifest: Policy) returns (desired: seq<string>)
    requires manifest.Generation? && Valid(store.collections)
    modifies store
    ensures LoopState(old(store.collections), event, desired, manifest, false, store.collections)
    ensures event.Modified? ==> forall key :: key in desired <==> Desires(manifest, key)
  {
    ghost var start := store.collections;
    desired := [];
    for n := 0 to |manifest.watched|
      invariant LoopState(start, event, desired, manifest, false, store.collections)
      invariant event.Modified? ==> forall key :: key in desired <==> exists i :: 0 <= i < n && key == WatchKey(manifest.watched[i])
    {
      desired := RegisterType(store, event, manifest, WatchKey(manifest.watched[n]), desired, false, start);
    }
  }

  /** Both loops together are one step. */
  lemma LoopsMakeStep(start: Collections, event: EventType, desired: seq<string>, p: Policy, prioritized: bool,
                      mid: Collections, after: Collections)
    requires Valid(start) && LoopState(start, event, desired, p, prioritized, mid)
    requires event.Modified? ==> forall key :: key in desired <==> Desires(p, key)
    requires forall key :: CleanedAt(mid, key, key in desired, p, after)
    ensures Step(start, event, p, prioritized, after)
  {
    forall key ensures CollectionStep(At(start, key), key, event, p, prioritized, after) {
      assert CleanedAt(mid, key, key in desired, p, after);
      ValidAt(start, key);
      var list := At(start, key);
      if event.Modified? {
        assert UpsertingAt(start, key, key in desired, p, prioritized, mid);
        if key in desired {
          UpsertedMembers(list, p);
        } else if SortedBy(list, BeforeByPriority) {
          WithoutSorted(list, p.name);
        }
      } else {
        assert RemovingAt(list, p, prioritized, key in mid, At(mid, key));
        RemovedAt(list, p, prioritized, At(mid, key));
      }
    }
  }

  lemma MidHasNoEmpty(start: Collections, event: EventType, desired: seq<string>, p: Policy, prioritized: bool, mid: Collections)
    requires Valid(start) && LoopState(start, event, desired, p, prioritized, mid)
    ensures forall key :: key in mid ==> mid[key] != []
  {
    forall key | key in mid ensures mid[key] != [] {
      ValidAt(start, key);
      if event.Modified? {
        assert UpsertingAt(start, key, key in desired, p, prioritized, mid);
        UpsertedMembers(At(start, key), p);
      } else {
        assert RemovingAt(At(start, key), p, prioritized, key in mid, At(mid, key));
      }
    }
  }

  method ReconcileClusterMutationPolicy(store: PolicyStore, eventType: EventType, manifest: Policy)
    requires manifest.Mutation? && Valid(store.collections)
    modifies store
    ensures Step(old(store.collections), eventType, manifest, true, store.collections)
    ensures Valid(store.collections)
    ensures AllByPriority(old(store.collections)) ==> AllByPriority(store.collections)
  {
    ghost var start := store.collections;
    var desired := RegisterIntercepted(store, eventType, manifest, true);
    MidHasNoEmpty(start, eventType, desired, manifest, true, store.collections);
    ghost var mid := store.collections;
    CleanUndesired(store, desired, manifest);
    LoopsMakeStep(start, eventType, desired, manifest, true, mid, store.collections);
    StepKeepsValid(start, eventType, manifest, true, store.collections);
    StepByPriority(start, eventType, manifest, store.collections);
  }

  method ReconcileClusterValidationPolicy(store: PolicyStore, eventType: EventType, manifest: Policy)
    requires manifest.Validation? && Valid(store.collections)
    modifies store
    ensures Step(old(store.collections), eventType, manifest, false, store.collections)
    ensures Valid(store.collections)
  {
    ghost var start := store.collections;
    var desired := RegisterIntercepted(store, eventType, manifest, false);
    MidHasNoEmpty(start, eventType, desired, manifest, false, store.collections);
    ghost var mid := store.collections;
    CleanUndesired(store, desired, manifest);
    LoopsMakeStep(start, eventType, desired, manifest, false, mid, store.collections);
    StepKeepsValid(start, eventType, manifest, false, store.collections);
  }

  method ReconcileClusterGenerationPolicy(store: PolicyStore, eventType: EventType, manifest: Policy)
    requires manifest.Generation? && Valid(store.collections)
    modifies store
    ensures Step(old(store.collections), eventType, manifest, false, store.collections)
    ensures Valid(store.collections)
  {
    ghost var start := store.collections;
    var desired := RegisterWatched(store, eventType, manifest);
    MidHasNoEmpty(start, eventType, desired, manifest, false, store.collections);
    ghost var mid := store.collections;
    CleanUndesired(store, desired, manifest);
    LoopsMakeStep(start, eventType, desired, manifest, false, mid, store.collections);
    StepKeepsValid(start, eventType, manifest, false, store.collections);
  }

  // ---- whole runs ----

  lemma WantedMembers(list: seq<Policy>, key: string, event: EventType, p: Policy)
    requires UniqueNames(list)
    ensures UniqueNames(Wanted(list, key, event, p))
    ensures forall q :: q in Wanted(list, key, event, p) <==>
              (q == p && event.Modified? && Desires(p, key)) || (q in list && q.name != p.name)
  {
    UpsertedMembers(list, p);
    WithoutMembers(list, p.name);
  }

  lemma StepKeepsValid(c: Collections, event: EventType, p: Policy, prioritized: bool, after: Collections)
    requires Valid(c) && Step(c, event, p, prioritized, after)
    ensures Valid(after)
  {
    forall key | key in after ensures after[key] != [] && UniqueNames(after[key]) {
      assert CollectionStep(At(c, key), key, event, p, prioritized, after);
      ValidAt(c, key);
      WantedMembers(At(c, key), key, event, p);
      ReorderedUnique(Wanted(At(c, key), key, event, p), after[key]);
    }
  }

  /** A step with a mutation policy keeps every collection in ascending priority. */
  lemma StepByPriority(c: Collections, event: EventType, p: Policy, after: Collections)
    requires Valid(c) && p.Mutation? && Step(c, event, p, true, after)
    ensures AllByPriority(c) ==> AllByPriority(after)
  {
    if AllByPriority(c) {
      forall key | key in after ensures ByPriority(after[key]) {
        assert CollectionStep(At(c, key), key, event, p, true, after);
        ValidAt(c, key);
        WantedMembers(At(c, key), key, event, p);
        SameMultisetSameMembers(after[key], Wanted(At(c, key), key, event, p));
        AllMutations(At(c, key), p, after[key]);
        SortedByPriority(At(c, key));
        SortedByPriority(after[key]);
      }
    }
  }

  lemma AllMutations(list: seq<Policy>, p: Policy, after: seq<Policy>)
    requires p.Mutation? && ByPriority(list) && forall q :: q in after ==> q == p || q in list
    ensures forall i :: 0 <= i < |after| ==> after[i].Mutation?
  {
    forall i | 0 <= i < |after| ensures after[i].Mutation? {
      assert after[i] in after;
    }
  }

  /** After every run of the mutation reconciler every collection is in ascending order of the priority fields. */
  lemma {:induction false} RunByPriority(states: seq<Collections>, events: seq<Event>)
    requires Run(states, events, true) && forall i :: 0 <= i < |events| ==> events[i].manifest.Mutation?
    ensures forall key, i, j :: key in states[|events|] && 0 <= i < j < |states[|events|][key]| ==>
              && states[|events|][key][i].Mutation? && states[|events|][key][j].Mutation?
              && states[|events|][key][i].priority <= states[|events|][key][j].priority
  {
    RunAllByPriority(states, events);
    assert forall key :: key in states[|events|] ==> ByPriority(states[|events|][key]);
  }

  lemma {:induction false} RunAllByPriority(states: seq<Collections>, events: seq<Event>)
    requires Run(states, events, true) && forall i :: 0 <= i < |events| ==> events[i].manifest.Mutation?
    ensures Valid(states[|events|]) && AllByPriority(states[|events|])
  {
    if events != [] {
      var n := |events| - 1;
      RunAllByPriority(states[..n + 1], events[..n]);
      StepKeepsValid(states[n], events[n].kind, events[n].manifest, true, states[n + 1]);
      StepByPriority(states[n], events[n].kind, events[n].manifest, states[n + 1]);
    }
  }

  /** The latest live manifest of every name. */
  type Manifests = map<string, Policy>

  function After(live: Manifests, event: EventType, p: Policy): Manifests {
    if event.Modified? then live[p.name := p] else live - {p.name}
  }

  /** The registry is the index of the live manifests: a collection holds exactly those that want to be in it,
      each once and at its latest version, and exists exactly when there is one. */
  ghost predicate Indexes(c: Collections, live: Manifests) {
    Valid(c) &&
    forall key, q :: q in At(c, key) <==> (q.name in live && live[q.name] == q && Desires(q, key))
  }

  ghost predicate Prioritized(c: Collections) {
    forall key :: key in c ==> SortedBy(c[key], BeforeByPriority)
  }

  lemma StepMember(c: Collections, live: Manifests, event: EventType, p: Policy, prioritized: bool, after: Collections,
                   key: string, q: Policy)
    requires Indexes(c, live) && Step(c, event, p, prioritized, after)
    ensures var now := After(live, event, p);
            q in At(after, key) <==> (q.name in now && now[q.name] == q && Desires(q, key))
  {
    assert CollectionStep(At(c, key), key, event, p, prioritized, after);
    ValidAt(c, key);
    CollectionMember(At(c, key), key, event, p, prioritized, after, q);
    NextLive(live, event, p, q, q in At(c, key), Desires(q, key));
  }

  /** What is wanted and live afterwards, in terms of what was live before. */
  lemma NextLive(live: Manifests, event: EventType, p: Policy, q: Policy, before: bool, desired: bool)
    requires before <==> q.name in live && live[q.name] == q && desired
    ensures var now := After(live, event, p);
            (q.name in now && now[q.name] == q && desired) <==>
            (q == p && event.Modified? && desired) || (before && q.name != p.name)
  {
  }

  lemma CollectionMember(list: seq<Policy>, key: string, event: EventType, p: Policy, prioritized: bool, after: Collections,
                         q: Policy)
    requires UniqueNames(list) && CollectionStep(list, key, event, p, prioritized, after)
    ensures q in At(after, key) <==> (q == p && event.Modified? && Desires(p, key)) || (q in list && q.name != p.name)
  {
    WantedMembers(list, key, event, p);
    SameMultisetSameMembers(Wanted(list, key, event, p), At(after, key));
  }

  lemma StepIndexes(c: Collections, live: Manifests, event: EventType, p: Policy, prioritized: bool, after: Collections)
    requires Indexes(c, live) && Step(c, event, p, prioritized, after)
    ensures Indexes(after, After(live, event, p))
    ensures prioritized && Prioritized(c) ==> Prioritized(after)
  {
    StepKeepsValid(c, event, p, prioritized, after);
    var now := After(live, event, p);
    forall key, q ensures q in At(after, key) <==> (q.name in now && now[q.name] == q && Desires(q, key)) {
      StepMember(c, live, event, p, prioritized, after, key, q);
    }
    if prioritized && Prioritized(c) {
      forall key | key in after ensures SortedBy(after[key], BeforeByPriority) {
        assert CollectionStep(At(c, key), key, event, p, prioritized, after);
      }
    }
  }

  datatype Event = Event(kind: EventType, manifest: Policy)

  /** A run: the registry before the first and after every reconcile, starting empty. */
  ghost predicate Run(states: seq<Collections>, events: seq<Event>, prioritized: bool) {
    && |states| == |events| + 1 && states[0] == map[]
    && forall i :: 0 <= i < |events| ==> Step(states[i], events[i].kind, events[i].manifest, prioritized, states[i + 1])
  }

  function Live(events: seq<Event>): Manifests {
    if events == [] then map[]
    else After(Live(events[..|events| - 1]), events[|events| - 1].kind, events[|events| - 1].manifest)
  }

  lemma {:induction false} LiveNamed(events: seq<Event>)
    ensures Named(Live(events))
  {
    if events != [] {
      LiveNamed(events[..|events| - 1]);
    }
  }

  ghost predicate Named(live: Manifests) {
    forall n :: n in live ==> live[n].name == n
  }

  /** A live manifest is one of those that were reconciled. */
  lemma {:induction false} LiveWasReconciled(events: seq<Event>, n: string) returns (i: nat)
    requires n in Live(events)
    ensures i < |events| && events[i].manifest == Live(events)[n]
  {
    var last := |events| - 1;
    if events[last].kind.Modified? && events[last].manifest.name == n {
      i := last;
    } else {
      i := LiveWasReconciled(events[..last], n);
    }
  }

  /** After every finite run the registry is the index recomputed from the latest live manifests, and the
      collections of the mutation registry are in ascending priority. */
  lemma {:induction false} RunIndexes(states: seq<Collections>, events: seq<Event>, prioritized: bool)
    requires Run(states, events, prioritized)
    ensures Indexes(states[|events|], Live(events))
    ensures prioritized ==> Prioritized(states[|events|])
  {
    if events != [] {
      var n := |events| - 1;
      RunIndexes(states[..n + 1], events[..n], prioritized);
      StepIndexes(states[n], Live(events[..n]), events[n].kind, events[n].manifest, prioritized, states[n + 1]);
    }
  }

  lemma SameMembersAt(c: Collections, d: Collections, live: Manifests, key: string, q: Policy)
    requires Indexes(c, live) && Indexes(d, live)
    ensures q in At(c, key) <==> q in At(d, key)
  {
  }

  lemma SameCollection(c: Collections, d: Collections, live: Manifests, key: string)
    requires Indexes(c, live) && Indexes(d, live)
    ensures key in c ==> key in d && multiset(c[key]) == multiset(d[key])
  {
    ValidAt(c, key);
    ValidAt(d, key);
    if key in c {
      SameMembersAt(c, d, live, key, c[key][0]);
      forall q ensures multiset(c[key])[q] == multiset(At(d, key))[q] {
        SameMembersAt(c, d, live, key, q);
        UniqueCount(c[key], q);
        UniqueCount(At(d, key), q);
      }
    }
  }

  /** Two registries that index the same manifests have the same collections, up to order within each. */
  lemma IndexDetermines(c: Collections, d: Collections, live: Manifests)
    requires Indexes(c, live) && Indexes(d, live)
    ensures c.Keys == d.Keys && forall key :: key in c ==> multiset(c[key]) == multiset(d[key])
  {
    forall key ensures key in c <==> key in d {
      SameCollection(c, d, live, key);
      SameCollection(d, c, live, key);
    }
    forall key | key in c ensures multiset(c[key]) == multiset(d[key]) {
      SameCollection(c, d, live, key);
    }
  }

  lemma UniqueCount(list: seq<Policy>, q: Policy)
    requires UniqueNames(list)
    ensures multiset(list)[q] == if q in list then 1 else 0
  {
    NoRepeatsCount(list, q);
  }
}
