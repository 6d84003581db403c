/** The pools of watched objects, updated by watch events, and their filtering for a policy. */
module SourcesRegistry {
  import opened Options
  import opened Strings
  import opened GoValues
  import opened Objects
  import opened Watch

  // ---- the pool of one type ----

  type Pool = seq<Object>

  datatype Scan = Found(index: nat) | Missing | Broken(why: BasicData)

  /** The search of RemoveResource: it stops at the object, or at an object whose data cannot be read. */
  function Locate(pool: Pool, identity: Identity): (r: Scan)
    ensures r.Found? ==> r.index < |pool|
  {
    if pool == [] then Missing else
    var data := BasicDataOf(pool[0]);
    if !data.Data? then Broken(data)
    else if data.identity == identity then Found(0)
    else
      var rest := Locate(pool[1..], identity);
      if rest.Found? then Found(rest.index + 1) else rest
  }

  datatype PoolResult = Fine(pool: Pool) | Failed(why: BasicData)

  function Removed(pool: Pool, obj: Object): PoolResult {
    var data := BasicDataOf(obj);
    if !data.Data? then Failed(data) else
    match Locate(pool, data.identity)
    case Broken(why) => Failed(why)
    case Missing => Fine(pool)
    case Found(i) => Fine(pool[..i] + pool[i + 1..])
  }

  function Processed(pool: Pool, event: EventType, obj: Object): PoolResult {
    match event
    case Deleted => Removed(pool, obj)
    case Added => Fine(pool + [obj])
    case Modified =>
      var removed := Removed(pool, obj);
      if removed.Failed? then removed else Fine(removed.pool + [obj])
    case _ => Fine(pool)
  }

  class SourcesRegistry {
    var informers: map<string, Pool>

    constructor ()
      ensures informers == map[]
    {
      informers := map[];
    }

    method RegisterInformer(rt: string)
      modifies this
      ensures informers == old(informers)[rt := []]
    {
      informers := informers[rt := []];
    }

    method GetResources(rt: string) returns (results: Pool)
      ensures results == if rt in informers then informers[rt] else []
    {
      if rt !in informers {
        return [];
      }
      results := informers[rt];
    }

    method AddResource(rt: string, resource: Object)
      requires rt in informers
      modifies this
      ensures informers == old(informers)[rt := old(informers)[rt] + [resource]]
    {
      informers := informers[rt := informers[rt] + [resource]];
    }

    /** None is success. */
    method RemoveResource(rt: string, resource: Object) returns (err: Option<BasicData>)
      requires rt in informers
      modifies this
      ensures match Removed(old(informers)[rt], resource)
              case Fine(pool) => err.None? && informers == old(informers)[rt := pool]
              case Failed(why) => err == Some(why) && informers == old(informers)
    {
      var data := BasicDataOf(resource);
      if !data.Data? {
        return Some(data);
      }
      var pool := informers[rt];
      var index := -1;
      for itemIndex := 0 to |pool|
        invariant index == -1 && informers == old(informers)
        invariant Shifted(Locate(pool[itemIndex..], data.identity), itemIndex) == Locate(pool, data.identity)
      {
        assert pool[itemIndex..][1..] == pool[itemIndex + 1..];
        var objectData := BasicDataOf(pool[itemIndex]);
        if !objectData.Data? {
          return Some(objectData);
        }
        if objectData.identity == data.identity {
          index := itemIndex;
          break;
        }
      }
      if index != -1 {
        informers := informers[rt := pool[..index] + pool[index + 1..]];
      }
      err := None;
    }

    /** processEvent, on the first object of the event. */
    method ProcessEvent(rt: string, event: EventType, obj: Object) returns (err: Option<BasicData>)
      requires rt in informers
      modifies this
      ensures match Processed(old(informers)[rt], event, obj)
              case Fine(pool) => err.None? && informers == old(informers)[rt := pool]
              case Failed(why) => err == Some(why) && informers == old(informers)
    {
      if event != Added && event != Modified && event != Deleted {
        return None;
      }
      if event == Deleted {
        err := RemoveResource(rt, obj);
        return;
      }
      if event == Modified {
        err := RemoveResource(rt, obj);
        if err.Some? {
          return;
        }
      }
      AddResource(rt, obj);
      err := None;
    }
  }

  function Shifted(scan: Scan, n: nat): Scan {
    if scan.Found? then Found(scan.index + n) else scan
  }

  // ---- whole histories ----

  datatype Event = Event(kind: EventType, obj: Object)

  type Live = map<Identity, Object>

  function After(live: Live, e: Event): Live
    requires HasIdentity(e.obj)
  {
    match e.kind
    case Added => live[IdentityOf(e.obj) := e.obj]
    case Modified => live[IdentityOf(e.obj) := e.obj]
    case Deleted => live - {IdentityOf(e.obj)}
    case _ => live
  }

  /** Objects carry an identity, and Added only announces objects that are not live. */
  predicate Fits(live: Live, e: Event) {
    HasIdentity(e.obj) && (e.kind.Added? ==> IdentityOf(e.obj) !in live)
  }

  predicate WellFormed(events: seq<Event>)
    decreases |events|, 0
  {
    events == [] ||
    (WellFormed(events[..|events| - 1]) && Fits(LiveAfter(events[..|events| - 1]), events[|events| - 1]))
  }

  function LiveAfter(events: seq<Event>): Live
    requires WellFormed(events)
    decreases |events|, 1
  {
    if events == [] then map[] else After(LiveAfter(events[..|events| - 1]), events[|events| - 1])
  }

  predicate Identified(pool: Pool) {
    forall i :: 0 <= i < |pool| ==> HasIdentity(pool[i])
  }

  function Identities(pool: Pool): (ids: seq<Identity>)
    requires Identified(pool)
    ensures |ids| == |pool| && forall i :: 0 <= i < |pool| ==> ids[i] == IdentityOf(pool[i])
  {
    seq(|pool|, i requires 0 <= i < |pool| => IdentityOf(pool[i]))
  }

  /** Every live object is in the pool exactly once, at its latest version, and nothing else is. */
  ghost predicate Agrees(pool: Pool, live: Live) {
    Identified(pool) && Lists(Identities(pool), pool, live)
  }

  ghost predicate Lists(ids: seq<Identity>, pool: Pool, live: Live) {
    && |ids| == |pool| && NoRepeats(ids)
    && (forall id :: id in live <==> id in ids)
    && (forall i :: 0 <= i < |ids| ==> live[ids[i]] == pool[i])
  }

  lemma {:induction false} LocateMeaning(pool: Pool, id: Identity)
    requires forall i :: 0 <= i < |pool| ==> HasIdentity(pool[i])
    ensures !Locate(pool, id).Broken?
    ensures Locate(pool, id).Found? ==> IdentityOf(pool[Locate(pool, id).index]) == id
    ensures Locate(pool, id).Missing? ==> forall i :: 0 <= i < |pool| ==> IdentityOf(pool[i]) != id
  {
    if pool != [] {
      LocateMeaning(pool[1..], id);
      assert forall i :: 1 <= i < |pool| ==> pool[i] == pool[1..][i - 1];
    }
  }

  lemma DroppedLists(ids: seq<Identity>, pool: Pool, live: Live, k: nat)
    requires Lists(ids, pool, live) && k < |pool|
    ensures Lists(ids[..k] + ids[k + 1..], pool[..k] + pool[k + 1..], live - {ids[k]})
  {
    DroppedMembers(ids, k, ids[..k] + ids[k + 1..]);
  }

  lemma DroppedAgrees(pool: Pool, live: Live, k: nat)
    requires Agrees(pool, live) && k < |pool|
    ensures Agrees(pool[..k] + pool[k + 1..], live - {IdentityOf(pool[k])})
  {
    var ids, rest := Identities(pool), pool[..k] + pool[k + 1..];
    DroppedLists(ids, pool, live, k);
    assert Identified(rest);
    assert Identities(rest) == ids[..k] + ids[k + 1..];
  }

  lemma RemovedAgrees(pool: Pool, live: Live, obj: Object)
    requires Agrees(pool, live) && HasIdentity(obj)
    ensures Removed(pool, obj).Fine?
    ensures Agrees(Removed(pool, obj).pool, live - {IdentityOf(obj)})
    ensures forall i :: 0 <= i < |Removed(pool, obj).pool| ==> IdentityOf(Removed(pool, obj).pool[i]) != IdentityOf(obj)
  {
    LocateMeaning(pool, IdentityOf(obj));
    var scan := Locate(pool, IdentityOf(obj));
    if scan.Found? {
      DroppedAgrees(pool, live, scan.index);
    } else {
      assert IdentityOf(obj) !in Identities(pool);
      assert live - {IdentityOf(obj)} == live;
    }
    var rest := Removed(pool, obj).pool;
    forall i | 0 <= i < |rest| ensures IdentityOf(rest[i]) != IdentityOf(obj) {
      assert Identities(rest)[i] in Identities(rest);
    }
  }

  lemma AddedAgrees(pool: Pool, live: Live, obj: Object)
    requires Agrees(pool, live) && HasIdentity(obj) && IdentityOf(obj) !in live
    ensures Agrees(pool + [obj], live[IdentityOf(obj) := obj])
  {
    assert Identities(pool + [obj]) == Identities(pool) + [IdentityOf(obj)];
  }

  /** One event keeps the agreement. */
  lemma ProcessedAgrees(pool: Pool, live: Live, e: Event)
    requires Agrees(pool, live) && Fits(live, e)
    ensures Processed(pool, e.kind, e.obj).Fine?
    ensures Agrees(Processed(pool, e.kind, e.obj).pool, After(live, e))
  {
    var id := IdentityOf(e.obj);
    RemovedAgrees(pool, live, e.obj);
    if e.kind.Modified? {
      AddedAgrees(Removed(pool, e.obj).pool, live - {id}, e.obj);
      assert (live - {id})[id := e.obj] == live[id := e.obj];
    } else if e.kind.Added? {
      AddedAgrees(pool, live, e.obj);
    }
  }

  /** A run of processEvent from an empty pool; an event that fails leaves the pool as it is. */
  ghost predicate Run(pools: seq<Pool>, events: seq<Event>) {
    && |pools| == |events| + 1 && pools[0] == []
    && forall i :: 0 <= i < |events| ==> RunStep(pools[i], events[i], pools[i + 1])
  }

  ghost predicate RunStep(pool: Pool, e: Event, after: Pool) {
    after == (match Processed(pool, e.kind, e.obj) case Fine(next) => next case Failed(_) => pool)
  }

  /** After every well-formed history the pool agrees with the live objects. */
  lemma {:induction false} RunAgrees(pools: seq<Pool>, events: seq<Event>)
    requires Run(pools, events) && WellFormed(events)
    ensures Agrees(pools[|events|], LiveAfter(events))
  {
    if events != [] {
      var n := |events| - 1;
      RunAgrees(pools[..n + 1], events[..n]);
      assert RunStep(pools[n], events[n], pools[n + 1]);
      ProcessedAgrees(pools[n], LiveAfter(events[..n]), events[n]);
    }
  }

  lemma {:induction false} LocateLast(pool: Pool, obj: Object)
    requires HasIdentity(obj) && forall i :: 0 <= i < |pool| ==> HasIdentity(pool[i])
    requires forall i :: 0 <= i < |pool| ==> IdentityOf(pool[i]) != IdentityOf(obj)
    ensures Locate(pool + [obj], IdentityOf(obj)) == Found(|pool|)
  {
    if pool != [] {
      LocateLast(pool[1..], obj);
      assert (pool + [obj])[1..] == pool[1..] + [obj];
      assert (pool + [obj])[0] == pool[0];
    }
  }

  /** The same Modified event again changes nothing, not even the order. */
  lemma RepeatedModified(pool: Pool, live: Live, obj: Object)
    requires Agrees(pool, live) && HasIdentity(obj)
    ensures Processed(pool, Modified, obj).Fine?
    ensures Processed(Processed(pool, Modified, obj).pool, Modified, obj) == Processed(pool, Modified, obj)
  {
    RemovedAgrees(pool, live, obj);
    var rest := Removed(pool, obj).pool;
    LocateLast(rest, obj);
    LastDropped(rest, obj);
  }

  // ---- objects whose data cannot be read ----

  /** Object i cannot be read, and the search for id does not end before it. */
  ghost predicate Blocks(pool: Pool, id: Identity, i: int) {
    && 0 <= i < |pool| && !HasIdentity(pool[i])
    && forall j :: 0 <= j < i ==> HasIdentity(pool[j]) && IdentityOf(pool[j]) != id
  }

  lemma {:induction false} BrokenExactly(pool: Pool, id: Identity)
    ensures Locate(pool, id).Broken? <==> exists i :: Blocks(pool, id, i)
  {
    if pool != [] {
      var tail := pool[1..];
      BrokenExactly(tail, id);
      if HasIdentity(pool[0]) && IdentityOf(pool[0]) != id {
        forall i | 1 <= i < |pool| ensures Blocks(pool, id, i) <==> Blocks(tail, id, i - 1) {
          BlocksBehind(pool, id, i);
        }
        if i :| Blocks(tail, id, i) {
          assert Blocks(pool, id, i + 1);
        }
        if i :| Blocks(pool, id, i) {
          assert Blocks(tail, id, i - 1);
        }
      } else {
        assert !HasIdentity(pool[0]) ==> Blocks(pool, id, 0);
      }
    }
  }

  lemma BlocksBehind(pool: Pool, id: Identity, i: int)
    requires 1 <= i < |pool| && HasIdentity(pool[0]) && IdentityOf(pool[0]) != id
    ensures Blocks(pool, id, i) <==> Blocks(pool[1..], id, i - 1)
  {
    assert forall j :: 0 <= j < |pool| - 1 ==> pool[1..][j] == pool[j + 1];
    if Blocks(pool[1..], id, i - 1) {
      forall j | 0 <= j < i ensures HasIdentity(pool[j]) && IdentityOf(pool[j]) != id {
        assert j > 0 ==> pool[1..][j - 1] == pool[j];
      }
    }
  }

  /** Exactly when an event fails, and leaves the pool as it is: it has to remove, and its object cannot be read
      or the search meets an unreadable object before one of the same identity. */
  lemma FailsExactly(pool: Pool, event: EventType, obj: Object)
    ensures Removed(pool, obj).Failed? <==> !HasIdentity(obj) || exists i :: Blocks(pool, IdentityOf(obj), i)
    ensures Processed(pool, event, obj).Failed? <==>
              && (event.Deleted? || event.Modified?)
              && (!HasIdentity(obj) || exists i :: Blocks(pool, IdentityOf(obj), i))
  {
    if HasIdentity(obj) {
      BrokenExactly(pool, IdentityOf(obj));
    }
  }

  /** No event ever takes an unreadable object out again. */
  lemma UnreadableStays(pool: Pool, event: EventType, obj: Object, x: Object)
    requires x in pool && !HasIdentity(x)
    ensures Processed(pool, event, obj).Fine? ==> x in Processed(pool, event, obj).pool
  {
    var i :| 0 <= i < |pool| && pool[i] == x;
    if Removed(pool, obj).Fine? {
      var scan := Locate(pool, IdentityOf(obj));
      var rest := Removed(pool, obj).pool;
      if scan.Found? {
        FoundHasIdentity(pool, IdentityOf(obj));
        DroppedKeeps(pool, scan.index, i);
      }
      assert x in rest;
      assert x in rest + [obj];
    }
    assert x in pool + [obj];
  }

  lemma {:induction false} FoundHasIdentity(pool: Pool, id: Identity)
    ensures Locate(pool, id).Found? ==> HasIdentity(pool[Locate(pool, id).index])
  {
    if pool != [] {
      FoundHasIdentity(pool[1..], id);
    }
  }

  const NAMELESS: Object := Obj(map["kind" := Str("Pod")])

  const POD: Object :=
    Obj(map["apiVersion" := Str("v1"), "kind" := Str("Pod"), "metadata" := Obj(map["name" := Str("p"), "namespace" := Str("n")])])

  /** An object without metadata, then a pod: the deletion of the pod fails, and it stays in the pool. */
  lemma DeletionBlocked()
    ensures Processed([NAMELESS, POD], Deleted, POD) == Failed(NoMetadata)
    ensures Processed([POD, NAMELESS], Deleted, POD) == Fine([NAMELESS])
  {
    SplitNone("v1", '/');
    assert GVKOf(POD).GVK?;
    assert BasicDataOf(POD) == Data(Identity("n", "p"));
    assert BasicDataOf(NAMELESS) == NoMetadata;
    assert [POD, NAMELESS][..0] + [POD, NAMELESS][1..] == [NAMELESS];
  }
}
