/** The registry of policies by collection name. Every method is one atomic step: it holds the mutex. */
module PolicyStore {
  import opened Ordering
  import opened Strings
  import opened Policies

  type Collections = map<string, seq<Policy>>

  function At(c: Collections, key: string): seq<Policy> {
    if key in c then c[key] else []
  }

  /** The position of the first policy with this name, or the length. */
  function FirstNamed(list: seq<Policy>, name: string): (i: nat)
    ensures i <= |list| && (i < |list| ==> list[i].name == name)
    ensures forall j :: 0 <= j < i ==> list[j].name != name
  {
    if list == [] || list[0].name == name then 0 else FirstNamed(list[1..], name) + 1
  }

  lemma FirstNamedIs(list: seq<Policy>, name: string, i: nat)
    requires i <= |list| && (i < |list| ==> list[i].name == name)
    requires forall j :: 0 <= j < i ==> list[j].name != name
    ensures FirstNamed(list, name) == i
  {
  }

  /** The list with the policy in place of the first of its name, or at the end. */
  function Upserted(list: seq<Policy>, policy: Policy): seq<Policy> {
    var i := FirstNamed(list, policy.name);
    if i < |list| then list[i := policy] else list + [policy]
  }

  /** The list without the first policy of that name. */
  function Without(list: seq<Policy>, name: string): seq<Policy> {
    var i := FirstNamed(list, name);
    if i < |list| then list[..i] + list[i + 1..] else list
  }

  /** The registry with a collection set, or dropped when it would be empty. */
  function Put(c: Collections, key: string, list: seq<Policy>): Collections {
    if list == [] then c - {key} else c[key := list]
  }

  /** The sources that policies of the registry refer to. */
  ghost predicate Refers(c: Collections, name: string) {
    exists key, i :: key in c && 0 <= i < |c[key]| && PolicyRefers(c[key][i], name)
  }

  ghost predicate SomeRefers(list: seq<Policy>, name: string) {
    exists i :: 0 <= i < |list| && PolicyRefers(list[i], name)
  }

  ghost predicate PolicyRefers(p: Policy, name: string) {
    exists i :: 0 <= i < |p.sources| && !IsZero(p.sources[i]) && name == SourceName(p.sources[i])
  }

  class PolicyStore {
    var collections: Collections

    constructor ()
      ensures collections == map[]
    {
      collections := map[];
    }

    method AddOrUpdateResource(collectionName: string, policy: Policy)
      modifies this
      ensures collections == Put(old(collections), collectionName, Upserted(At(old(collections), collectionName), policy))
    {
      var policies := At(collections, collectionName);
      for policyIndex := 0 to |policies|
        invariant collections == old(collections)
        invariant forall j :: 0 <= j < policyIndex ==> policies[j].name != policy.name
      {
        if policies[policyIndex].name == policy.name {
          collections := collections[collectionName := collections[collectionName][policyIndex := policy]];
          FirstNamedIs(policies, policy.name, policyIndex);
          return;
        }
      }
      FirstNamedIs(policies, policy.name, |policies|);
      collections := collections[collectionName := policies + [policy]];
    }

    method RemoveResource(collectionName: string, policy: Policy)
      modifies this
      ensures collections == Put(old(collections), collectionName, Without(At(old(collections), collectionName), policy.name))
    {
      var policies := At(collections, collectionName);
      var index := IndexOfName(policies, policy.name);
      if index != -1 {
        collections := collections[collectionName := policies[..index] + policies[index + 1..]];
      }
      if At(collections, collectionName) == [] {
        collections := collections - {collectionName};
      }
    }

    /** The search loop of RemoveResource. */
    static method IndexOfName(policies: seq<Policy>, name: string) returns (index: int)
      ensures index == if FirstNamed(policies, name) < |policies| then FirstNamed(policies, name) else -1
    {
      index := -1;
      for itemIndex := 0 to |policies|
        invariant index == -1 && forall j :: 0 <= j < itemIndex ==> policies[j].name != name
      {
        if policies[itemIndex].name == name {
          index := itemIndex;
          break;
        }
      }
      FirstNamedIs(policies, name, if index == -1 then |policies| else index);
    }

    method GetResources(collectionName: string) returns (list: seq<Policy>)
      ensures list == At(collections, collectionName)
    {
      list := if collectionName in collections then collections[collectionName] else [];
    }

    /** maps.Keys: each name once, in any order. */
    method GetCollectionNames() returns (names: seq<string>)
      ensures NoRepeats(names) && forall key :: key in names <==> key in collections
    {
      names := [];
      var todo := collections.Keys;
      while todo != {}
        invariant todo <= collections.Keys && NoRepeats(names)
        invariant forall key :: key in names <==> key in collections && key !in todo
      {
        var key :| key in todo;
        names := names + [key];
        todo := todo - {key};
      }
    }

    method GetReferencedSources() returns (names: seq<string>)
      ensures Ascending(names) && forall name :: name in names <==> Refers(collections, name)
    {
      var sourceTypes: seq<string> := [];
      var todo := collections.Keys;
      ghost var done: Collections := map[];
      while todo != {}
        invariant todo <= collections.Keys
        invariant done == map k | k in collections && k !in todo :: collections[k]
        invariant forall name :: name in sourceTypes <==> Refers(done, name)
      {
        var key :| key in todo;
        var more := SourcesOfAll(collections[key]);
        assert key !in done;
        RefersMore(done, key, collections[key]);
        done := done[key := collections[key]];
        assert forall name :: name in sourceTypes + more <==> Refers(done, name);
        sourceTypes := sourceTypes + more;
        todo := todo - {key};
      }
      assert done == collections;
      var sorted := Sorted(sourceTypes);
      SameMultisetSameMembers(sorted, sourceTypes);
      CompactSorted(sorted);
      names := Compact(sorted);
    }

    /** The two inner loops of GetReferencedSources. */
    static method SourcesOfAll(list: seq<Policy>) returns (names: seq<string>)
      ensures forall name :: name in names <==> SomeRefers(list, name)
    {
      names := [];
      for i := 0 to |list|
        invariant forall name :: name in names <==> exists j :: 0 <= j < i && PolicyRefers(list[j], name)
      {
        var sources := list[i].sources;
        ghost var before := names;
        for k := 0 to |sources|
          invariant forall name :: name in names <==>
                      name in before || exists j :: 0 <= j < k && !IsZero(sources[j]) && name == SourceName(sources[j])
        {
          if IsZero(sources[k]) {
            continue;
          }
          names := names + [SourceName(sources[k])];
        }
        assert forall name :: name in names <==> name in before || PolicyRefers(list[i], name);
      }
    }

    /** Sorts one collection in place; nothing is promised about policies that compare equal. */
    method SortCollection(collectionName: string, less: (Policy, Policy) -> bool)
      requires StrictWeakOrder(less)
      modifies this
      ensures collections.Keys == old(collections).Keys
      ensures forall key :: key in collections && key != collectionName ==> collections[key] == old(collections)[key]
      ensures collectionName in collections ==>
                && multiset(collections[collectionName]) == multiset(old(collections)[collectionName])
                && SortedBy(collections[collectionName], less)
    {
      var list := At(collections, collectionName);
      if list == [] {
        return;
      }
      collections := collections[collectionName := Sort(list, less)];
    }
  }

  lemma RefersMore(c: Collections, key: string, list: seq<Policy>)
    requires key !in c
    ensures forall name :: Refers(c[key := list], name) <==>
              Refers(c, name) || SomeRefers(list, name)
  {
    var more := c[key := list];
    forall name ensures Refers(more, name) <==> Refers(c, name) || SomeRefers(list, name) {
      if Refers(more, name) {
        var k, i :| k in more && 0 <= i < |more[k]| && PolicyRefers(more[k][i], name);
        assert k != key ==> k in c && PolicyRefers(c[k][i], name);
      }
      if Refers(c, name) {
        var k, i :| k in c && 0 <= i < |c[k]| && PolicyRefers(c[k][i], name);
        assert k in more && PolicyRefers(more[k][i], name);
      }
      if SomeRefers(list, name) {
        var i :| 0 <= i < |list| && PolicyRefers(list[i], name);
        assert PolicyRefers(more[key][i], name);
      }
    }
  }
}
