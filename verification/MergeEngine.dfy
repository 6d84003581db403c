/** The strategic merge engine: an order-free specification of what a merge yields, and the loops
    that compute it, which visit the keys of the patch in any order. */
module MergeEngine {
  import opened Options
  import opened Strings
  import opened GoValues
  import opened MergeSchema

  // ---- errors and outcomes ----

  /** Why an original list item was kept without a merge attempt. */
  datatype ItemError =
    | NotAnObject(index: nat, item: Value)
    | NoKeyField(index: nat, field: string)
    | EmptyKey(index: nat)

  /** The errors that a merge returns instead of a result. */
  datatype FatalError =
    | UnresolvedSchema
    | UnknownField(key: string)
    | UnresolvedField(key: string)
    | PatchItemNoKeyField(field: string)
    | PatchItemEmptyKey

  /** Why a merge gave no result: it returned an error, or it panicked on hashing a container. */
  datatype Cause = Panic | Fatal(error: FatalError)

  /** What a merge is specified to give. When several keys of the patch abort it, the order of
      iteration decides which of the causes is met. */
  datatype Outcome =
    | Abort(causes: set<Cause>)
    | Merged(value: Value, errors: multiset<ItemError>)

  /** How a merge ends: with an error, with a panic, or with a result and the accumulated partial
      errors (none is plain success). */
  datatype Result =
    | Failed(error: FatalError)
    | Panicked
    | Done(value: Value, errors: seq<ItemError>)

  function CauseOf(r: Result): Cause
    requires !r.Done?
  {
    if r.Panicked? then Panic else Fatal(r.error)
  }

  ghost predicate Implements(r: Result, spec: Outcome) {
    match spec
    case Abort(causes) => !r.Done? && CauseOf(r) in causes
    case Merged(value, errors) => r.Done? && r.value == value && multiset(r.errors) == errors
  }

  // ---- composite keys ----

  /** What %v prints for a value. */
  function Show(v: Value): string
    decreases v, 1, 0
  {
    match v
    case Null => "<nil>"
    case Bool(b) => if b then "true" else "false"
    case Num(text) => text
    case Str(s) => s
    case List(items) => "[" + ShowItems(v, |items|) + "]"
    case Obj(fields) => "map[" + ShowFields(v, SortedKeys(fields.Keys)) + "]"
    case NilList => "[]"
    case NilObj => "map[]"
  }

  function ShowItems(list: Value, n: nat): string
    requires list.List? && n <= |list.items|
    decreases list, 0, n
  {
    if n == 0 then ""
    else if n == 1 then Show(list.items[0])
    else ShowItems(list, n - 1) + " " + Show(list.items[n - 1])
  }

  function ShowFields(obj: Value, keys: seq<string>): string
    requires obj.Obj? && forall k :: k in keys ==> k in obj.fields
    decreases obj, 0, |keys|
  {
    if keys == [] then ""
    else if |keys| == 1 then keys[0] + ":" + Show(obj.fields[keys[0]])
    else keys[0] + ":" + Show(obj.fields[keys[0]]) + " " + ShowFields(obj, keys[1..])
  }

  datatype KeyResult = NoField(field: string) | Key(text: string)

  function FirstMissing(item: map<string, Value>, keys: seq<string>): (r: Option<string>)
    ensures r.None? <==> forall i :: 0 <= i < |keys| ==> keys[i] in item
  {
    if keys == [] then None
    else if keys[0] !in item then Some(keys[0])
    else FirstMissing(item, keys[1..])
  }

  function KeyParts(item: map<string, Value>, keys: seq<string>): seq<string>
    requires forall i :: 0 <= i < |keys| ==> keys[i] in item
  {
    seq(|keys|, i requires 0 <= i < |keys| => Show(item[keys[i]]))
  }

  function CompositeKey(item: map<string, Value>, keys: seq<string>): KeyResult {
    var missing := FirstMissing(item, keys);
    if missing.Some? then NoField(missing.value)
    else Key(Join(KeyParts(item, keys), "::"))
  }

  method GenerateCompositeKey(item: map<string, Value>, mergeKeys: seq<string>) returns (r: KeyResult)
    ensures r == CompositeKey(item, mergeKeys)
  {
    var parts: seq<string> := [];
    for i := 0 to |mergeKeys|
      invariant forall j :: 0 <= j < i ==> mergeKeys[j] in item
      invariant FirstMissing(item, mergeKeys) == FirstMissing(item, mergeKeys[i..])
      invariant parts == KeyParts(item, mergeKeys[..i])
    {
      var key := mergeKeys[i];
      if key !in item {
        return NoField(key);
      }
      parts := parts + [Show(item[key])];
    }
    assert mergeKeys[..|mergeKeys|] == mergeKeys;
    r := Key(Join(parts, "::"));
  }

  // ---- lists merged by whole value ----

  /** Go panics when a container is used as a map key. */
  predicate Hashable(v: Value) {
    !IsMap(v) && !IsList(v)
  }

  /** The members of xs that are not yet in acc, each once, after acc. */
  function AddNew(acc: seq<Value>, xs: seq<Value>): seq<Value> {
    if xs == [] then acc else
    var before := AddNew(acc, xs[..|xs| - 1]);
    if xs[|xs| - 1] in before then before else before + [xs[|xs| - 1]]
  }

  function ScalarUnion(original: seq<Value>, patch: seq<Value>): seq<Value> {
    AddNew(AddNew([], original), patch)
  }

  predicate AllHashable(items: seq<Value>) {
    forall i :: 0 <= i < |items| ==> Hashable(items[i])
  }

  /** None is the panic. */
  method MergeScalarList(original: seq<Value>, patch: seq<Value>) returns (r: Option<seq<Value>>)
    ensures r == if AllHashable(original) && AllHashable(patch) then Some(ScalarUnion(original, patch)) else None
  {
    var seen: set<Value>, result := {}, [];
    for i := 0 to |original|
      invariant AllHashable(original[..i])
      invariant result == AddNew([], original[..i])
      invariant forall x :: x in seen <==> x in result
    {
      if !Hashable(original[i]) {
        return None;
      }
      assert original[..i + 1][..i] == original[..i];
      if original[i] !in seen {
        result := result + [original[i]];
        seen := seen + {original[i]};
      }
    }
    assert original[..|original|] == original;
    for i := 0 to |patch|
      invariant AllHashable(patch[..i])
      invariant result == AddNew(AddNew([], original), patch[..i])
      invariant forall x :: x in seen <==> x in result
    {
      if !Hashable(patch[i]) {
        return None;
      }
      assert patch[..i + 1][..i] == patch[..i];
      if patch[i] !in seen {
        result := result + [patch[i]];
        seen := seen + {patch[i]};
      }
    }
    assert patch[..|patch|] == patch;
    r := Some(result);
  }

  // ---- lists merged by key ----

  datatype IndexResult = IndexError(error: FatalError) | Index(entries: map<string, Value>)

  /** The patch items by composite key; the last of several with one key wins. */
  function PatchIndex(items: seq<Value>, keys: seq<string>): (r: IndexResult)
    ensures r.Index? ==> forall c :: c in r.entries ==> IsMap(r.entries[c]) && r.entries[c] in items
  {
    if items == [] then Index(map[]) else
    var before := PatchIndex(items[..|items| - 1], keys);
    var item := items[|items| - 1];
    if before.IndexError? || !IsMap(item) then before
    else
      match CompositeKey(Fields(item), keys)
      case NoField(field) => IndexError(PatchItemNoKeyField(field))
      case Key(key) => if key == "" then IndexError(PatchItemEmptyKey) else Index(before.entries[key := item])
  }

  /** The key under which an original item is looked up, or why it is kept as it is. */
  datatype ItemKey = Keyed(key: string) | Unkeyed(error: ItemError)

  function KeyOfItem(index: nat, item: Value, keys: seq<string>): ItemKey {
    if !IsMap(item) then Unkeyed(NotAnObject(index, item)) else
    match CompositeKey(Fields(item), keys)
    case NoField(field) => Unkeyed(NoKeyField(index, field))
    case Key(key) => if key == "" then Unkeyed(EmptyKey(index)) else Keyed(key)
  }

  datatype ItemsOutcome =
    | ItemsAbort(causes: set<Cause>)
    | ItemsMerged(items: seq<Value>, errors: multiset<ItemError>, rest: map<string, Value>)

  /** Every entry of the index is an object and an item of the patch list. */
  ghost predicate IndexOf(index: map<string, Value>, patch: Value) {
    IsList(patch) && forall c :: c in index ==> IsMap(index[c]) && index[c] in Items(patch)
  }

  /** One original item: kept, or merged with the entry of its key. */
  ghost function MergeItem(models: Models, i: nat, item: Value, rest: map<string, Value>,
                           keys: seq<string>, itemSchema: Option<Schema>, patch: Value): Outcome
    requires IndexOf(rest, patch)
    decreases patch, 1, 0
  {
    match KeyOfItem(i, item, keys)
    case Unkeyed(error) => Merged(item, multiset{error})
    case Keyed(key) =>
      if key in rest then MergeObject(models, item, rest[key], itemSchema) else Merged(item, multiset{})
  }

  /** The original items in order; an entry of the index is gone once an item used it. */
  ghost function MergeItems(models: Models, original: seq<Value>, index: map<string, Value>,
                            keys: seq<string>, itemSchema: Option<Schema>, patch: Value): (r: ItemsOutcome)
    requires IndexOf(index, patch)
    ensures r.ItemsMerged? ==> IndexOf(r.rest, patch)
    decreases patch, 1, |original| + 1
  {
    if original == [] then ItemsMerged([], multiset{}, index) else
    var n := |original| - 1;
    match MergeItems(models, original[..n], index, keys, itemSchema, patch)
    case ItemsAbort(causes) => ItemsAbort(causes)
    case ItemsMerged(items, errors, rest) =>
      match MergeItem(models, n, original[n], rest, keys, itemSchema, patch)
      case Abort(causes) => ItemsAbort(causes)
      case Merged(value, more) => ItemsMerged(items + [value], errors + more, Used(rest, KeyOfItem(n, original[n], keys)))
  }

  function Used(rest: map<string, Value>, key: ItemKey): map<string, Value> {
    if key.Keyed? then rest - {key.key} else rest
  }

  /** The entries no original item used, in the order of their keys. */
  function NewItems(rest: map<string, Value>): (r: seq<Value>)
    ensures |r| == |rest|
    ensures forall i :: 0 <= i < |r| ==> SortedKeys(rest.Keys)[i] in rest && r[i] == rest[SortedKeys(rest.Keys)[i]]
  {
    var keys := SortedKeys(rest.Keys);
    seq(|keys|, i requires 0 <= i < |keys| => rest[keys[i]])
  }

  /** A keyed merge that appends nothing returns a nil slice. */
  function ResultList(items: seq<Value>): Value {
    if items == [] then NilList else List(items)
  }

  /** How a keyed merge ends, given how its original items do. */
  ghost function Assembled(merged: ItemsOutcome): Outcome {
    match merged
    case ItemsAbort(causes) => Abort(causes)
    case ItemsMerged(items, errors, rest) => Merged(ResultList(items + NewItems(rest)), errors)
  }

  ghost function MergeList(models: Models, original: seq<Value>, patch: Value,
                            strategy: PatchStrategy, listSchema: Option<Schema>): Outcome
    requires IsList(patch)
    decreases patch, 2, 0
  {
    if strategy.Replace? then Merged(patch, multiset{})
    else if strategy.keys == [] then
      if AllHashable(original) && AllHashable(Items(patch))
      then Merged(List(ScalarUnion(original, Items(patch))), multiset{})
      else Abort({Panic})
    else
      match PatchIndex(Items(patch), strategy.keys)
      case IndexError(error) => Abort({Fatal(error)})
      case Index(index) =>
        Assembled(MergeItems(models, original, index, strategy.keys, ItemSchema(listSchema), patch))
  }

  // ---- objects ----

  /** One key of the patch, given what the copied original holds there. */
  ghost function MergeField(models: Models, original: Option<Value>, patch: Value, schema: Option<Schema>): Outcome
    decreases patch, 3, 0
  {
    if IsMap(patch) && original.Some? && IsMap(original.value) then
      if StrategyOf(schema).Replace? then Merged(patch, multiset{})
      else MergeObject(models, original.value, patch, schema)
    else if IsList(patch) then
      MergeList(models, if original.Some? && IsList(original.value) then Items(original.value) else [],
                 patch, StrategyOf(schema), schema)
    else
      Merged(patch, multiset{})
  }

  function Lookup(fields: map<string, Value>, key: string): Option<Value> {
    if key in fields then Some(fields[key]) else None
  }

  ghost function MergeKey(models: Models, base: map<string, Value>, patch: Value, schema: Schema, key: string): Outcome
    requires IsMap(patch) && key in Fields(patch)
    decreases patch, 0, 0
  {
    match FieldSchema(models, schema, key)
    case Unknown => Abort({Fatal(UnknownField(key))})
    case Unresolved => Abort({Fatal(UnresolvedField(key))})
    case Known(fieldSchema) => MergeField(models, Lookup(base, key), Fields(patch)[key], fieldSchema)
  }

  /** What every key of the patch gives, by key. */
  ghost function MergeKeys(models: Models, base: map<string, Value>, patch: Value, schema: Schema): map<string, Outcome>
    requires IsMap(patch)
    decreases patch, 0, 1
  {
    map k | k in Fields(patch) :: MergeKey(models, base, patch, schema, k)
  }

  /** The sum of finitely many multisets, in any order. */
  ghost function Sum<E>(m: map<string, multiset<E>>): multiset<E> {
    if m == map[] then multiset{} else
    var k :| k in m;
    m[k] + Sum(m - {k})
  }

  lemma {:induction false} SumRemove<E>(m: map<string, multiset<E>>, k: string)
    requires k in m
    ensures Sum(m) == m[k] + Sum(m - {k})
  {
    var j :| j in m && Sum(m) == m[j] + Sum(m - {j});
    if j != k {
      var both := m - {j} - {k};
      SumRemove(m - {j}, k);
      SumRemove(m - {k}, j);
      assert both == m - {k} - {j};
      assert m[j] + (m[k] + Sum(both)) == m[k] + (m[j] + Sum(both));
    }
  }

  ghost predicate AllMerged(outcomes: map<string, Outcome>) {
    forall k :: k in outcomes ==> outcomes[k].Merged?
  }

  ghost function ErrorsOf(outcomes: map<string, Outcome>): multiset<ItemError>
    requires AllMerged(outcomes)
  {
    Sum(map k | k in outcomes :: outcomes[k].errors)
  }

  /** The base with the outcomes written over it. */
  ghost function Overlaid(base: map<string, Value>, outcomes: map<string, Outcome>): map<string, Value>
    requires AllMerged(outcomes)
  {
    map k | k in base.Keys + outcomes.Keys :: if k in outcomes then outcomes[k].value else base[k]
  }

  ghost function CausesOf(outcomes: map<string, Outcome>): set<Cause> {
    set k, c | k in outcomes && outcomes[k].Abort? && c in outcomes[k].causes :: c
  }

  /** What StrategicMerge yields, without reference to any order of the keys of the patch. */
  ghost function MergeObject(models: Models, original: Value, patch: Value, schema: Option<Schema>): Outcome
    requires IsMap(original) && IsMap(patch)
    decreases patch, 0, 2
  {
    match Resolve(models, schema)
    case None => Abort({Fatal(UnresolvedSchema)})
    case Some(resolved) =>
      var outcomes := MergeKeys(models, Base(original), patch, resolved);
      if AllMerged(outcomes) then Merged(Obj(Overlaid(Base(original), outcomes)), ErrorsOf(outcomes))
      else Abort(CausesOf(outcomes))
  }

  // ---- the loops ----

  /** mergeLists */
  method MergeLists(models: Models, original: seq<Value>, patch: Value, strategy: PatchStrategy,
                    listSchema: Option<Schema>) returns (r: Result)
    requires IsList(patch)
    ensures Implements(r, MergeList(models, original, patch, strategy, listSchema))
    decreases patch, 0, 2
  {
    if strategy.Replace? {
      return Done(patch, []);
    }
    if strategy.keys == [] {
      var union := MergeScalarList(original, Items(patch));
      return if union.Some? then Done(List(union.value), []) else Panicked;
    }
    var indexed := BuildPatchIndex(Items(patch), strategy.keys);
    if indexed.IndexError? {
      return Failed(indexed.error);
    }
    r := MergeKeyedItems(models, original, indexed.entries, strategy.keys, ItemSchema(listSchema), patch);
  }

  /** The second and third loop of mergeLists. */
  method MergeKeyedItems(models: Models, original: seq<Value>, index: map<string, Value>, mergeKeys: seq<string>,
                         itemSchema: Option<Schema>, patch: Value) returns (r: Result)
    requires IndexOf(index, patch)
    ensures match MergeItems(models, original, index, mergeKeys, itemSchema, patch)
            case ItemsAbort(causes) => !r.Done? && CauseOf(r) in causes
            case ItemsMerged(items, errors, rest) =>
              r.Done? && r.value == ResultList(items + NewItems(rest)) && multiset(r.errors) == errors
    decreases patch, 0, 1
  {
    var patchIndex := index;
    var resultList: seq<Value>, partialErrors: seq<ItemError> := [], [];
    for i := 0 to |original|
      invariant IndexOf(patchIndex, patch)
      invariant MergeItems(models, original[..i], index, mergeKeys, itemSchema, patch)
             == ItemsMerged(resultList, multiset(partialErrors), patchIndex)
    {
      var key := KeyOf(i, original[i], mergeKeys);
      var merged := MergeOriginalItem(models, i, original[i], key, patchIndex, mergeKeys, itemSchema, patch);
      MergeItemsStep(models, original, i, index, mergeKeys, itemSchema, patch);
      if !merged.Done? {
        MergeItemsAbortsEarly(models, original, i + 1, index, mergeKeys, itemSchema, patch);
        return merged;
      }
      partialErrors := partialErrors + merged.errors;
      resultList := resultList + [merged.value];
      if key.Keyed? {
        patchIndex := patchIndex - {key.key};
      }
    }
    assert original[..|original|] == original;
    var newKeys := SortedNewKeys(patchIndex);
    LeftKeys(patchIndex);
    resultList := AppendByKey(resultList, patchIndex, newKeys);
    r := Done(ResultList(resultList), partialErrors);
  }

  lemma LeftKeys(rest: map<string, Value>)
    ensures forall i :: 0 <= i < |SortedKeys(rest.Keys)| ==> SortedKeys(rest.Keys)[i] in rest
  {
    var keys := SortedKeys(rest.Keys);
    assert forall i :: 0 <= i < |keys| ==> keys[i] in keys;
  }

  /** The keys that are left, collected in any order and sorted. */
  method SortedNewKeys(patchIndex: map<string, Value>) returns (newKeys: seq<string>)
    ensures newKeys == SortedKeys(patchIndex.Keys)
  {
    newKeys := [];
    var todo := patchIndex.Keys;
    while todo != {}
      invariant todo <= patchIndex.Keys && NoRepeats(newKeys)
      invariant forall k :: k in newKeys <==> k in patchIndex && k !in todo
    {
      var k :| k in todo;
      newKeys := newKeys + [k];
      todo := todo - {k};
    }
    SortedIsSortedKeys(newKeys, patchIndex.Keys);
    newKeys := Sorted(newKeys);
  }

  /** The last loop of mergeLists. */
  method AppendByKey(items: seq<Value>, patchIndex: map<string, Value>, newKeys: seq<string>) returns (r: seq<Value>)
    requires forall i :: 0 <= i < |newKeys| ==> newKeys[i] in patchIndex
    ensures r == items + seq(|newKeys|, i requires 0 <= i < |newKeys| => patchIndex[newKeys[i]])
  {
    r := items;
    for i := 0 to |newKeys|
      invariant |r| == |items| + i && r[..|items|] == items
      invariant forall j :: 0 <= j < i ==> r[|items| + j] == patchIndex[newKeys[j]]
    {
      r := r + [patchIndex[newKeys[i]]];
    }
  }

  /** What happens to one original item: kept, or merged with the entry of its key. */
  method MergeOriginalItem(models: Models, i: nat, item: Value, key: ItemKey, patchIndex: map<string, Value>,
                           mergeKeys: seq<string>, itemSchema: Option<Schema>, patch: Value) returns (r: Result)
    requires IndexOf(patchIndex, patch) && key == KeyOfItem(i, item, mergeKeys)
    ensures Implements(r, MergeItem(models, i, item, patchIndex, mergeKeys, itemSchema, patch))
    decreases patch, 0, 0
  {
    if key.Unkeyed? {
      r := Done(item, [key.error]);
    } else if key.key in patchIndex {
      r := StrategicMerge(models, item, patchIndex[key.key], itemSchema);
    } else {
      r := Done(item, []);
    }
  }

  /** MergeItems, one item further. */
  lemma MergeItemsStep(models: Models, original: seq<Value>, i: nat, index: map<string, Value>,
                       keys: seq<string>, itemSchema: Option<Schema>, patch: Value)
    requires IndexOf(index, patch) && i < |original|
    requires MergeItems(models, original[..i], index, keys, itemSchema, patch).ItemsMerged?
    ensures (var before := MergeItems(models, original[..i], index, keys, itemSchema, patch);
             var step := MergeItem(models, i, original[i], before.rest, keys, itemSchema, patch);
             MergeItems(models, original[..i + 1], index, keys, itemSchema, patch)
             == if step.Abort? then ItemsAbort(step.causes)
                else ItemsMerged(before.items + [step.value], before.errors + step.errors,
                                 Used(before.rest, KeyOfItem(i, original[i], keys))))
  {
    assert original[..i + 1][..i] == original[..i];
  }

  /** The first loop of mergeLists. */
  method BuildPatchIndex(items: seq<Value>, mergeKeys: seq<string>) returns (r: IndexResult)
    ensures r == PatchIndex(items, mergeKeys)
  {
    var patchIndex: map<string, Value> := map[];
    for i := 0 to |items|
      invariant PatchIndex(items[..i], mergeKeys) == Index(patchIndex)
    {
      assert items[..i + 1][..i] == items[..i];
      if IsMap(items[i]) {
        var key := GenerateCompositeKey(Fields(items[i]), mergeKeys);
        if key.NoField? || key.text == "" {
          PatchIndexFailsEarly(items, i + 1, mergeKeys);
          return IndexError(if key.NoField? then PatchItemNoKeyField(key.field) else PatchItemEmptyKey);
        }
        patchIndex := patchIndex[key.text := items[i]];
      }
    }
    assert items[..|items|] == items;
    r := Index(patchIndex);
  }

  lemma {:induction false} PatchIndexFailsEarly(items: seq<Value>, n: nat, keys: seq<string>)
    requires n <= |items| && PatchIndex(items[..n], keys).IndexError?
    ensures PatchIndex(items, keys) == PatchIndex(items[..n], keys)
  {
    if n == |items| {
      assert items[..n] == items;
    } else {
      assert items[..|items| - 1][..n] == items[..n];
      PatchIndexFailsEarly(items[..|items| - 1], n, keys);
    }
  }

  /** The three checks made on an original item. */
  method KeyOf(i: nat, item: Value, mergeKeys: seq<string>) returns (r: ItemKey)
    ensures r == KeyOfItem(i, item, mergeKeys)
  {
    if !IsMap(item) {
      return Unkeyed(NotAnObject(i, item));
    }
    var key := GenerateCompositeKey(Fields(item), mergeKeys);
    r := match key
      case NoField(field) => Unkeyed(NoKeyField(i, field))
      case Key(text) => if text == "" then Unkeyed(EmptyKey(i)) else Keyed(text);
  }

  lemma {:induction false} MergeItemsAbortsEarly(models: Models, original: seq<Value>, n: nat, index: map<string, Value>,
                                                 keys: seq<string>, itemSchema: Option<Schema>, patch: Value)
    requires IndexOf(index, patch) && n <= |original|
    requires MergeItems(models, original[..n], index, keys, itemSchema, patch).ItemsAbort?
    ensures MergeItems(models, original, index, keys, itemSchema, patch)
         == MergeItems(models, original[..n], index, keys, itemSchema, patch)
  {
    if n == |original| {
      assert original[..n] == original;
    } else {
      assert original[..|original| - 1][..n] == original[..n];
      MergeItemsAbortsEarly(models, original[..|original| - 1], n, index, keys, itemSchema, patch);
    }
  }

  /** StrategicMerge: the keys of the patch are taken in any order. */
  method StrategicMerge(models: Models, original: Value, patch: Value, schema: Option<Schema>) returns (r: Result)
    requires IsMap(original) && IsMap(patch)
    ensures Implements(r, MergeObject(models, original, patch, schema))
    decreases patch, 1
  {
    var resolved := Resolve(models, schema);
    if resolved.None? {
      return Failed(UnresolvedSchema);
    }
    var result := CopyAndSanitize(original);
    ghost var base := result;
    ghost var outcomes := MergeKeys(models, base, patch, resolved.value);
    var mergeErrors: seq<ItemError> := [];
    var todo := Fields(patch).Keys;
    NothingVisited(base, outcomes);
    while todo != {}
      invariant VisitedSoFar(base, outcomes, todo, result, multiset(mergeErrors))
    {
      var patchKey :| patchKey in todo;
      var patchValue := Fields(patch)[patchKey];
      var originalValue := Lookup(result, patchKey);
      NotYetVisited(base, outcomes, todo, result, multiset(mergeErrors), patchKey);
      var field := FieldSchema(models, resolved.value, patchKey);
      assert outcomes[patchKey] == MergeKey(models, base, patch, resolved.value, patchKey);
      if !field.Known? {
        CausesReach(outcomes, patchKey);
        return Failed(if field.Unknown? then UnknownField(patchKey) else UnresolvedField(patchKey));
      }
      var merged := MergeFieldValue(models, originalValue, patchValue, field.schema);
      if !merged.Done? {
        CausesReach(outcomes, patchKey);
        return merged;
      }
      VisitKey(base, outcomes, todo, result, multiset(mergeErrors), patchKey);
      mergeErrors := mergeErrors + merged.errors;
      result := result[patchKey := merged.value];
      todo := todo - {patchKey};
    }
    AllVisited(base, outcomes, result, multiset(mergeErrors));
    r := Done(Obj(result), mergeErrors);
  }

  /** The outcomes of the keys already taken. */
  ghost function Visited(outcomes: map<string, Outcome>, todo: set<string>): map<string, Outcome> {
    map k | k in outcomes && k !in todo :: outcomes[k]
  }

  /** The keys taken so far all merged, and the result and the errors are theirs, whatever their order was. */
  ghost predicate VisitedSoFar(base: map<string, Value>, outcomes: map<string, Outcome>, todo: set<string>,
                               result: map<string, Value>, errors: multiset<ItemError>) {
    var done := Visited(outcomes, todo);
    && todo <= outcomes.Keys && AllMerged(done) && result == Overlaid(base, done) && errors == ErrorsOf(done)
  }

  lemma NothingVisited(base: map<string, Value>, outcomes: map<string, Outcome>)
    ensures VisitedSoFar(base, outcomes, outcomes.Keys, base, multiset{})
  {
    assert Visited(outcomes, outcomes.Keys) == map[];
  }

  lemma NotYetVisited(base: map<string, Value>, outcomes: map<string, Outcome>, todo: set<string>,
                      result: map<string, Value>, errors: multiset<ItemError>, k: string)
    requires VisitedSoFar(base, outcomes, todo, result, errors) && k in todo
    ensures k in outcomes && Lookup(result, k) == Lookup(base, k)
  {
  }

  lemma VisitKey(base: map<string, Value>, outcomes: map<string, Outcome>, todo: set<string>,
                 result: map<string, Value>, errors: multiset<ItemError>, k: string)
    requires VisitedSoFar(base, outcomes, todo, result, errors) && k in todo && outcomes[k].Merged?
    ensures VisitedSoFar(base, outcomes, todo - {k}, result[k := outcomes[k].value], errors + outcomes[k].errors)
  {
    var done := Visited(outcomes, todo);
    assert Visited(outcomes, todo - {k}) == done[k := outcomes[k]];
    OverlayOneMore(base, done, k, outcomes[k]);
    ErrorsOneMore(done, k, outcomes[k]);
  }

  lemma AllVisited(base: map<string, Value>, outcomes: map<string, Outcome>, result: map<string, Value>, errors: multiset<ItemError>)
    requires VisitedSoFar(base, outcomes, {}, result, errors)
    ensures AllMerged(outcomes) && result == Overlaid(base, outcomes) && errors == ErrorsOf(outcomes)
  {
    assert Visited(outcomes, {}) == outcomes;
  }

  /** The switch of the loop. */
  method MergeFieldValue(models: Models, originalValue: Option<Value>, patchValue: Value, fieldSchema: Option<Schema>)
    returns (r: Result)
    ensures Implements(r, MergeField(models, originalValue, patchValue, fieldSchema))
    decreases patchValue, 2
  {
    if IsMap(patchValue) && originalValue.Some? && IsMap(originalValue.value) {
      if StrategyOf(fieldSchema).Replace? {
        r := Done(patchValue, []);
      } else {
        r := StrategicMerge(models, originalValue.value, patchValue, fieldSchema);
      }
    } else if IsList(patchValue) {
      var originalList := if originalValue.Some? && IsList(originalValue.value) then Items(originalValue.value) else [];
      r := MergeLists(models, originalList, patchValue, StrategyOf(fieldSchema), fieldSchema);
    } else {
      r := Done(patchValue, []);
    }
  }

  lemma CausesReach(outcomes: map<string, Outcome>, k: string)
    requires k in outcomes && outcomes[k].Abort?
    ensures !AllMerged(outcomes) && outcomes[k].causes <= CausesOf(outcomes)
  {
  }

  lemma OverlayOneMore(base: map<string, Value>, done: map<string, Outcome>, k: string, outcome: Outcome)
    requires AllMerged(done) && k !in done && outcome.Merged?
    ensures AllMerged(done[k := outcome])
    ensures Overlaid(base, done[k := outcome]) == Overlaid(base, done)[k := outcome.value]
  {
  }

  lemma ErrorsOneMore(done: map<string, Outcome>, k: string, outcome: Outcome)
    requires AllMerged(done) && k !in done && outcome.Merged?
    ensures ErrorsOf(done[k := outcome]) == ErrorsOf(done) + outcome.errors
  {
    var more := done[k := outcome];
    var before := map j | j in done :: done[j].errors;
    var after := map j | j in more :: more[j].errors;
    SumRemove(after, k);
    assert after - {k} == before;
  }

  /** A patch with one key. */
  lemma SingleKey(models: Models, original: Value, patch: Value, schema: Schema, k: string, outcome: Outcome)
    requires IsMap(original) && patch.Obj? && patch.fields.Keys == {k} && !schema.Ref?
    requires MergeKey(models, Base(original), patch, schema, k) == outcome && outcome.Merged?
    ensures MergeObject(models, original, patch, Some(schema)) == Merged(Obj(Base(original)[k := outcome.value]), outcome.errors)
  {
    var base, none: map<string, Outcome> := Base(original), map[];
    var outcomes := MergeKeys(models, base, patch, schema);
    assert outcomes == none[k := outcome];
    OverlayOneMore(base, none, k, outcome);
    ErrorsOneMore(none, k, outcome);
    assert Overlaid(base, none) == base;
  }

  // ---- what the strategy of a field decides ----

  /** A field of a replaced schema ignores the original, and no other does: whatever extensions say so, a list, or
      an object that meets an object, is taken as it is for every original exactly when the strategy is to replace. */
  lemma TakenAsIsExactly(models: Models, schema: Schema)
    ensures StrategyOf(Some(schema)).Replace? <==>
            forall original, patch :: IsList(patch) ==> TakenAsIs(models, original, patch, schema)
    ensures StrategyOf(Some(schema)).Replace? <==>
            forall original, patch :: IsMap(original) && IsMap(patch) ==> TakenAsIs(models, Some(original), patch, schema)
  {
    if StrategyOf(Some(schema)).MergeBy? {
      var list, obj := Some(List([Null])), Obj(map["x" := Null]);
      NullListKept(models, schema);
      assert IsList(List([])) && !TakenAsIs(models, list, List([]), schema);
      NullFieldKept(models, schema);
      assert IsMap(obj) && !TakenAsIs(models, Some(obj), Obj(map[]), schema);
    } else {
      forall original, patch | IsList(patch) ensures TakenAsIs(models, original, patch, schema) {
        assert MergeList(models, if original.Some? && IsList(original.value) then Items(original.value) else [],
                         patch, Replace, Some(schema)) == Merged(patch, multiset{});
      }
    }
  }

  ghost predicate TakenAsIs(models: Models, original: Option<Value>, patch: Value, schema: Schema) {
    MergeField(models, original, patch, Some(schema)) == Merged(patch, multiset{})
  }

  /** [null] met by the empty list. */
  lemma NullListKept(models: Models, schema: Schema)
    requires StrategyOf(Some(schema)).MergeBy?
    ensures !TakenAsIs(models, Some(List([Null])), List([]), schema)
  {
    var original, patch, keys := [Null], List([]), StrategyOf(Some(schema)).keys;
    if keys == [] {
      assert ScalarUnion(original, []) == AddNew([], original) && original[..0] == [];
    } else {
      assert PatchIndex([], keys) == Index(map[]);
      assert original[..0] == [];
      assert MergeItems(models, original, map[], keys, ItemSchema(Some(schema)), patch)
          == ItemsMerged([] + [Null], multiset{} + multiset{NotAnObject(0, Null)}, map[]);
    }
  }

  /** {"x": null} met by the empty object: the field stays, or the schema of the object is not found. */
  lemma NullFieldKept(models: Models, schema: Schema)
    requires StrategyOf(Some(schema)).MergeBy?
    ensures !TakenAsIs(models, Some(Obj(map["x" := Null])), Obj(map[]), schema)
  {
    var original, patch := Obj(map["x" := Null]), Obj(map[]);
    if Resolve(models, Some(schema)).Some? {
      var merged := MergeObject(models, original, patch, Some(schema));
      if merged.Merged? {
        MergedLevel(models, original, patch, Some(schema), "x");
        assert "x" in merged.value.fields;
      }
    }
  }

  // ---- one level of a successful merge ----

  /** The result has the keys of both sides; a key of the patch holds what its own merge gives, any other
      the copy of the original's value. */
  lemma MergedLevel(models: Models, original: Value, patch: Value, schema: Option<Schema>, key: string)
    requires IsMap(original) && IsMap(patch)
    requires MergeObject(models, original, patch, schema).Merged?
    ensures var merged := MergeObject(models, original, patch, schema).value;
            && merged.Obj? && merged.fields.Keys == Fields(original).Keys + Fields(patch).Keys
            && (key in Fields(patch) ==>
                  && FieldSchemaOf(models, schema, key).Known?
                  && var field := MergeField(models, Lookup(Base(original), key), Fields(patch)[key], FieldSchemaOf(models, schema, key).schema);
                     field.Merged? && merged.fields[key] == field.value)
            && (key in Fields(original) && key !in Fields(patch) ==> merged.fields[key] == Copied(Fields(original)[key]))
  {
    var resolved := Resolve(models, schema).value;
    var outcomes := MergeKeys(models, Base(original), patch, resolved);
    if key in Fields(patch) {
      assert outcomes[key] == MergeKey(models, Base(original), patch, resolved, key);
    }
  }

  /** The schema of a field, through the reference its object may be. */
  function FieldSchemaOf(models: Models, schema: Option<Schema>, key: string): FieldLookup {
    var resolved := Resolve(models, schema);
    if resolved.None? then Unresolved else FieldSchema(models, resolved.value, key)
  }
}
