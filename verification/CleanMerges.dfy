/** When a conforming patch merges without a partial error, as a condition on what it is merged into. */
module CleanMerges {
  import opened Options
  import opened GoValues
  import opened Idempotence
  import opened KeyedLists
  import opened MergeEngine
  import opened MergeSchema

  /** In every list that the patch merges by key, each original item has a key; and so at every depth. */
  ghost predicate Clear(models: Models, original: Value, patch: Value, schema: Option<Schema>)
    requires IsMap(original) && Conforms(models, patch, schema)
    decreases patch, 1
  {
    forall k :: k in patch.fields ==>
      FieldClear(models, Lookup(Base(original), k), patch.fields[k], FieldSchemaOf(models, schema, k).schema)
  }

  ghost predicate FieldClear(models: Models, original: Option<Value>, patch: Value, schema: Option<Schema>)
    requires FieldConforms(models, patch, schema)
    decreases patch, 2
  {
    original.Some? && StrategyOf(schema).MergeBy? ==>
      && (IsMap(patch) && IsMap(original.value) ==> Clear(models, original.value, patch, schema))
      && (IsList(patch) && IsList(original.value) && StrategyOf(schema).keys != [] ==>
            ListClear(models, Items(original.value), patch, StrategyOf(schema).keys, ItemSchema(schema)))
  }

  ghost predicate ListClear(models: Models, original: seq<Value>, list: Value, keys: seq<string>, itemSchema: Option<Schema>)
    requires list.List? && keys != [] && ListConforms(models, list, keys, itemSchema)
    decreases list, 0
  {
    && (forall i :: 0 <= i < |original| ==> ItemKeyOf(original[i], keys).Some?)
    && (forall i, j :: 0 <= i < |original| && 0 <= j < |list.items| && Meets(original, i, list.items[j], keys) ==>
          Clear(models, original[i], list.items[j], itemSchema))
  }

  // ---- sums of errors ----

  lemma NoErrorsExactly(outcomes: map<string, Outcome>)
    requires AllMerged(outcomes)
    ensures ErrorsOf(outcomes) == multiset{} <==> forall k :: k in outcomes ==> outcomes[k].errors == multiset{}
  {
    var m := map k | k in outcomes :: outcomes[k].errors;
    if ErrorsOf(outcomes) == multiset{} {
      forall k | k in outcomes ensures outcomes[k].errors == multiset{} {
        SumRemove(m, k);
        assert m[k] <= Sum(m);
      }
    } else if forall k :: k in outcomes ==> outcomes[k].errors == multiset{} {
      SumOfNothing(m);
    }
  }

  // ---- the condition ----

  /** A merge that gives a result reports nothing exactly when its condition holds. */
  ghost predicate Reports(r: Outcome, clear: bool) {
    r.Merged? ==> (r.errors == multiset{} <==> clear)
  }

  /** A conforming patch that merges reports no partial error exactly when every original item of a list that it
      merges by key has a key, at every depth that the merge reaches. */
  lemma {:induction false} ClearExactly(models: Models, original: Value, patch: Value, schema: Option<Schema>)
    requires IsMap(original) && Conforms(models, patch, schema)
    ensures Reports(MergeObject(models, original, patch, schema), Clear(models, original, patch, schema))
    decreases patch, 1
  {
    var outcomes := MergeKeys(models, Base(original), patch, Resolve(models, schema).value);
    if AllMerged(outcomes) {
      forall k | k in patch.fields
        ensures outcomes[k].errors == multiset{} <==>
                FieldClear(models, Lookup(Base(original), k), patch.fields[k], FieldSchemaOf(models, schema, k).schema)
      {
        KeyIsField(models, Base(original), patch, schema, k);
        FieldClearExactly(models, Lookup(Base(original), k), patch.fields[k], FieldSchemaOf(models, schema, k).schema);
      }
      NoErrorsExactly(outcomes);
    }
  }

  lemma {:induction false} FieldClearExactly(models: Models, original: Option<Value>, patch: Value, schema: Option<Schema>)
    requires FieldConforms(models, patch, schema)
    ensures Reports(MergeField(models, original, patch, schema), FieldClear(models, original, patch, schema))
    decreases patch, 2
  {
    if StrategyOf(schema).MergeBy? {
      if IsMap(patch) && original.Some? && IsMap(original.value) {
        ClearExactly(models, original.value, patch, schema);
      } else if IsList(patch) && StrategyOf(schema).keys != [] {
        var items := if original.Some? && IsList(original.value) then Items(original.value) else [];
        ListClearExactly(models, items, patch, StrategyOf(schema).keys, schema);
      }
    }
  }

  lemma {:induction false} ListClearExactly(models: Models, original: seq<Value>, list: Value, keys: seq<string>, schema: Option<Schema>)
    requires list.List? && keys != [] && ListConforms(models, list, keys, ItemSchema(schema))
    ensures Reports(MergeList(models, original, list, MergeBy(keys), schema),
                    ListClear(models, original, list, keys, ItemSchema(schema)))
    ensures original == [] ==> ListClear(models, original, list, keys, ItemSchema(schema))
    decreases list, 0, |original| + 1
  {
    var itemSchema := ItemSchema(schema);
    OwnIndex(list.items, keys);
    var index := PatchIndex(list.items, keys).entries;
    var merged := MergeItems(models, original, index, keys, itemSchema, list);
    if merged.ItemsMerged? {
      KeyedMergeIs(models, original, list, keys, schema, index, merged);
      CleanExactly(models, original, index, keys, itemSchema, list);
      MergeItemsExact(models, original, index, keys, itemSchema, list);
      forall i | 0 <= i < |original|
        ensures Clean(models, original, i, index, keys, itemSchema) <==> ItemClear(models, original, i, index, keys, itemSchema)
      {
        assert ItemResult(models, original, i, index, keys, itemSchema, merged.items[i]);
        ItemClearExactly(models, original, i, index, keys, itemSchema, list);
      }
      ClearByEntry(models, original, index, list, keys, itemSchema);
    }
  }

  /** The item has a key, and is clear of the entry that it is merged with. */
  ghost predicate ItemClear(models: Models, original: seq<Value>, i: nat, index: map<string, Value>, keys: seq<string>,
                            itemSchema: Option<Schema>)
    requires i < |original| && ConformingIn(models, index, itemSchema)
  {
    && ItemKeyOf(original[i], keys).Some?
    && (UsesEntry(original, i, index, keys) ==>
          Clear(models, original[i], index[ItemKeyOf(original[i], keys).value], itemSchema))
  }

  lemma {:induction false} ItemClearExactly(models: Models, original: seq<Value>, i: nat, index: map<string, Value>, keys: seq<string>,
                                            itemSchema: Option<Schema>, list: Value)
    requires i < |original| && IndexOf(index, list) && ConformingIn(models, index, itemSchema)
    requires UsesEntry(original, i, index, keys) ==>
               MergeObject(models, original[i], index[ItemKeyOf(original[i], keys).value], itemSchema).Merged?
    ensures Clean(models, original, i, index, keys, itemSchema) <==> ItemClear(models, original, i, index, keys, itemSchema)
    decreases list, 0, 0
  {
    if UsesEntry(original, i, index, keys) {
      ClearExactly(models, original[i], index[ItemKeyOf(original[i], keys).value], itemSchema);
    }
  }

  lemma ClearByEntry(models: Models, original: seq<Value>, index: map<string, Value>, list: Value, keys: seq<string>,
                     itemSchema: Option<Schema>)
    requires list.List? && keys != [] && ListConforms(models, list, keys, itemSchema) && ConformingIn(models, index, itemSchema)
    requires index.Keys == OriginalKeys(list.items, keys)
    requires forall j :: 0 <= j < |list.items| ==>
               ItemKeyOf(list.items[j], keys).value in index && index[ItemKeyOf(list.items[j], keys).value] == list.items[j]
    ensures ListClear(models, original, list, keys, itemSchema) <==>
            forall i :: 0 <= i < |original| ==> ItemClear(models, original, i, index, keys, itemSchema)
  {
    if ListClear(models, original, list, keys, itemSchema) {
      forall i | 0 <= i < |original| ensures ItemClear(models, original, i, index, keys, itemSchema) {
        if UsesEntry(original, i, index, keys) {
          var j := EntryOf(original, i, index, list, keys);
          assert Meets(original, i, list.items[j], keys);
        }
      }
    }
    if forall i :: 0 <= i < |original| ==> ItemClear(models, original, i, index, keys, itemSchema) {
      forall i | 0 <= i < |original| ensures ItemKeyOf(original[i], keys).Some? {
        assert ItemClear(models, original, i, index, keys, itemSchema);
      }
      forall i, j | 0 <= i < |original| && 0 <= j < |list.items| && Meets(original, i, list.items[j], keys)
        ensures Clear(models, original[i], list.items[j], itemSchema)
      {
        assert ItemClear(models, original, i, index, keys, itemSchema);
      }
    }
  }
}
