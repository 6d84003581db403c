/** Applying a patch again to the document that the first application wrote: between two policies the result is
    written to JSON and read back, and nil lists come back as null. */
module Rereading {
  import opened Options
  import opened Strings
  import opened CleanMerges
  import opened GoValues
  import opened Idempotence
  import opened KeyedLists
  import opened MergeEngine
  import opened MergeMeaning
  import opened MergeSchema

  // ---- where nil lists can be left behind ----

  /** A decoded document that the copy does not change. */
  ghost predicate Plain(v: Value) {
    IsJson(v) && CopiesExactly(v)
  }

  /** A stable patch leaves no nil list behind. */
  lemma {:induction false} MergedIsJson(models: Models, original: Value, patch: Value, schema: Option<Schema>)
    requires IsMap(original) && Plain(original) && IsJson(patch)
    requires Conforms(models, patch, schema) && Stable(models, patch, schema)
    requires MergeObject(models, original, patch, schema).Merged?
    ensures IsJson(MergeObject(models, original, patch, schema).value)
    decreases patch, 1
  {
    var r := MergeObject(models, original, patch, schema).value;
    MergedLevel(models, original, patch, schema, "");
    forall k | k in r.fields ensures IsJson(r.fields[k]) {
      if k in original.fields {
        CopyIsExact(original.fields[k]);
      }
      MergedLevel(models, original, patch, schema, k);
      if k in patch.fields {
        assert FieldStable(models, patch.fields[k], FieldSchemaOf(models, schema, k).schema);
        MergedFieldIsJson(models, Lookup(Base(original), k), patch.fields[k], FieldSchemaOf(models, schema, k).schema);
      }
    }
  }

  lemma {:induction false} MergedFieldIsJson(models: Models, original: Option<Value>, patch: Value, schema: Option<Schema>)
    requires original.Some? ==> Plain(original.value)
    requires IsJson(patch) && FieldConforms(models, patch, schema) && FieldStable(models, patch, schema)
    requires MergeField(models, original, patch, schema).Merged?
    ensures IsJson(MergeField(models, original, patch, schema).value)
    decreases patch, 3
  {
    if StrategyOf(schema).MergeBy? {
      var keys := StrategyOf(schema).keys;
      if IsMap(patch) && original.Some? && IsMap(original.value) {
        MergedIsJson(models, original.value, patch, schema);
      } else if IsList(patch) {
        var items := if original.Some? && IsList(original.value) then Items(original.value) else [];
        if keys == [] {
          UnionIsJson(items, patch.items);
        } else {
          MergedListIsJson(models, items, patch, keys, schema);
        }
      }
    }
  }

  lemma UnionIsJson(original: seq<Value>, patch: seq<Value>)
    requires forall x :: x in original || x in patch ==> IsJson(x)
    ensures IsJson(List(ScalarUnion(original, patch)))
  {
    AddNewMembers([], original);
    AddNewMembers(AddNew([], original), patch);
    var union := ScalarUnion(original, patch);
    forall i | 0 <= i < |union| ensures IsJson(union[i]) {
      assert union[i] in union;
    }
  }

  lemma {:induction false} MergedListIsJson(models: Models, original: seq<Value>, list: Value, keys: seq<string>, schema: Option<Schema>)
    requires forall i :: 0 <= i < |original| ==> IsJson(original[i]) && (IsMap(original[i]) ==> Plain(original[i]))
    requires list.List? && list.items != [] && keys != [] && IsJson(list)
    requires ListConforms(models, list, keys, ItemSchema(schema)) && ItemsStable(models, list, keys, ItemSchema(schema))
    requires MergeList(models, original, list, MergeBy(keys), schema).Merged?
    ensures IsJson(MergeList(models, original, list, MergeBy(keys), schema).value)
    decreases list, 2
  {
    var itemSchema := ItemSchema(schema);
    ConformingIndex(models, list, keys, itemSchema);
    var index := PatchIndex(list.items, keys).entries;
    var merged := MergeItems(models, original, index, keys, itemSchema, list);
    MergedItemsAreJson(models, original, index, merged, keys, itemSchema, list);
    MergeItemsExact(models, original, index, keys, itemSchema, list);
    NewItemsAreJson(list, merged.rest);
    IndexNotEmpty(list, keys, index);
    KeyedMergeIs(models, original, list, keys, schema, index, merged);
    JsonResult(merged.items, NewItems(merged.rest));
  }

  lemma JsonResult(items: seq<Value>, news: seq<Value>)
    requires items + news != []
    requires (forall i :: 0 <= i < |items| ==> IsJson(items[i])) && (forall i :: 0 <= i < |news| ==> IsJson(news[i]))
    ensures IsJson(ResultList(items + news))
  {
  }

  lemma {:induction false} MergedItemsAreJson(models: Models, original: seq<Value>, index: map<string, Value>, merged: ItemsOutcome,
                                              keys: seq<string>, itemSchema: Option<Schema>, list: Value)
    requires forall i :: 0 <= i < |original| ==> IsJson(original[i]) && (IsMap(original[i]) ==> Plain(original[i]))
    requires IsJson(list) && IndexOf(index, list) && GoodEntries(models, index, keys, itemSchema)
    requires merged.ItemsMerged? && MergeItems(models, original, index, keys, itemSchema, list) == merged
    ensures |merged.items| == |original| && forall i :: 0 <= i < |original| ==> IsJson(merged.items[i])
    decreases list, 1
  {
    MergeItemsExact(models, original, index, keys, itemSchema, list);
    forall i | 0 <= i < |original| ensures IsJson(merged.items[i]) {
      MergedItemIsJson(models, original, i, index, keys, itemSchema, list, merged.items[i]);
    }
  }

  lemma {:induction false} MergedItemIsJson(models: Models, original: seq<Value>, i: nat, index: map<string, Value>, keys: seq<string>,
                                            itemSchema: Option<Schema>, list: Value, item: Value)
    requires i < |original| && IsJson(original[i]) && (IsMap(original[i]) ==> Plain(original[i]))
    requires IsJson(list) && IndexOf(index, list) && GoodEntries(models, index, keys, itemSchema)
    requires ItemResult(models, original, i, index, keys, itemSchema, item)
    ensures IsJson(item)
    decreases list, 0
  {
    if UsesEntry(original, i, index, keys) {
      MergedIsJson(models, original[i], index[ItemKeyOf(original[i], keys).value], itemSchema);
    }
  }

  lemma IndexNotEmpty(list: Value, keys: seq<string>, index: map<string, Value>)
    requires list.List? && list.items != [] && AllKeyed(list.items, keys) && PatchIndex(list.items, keys) == Index(index)
    ensures index != map[]
  {
    OwnIndex(list.items, keys);
    assert ItemKeyOf(list.items[0], keys).value in index;
  }

  lemma NewItemsAreJson(list: Value, rest: map<string, Value>)
    requires list.List? && IsJson(list) && forall c :: c in rest ==> rest[c] in list.items
    ensures forall i :: 0 <= i < |NewItems(rest)| ==> IsJson(NewItems(rest)[i])
  {
  }

  /** What a repeatable field becomes: no nil container, but for an empty list merged by key. */
  lemma RepeatableFieldResult(models: Models, original: Option<Value>, patch: Value, schema: Option<Schema>)
    requires original.Some? ==> Plain(original.value)
    requires IsJson(patch) && FieldConforms(models, patch, schema) && FieldRepeatable(models, patch, schema)
    requires MergeField(models, original, patch, schema).Merged?
    ensures var r := MergeField(models, original, patch, schema).value;
            IsJson(r) || (r == NilList && IsList(patch) && StrategyOf(schema).MergeBy?)
  {
    if FieldStable(models, patch, schema) {
      MergedFieldIsJson(models, original, patch, schema);
    } else {
      var items := if original.Some? && IsList(original.value) then Items(original.value) else [];
      NothingToMerge(models, items, patch, StrategyOf(schema).keys, schema);
    }
  }

  /** The empty list merged by key keeps every item. */
  lemma NothingToMerge(models: Models, original: seq<Value>, list: Value, keys: seq<string>, schema: Option<Schema>)
    requires list == List([]) && keys != []
    ensures MergeList(models, original, list, MergeBy(keys), schema).Merged?
    ensures MergeList(models, original, list, MergeBy(keys), schema).value == ResultList(original)
  {
    var index: map<string, Value> := map[];
    assert PatchIndex([], keys) == Index(index);
    NothingMatches(models, original, index, keys, ItemSchema(schema), list);
    MergeItemsExact(models, original, index, keys, ItemSchema(schema), list);
    var merged := MergeItems(models, original, index, keys, ItemSchema(schema), list);
    assert merged.items == original;
    KeyedMergeIs(models, original, list, keys, schema, index, merged);
    NothingAround(original);
  }

  lemma {:induction false} NothingMatches(models: Models, original: seq<Value>, index: map<string, Value>, keys: seq<string>,
                                          itemSchema: Option<Schema>, list: Value)
    requires index == map[] && IsList(list)
    ensures MergeItems(models, original, index, keys, itemSchema, list).ItemsMerged?
    ensures MergeItems(models, original, index, keys, itemSchema, list).rest == map[]
  {
    if original != [] {
      NothingMatches(models, original[..|original| - 1], index, keys, itemSchema, list);
    }
  }

  // ---- over plain documents: exactly the repeatable patches ----

  /** If the merge gives a result, the same patch merged into what is read back of it gives the same outcome. */
  ghost predicate RepeatsReread(models: Models, original: Value, patch: Value, schema: Option<Schema>)
    requires IsMap(original) && IsMap(patch)
  {
    var r := MergeObject(models, original, patch, schema);
    r.Merged? ==> IsMap(Reread(r.value)) && MergeObject(models, Reread(r.value), patch, schema) == r
  }

  /** A repeated field meets what is read back as it meets the value itself: an empty list and null give the same. */
  lemma RereadField(models: Models, original: Option<Value>, patch: Value, schema: Option<Schema>, f: Value)
    requires original.Some? ==> Plain(original.value)
    requires IsJson(patch) && FieldConforms(models, patch, schema) && FieldRepeatable(models, patch, schema)
    requires MergeField(models, original, patch, schema).Merged? && f == MergeField(models, original, patch, schema).value
    ensures MergeField(models, Some(Copied(Reread(f))), patch, schema) == MergeField(models, Some(Copied(f)), patch, schema)
  {
    RepeatableFieldResult(models, original, patch, schema);
    if IsJson(f) {
      RereadIsNoOp(f);
    } else {
      NilListMeets(models, patch, schema);
    }
  }

  lemma NilListMeets(models: Models, patch: Value, schema: Option<Schema>)
    requires IsList(patch)
    ensures MergeField(models, Some(Copied(Reread(NilList))), patch, schema) == MergeField(models, Some(Copied(NilList)), patch, schema)
  {
  }

  /** One key of the result of a repeatable patch. */
  lemma ResultField(models: Models, original: Value, patch: Value, schema: Option<Schema>, r: Value, k: string)
    requires IsMap(original) && Conforms(models, patch, schema)
    requires MergeObject(models, original, patch, schema).Merged? && r == MergeObject(models, original, patch, schema).value
    ensures r.Obj? && r.fields.Keys == Fields(original).Keys + patch.fields.Keys
    ensures k in Fields(original) && k !in patch.fields ==> r.fields[k] == Copied(Fields(original)[k])
    ensures k in patch.fields ==>
              var field := MergeField(models, Lookup(Base(original), k), patch.fields[k], FieldSchemaOf(models, schema, k).schema);
              field.Merged? && r.fields[k] == field.value
  {
    MergedLevel(models, original, patch, schema, k);
  }

  lemma SameOutside(a: map<string, Value>, b: map<string, Value>, outcomes: map<string, Outcome>)
    requires AllMerged(outcomes) && a.Keys == b.Keys
    requires forall k :: k in a && k !in outcomes ==> a[k] == b[k]
    ensures Overlaid(a, outcomes) == Overlaid(b, outcomes)
  {
  }

  lemma RereadFieldAt(models: Models, original: Value, patch: Value, schema: Option<Schema>, r: Value, k: string)
    requires IsMap(original) && Plain(original) && IsJson(patch)
    requires Conforms(models, patch, schema) && Repeatable(models, patch, schema)
    requires MergeObject(models, original, patch, schema).Merged? && r == MergeObject(models, original, patch, schema).value
    requires k in patch.fields
    ensures r.Obj? && k in r.fields
    ensures MergeField(models, Some(Copied(Reread(r.fields[k]))), patch.fields[k], FieldSchemaOf(models, schema, k).schema)
         == MergeField(models, Some(Copied(r.fields[k])), patch.fields[k], FieldSchemaOf(models, schema, k).schema)
  {
    ResultField(models, original, patch, schema, r, k);
    if k in original.fields {
      CopyIsExact(original.fields[k]);
    }
    RereadField(models, Lookup(Base(original), k), patch.fields[k], FieldSchemaOf(models, schema, k).schema, r.fields[k]);
  }

  /** What a key of the patch gives against the copy of an object that has it. */
  lemma KeyAgainst(models: Models, o: Value, patch: Value, schema: Option<Schema>, k: string)
    requires o.Obj? && k in o.fields && Conforms(models, patch, schema) && k in patch.fields
    ensures MergeKeys(models, Base(o), patch, Resolve(models, schema).value)[k]
         == MergeField(models, Some(Copied(o.fields[k])), patch.fields[k], FieldSchemaOf(models, schema, k).schema)
  {
    KeyIsField(models, Base(o), patch, schema, k);
  }

  lemma RereadBase(models: Models, original: Value, patch: Value, schema: Option<Schema>, r: Value)
    requires IsMap(original) && Plain(original) && Conforms(models, patch, schema)
    requires MergeObject(models, original, patch, schema).Merged? && r == MergeObject(models, original, patch, schema).value
    ensures r.Obj? && Base(Reread(r)).Keys == Base(r).Keys
    ensures forall k :: k in Base(r) && k !in patch.fields ==> Base(Reread(r))[k] == Base(r)[k]
  {
    ResultField(models, original, patch, schema, r, "");
    forall k | k in r.fields && k !in patch.fields ensures Reread(r.fields[k]) == r.fields[k] {
      ResultField(models, original, patch, schema, r, k);
      CopyIsExact(original.fields[k]);
      RereadIsNoOp(r.fields[k]);
    }
  }

  /** Two originals whose fields give the same and that agree elsewhere. */
  lemma SameMerge(models: Models, a: Value, b: Value, patch: Value, schema: Option<Schema>)
    requires IsMap(a) && IsMap(b) && IsMap(patch) && Resolve(models, schema).Some?
    requires Base(a).Keys == Base(b).Keys && forall k :: k in Base(a) && k !in Fields(patch) ==> Base(a)[k] == Base(b)[k]
    requires MergeKeys(models, Base(a), patch, Resolve(models, schema).value)
          == MergeKeys(models, Base(b), patch, Resolve(models, schema).value)
    ensures MergeObject(models, a, patch, schema) == MergeObject(models, b, patch, schema)
  {
    var outcomes := MergeKeys(models, Base(a), patch, Resolve(models, schema).value);
    if AllMerged(outcomes) {
      SameOutside(Base(a), Base(b), outcomes);
    }
  }

  lemma RereadMergesAlike(models: Models, original: Value, patch: Value, schema: Option<Schema>, r: Value)
    requires IsMap(original) && Plain(original) && IsJson(patch)
    requires Conforms(models, patch, schema) && Repeatable(models, patch, schema)
    requires MergeObject(models, original, patch, schema).Merged? && r == MergeObject(models, original, patch, schema).value
    ensures IsMap(r) && IsMap(Reread(r))
    ensures MergeObject(models, Reread(r), patch, schema) == MergeObject(models, r, patch, schema)
  {
    var resolved := Resolve(models, schema).value;
    RereadBase(models, original, patch, schema, r);
    forall k | k in patch.fields
      ensures MergeKeys(models, Base(Reread(r)), patch, resolved)[k] == MergeKeys(models, Base(r), patch, resolved)[k]
    {
      RereadFieldAt(models, original, patch, schema, r, k);
      KeyAgainst(models, r, patch, schema, k);
      KeyAgainst(models, Reread(r), patch, schema, k);
    }
    assert MergeKeys(models, Base(Reread(r)), patch, resolved) == MergeKeys(models, Base(r), patch, resolved);
    SameMerge(models, Reread(r), r, patch, schema);
  }

  lemma RepeatedReread(models: Models, original: Value, patch: Value, schema: Option<Schema>)
    requires IsMap(original) && Plain(original) && IsJson(patch)
    requires Conforms(models, patch, schema) && Repeatable(models, patch, schema)
    ensures RepeatsReread(models, original, patch, schema)
  {
    var first := MergeObject(models, original, patch, schema);
    if first.Merged? {
      RepeatedMerge(models, original, patch, schema);
      RereadMergesAlike(models, original, patch, schema, first.value);
    }
  }

  /** What a conforming field inserts where nothing was is read back as it is, unless it is a nil list. */
  lemma InsertedReread(models: Models, patch: Value, schema: Option<Schema>)
    requires IsJson(patch) && FieldConforms(models, patch, schema) && !FieldRepeatable(models, patch, schema)
    ensures MergeField(models, None, patch, schema).Merged?
    ensures Reread(MergeField(models, None, patch, schema).value) == MergeField(models, None, patch, schema).value
  {
    FirstInsertion(models, patch, schema);
    if IsMap(patch) {
      RereadIsNoOp(patch);
    } else {
      var keys := StrategyOf(schema).keys;
      ConformingIndex(models, patch, keys, ItemSchema(schema));
      var index := PatchIndex(patch.items, keys).entries;
      IndexNotEmpty(patch, keys, index);
      NewItemsAreJson(patch, index);
      JsonResult([], NewItems(index));
      assert [] + NewItems(index) == NewItems(index);
      RereadIsNoOp(ResultList(NewItems(index)));
    }
  }

  lemma UnrepeatableReread(models: Models, patch: Value, schema: Option<Schema>)
    requires IsJson(patch) && Conforms(models, patch, schema) && !Repeatable(models, patch, schema)
    ensures !RepeatsReread(models, Obj(map[]), patch, schema)
  {
    var empty := Obj(map[]);
    InsertedEverywhere(models, patch, schema);
    var r := MergeObject(models, empty, patch, schema);
    var k :| k in patch.fields && !FieldRepeatable(models, patch.fields[k], FieldSchemaOf(models, schema, k).schema);
    UnrepeatableDiffers(models, patch.fields[k], FieldSchemaOf(models, schema, k).schema);
    InsertedReread(models, patch.fields[k], FieldSchemaOf(models, schema, k).schema);
    MergedLevel(models, empty, patch, schema, k);
    assert Reread(r.value).fields[k] == Reread(r.value.fields[k]);
    if MergeObject(models, Reread(r.value), patch, schema).Merged? {
      MergedLevel(models, Reread(r.value), patch, schema, k);
    }
  }

  /** Over every document that the copy does not change, exactly the repeatable patches can be applied again by the
      next policy, which reads what the first one wrote. */
  lemma RepeatsRereadExactly(models: Models, patch: Value, schema: Option<Schema>)
    requires IsJson(patch) && Conforms(models, patch, schema)
    ensures (forall original :: IsMap(original) && Plain(original) ==> RepeatsReread(models, original, patch, schema))
       <==> Repeatable(models, patch, schema)
  {
    if Repeatable(models, patch, schema) {
      forall original | IsMap(original) && Plain(original) ensures RepeatsReread(models, original, patch, schema) {
        RepeatedReread(models, original, patch, schema);
      }
    } else {
      UnrepeatableReread(models, patch, schema);
      assert IsMap(Obj(map[])) && Plain(Obj(map[]));
    }
  }
}
