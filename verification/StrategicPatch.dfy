/** The strategic merge as a patch engine of the mutation handler. */
module StrategicPatch {
  import opened Options
  import opened CleanMerges
  import opened GoValues
  import opened Idempotence
  import opened KeyedLists
  import opened MergeSchema
  import opened MergeEngine
  import opened Strings
  import opened Objects

  type Schemas = map<GroupVersionKind, Schema>

  /** The patched object, an error, or a panic. */
  datatype PatchResult = Patched(value: Value) | Rejected | Panicked

  /** The schema to merge by: that of the patch's own kind if it has one, else of the original's. */
  function SchemaFor(schemas: Schemas, original: Object, patch: Object): Option<Schema> {
    var own, given := GVKOf(original), GVKOf(patch);
    var gvk := if given.GVK? then given else own;
    if gvk.GVK? && gvk.gvk in schemas then Some(schemas[gvk.gvk]) else None
  }

  ghost function MergeFor(models: Models, schemas: Schemas, original: Object, patch: Object): Outcome {
    MergeObject(models, original, patch, SchemaFor(schemas, original, patch))
  }

  /** What the engine may answer. The result is used only if nothing at all went wrong: one partial error
      discards the whole merge. A patch without a kind goes by the original's. */
  ghost predicate Answers(models: Models, schemas: Schemas, original: Object, patch: Object, r: PatchResult) {
    match GVKOf(original)
    case GVKMissing => r == Rejected
    case GVKPanic => r == PatchResult.Panicked
    case GVK(_) =>
      if GVKOf(patch).GVKPanic? then r == PatchResult.Panicked else
      match MergeFor(models, schemas, original, patch)
      case Merged(value, errors) => r == if errors == multiset{} then Patched(value) else Rejected
      case Abort(causes) => (r == PatchResult.Panicked && Cause.Panic in causes) || (r == Rejected && exists e :: Fatal(e) in causes)
  }

  /** generateStrategicMergePatch on decoded documents. */
  method GenerateStrategicMergePatch(models: Models, schemas: Schemas, original: Object, patch: Object) returns (r: PatchResult)
    ensures Answers(models, schemas, original, patch, r)
  {
    var own := GVKOf(original);
    if !own.GVK? {
      return if own.GVKPanic? then PatchResult.Panicked else Rejected;
    }
    var desired := own.gvk;
    var given := GVKOf(patch);
    if given.GVKPanic? {
      return PatchResult.Panicked;
    }
    if given.GVK? {
      desired := given.gvk;
    }
    var initialSchema := if desired in schemas then Some(schemas[desired]) else None;
    var merged := StrategicMerge(models, original, patch, initialSchema);
    if !merged.Done? {
      return if merged.Panicked? then PatchResult.Panicked else Rejected;
    }
    if merged.errors != [] {
      assert merged.errors[0] in multiset(merged.errors);
      return Rejected;
    }
    r := Patched(merged.value);
  }

  /** For a patch that conforms to its schema the answer is known beforehand: a panic unless the original fits it, else
      an error unless the original is clear, else the patched object. */
  lemma AnsweredExactly(models: Models, schemas: Schemas, original: Object, patch: Object, r: PatchResult)
    requires GVKOf(original).GVK? && !GVKOf(patch).GVKPanic?
    requires Conforms(models, patch, SchemaFor(schemas, original, patch))
    ensures var schema := SchemaFor(schemas, original, patch);
            && (Fits(models, original, patch, schema) ==> MergeFor(models, schemas, original, patch).Merged?)
            && (Answers(models, schemas, original, patch, r) <==>
                r == if !Fits(models, original, patch, schema) then PatchResult.Panicked
                     else if !Clear(models, original, patch, schema) then Rejected
                     else Patched(MergeFor(models, schemas, original, patch).value))
  {
    ConformingNeverFatal(models, original, patch, SchemaFor(schemas, original, patch));
    ClearExactly(models, original, patch, SchemaFor(schemas, original, patch));
  }

  // ---- a partial merge is discarded ----

  lemma KeylessKept(models: Models, item: Value, index: map<string, Value>, keys: seq<string>, itemSchema: Option<Schema>,
                    list: Value, error: ItemError)
    requires IndexOf(index, list) && KeyOfItem(0, item, keys) == Unkeyed(error)
    ensures MergeItems(models, [item], index, keys, itemSchema, list) == ItemsMerged([item], multiset{error}, index)
  {
    assert [item][..0] == [];
  }

  lemma NewItemsOfOne(k: string, item: Value)
    ensures NewItems(map[k := item]) == [item]
  {
    var index := map[k := item];
    assert index.Keys == {k};
    var sorted := SortedKeys(index.Keys);
    assert |sorted| == 1 && sorted[0] in sorted;
  }

  /** An original item without a key, and a patch item with one. */
  lemma KeylessThenNew(models: Models, item: Value, entry: Value, list: Value, keys: seq<string>, schema: Option<Schema>,
                       k: string, error: ItemError)
    requires list == List([entry]) && entry.Obj? && keys != [] && CompositeKey(entry.fields, keys) == Key(k) && k != ""
    requires KeyOfItem(0, item, keys) == Unkeyed(error)
    ensures MergeList(models, [item], list, MergeBy(keys), schema) == Merged(List([item, entry]), multiset{error})
  {
    var index := map[k := entry];
    IndexOfOne(entry, keys, list, k);
    KeylessKept(models, item, index, keys, ItemSchema(schema), list, error);
    NewItemsOfOne(k, entry);
    KeyedMergeIs(models, [item], list, keys, schema, index, ItemsMerged([item], multiset{error}, index));
    assert [item] + [entry] == [item, entry];
  }

  lemma {:induction false} ListField(models: Models, base: map<string, Value>, patch: Value, schema: Schema, key: string,
                                     field: Schema, keys: seq<string>, outcome: Outcome)
    requires patch.Obj? && key in base && key in patch.fields && IsList(base[key]) && IsList(patch.fields[key])
    requires schema.Kind? && key in schema.fields && schema.fields[key] == field && !field.Ref?
    requires StrategyOf(Some(field)) == MergeBy(keys)
    requires MergeList(models, Items(base[key]), patch.fields[key], MergeBy(keys), Some(field)) == outcome
    ensures MergeKey(models, base, patch, schema, key) == outcome
  {
  }

  lemma KeyByName(item: Value, entry: Value)
    requires item == Obj(map[]) && entry == Obj(map["name" := Str("x")])
    ensures KeyOfItem(0, item, ["name"]) == Unkeyed(NoKeyField(0, "name"))
    ensures CompositeKey(entry.fields, ["name"]) == Key("x")
  {
    assert KeyParts(entry.fields, ["name"]) == ["x"];
  }

  lemma CopyOfNameless(original: Value, item: Value)
    requires original.Obj? && item == Obj(map[])
    requires original.fields == map["apiVersion" := Str("v1"), "kind" := Str("Pod"), "c" := List([item])]
    ensures Base(original) == original.fields
  {
    CopiedShape(List([item]));
    CopiedShape(item);
    assert CopiedItems([item]) == [item];
  }

  /** The patch has no kind of its own. */
  lemma SchemaOfOriginal(schemas: Schemas, original: Object, patch: Object, schema: Schema)
    requires original.Obj? && "apiVersion" in original.fields && original.fields["apiVersion"] == Str("v1")
    requires "kind" in original.fields && original.fields["kind"] == Str("Pod")
    requires patch.Obj? && "apiVersion" !in patch.fields
    requires schemas == map[GroupVersionKind("", "v1", "Pod") := schema]
    ensures GVKOf(original).GVK? && GVKOf(patch) == GVKMissing && SchemaFor(schemas, original, patch) == Some(schema)
  {
    SplitNone("v1", '/');
  }

  lemma MergedByName(original: Object, patch: Object, schema: Schema, item: Value, entry: Value)
    requires item == Obj(map[]) && entry == Obj(map["name" := Str("x")])
    requires original == Obj(map["apiVersion" := Str("v1"), "kind" := Str("Pod"), "c" := List([item])])
    requires patch == Obj(map["c" := List([entry])])
    requires schema == Kind(map[], map["c" := Array(BY_NAME, None)])
    ensures MergeObject(map[], original, patch, Some(schema))
         == Merged(Obj(original.fields["c" := List([item, entry])]), multiset{NoKeyField(0, "name")})
  {
    var outcome := Merged(List([item, entry]), multiset{NoKeyField(0, "name")});
    CopyOfNameless(original, item);
    FieldByName(original, patch, schema, item, entry, outcome);
    SingleKey(map[], original, patch, schema, "c", outcome);
  }

  lemma FieldByName(original: Object, patch: Object, schema: Schema, item: Value, entry: Value, outcome: Outcome)
    requires item == Obj(map[]) && entry == Obj(map["name" := Str("x")])
    requires original.Obj? && "c" in original.fields && original.fields["c"] == List([item])
    requires patch == Obj(map["c" := List([entry])])
    requires schema == Kind(map[], map["c" := Array(BY_NAME, None)])
    requires outcome == Merged(List([item, entry]), multiset{NoKeyField(0, "name")})
    ensures MergeKey(map[], original.fields, patch, schema, "c") == outcome
  {
    var field, list := schema.fields["c"], patch.fields["c"];
    KeyByName(item, entry);
    assert StrategyOf(Some(field)) == MergeBy(["name"]);
    KeylessThenNew(map[], item, entry, list, ["name"], Some(field), "x", NoKeyField(0, "name"));
    ListField(map[], original.fields, patch, schema, "c", field, ["name"], outcome);
  }

  /** {"c": [{"name": "x"}]} into {"c": [{}]}, with c merged by name: both items end up in the list of the merge, and
      yet the answer can only be an error, because the original's item has no name. */
  lemma PartialMergeDiscarded() returns (schemas: Schemas, original: Object, patch: Object, item: Value, entry: Value)
    ensures item == Obj(map[]) && entry == Obj(map["name" := Str("x")])
    ensures original == Obj(map["apiVersion" := Str("v1"), "kind" := Str("Pod"), "c" := List([item])])
    ensures patch == Obj(map["c" := List([entry])])
    ensures schemas == map[GroupVersionKind("", "v1", "Pod") := Kind(map[], map["c" := Array(BY_NAME, None)])]
    ensures MergeFor(map[], schemas, original, patch)
         == Merged(Obj(original.fields["c" := List([item, entry])]), multiset{NoKeyField(0, "name")})
    ensures forall r :: Answers(map[], schemas, original, patch, r) ==> r == Rejected
  {
    item, entry := Obj(map[]), Obj(map["name" := Str("x")]);
    original := Obj(map["apiVersion" := Str("v1"), "kind" := Str("Pod"), "c" := List([item])]);
    patch := Obj(map["c" := List([entry])]);
    var schema := Kind(map[], map["c" := Array(BY_NAME, None)]);
    schemas := map[GroupVersionKind("", "v1", "Pod") := schema];
    SchemaOfOriginal(schemas, original, patch, schema);
    MergedByName(original, patch, schema, item, entry);
  }
}
