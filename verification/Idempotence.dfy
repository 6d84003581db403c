/** Applying a patch twice: exactly when the second application changes nothing. */
module Idempotence {
  import opened Options
  import opened Strings
  import opened GoValues
  import opened MergeSchema
  import opened MergeEngine
  import opened KeyedLists
  import opened MergeMeaning

  // ---- patches that make sense for a schema ----

  /** Known fields only; lists merged by value hold distinct scalars; lists merged by key hold objects with
      distinct keys made of scalars; and so at every depth the merge can reach. */
  ghost predicate Conforms(models: Models, patch: Value, schema: Option<Schema>)
    decreases patch, 1
  {
    && patch.Obj?
    && Resolve(models, schema).Some?
    && forall k :: k in patch.fields ==>
         && FieldSchemaOf(models, schema, k).Known?
         && FieldConforms(models, patch.fields[k], FieldSchemaOf(models, schema, k).schema)
  }

  ghost predicate FieldConforms(models: Models, patch: Value, schema: Option<Schema>)
    decreases patch, 2
  {
    match StrategyOf(schema)
    case Replace => true
    case MergeBy(keys) =>
      && (IsMap(patch) ==> Conforms(models, patch, schema))
      && (IsList(patch) ==> patch.List? && ListConforms(models, patch, keys, ItemSchema(schema)))
  }

  ghost predicate ListConforms(models: Models, list: Value, keys: seq<string>, itemSchema: Option<Schema>)
    requires list.List?
    decreases list, 0
  {
    if keys == [] then AllHashable(list.items) && NoRepeats(list.items)
    else
      && AllKeyed(list.items, keys)
      && forall i :: 0 <= i < |list.items| ==>
           list.items[i].Obj? && ScalarKeys(list.items[i], keys) && Conforms(models, list.items[i], itemSchema)
  }

  // ---- where a second application could differ ----

  /** No list merged by key is empty, at any place where v, merged with itself, would merge. */
  ghost predicate Stable(models: Models, v: Value, schema: Option<Schema>)
    requires Conforms(models, v, schema)
    decreases v, 1
  {
    forall k :: k in v.fields ==> FieldStable(models, v.fields[k], FieldSchemaOf(models, schema, k).schema)
  }

  ghost predicate FieldStable(models: Models, v: Value, schema: Option<Schema>)
    requires FieldConforms(models, v, schema)
    decreases v, 2
  {
    match StrategyOf(schema)
    case Replace => true
    case MergeBy(keys) =>
      && (IsMap(v) ==> Stable(models, v, schema))
      && (IsList(v) && keys != [] ==> v.items != [] && ItemsStable(models, v, keys, ItemSchema(schema)))
  }

  ghost predicate ItemsStable(models: Models, list: Value, keys: seq<string>, itemSchema: Option<Schema>)
    requires list.List? && keys != [] && ListConforms(models, list, keys, itemSchema)
    decreases list, 0
  {
    forall i :: 0 <= i < |list.items| ==> Stable(models, list.items[i], itemSchema)
  }

  /** Every object that a first application may insert raw is stable. */
  ghost predicate Repeatable(models: Models, patch: Value, schema: Option<Schema>)
    requires Conforms(models, patch, schema)
  {
    forall k :: k in patch.fields ==> FieldRepeatable(models, patch.fields[k], FieldSchemaOf(models, schema, k).schema)
  }

  ghost predicate FieldRepeatable(models: Models, patch: Value, schema: Option<Schema>)
    requires FieldConforms(models, patch, schema)
  {
    match StrategyOf(schema)
    case Replace => true
    case MergeBy(keys) =>
      && (IsMap(patch) ==> Stable(models, patch, schema))
      && (IsList(patch) && keys != [] ==> ItemsStable(models, patch, keys, ItemSchema(schema)))
  }

  lemma {:induction false} StableIsRepeatable(models: Models, patch: Value, schema: Option<Schema>)
    requires Conforms(models, patch, schema) && Stable(models, patch, schema)
    ensures Repeatable(models, patch, schema)
  {
    forall k | k in patch.fields
      ensures FieldRepeatable(models, patch.fields[k], FieldSchemaOf(models, schema, k).schema)
    {
      assert FieldStable(models, patch.fields[k], FieldSchemaOf(models, schema, k).schema);
    }
  }

  // ---- when a conforming patch merges at all ----

  /** Wherever the patch meets a list that it merges by value, that list holds scalars only. */
  ghost predicate Fits(models: Models, original: Value, patch: Value, schema: Option<Schema>)
    requires IsMap(original) && Conforms(models, patch, schema)
    decreases patch, 1
  {
    forall k :: k in patch.fields ==>
      FieldFits(models, Lookup(Base(original), k), patch.fields[k], FieldSchemaOf(models, schema, k).schema)
  }

  ghost predicate FieldFits(models: Models, original: Option<Value>, patch: Value, schema: Option<Schema>)
    requires FieldConforms(models, patch, schema)
    decreases patch, 2
  {
    original.Some? && StrategyOf(schema).MergeBy? ==>
      && (IsMap(patch) && IsMap(original.value) ==> Fits(models, original.value, patch, schema))
      && (IsList(patch) && IsList(original.value) ==>
            ListFits(models, Items(original.value), patch, StrategyOf(schema).keys, ItemSchema(schema)))
  }

  ghost predicate ListFits(models: Models, original: seq<Value>, list: Value, keys: seq<string>, itemSchema: Option<Schema>)
    requires list.List? && ListConforms(models, list, keys, itemSchema)
    decreases list, 0
  {
    if keys == [] then AllHashable(original)
    else forall i, j :: 0 <= i < |original| && 0 <= j < |list.items| && Meets(original, i, list.items[j], keys) ==>
           Fits(models, original[i], list.items[j], itemSchema)
  }

  /** The first original item with the composite key of the entry. */
  ghost predicate Meets(original: seq<Value>, i: nat, entry: Value, keys: seq<string>)
    requires i < |original|
    ensures Meets(original, i, entry, keys) ==> IsMap(original[i])
  {
    && ItemKeyOf(original[i], keys).Some?
    && ItemKeyOf(original[i], keys) == ItemKeyOf(entry, keys)
    && ItemKeyOf(original[i], keys).value !in OriginalKeys(original[..i], keys)
  }

  /** A result, or else the panic and nothing but the panic. */
  ghost predicate MergesOrPanics(r: Outcome, fits: bool) {
    if fits then r.Merged? else r == Abort({Panic})
  }

  /** Whatever it is merged into, a conforming patch meets no error; it gives a result exactly when the original
      fits, and otherwise panics under every order of the keys. */
  lemma {:induction false} ConformingNeverFatal(models: Models, original: Value, patch: Value, schema: Option<Schema>)
    requires IsMap(original) && Conforms(models, patch, schema)
    ensures MergesOrPanics(MergeObject(models, original, patch, schema), Fits(models, original, patch, schema))
    decreases patch, 1
  {
    var outcomes := MergeKeys(models, Base(original), patch, Resolve(models, schema).value);
    forall k | k in patch.fields
      ensures MergesOrPanics(outcomes[k], FieldFits(models, Lookup(Base(original), k), patch.fields[k], FieldSchemaOf(models, schema, k).schema))
    {
      assert outcomes[k] == MergeKey(models, Base(original), patch, Resolve(models, schema).value, k);
      FieldNeverFatal(models, Lookup(Base(original), k), patch.fields[k], FieldSchemaOf(models, schema, k).schema);
    }
    OnlyPanics(outcomes);
  }

  lemma OnlyPanics(outcomes: map<string, Outcome>)
    requires forall k :: k in outcomes ==> outcomes[k].Merged? || outcomes[k] == Abort({Panic})
    ensures AllMerged(outcomes) || CausesOf(outcomes) == {Panic}
  {
    if !AllMerged(outcomes) {
      var k :| k in outcomes && !outcomes[k].Merged?;
      CausesReach(outcomes, k);
    }
  }

  lemma {:induction false} FieldNeverFatal(models: Models, original: Option<Value>, patch: Value, schema: Option<Schema>)
    requires FieldConforms(models, patch, schema)
    ensures MergesOrPanics(MergeField(models, original, patch, schema), FieldFits(models, original, patch, schema))
    decreases patch, 2
  {
    if StrategyOf(schema).MergeBy? {
      if IsMap(patch) && original.Some? && IsMap(original.value) {
        ConformingNeverFatal(models, original.value, patch, schema);
      } else if IsList(patch) {
        var items := if original.Some? && IsList(original.value) then Items(original.value) else [];
        ListNeverFatal(models, items, patch, StrategyOf(schema).keys, schema);
      }
    }
  }

  lemma {:induction false} ListNeverFatal(models: Models, original: seq<Value>, list: Value, keys: seq<string>, schema: Option<Schema>)
    requires list.List? && ListConforms(models, list, keys, ItemSchema(schema))
    ensures MergesOrPanics(MergeList(models, original, list, MergeBy(keys), schema),
                           ListFits(models, original, list, keys, ItemSchema(schema)))
    ensures original == [] ==> MergeList(models, original, list, MergeBy(keys), schema).Merged?
    decreases list, 0, |original| + 1
  {
    if keys != [] {
      OwnIndex(list.items, keys);
      var index := PatchIndex(list.items, keys).entries;
      ItemsNeverFatal(models, original, index, keys, ItemSchema(schema), list);
      FitsByEntry(models, original, index, list, keys, ItemSchema(schema));
    }
  }

  /** Every item fits the entry that it is merged with. */
  ghost predicate ItemsFit(models: Models, original: seq<Value>, index: map<string, Value>, keys: seq<string>,
                           itemSchema: Option<Schema>)
    requires ConformingIn(models, index, itemSchema)
  {
    forall i :: 0 <= i < |original| ==> ItemFits(models, original, i, index, keys, itemSchema)
  }

  ghost predicate ItemFits(models: Models, original: seq<Value>, i: nat, index: map<string, Value>, keys: seq<string>,
                           itemSchema: Option<Schema>)
    requires i < |original| && ConformingIn(models, index, itemSchema)
  {
    UsesEntry(original, i, index, keys) ==>
      Fits(models, original[i], index[ItemKeyOf(original[i], keys).value], itemSchema)
  }

  /** The item of the patch list that original item i is merged with. */
  lemma EntryOf(original: seq<Value>, i: nat, index: map<string, Value>, list: Value, keys: seq<string>) returns (j: nat)
    requires list.List? && i < |original| && UsesEntry(original, i, index, keys)
    requires index.Keys == OriginalKeys(list.items, keys)
    ensures j < |list.items| && ItemKeyOf(list.items[j], keys) == ItemKeyOf(original[i], keys)
  {
    OriginalKeysMembers(list.items, keys, ItemKeyOf(original[i], keys).value);
    j :| 0 <= j < |list.items| && ItemKeyOf(list.items[j], keys) == ItemKeyOf(original[i], keys);
  }

  lemma FitsByEntry(models: Models, original: seq<Value>, index: map<string, Value>, list: Value, keys: seq<string>,
                    itemSchema: Option<Schema>)
    requires list.List? && keys != [] && ListConforms(models, list, keys, itemSchema) && ConformingIn(models, index, itemSchema)
    requires index.Keys == OriginalKeys(list.items, keys)
    requires forall j :: 0 <= j < |list.items| ==>
               ItemKeyOf(list.items[j], keys).value in index && index[ItemKeyOf(list.items[j], keys).value] == list.items[j]
    ensures ListFits(models, original, list, keys, itemSchema) <==> ItemsFit(models, original, index, keys, itemSchema)
  {
    if ListFits(models, original, list, keys, itemSchema) {
      forall i | 0 <= i < |original| ensures ItemFits(models, original, i, index, keys, itemSchema) {
        if UsesEntry(original, i, index, keys) {
          var j := EntryOf(original, i, index, list, keys);
          assert Meets(original, i, list.items[j], keys);
        }
      }
    }
    if ItemsFit(models, original, index, keys, itemSchema) {
      forall i, j | 0 <= i < |original| && 0 <= j < |list.items| && Meets(original, i, list.items[j], keys)
        ensures Fits(models, original[i], list.items[j], itemSchema)
      {
        assert ItemFits(models, original, i, index, keys, itemSchema);
      }
    }
  }

  lemma {:induction false} ItemsNeverFatal(models: Models, original: seq<Value>, index: map<string, Value>, keys: seq<string>,
                                           itemSchema: Option<Schema>, list: Value)
    requires IndexOf(index, list) && ConformingIn(models, index, itemSchema)
    ensures var r := MergeItems(models, original, index, keys, itemSchema, list);
            if ItemsFit(models, original, index, keys, itemSchema) then r.ItemsMerged? else r == ItemsAbort({Panic})
    decreases list, 0, |original|
  {
    if original != [] {
      var n := |original| - 1;
      var front := original[..n];
      assert original[..n + 1] == original;
      ItemsNeverFatal(models, front, index, keys, itemSchema, list);
      FitFront(models, original, front, index, keys, itemSchema);
      var before := MergeItems(models, front, index, keys, itemSchema, list);
      if before.ItemsMerged? {
        MergeItemsExact(models, front, index, keys, itemSchema, list);
        MergeItemsStep(models, original, n, index, keys, itemSchema, list);
        LastNeverFatal(models, original, n, index, before.rest, keys, itemSchema, list);
      } else {
        MergeItemsAbortsEarly(models, original, n, index, keys, itemSchema, list);
      }
    }
  }

  lemma FitFront(models: Models, original: seq<Value>, front: seq<Value>, index: map<string, Value>, keys: seq<string>,
                 itemSchema: Option<Schema>)
    requires original != [] && front == original[..|original| - 1] && ConformingIn(models, index, itemSchema)
    ensures ItemsFit(models, original, index, keys, itemSchema) <==>
            && ItemsFit(models, front, index, keys, itemSchema)
            && ItemFits(models, original, |original| - 1, index, keys, itemSchema)
  {
    if ItemsFit(models, original, index, keys, itemSchema) {
      FrontFits(models, original, front, index, keys, itemSchema);
    } else if ItemsFit(models, front, index, keys, itemSchema) && ItemFits(models, original, |original| - 1, index, keys, itemSchema) {
      AllFit(models, original, front, index, keys, itemSchema);
    }
  }

  lemma FrontFits(models: Models, original: seq<Value>, front: seq<Value>, index: map<string, Value>, keys: seq<string>,
                  itemSchema: Option<Schema>)
    requires original != [] && front == original[..|original| - 1] && ConformingIn(models, index, itemSchema)
    requires ItemsFit(models, original, index, keys, itemSchema)
    ensures ItemsFit(models, front, index, keys, itemSchema)
  {
    forall i | 0 <= i < |front| ensures ItemFits(models, front, i, index, keys, itemSchema) {
      assert ItemFits(models, original, i, index, keys, itemSchema);
      FitsInFront(models, original, front, i, index, keys, itemSchema);
    }
  }

  lemma AllFit(models: Models, original: seq<Value>, front: seq<Value>, index: map<string, Value>, keys: seq<string>,
               itemSchema: Option<Schema>)
    requires original != [] && front == original[..|original| - 1] && ConformingIn(models, index, itemSchema)
    requires ItemsFit(models, front, index, keys, itemSchema) && ItemFits(models, original, |original| - 1, index, keys, itemSchema)
    ensures ItemsFit(models, original, index, keys, itemSchema)
  {
    forall i | 0 <= i < |original| ensures ItemFits(models, original, i, index, keys, itemSchema) {
      if i < |front| {
        assert ItemFits(models, front, i, index, keys, itemSchema);
        FitsInFront(models, original, front, i, index, keys, itemSchema);
      }
    }
  }

  lemma FitsInFront(models: Models, original: seq<Value>, front: seq<Value>, i: nat, index: map<string, Value>, keys: seq<string>,
                    itemSchema: Option<Schema>)
    requires original != [] && front == original[..|original| - 1] && i < |front| && ConformingIn(models, index, itemSchema)
    ensures ItemFits(models, front, i, index, keys, itemSchema) <==> ItemFits(models, original, i, index, keys, itemSchema)
  {
    assert front[..i] == original[..i] && front[i] == original[i];
  }

  lemma {:induction false} LastNeverFatal(models: Models, original: seq<Value>, n: nat, index: map<string, Value>, rest: map<string, Value>,
                                          keys: seq<string>, itemSchema: Option<Schema>, list: Value)
    requires n < |original| && IndexOf(index, list) && IndexOf(rest, list) && ConformingIn(models, index, itemSchema)
    requires rest == index - OriginalKeys(original[..n], keys)
    ensures MergesOrPanics(MergeItem(models, n, original[n], rest, keys, itemSchema, list),
                           ItemFits(models, original, n, index, keys, itemSchema))
    decreases list, 0, 0
  {
    SameKey(n, original[n], keys);
    if UsesEntry(original, n, index, keys) {
      ConformingNeverFatal(models, original[n], index[ItemKeyOf(original[n], keys).value], itemSchema);
    }
  }

  // ---- keys survive copying ----

  lemma CopyKeepsKey(item: Value, keys: seq<string>)
    requires IsMap(item) && ScalarKeys(item, keys)
    ensures IsMap(CopiedItem(item)) && ItemKeyOf(CopiedItem(item), keys) == ItemKeyOf(item, keys)
  {
    CopiedShape(item);
    forall i | 0 <= i < |keys| ensures Fields(CopiedItem(item))[keys[i]] == Fields(item)[keys[i]] {
      CopiedShape(Fields(item)[keys[i]]);
    }
    assert KeyParts(Fields(CopiedItem(item)), keys) == KeyParts(Fields(item), keys);
  }

  // ---- a value merged with itself ----

  /** v merged with itself: no error, and v again exactly when it is stable. */
  ghost predicate SelfMerges(models: Models, v: Value, schema: Option<Schema>)
    requires Conforms(models, v, schema)
  {
    var r := MergeObject(models, v, v, schema);
    r.Merged? && r.errors == multiset{} && (r.value == v <==> Stable(models, v, schema))
  }

  lemma {:induction false} SumOfNothing<E>(m: map<string, multiset<E>>)
    requires forall k :: k in m ==> m[k] == multiset{}
    ensures Sum(m) == multiset{}
  {
    if m != map[] {
      var k :| k in m;
      SumRemove(m, k);
      SumOfNothing(m - {k});
    }
  }

  /** An item that is its own entry in the index and, merged with itself, gives self without an error. */
  ghost predicate SelfEntry(models: Models, item: Value, self: Value, index: map<string, Value>, keys: seq<string>,
                            itemSchema: Option<Schema>) {
    && item.Obj? && ScalarKeys(item, keys) && ItemKeyOf(item, keys).Some?
    && ItemKeyOf(item, keys).value in index && index[ItemKeyOf(item, keys).value] == item
    && MergeObject(models, item, item, itemSchema) == Merged(self, multiset{})
  }

  lemma CopyMeetsItself(models: Models, i: nat, item: Value, self: Value, rest: map<string, Value>, keys: seq<string>,
                        itemSchema: Option<Schema>, patch: Value)
    requires IndexOf(rest, patch) && SelfEntry(models, item, self, rest, keys, itemSchema)
    ensures KeyOfItem(i, CopiedItem(item), keys) == Keyed(ItemKeyOf(item, keys).value)
    ensures MergeItem(models, i, CopiedItem(item), rest, keys, itemSchema, patch) == Merged(self, multiset{})
  {
    CopyKeepsKey(item, keys);
    SameKey(i, CopiedItem(item), keys);
    CopiedShape(item);
    MergeOfCopy(models, item, item, itemSchema);
  }

  ghost predicate SelfEntries(models: Models, items: seq<Value>, selfs: seq<Value>, index: map<string, Value>,
                              keys: seq<string>, itemSchema: Option<Schema>) {
    && AllKeyed(items, keys) && |selfs| == |items|
    && forall i :: 0 <= i < |items| ==> SelfEntry(models, items[i], selfs[i], index, keys, itemSchema)
  }

  /** The last of such items still finds its entry when the others took theirs. */
  lemma LastSelfEntry(models: Models, items: seq<Value>, selfs: seq<Value>, index: map<string, Value>,
                      keys: seq<string>, itemSchema: Option<Schema>)
    requires items != [] && SelfEntries(models, items, selfs, index, keys, itemSchema)
    ensures var n := |items| - 1;
            var rest := index - OriginalKeys(items[..n], keys);
            && SelfEntries(models, items[..n], selfs[..n], index, keys, itemSchema)
            && SelfEntry(models, items[n], selfs[n], rest, keys, itemSchema)
            && rest - {ItemKeyOf(items[n], keys).value} == index - OriginalKeys(items, keys)
  {
    var n := |items| - 1;
    AllKeyedInit(items, keys);
    assert SelfEntry(models, items[n], selfs[n], index, keys, itemSchema);
  }

  /** Behind items that left rest, copies of such items merge one by one with themselves. */
  lemma {:induction false} ItemsSelfMerge(models: Models, front: seq<Value>, items: seq<Value>, selfs: seq<Value>,
                                          index: map<string, Value>, before: ItemsOutcome,
                                          keys: seq<string>, itemSchema: Option<Schema>, patch: Value)
    requires IndexOf(index, patch)
    requires MergeItems(models, front, index, keys, itemSchema, patch) == before && before.ItemsMerged?
    requires SelfEntries(models, items, selfs, before.rest, keys, itemSchema)
    ensures MergeItems(models, front + CopiedItems(items), index, keys, itemSchema, patch)
         == ItemsMerged(before.items + selfs, before.errors, before.rest - OriginalKeys(items, keys))
  {
    if items == [] {
      assert front + CopiedItems(items) == front && before.rest - {} == before.rest && before.items + selfs == before.items;
    } else {
      var n := |items| - 1;
      var init, self := front + CopiedItems(items[..n]), selfs[n];
      var rest := before.rest - OriginalKeys(items[..n], keys);
      LastSelfEntry(models, items, selfs, before.rest, keys, itemSchema);
      ItemsSelfMerge(models, front, items[..n], selfs[..n], index, before, keys, itemSchema, patch);
      SelfStep(models, init, index, ItemsMerged(before.items + selfs[..n], before.errors, rest),
               keys, itemSchema, patch, items[n], self);
      CopiedSnoc(front, items);
      SplitLast(before.items, selfs);
    }
  }

  lemma SplitLast<T>(a: seq<T>, b: seq<T>)
    requires b != []
    ensures a + b[..|b| - 1] + [b[|b| - 1]] == a + b
  {
  }

  lemma CopiedSnoc(front: seq<Value>, items: seq<Value>)
    requires items != []
    ensures front + CopiedItems(items[..|items| - 1]) + [CopiedItem(items[|items| - 1])] == front + CopiedItems(items)
  {
    assert CopiedItems(items)[..|items| - 1] == CopiedItems(items[..|items| - 1]);
  }

  /** MergeItems, one item further. */
  lemma MergeItemsSnoc(models: Models, front: seq<Value>, item: Value, index: map<string, Value>, before: ItemsOutcome,
                       keys: seq<string>, itemSchema: Option<Schema>, patch: Value, value: Value, errors: multiset<ItemError>)
    requires IndexOf(index, patch)
    requires MergeItems(models, front, index, keys, itemSchema, patch) == before && before.ItemsMerged?
    requires MergeItem(models, |front|, item, before.rest, keys, itemSchema, patch) == Merged(value, errors)
    ensures MergeItems(models, front + [item], index, keys, itemSchema, patch)
         == ItemsMerged(before.items + [value], before.errors + errors, Used(before.rest, KeyOfItem(|front|, item, keys)))
  {
    var whole := front + [item];
    assert whole[..|front|] == front && whole[..|front| + 1] == whole;
    MergeItemsStep(models, whole, |front|, index, keys, itemSchema, patch);
  }

  lemma SelfStep(models: Models, front: seq<Value>, index: map<string, Value>, before: ItemsOutcome, keys: seq<string>,
                 itemSchema: Option<Schema>, patch: Value, item: Value, self: Value)
    requires IndexOf(index, patch)
    requires MergeItems(models, front, index, keys, itemSchema, patch) == before && before.ItemsMerged?
    requires SelfEntry(models, item, self, before.rest, keys, itemSchema)
    ensures MergeItems(models, front + [CopiedItem(item)], index, keys, itemSchema, patch)
         == ItemsMerged(before.items + [self], before.errors, before.rest - {ItemKeyOf(item, keys).value})
  {
    CopyMeetsItself(models, |front|, item, self, before.rest, keys, itemSchema, patch);
    MergeItemsSnoc(models, front, CopiedItem(item), index, before, keys, itemSchema, patch, self, multiset{});
  }

  lemma SelfMergedFields(models: Models, v: Value, schema: Option<Schema>)
    requires Conforms(models, v, schema)
    requires forall k :: k in v.fields ==> FieldSelfMerges(models, v.fields[k], FieldSchemaOf(models, schema, k).schema)
    ensures SelfMerges(models, v, schema)
  {
    var resolved := Resolve(models, schema).value;
    var outcomes := MergeKeys(models, Base(v), v, resolved);
    forall k | k in v.fields
      ensures outcomes[k].Merged? && outcomes[k].errors == multiset{}
      ensures outcomes[k].value == v.fields[k] <==> FieldStable(models, v.fields[k], FieldSchemaOf(models, schema, k).schema)
    {
      SelfMergedKey(models, v, schema, k);
    }
    OverlaidSame(Base(v), v.fields, outcomes);
  }

  lemma SelfMergedKey(models: Models, v: Value, schema: Option<Schema>, k: string)
    requires Conforms(models, v, schema) && k in v.fields
    requires FieldSelfMerges(models, v.fields[k], FieldSchemaOf(models, schema, k).schema)
    ensures MergeKey(models, Base(v), v, Resolve(models, schema).value, k)
         == MergeField(models, Some(Copied(v.fields[k])), v.fields[k], FieldSchemaOf(models, schema, k).schema)
  {
  }

  lemma OverlaidSame(base: map<string, Value>, fields: map<string, Value>, outcomes: map<string, Outcome>)
    requires base.Keys == fields.Keys == outcomes.Keys && AllMerged(outcomes)
    requires forall k :: k in outcomes ==> outcomes[k].errors == multiset{}
    ensures ErrorsOf(outcomes) == multiset{}
    ensures Overlaid(base, outcomes) == fields <==> forall k :: k in fields ==> outcomes[k].value == fields[k]
  {
    SumOfNothing(map k | k in outcomes :: outcomes[k].errors);
    var merged := Overlaid(base, outcomes);
    assert merged.Keys == fields.Keys;
    assert forall k :: k in fields ==> merged[k] == outcomes[k].value;
  }

  /** A field value met by a patch field that equals it. */
  ghost predicate FieldSelfMerges(models: Models, v: Value, schema: Option<Schema>)
    requires FieldConforms(models, v, schema)
  {
    var r := MergeField(models, Some(Copied(v)), v, schema);
    r.Merged? && r.errors == multiset{} && (r.value == v <==> FieldStable(models, v, schema))
  }

  /** A conforming object merged with itself is itself exactly when it is stable. */
  lemma {:induction false} SelfMerge(models: Models, v: Value, schema: Option<Schema>)
    requires Conforms(models, v, schema)
    ensures SelfMerges(models, v, schema)
    decreases v, 1
  {
    forall k | k in v.fields ensures FieldSelfMerges(models, v.fields[k], FieldSchemaOf(models, schema, k).schema) {
      SelfMergeField(models, v.fields[k], FieldSchemaOf(models, schema, k).schema);
    }
    SelfMergedFields(models, v, schema);
  }

  lemma {:induction false} SelfMergeField(models: Models, v: Value, schema: Option<Schema>)
    requires FieldConforms(models, v, schema)
    ensures FieldSelfMerges(models, v, schema)
    decreases v, 2
  {
    CopiedShape(v);
    if StrategyOf(schema).MergeBy? {
      if IsMap(v) {
        SelfMerge(models, v, schema);
        MergeOfCopy(models, v, v, schema);
      } else if IsList(v) {
        SelfMergeList(models, v, StrategyOf(schema).keys, schema);
      }
    }
  }

  lemma {:induction false} SelfMergeList(models: Models, list: Value, keys: seq<string>, schema: Option<Schema>)
    requires list.List? && ListConforms(models, list, keys, ItemSchema(schema))
    ensures var r := MergeList(models, CopiedItems(list.items), list, MergeBy(keys), schema);
            && r.Merged? && r.errors == multiset{}
            && (r.value == list <==> keys == [] || (list.items != [] && ItemsStable(models, list, keys, ItemSchema(schema))))
    decreases list, 0
  {
    var items, itemSchema := list.items, ItemSchema(schema);
    if keys == [] {
      forall i | 0 <= i < |items| ensures CopiedItem(items[i]) == items[i] {
        CopiedShape(items[i]);
      }
      assert CopiedItems(items) == items;
      AddNewKeeps(items);
      AddNewAbsorbs(items, items);
    } else {
      forall i | 0 <= i < |items| ensures SelfMerges(models, items[i], itemSchema) {
        SelfMerge(models, items[i], itemSchema);
      }
      var selfs := SelfValues(models, items, itemSchema);
      SelfMergeKeyed(models, list, selfs, keys, schema);
      if ItemsStable(models, list, keys, itemSchema) {
        assert selfs == items;
      } else {
        var i :| 0 <= i < |items| && !Stable(models, items[i], itemSchema);
        assert selfs[i] != items[i];
      }
    }
  }

  ghost function SelfValues(models: Models, items: seq<Value>, itemSchema: Option<Schema>): (r: seq<Value>)
    requires forall i :: 0 <= i < |items| ==>
               items[i].Obj? && Conforms(models, items[i], itemSchema) && SelfMerges(models, items[i], itemSchema)
    ensures |r| == |items|
    ensures forall i :: 0 <= i < |items| ==>
              MergeObject(models, items[i], items[i], itemSchema) == Merged(r[i], multiset{}) &&
              (r[i] == items[i] <==> Stable(models, items[i], itemSchema))
  {
    assert forall i :: 0 <= i < |items| ==> SelfMerges(models, items[i], itemSchema);
    seq(|items|, i requires 0 <= i < |items| => SelfValue(models, items[i], itemSchema))
  }

  ghost function SelfValue(models: Models, v: Value, schema: Option<Schema>): (r: Value)
    requires v.Obj? && Conforms(models, v, schema) && SelfMerges(models, v, schema)
    ensures MergeObject(models, v, v, schema) == Merged(r, multiset{})
    ensures r == v <==> Stable(models, v, schema)
  {
    MergeObject(models, v, v, schema).value
  }

  lemma SelfMergeKeyed(models: Models, list: Value, selfs: seq<Value>, keys: seq<string>, schema: Option<Schema>)
    requires list.List? && keys != [] && AllKeyed(list.items, keys) && |selfs| == |list.items|
    requires forall i :: 0 <= i < |selfs| ==>
               && list.items[i].Obj? && ScalarKeys(list.items[i], keys)
               && MergeObject(models, list.items[i], list.items[i], ItemSchema(schema)) == Merged(selfs[i], multiset{})
    ensures MergeList(models, CopiedItems(list.items), list, MergeBy(keys), schema) == Merged(ResultList(selfs), multiset{})
  {
    var items, itemSchema := list.items, ItemSchema(schema);
    OwnIndex(items, keys);
    var index := PatchIndex(items, keys).entries;
    assert SelfEntries(models, items, selfs, index, keys, itemSchema);
    SelfMergedItems(models, list, selfs, index, keys, itemSchema);
    NothingAround(selfs);
    KeyedMergeIs(models, CopiedItems(items), list, keys, schema, index, ItemsMerged(selfs, multiset{}, map[]));
  }

  lemma SelfMergedItems(models: Models, list: Value, selfs: seq<Value>, index: map<string, Value>, keys: seq<string>,
                        itemSchema: Option<Schema>)
    requires list.List? && IndexOf(index, list) && SelfEntries(models, list.items, selfs, index, keys, itemSchema)
    requires index.Keys == OriginalKeys(list.items, keys)
    ensures MergeItems(models, CopiedItems(list.items), index, keys, itemSchema, list) == ItemsMerged(selfs, multiset{}, map[])
  {
    ItemsSelfMerge(models, [], list.items, selfs, index, ItemsMerged([], multiset{}, index), keys, itemSchema, list);
    NothingAround(CopiedItems(list.items));
    NothingAround(selfs);
    assert index - OriginalKeys(list.items, keys) == map[];
  }

  lemma NothingAround(items: seq<Value>)
    ensures [] + items == items && items + NewItems(map[]) == items
  {
  }

  lemma KeyedMergeIs(models: Models, original: seq<Value>, list: Value, keys: seq<string>, schema: Option<Schema>,
                     index: map<string, Value>, merged: ItemsOutcome)
    requires IsList(list) && keys != [] && PatchIndex(Items(list), keys) == Index(index)
    requires merged.ItemsMerged? && MergeItems(models, original, index, keys, ItemSchema(schema), list) == merged
    ensures MergeList(models, original, list, MergeBy(keys), schema)
         == Merged(ResultList(merged.items + NewItems(merged.rest)), merged.errors)
  {
  }

  /** A list of objects with distinct keys indexes itself. */
  lemma OwnIndex(items: seq<Value>, keys: seq<string>)
    requires AllKeyed(items, keys)
    ensures PatchIndex(items, keys).Index?
    ensures PatchIndex(items, keys).entries.Keys == OriginalKeys(items, keys)
    ensures forall i :: 0 <= i < |items| ==>
              && ItemKeyOf(items[i], keys).value in PatchIndex(items, keys).entries
              && PatchIndex(items, keys).entries[ItemKeyOf(items[i], keys).value] == items[i]
  {
    PatchIndexFails(items, keys);
    PatchIndexHolds(items, keys);
    var entries := PatchIndex(items, keys).entries;
    forall i | 0 <= i < |items|
      ensures ItemKeyOf(items[i], keys).value in entries && entries[ItemKeyOf(items[i], keys).value] == items[i]
    {
      OwnEntry(items, keys, entries, i);
    }
  }

  lemma OwnEntry(items: seq<Value>, keys: seq<string>, entries: map<string, Value>, i: nat)
    requires AllKeyed(items, keys) && i < |items| && entries.Keys == OriginalKeys(items, keys)
    requires forall c :: c in entries ==> exists j :: IsLastWith(items, j, keys, c) && entries[c] == items[j]
    ensures ItemKeyOf(items[i], keys).value in entries && entries[ItemKeyOf(items[i], keys).value] == items[i]
  {
    var c := ItemKeyOf(items[i], keys).value;
    OriginalKeysMembers(items, keys, c);
    var j :| IsLastWith(items, j, keys, c) && entries[c] == items[j];
    assert ItemKeyOf(items[i], keys) == ItemKeyOf(items[j], keys);
  }

  // ---- the second application ----

  /** Objects with scalar keys, each under its own. */
  ghost predicate KeyedIn(index: map<string, Value>, keys: seq<string>) {
    forall c :: c in index ==> index[c].Obj? && ScalarKeys(index[c], keys) && ItemKeyOf(index[c], keys) == Some(c)
  }

  ghost predicate ConformingIn(models: Models, index: map<string, Value>, itemSchema: Option<Schema>) {
    forall c :: c in index ==> Conforms(models, index[c], itemSchema)
  }

  /** The index of a conforming list of stable items. */
  ghost predicate GoodEntries(models: Models, index: map<string, Value>, keys: seq<string>, itemSchema: Option<Schema>) {
    && KeyedIn(index, keys) && ConformingIn(models, index, itemSchema)
    && forall c :: c in index ==> Stable(models, index[c], itemSchema)
  }

  lemma ConformingIndex(models: Models, list: Value, keys: seq<string>, itemSchema: Option<Schema>)
    requires list.List? && keys != [] && ListConforms(models, list, keys, itemSchema)
    ensures PatchIndex(list.items, keys).Index?
    ensures KeyedIn(PatchIndex(list.items, keys).entries, keys)
    ensures ConformingIn(models, PatchIndex(list.items, keys).entries, itemSchema)
    ensures ItemsStable(models, list, keys, itemSchema) ==>
              GoodEntries(models, PatchIndex(list.items, keys).entries, keys, itemSchema)
  {
    OwnIndex(list.items, keys);
    PatchIndexMeaning(list.items, keys);
    var index := PatchIndex(list.items, keys).entries;
    forall c | c in index
      ensures index[c].Obj? && ScalarKeys(index[c], keys) && ItemKeyOf(index[c], keys) == Some(c)
      ensures Conforms(models, index[c], itemSchema)
      ensures ItemsStable(models, list, keys, itemSchema) ==> Stable(models, index[c], itemSchema)
    {
      var i :| IsLastWith(list.items, i, keys, c) && index[c] == list.items[i];
    }
  }

  /** What an item became is found, merged and kept by the same entry again. */
  lemma RepeatedItem(models: Models, i: nat, item: Value, rest: map<string, Value>, keys: seq<string>,
                     itemSchema: Option<Schema>, list: Value, result: Value, errors: multiset<ItemError>)
    requires IndexOf(rest, list) && CopiedItem(item) == item
    requires MergeItem(models, i, item, rest, keys, itemSchema, list) == Merged(result, errors)
    requires forall c :: c in rest ==> ScalarKeys(rest[c], keys) && ItemKeyOf(rest[c], keys) == Some(c)
    requires KeyOfItem(i, item, keys).Keyed? && KeyOfItem(i, item, keys).key in rest ==>
               IsMap(result) && MergeObject(models, result, rest[KeyOfItem(i, item, keys).key], itemSchema) == Merged(result, errors)
    ensures KeyOfItem(i, CopiedItem(result), keys) == KeyOfItem(i, item, keys)
    ensures MergeItem(models, i, CopiedItem(result), rest, keys, itemSchema, list) == Merged(result, errors)
  {
    var key := KeyOfItem(i, item, keys);
    if key.Keyed? && key.key in rest {
      var entry := rest[key.key];
      MergeKeepsKey(models, item, entry, itemSchema, keys);
      MergeKeepsScalarKeys(models, item, entry, itemSchema, keys);
      CopyKeepsKey(result, keys);
      SameKey(i, CopiedItem(result), keys);
      CopiedShape(result);
      MergeOfCopy(models, result, entry, itemSchema);
    }
  }

  lemma MergeKeepsScalarKeys(models: Models, original: Value, patch: Value, schema: Option<Schema>, keys: seq<string>)
    requires IsMap(original) && IsMap(patch) && ScalarKeys(patch, keys)
    requires MergeObject(models, original, patch, schema).Merged?
    ensures IsMap(MergeObject(models, original, patch, schema).value)
    ensures ScalarKeys(MergeObject(models, original, patch, schema).value, keys)
  {
    var r := MergeObject(models, original, patch, schema).value;
    forall i | 0 <= i < |keys| ensures IsMap(r) && keys[i] in Fields(r) && Hashable(Fields(r)[keys[i]]) {
      MergedField(models, original, patch, schema, r, keys[i]);
    }
    MergedField(models, original, patch, schema, r, "");
  }

  /** The original items again, as the first application left them. */
  lemma {:induction false} RepeatedItems(models: Models, original: seq<Value>, index: map<string, Value>, keys: seq<string>,
                                         itemSchema: Option<Schema>, list: Value)
    requires IndexOf(index, list) && GoodEntries(models, index, keys, itemSchema)
    requires CopiedItems(original) == original
    requires MergeItems(models, original, index, keys, itemSchema, list).ItemsMerged?
    ensures var r := MergeItems(models, original, index, keys, itemSchema, list);
            MergeItems(models, CopiedItems(r.items), index, keys, itemSchema, list) == r
    decreases list, 0, |original| + 1
  {
    if original == [] {
      assert CopiedItems([]) == [];
    } else {
      var n := |original| - 1;
      var front, item := original[..n], original[n];
      CopiedPrefix(original, n);
      assert original[..n + 1] == original;
      MergeItemsStep(models, original, n, index, keys, itemSchema, list);
      RepeatedItems(models, front, index, keys, itemSchema, list);
      RestIsPart(models, front, index, keys, itemSchema, list);
      var before := MergeItems(models, front, index, keys, itemSchema, list);
      var step := MergeItem(models, n, item, before.rest, keys, itemSchema, list);
      RepeatedEntry(models, n, item, before.rest, keys, itemSchema, list, step.value, step.errors);
      RepeatedStep(models, n, item, index, before, keys, itemSchema, list, step.value, step.errors);
    }
  }

  lemma CopiedPrefix(items: seq<Value>, n: nat)
    requires CopiedItems(items) == items && n < |items|
    ensures CopiedItems(items[..n]) == items[..n] && CopiedItem(items[n]) == items[n]
  {
    assert CopiedItems(items[..n]) == CopiedItems(items)[..n];
    assert CopiedItems(items)[n] == CopiedItem(items[n]);
  }

  /** The entry an item met gives the same result again. */
  lemma {:induction false} RepeatedEntry(models: Models, n: nat, item: Value, rest: map<string, Value>, keys: seq<string>,
                                         itemSchema: Option<Schema>, list: Value, value: Value, errors: multiset<ItemError>)
    requires IndexOf(rest, list) && GoodEntries(models, rest, keys, itemSchema)
    requires MergeItem(models, n, item, rest, keys, itemSchema, list) == Merged(value, errors)
    ensures KeyOfItem(n, item, keys).Keyed? && KeyOfItem(n, item, keys).key in rest ==>
              IsMap(value) && MergeObject(models, value, rest[KeyOfItem(n, item, keys).key], itemSchema) == Merged(value, errors)
    decreases list, 0, 0
  {
    var key := KeyOfItem(n, item, keys);
    if key.Keyed? && key.key in rest {
      StableIsRepeatable(models, rest[key.key], itemSchema);
      RepeatedMerge(models, item, rest[key.key], itemSchema);
    }
  }

  lemma RestIsPart(models: Models, original: seq<Value>, index: map<string, Value>, keys: seq<string>,
                   itemSchema: Option<Schema>, list: Value)
    requires IndexOf(index, list)
    requires MergeItems(models, original, index, keys, itemSchema, list).ItemsMerged?
    ensures |MergeItems(models, original, index, keys, itemSchema, list).items| == |original|
    ensures var rest := MergeItems(models, original, index, keys, itemSchema, list).rest;
            forall c :: c in rest ==> c in index && rest[c] == index[c]
  {
    MergeItemsExact(models, original, index, keys, itemSchema, list);
  }

  /** One item further, given that the entry it may meet behaves. */
  lemma RepeatedStep(models: Models, n: nat, item: Value, index: map<string, Value>, before: ItemsOutcome, keys: seq<string>,
                     itemSchema: Option<Schema>, list: Value, value: Value, errors: multiset<ItemError>)
    requires IndexOf(index, list) && before.ItemsMerged? && |before.items| == n && CopiedItem(item) == item
    requires MergeItems(models, CopiedItems(before.items), index, keys, itemSchema, list) == before
    requires MergeItem(models, n, item, before.rest, keys, itemSchema, list) == Merged(value, errors)
    requires forall c :: c in before.rest ==> ScalarKeys(before.rest[c], keys) && ItemKeyOf(before.rest[c], keys) == Some(c)
    requires KeyOfItem(n, item, keys).Keyed? && KeyOfItem(n, item, keys).key in before.rest ==>
               IsMap(value) && MergeObject(models, value, before.rest[KeyOfItem(n, item, keys).key], itemSchema) == Merged(value, errors)
    ensures MergeItems(models, CopiedItems(before.items + [value]), index, keys, itemSchema, list)
         == ItemsMerged(before.items + [value], before.errors + errors, Used(before.rest, KeyOfItem(n, item, keys)))
  {
    RepeatedItem(models, n, item, before.rest, keys, itemSchema, list, value, errors);
    MergeItemsSnoc(models, CopiedItems(before.items), CopiedItem(value), index, before, keys, itemSchema, list, value, errors);
    CopiedSnoc([], before.items + [value]);
    assert (before.items + [value])[..n] == before.items;
    assert [] + CopiedItems(before.items) == CopiedItems(before.items);
    assert [] + CopiedItems(before.items + [value]) == CopiedItems(before.items + [value]);
  }

  /** The items appended for the entries that were left are their own entries. */
  lemma NewItemsSelfEntries(models: Models, rest: map<string, Value>, selfs: seq<Value>, keys: seq<string>,
                            itemSchema: Option<Schema>)
    requires KeyedIn(rest, keys) && |selfs| == |rest|
    requires forall i :: 0 <= i < |selfs| ==>
               && NewItems(rest)[i].Obj?
               && MergeObject(models, NewItems(rest)[i], NewItems(rest)[i], itemSchema) == Merged(selfs[i], multiset{})
    ensures SelfEntries(models, NewItems(rest), selfs, rest, keys, itemSchema)
    ensures OriginalKeys(NewItems(rest), keys) == rest.Keys
  {
    var news := NewItems(rest);
    NewItemsKeyed(rest, keys);
    forall i | 0 <= i < |news| ensures SelfEntry(models, news[i], selfs[i], rest, keys, itemSchema) {
      assert SortedKeys(rest.Keys)[i] in rest;
    }
  }

  lemma NewItemsKeyed(rest: map<string, Value>, keys: seq<string>)
    requires KeyedIn(rest, keys)
    ensures AllKeyed(NewItems(rest), keys) && OriginalKeys(NewItems(rest), keys) == rest.Keys
  {
    var news, inOrder := NewItems(rest), SortedKeys(rest.Keys);
    AscendingNoRepeats(inOrder);
    KeyedBy(news, keys, inOrder);
    forall c ensures c in OriginalKeys(news, keys) <==> c in rest {
      OriginalKeysMembers(news, keys, c);
      if c in rest {
        var j := IndexedAt(rest, c);
        assert ItemKeyOf(news[j], keys) == Some(c);
      }
    }
  }

  lemma IndexedAt(index: map<string, Value>, c: string) returns (j: nat)
    requires c in index
    ensures j < |NewItems(index)| && NewItems(index)[j] == index[c]
  {
    assert c in SortedKeys(index.Keys);
    j :| 0 <= j < |SortedKeys(index.Keys)| && SortedKeys(index.Keys)[j] == c;
  }

  lemma StableNewItems(models: Models, rest: map<string, Value>, keys: seq<string>, itemSchema: Option<Schema>)
    requires GoodEntries(models, rest, keys, itemSchema)
    ensures forall i :: 0 <= i < |NewItems(rest)| ==>
              && NewItems(rest)[i].Obj?
              && MergeObject(models, NewItems(rest)[i], NewItems(rest)[i], itemSchema) == Merged(NewItems(rest)[i], multiset{})
  {
    var news := NewItems(rest);
    forall i | 0 <= i < |news|
      ensures news[i].Obj? && MergeObject(models, news[i], news[i], itemSchema) == Merged(news[i], multiset{})
    {
      assert SortedKeys(rest.Keys)[i] in rest;
      SelfMerge(models, news[i], itemSchema);
    }
  }

  lemma RepeatedList(models: Models, original: seq<Value>, list: Value, keys: seq<string>, schema: Option<Schema>)
    requires list.List? && keys != [] && ListConforms(models, list, keys, ItemSchema(schema))
    requires ItemsStable(models, list, keys, ItemSchema(schema)) && CopiedItems(original) == original
    requires MergeList(models, original, list, MergeBy(keys), schema).Merged?
    ensures var r := MergeList(models, original, list, MergeBy(keys), schema);
            && IsList(r.value) && Copied(r.value).List?
            && MergeList(models, Items(Copied(r.value)), list, MergeBy(keys), schema) == r
    decreases list, 1
  {
    var itemSchema := ItemSchema(schema);
    ConformingIndex(models, list, keys, itemSchema);
    var index := PatchIndex(list.items, keys).entries;
    var merged := MergeItems(models, original, index, keys, itemSchema, list);
    RepeatedItems(models, original, index, keys, itemSchema, list);
    RestIsPart(models, original, index, keys, itemSchema, list);
    StableNewItems(models, merged.rest, keys, itemSchema);
    NewItemsSelfEntries(models, merged.rest, NewItems(merged.rest), keys, itemSchema);
    AppliedAgain(models, list, index, merged, NewItems(merged.rest), keys, schema);
  }

  /** Behind the original items, which give the same again, each entry that was appended meets itself. */
  lemma AppliedAgain(models: Models, list: Value, index: map<string, Value>, merged: ItemsOutcome, selfs: seq<Value>,
                     keys: seq<string>, schema: Option<Schema>)
    requires list.List? && keys != [] && PatchIndex(list.items, keys) == Index(index) && merged.ItemsMerged?
    requires MergeItems(models, CopiedItems(merged.items), index, keys, ItemSchema(schema), list) == merged
    requires SelfEntries(models, NewItems(merged.rest), selfs, merged.rest, keys, ItemSchema(schema))
    requires OriginalKeys(NewItems(merged.rest), keys) == merged.rest.Keys
    ensures var first := Copied(ResultList(merged.items + NewItems(merged.rest)));
            && first.List?
            && MergeList(models, Items(first), list, MergeBy(keys), schema) == Merged(ResultList(merged.items + selfs), merged.errors)
  {
    var front, news := CopiedItems(merged.items), NewItems(merged.rest);
    ItemsSelfMerge(models, front, news, selfs, index, merged, keys, ItemSchema(schema), list);
    assert merged.rest - OriginalKeys(news, keys) == map[];
    CopiedResult(merged.items, news);
    NothingAround(merged.items + selfs);
    KeyedMergeIs(models, front + CopiedItems(news), list, keys, schema, index,
                 ItemsMerged(merged.items + selfs, merged.errors, map[]));
  }

  lemma CopiedResult(items: seq<Value>, news: seq<Value>)
    ensures Copied(ResultList(items + news)) == List(CopiedItems(items) + CopiedItems(news))
  {
    CopiedShape(ResultList(items + news));
    assert CopiedItems(items + news) == CopiedItems(items) + CopiedItems(news);
  }

  /** One field: what it became, copied again, meets the same patch value. */
  lemma RepeatedField(models: Models, original: Option<Value>, patch: Value, schema: Option<Schema>)
    requires FieldConforms(models, patch, schema) && FieldRepeatable(models, patch, schema)
    requires original.Some? ==> Copied(original.value) == original.value
    requires MergeField(models, original, patch, schema).Merged?
    ensures var r := MergeField(models, original, patch, schema);
            MergeField(models, Some(Copied(r.value)), patch, schema) == r
    decreases patch, 2
  {
    var r := MergeField(models, original, patch, schema);
    CopiedShape(r.value);
    if StrategyOf(schema).MergeBy? {
      if IsMap(patch) {
        if original.Some? && IsMap(original.value) {
          StableIsRepeatable(models, patch, schema);
          RepeatedMerge(models, original.value, patch, schema);
          MergeOfCopy(models, r.value, patch, schema);
        } else {
          SelfMerge(models, patch, schema);
          MergeOfCopy(models, patch, patch, schema);
        }
      } else if IsList(patch) {
        var keys := StrategyOf(schema).keys;
        var items := if original.Some? && IsList(original.value) then Items(original.value) else [];
        if original.Some? {
          CopiedShape(original.value);
        }
        assert CopiedItems(items) == items;
        if keys == [] {
          ScalarUnionLaws(items, patch.items, []);
          RepeatedScalars(items, patch.items);
        } else {
          RepeatedList(models, items, patch, keys, schema);
        }
      }
    }
  }

  lemma RepeatedScalars(original: seq<Value>, patch: seq<Value>)
    requires AllHashable(original) && AllHashable(patch)
    ensures AllHashable(ScalarUnion(original, patch))
    ensures Copied(List(ScalarUnion(original, patch))) == List(ScalarUnion(original, patch))
  {
    var union := ScalarUnion(original, patch);
    AddNewMembers([], original);
    AddNewMembers(AddNew([], original), patch);
    forall i | 0 <= i < |union| ensures Hashable(union[i]) && CopiedItem(union[i]) == union[i] {
      assert union[i] in union;
      CopiedShape(union[i]);
    }
    assert CopiedItems(union) == union;
    CopiedShape(List(union));
  }

  lemma KeyIsField(models: Models, base: map<string, Value>, patch: Value, schema: Option<Schema>, k: string)
    requires Conforms(models, patch, schema) && k in patch.fields
    ensures MergeKeys(models, base, patch, Resolve(models, schema).value)[k]
         == MergeField(models, Lookup(base, k), patch.fields[k], FieldSchemaOf(models, schema, k).schema)
  {
    assert MergeKeys(models, base, patch, Resolve(models, schema).value)[k]
        == MergeKey(models, base, patch, Resolve(models, schema).value, k);
  }

  /** Applying a repeatable patch to what it gave changes nothing and reports the same partial errors. */
  lemma {:induction false} RepeatedMerge(models: Models, original: Value, patch: Value, schema: Option<Schema>)
    requires IsMap(original) && Conforms(models, patch, schema) && Repeatable(models, patch, schema)
    requires MergeObject(models, original, patch, schema).Merged?
    ensures IsMap(MergeObject(models, original, patch, schema).value)
    ensures MergeObject(models, MergeObject(models, original, patch, schema).value, patch, schema)
         == MergeObject(models, original, patch, schema)
    decreases patch, 1
  {
    var r := MergeObject(models, original, patch, schema).value;
    var resolved := Resolve(models, schema).value;
    var outcomes := MergeKeys(models, Base(original), patch, resolved);
    var again := MergeKeys(models, Base(r), patch, resolved);
    forall k | k in patch.fields ensures again[k] == outcomes[k] {
      RepeatedKey(models, original, patch, schema, k);
    }
    assert again == outcomes;
    SameOverlay(original, outcomes);
  }

  lemma SameOverlay(original: Value, outcomes: map<string, Outcome>)
    requires IsMap(original) && AllMerged(outcomes)
    ensures var fields := Overlaid(Base(original), outcomes);
            Overlaid(Base(Obj(fields)), outcomes) == fields
  {
    var fields := Overlaid(Base(original), outcomes);
    var again := Overlaid(Base(Obj(fields)), outcomes);
    assert again.Keys == fields.Keys;
    forall k | k in fields ensures again[k] == fields[k] {
      if k !in outcomes {
        CopiedTwice(Fields(original)[k]);
        assert fields[k] == Base(original)[k] == Copied(Fields(original)[k]);
        assert again[k] == Copied(fields[k]);
      }
    }
  }

  lemma {:induction false} RepeatedKey(models: Models, original: Value, patch: Value, schema: Option<Schema>, k: string)
    requires IsMap(original) && Conforms(models, patch, schema) && Repeatable(models, patch, schema)
    requires MergeObject(models, original, patch, schema).Merged? && k in patch.fields
    ensures IsMap(MergeObject(models, original, patch, schema).value)
    ensures var base := Base(MergeObject(models, original, patch, schema).value);
            var resolved := Resolve(models, schema).value;
            MergeKeys(models, base, patch, resolved)[k] == MergeKeys(models, Base(original), patch, resolved)[k]
    decreases patch, 0
  {
    var r := MergeObject(models, original, patch, schema).value;
    var fieldSchema := FieldSchemaOf(models, schema, k).schema;
    MergedLevel(models, original, patch, schema, k);
    KeyIsField(models, Base(original), patch, schema, k);
    KeyIsField(models, Base(r), patch, schema, k);
    if k in Fields(original) {
      CopiedTwice(Fields(original)[k]);
    }
    RepeatedField(models, Lookup(Base(original), k), patch.fields[k], fieldSchema);
  }

  // ---- exactly when a patch can be repeated ----

  /** If the merge of original and patch gives a result, merging the patch into it gives the same outcome. */
  ghost predicate Repeats(models: Models, original: Value, patch: Value, schema: Option<Schema>)
    requires IsMap(original) && IsMap(patch)
  {
    var r := MergeObject(models, original, patch, schema);
    r.Merged? ==> IsMap(r.value) && MergeObject(models, r.value, patch, schema) == r
  }

  /** What a conforming field becomes where the original has nothing. */
  lemma FirstInsertion(models: Models, patch: Value, schema: Option<Schema>)
    requires FieldConforms(models, patch, schema)
    ensures MergeField(models, None, patch, schema).Merged?
    ensures !IsList(patch) ==> MergeField(models, None, patch, schema).value == patch
    ensures StrategyOf(schema).MergeBy? && IsList(patch) && StrategyOf(schema).keys != [] ==>
              && PatchIndex(patch.items, StrategyOf(schema).keys).Index?
              && MergeField(models, None, patch, schema).value
                 == ResultList(NewItems(PatchIndex(patch.items, StrategyOf(schema).keys).entries))
  {
    if StrategyOf(schema).MergeBy? && IsList(patch) && StrategyOf(schema).keys != [] {
      var keys := StrategyOf(schema).keys;
      OwnIndex(patch.items, keys);
      var index := PatchIndex(patch.items, keys).entries;
      KeyedMergeIs(models, [], patch, keys, schema, index, ItemsMerged([], multiset{}, index));
      assert [] + NewItems(index) == NewItems(index);
    }
  }

  /** A list with an unstable item differs after the second application. */
  lemma UnstableListDiffers(models: Models, list: Value, keys: seq<string>, schema: Option<Schema>)
    requires list.List? && keys != [] && ListConforms(models, list, keys, ItemSchema(schema))
    requires !ItemsStable(models, list, keys, ItemSchema(schema))
    ensures PatchIndex(list.items, keys).Index?
    ensures var first := ResultList(NewItems(PatchIndex(list.items, keys).entries));
            && Copied(first).List?
            && MergeList(models, Items(Copied(first)), list, MergeBy(keys), schema).Merged?
            && MergeList(models, Items(Copied(first)), list, MergeBy(keys), schema).value != first
  {
    var itemSchema := ItemSchema(schema);
    ConformingIndex(models, list, keys, itemSchema);
    OwnIndex(list.items, keys);
    var index := PatchIndex(list.items, keys).entries;
    var news := NewItems(index);
    ConformingNewItems(models, index, itemSchema);
    var selfs := SelfValues(models, news, itemSchema);
    SecondApplication(models, list, selfs, keys, schema);
    var i :| 0 <= i < |list.items| && !Stable(models, list.items[i], itemSchema);
    var j := IndexedAt(index, ItemKeyOf(list.items[i], keys).value);
    assert news[j] == list.items[i] && selfs[j] != news[j];
  }

  lemma ConformingNewItems(models: Models, index: map<string, Value>, itemSchema: Option<Schema>)
    requires ConformingIn(models, index, itemSchema)
    ensures forall i :: 0 <= i < |NewItems(index)| ==>
              && NewItems(index)[i].Obj? && Conforms(models, NewItems(index)[i], itemSchema)
              && SelfMerges(models, NewItems(index)[i], itemSchema)
  {
    var news := NewItems(index);
    forall i | 0 <= i < |news|
      ensures news[i].Obj? && Conforms(models, news[i], itemSchema) && SelfMerges(models, news[i], itemSchema)
    {
      assert SortedKeys(index.Keys)[i] in index;
      SelfMerge(models, news[i], itemSchema);
    }
  }

  /** The list inserted where nothing was, met by the same patch: every item merges with itself. */
  lemma SecondApplication(models: Models, list: Value, selfs: seq<Value>, keys: seq<string>, schema: Option<Schema>)
    requires list.List? && keys != [] && PatchIndex(list.items, keys).Index?
    requires KeyedIn(PatchIndex(list.items, keys).entries, keys)
    requires |selfs| == |PatchIndex(list.items, keys).entries|
    requires var news := NewItems(PatchIndex(list.items, keys).entries);
             forall i :: 0 <= i < |selfs| ==>
               && news[i].Obj?
               && MergeObject(models, news[i], news[i], ItemSchema(schema)) == Merged(selfs[i], multiset{})
    ensures var first := Copied(ResultList(NewItems(PatchIndex(list.items, keys).entries)));
            && first.List?
            && MergeList(models, Items(first), list, MergeBy(keys), schema) == Merged(ResultList(selfs), multiset{})
  {
    var itemSchema := ItemSchema(schema);
    var index := PatchIndex(list.items, keys).entries;
    var news := NewItems(index);
    NewItemsSelfEntries(models, index, selfs, keys, itemSchema);
    NothingAround(news);
    NothingAround(selfs);
    AppliedAgain(models, list, index, ItemsMerged([], multiset{}, index), selfs, keys, schema);
  }

  /** Where a field is not repeatable, inserting it and merging it again differ. */
  lemma UnrepeatableDiffers(models: Models, patch: Value, schema: Option<Schema>)
    requires FieldConforms(models, patch, schema) && !FieldRepeatable(models, patch, schema)
    ensures MergeField(models, None, patch, schema).Merged?
    ensures var first := MergeField(models, None, patch, schema).value;
            var second := MergeField(models, Some(Copied(first)), patch, schema);
            second.Merged? && second.value != first
  {
    if IsMap(patch) {
      UnstableObjectDiffers(models, patch, schema);
    } else {
      UnstableListFieldDiffers(models, patch, schema);
    }
  }

  lemma UnstableListFieldDiffers(models: Models, patch: Value, schema: Option<Schema>)
    requires FieldConforms(models, patch, schema) && !FieldRepeatable(models, patch, schema) && !IsMap(patch)
    ensures MergeField(models, None, patch, schema).Merged?
    ensures var first := MergeField(models, None, patch, schema).value;
            var second := MergeField(models, Some(Copied(first)), patch, schema);
            second.Merged? && second.value != first
  {
    FirstInsertion(models, patch, schema);
    UnstableListDiffers(models, patch, StrategyOf(schema).keys, schema);
  }

  lemma UnstableObjectDiffers(models: Models, patch: Value, schema: Option<Schema>)
    requires patch.Obj? && StrategyOf(schema).MergeBy? && Conforms(models, patch, schema) && !Stable(models, patch, schema)
    ensures var second := MergeField(models, Some(Copied(patch)), patch, schema);
            second.Merged? && second.value != patch
  {
    SelfMerge(models, patch, schema);
    FieldOfCopy(models, patch, schema);
  }

  lemma FieldOfCopy(models: Models, patch: Value, schema: Option<Schema>)
    requires IsMap(patch) && StrategyOf(schema).MergeBy?
    ensures MergeField(models, Some(Copied(patch)), patch, schema) == MergeObject(models, patch, patch, schema)
  {
    MergeOfCopy(models, patch, patch, schema);
  }

  /** A conforming patch merges into the empty object. */
  lemma InsertedEverywhere(models: Models, patch: Value, schema: Option<Schema>)
    requires Conforms(models, patch, schema)
    ensures MergeObject(models, Obj(map[]), patch, schema).Merged?
  {
    var base, resolved := Base(Obj(map[])), Resolve(models, schema).value;
    var outcomes := MergeKeys(models, base, patch, resolved);
    forall k | k in patch.fields ensures outcomes[k].Merged? {
      KeyIsField(models, base, patch, schema, k);
      FirstInsertion(models, patch.fields[k], FieldSchemaOf(models, schema, k).schema);
    }
  }

  lemma UnrepeatableOnEmpty(models: Models, patch: Value, schema: Option<Schema>)
    requires Conforms(models, patch, schema) && !Repeatable(models, patch, schema)
    ensures !Repeats(models, Obj(map[]), patch, schema)
  {
    var empty := Obj(map[]);
    InsertedEverywhere(models, patch, schema);
    var r := MergeObject(models, empty, patch, schema);
    var k :| k in patch.fields && !FieldRepeatable(models, patch.fields[k], FieldSchemaOf(models, schema, k).schema);
    UnrepeatableDiffers(models, patch.fields[k], FieldSchemaOf(models, schema, k).schema);
    MergedLevel(models, empty, patch, schema, k);
    if MergeObject(models, r.value, patch, schema).Merged? {
      MergedLevel(models, r.value, patch, schema, k);
    }
  }

  /** A conforming patch can be applied again without a change, to whatever it was applied, exactly when no
      object it can insert raw has an empty list merged by key. */
  lemma RepeatsExactly(models: Models, patch: Value, schema: Option<Schema>)
    requires Conforms(models, patch, schema)
    ensures (forall original :: IsMap(original) ==> Repeats(models, original, patch, schema))
       <==> Repeatable(models, patch, schema)
  {
    if Repeatable(models, patch, schema) {
      forall original | IsMap(original) ensures Repeats(models, original, patch, schema) {
        if MergeObject(models, original, patch, schema).Merged? {
          RepeatedMerge(models, original, patch, schema);
        }
      }
    } else {
      UnrepeatableOnEmpty(models, patch, schema);
      assert IsMap(Obj(map[]));
    }
  }

  const BY_NAME: Extensions := map["x-kubernetes-patch-strategy" := Text("merge"), "x-kubernetes-patch-merge-key" := Text("name")]

  const POD_LIKE: Schema :=
    Kind(map[], map["spec" := Kind(map[], map["containers" := Array(BY_NAME, None)])])

  /** {"spec": {"containers": []}}: conforming, but the second application makes the list null. */
  lemma EmptyKeyedListNotRepeatable()
    ensures var patch := Obj(map["spec" := Obj(map["containers" := List([])])]);
            && Conforms(map[], patch, Some(POD_LIKE))
            && !Repeats(map[], Obj(map[]), patch, Some(POD_LIKE))
  {
    var spec := Obj(map["containers" := List([])]);
    var specSchema := POD_LIKE.fields["spec"];
    assert StrategyOf(Some(Array(BY_NAME, None))) == MergeBy(["name"]);
    assert Conforms(map[], spec, Some(specSchema));
    assert !FieldStable(map[], List([]), Some(Array(BY_NAME, None)));
    var patch := Obj(map["spec" := spec]);
    assert StrategyOf(Some(specSchema)) == MergeBy([]);
    assert Conforms(map[], patch, Some(POD_LIKE));
    assert FieldSchemaOf(map[], Some(specSchema), "containers") == Known(Some(Array(BY_NAME, None)));
    assert !Stable(map[], spec, Some(specSchema));
    assert FieldSchemaOf(map[], Some(POD_LIKE), "spec") == Known(Some(specSchema));
    assert !FieldRepeatable(map[], patch.fields["spec"], Some(specSchema));
    UnrepeatableOnEmpty(map[], patch, Some(POD_LIKE));
  }
}
