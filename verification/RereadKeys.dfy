/** Any original: exactly when a repeatable patch, applied again to the document that the first application wrote,
    writes the same document. What can differ is the composite key of an item that is read back. */
module RereadKeys {
  import opened Options
  import opened Strings
  import opened CleanMerges
  import opened GoValues
  import opened Idempotence
  import opened KeyedLists
  import opened MergeEngine
  import opened MergeMeaning
  import opened MergeSchema
  import opened Rereading

  // ---- what is read back is not changed by the next copy ----

  lemma {:induction false} RereadIsJson(v: Value)
    ensures IsJson(Reread(v)) && Reread(Reread(v)) == Reread(v)
  {
    match v
    case List(items) =>
      forall i | 0 <= i < |items| ensures IsJson(Reread(items[i])) {
        RereadIsJson(items[i]);
      }
      RereadIsNoOp(Reread(v));
    case Obj(fields) =>
      forall k | k in fields ensures IsJson(Reread(fields[k])) {
        RereadIsJson(fields[k]);
      }
      RereadIsNoOp(Reread(v));
    case _ =>
  }

  lemma {:induction false} GobHasNoEmptyList(v: Value)
    ensures !HasEmptyList(GobCopy(v))
  {
    match v
    case List(items) =>
      forall i | 0 <= i < |items| ensures !HasEmptyList(GobCopy(items[i])) {
        GobHasNoEmptyList(items[i]);
      }
    case Obj(fields) =>
      forall k | k in fields ensures !HasEmptyList(GobCopy(fields[k])) {
        GobHasNoEmptyList(fields[k]);
      }
    case _ =>
  }

  lemma {:induction false} RereadHasNoEmptyList(v: Value)
    requires !HasEmptyList(v)
    ensures !HasEmptyList(Reread(v))
  {
    match v
    case List(items) =>
      forall i | 0 <= i < |items| ensures !HasEmptyList(Reread(items[i])) {
        RereadHasNoEmptyList(items[i]);
      }
    case Obj(fields) =>
      forall k | k in fields ensures !HasEmptyList(Reread(fields[k])) {
        RereadHasNoEmptyList(fields[k]);
      }
    case _ =>
  }

  ghost predicate PlainItem(v: Value) {
    if v.List? then !HasEmptyList(v) else CopiesExactly(v)
  }

  lemma {:induction false} SanitizedReread(w: Value)
    requires !HasEmptyList(w)
    ensures CopiesExactly(Reread(Sanitized(w))) && PlainItem(Reread(SanitizedItem(w)))
  {
    RereadHasNoEmptyList(w);
    match w
    case List(items) =>
      forall i | 0 <= i < |items| ensures PlainItem(Reread(SanitizedItem(items[i]))) {
        SanitizedReread(items[i]);
      }
    case Obj(fields) =>
      forall k | k in fields ensures CopiesExactly(Reread(Sanitized(fields[k]))) {
        SanitizedReread(fields[k]);
      }
    case _ =>
  }

  /** Whatever was copied and read back is a plain document, at field and at item positions. */
  lemma RereadSettles(v: Value)
    ensures Plain(Reread(Copied(v))) && Copied(Reread(Copied(v))) == Reread(Copied(v))
    ensures CopiedItem(Reread(CopiedItem(v))) == Reread(CopiedItem(v))
  {
    GobHasNoEmptyList(v);
    SanitizedReread(GobCopy(v));
    RereadIsJson(Copied(v));
    CopyIsExact(Reread(Copied(v)));
    var item := Reread(CopiedItem(v));
    RereadIsJson(CopiedItem(v));
    CopiedShape(item);
    if item.List? {
      GobKeeps(item);
    } else {
      CopyIsExact(item);
    }
  }

  // ---- keys that change when they are read back ----

  /** The key that item i has for the next policy: a merged item has that of its entry, a kept one is read back. */
  ghost function KeyAgain(items: seq<Value>, i: nat, index: map<string, Value>, keys: seq<string>): Option<string>
    requires i < |items|
  {
    if UsesEntry(items, i, index, keys) then ItemKeyOf(items[i], keys) else ItemKeyOf(Reread(items[i]), keys)
  }

  /** Item i was kept, and reads back as the first item with the key of an entry. */
  ghost predicate Strays(items: seq<Value>, i: nat, index: map<string, Value>, keys: seq<string>)
    requires i < |items|
  {
    && !UsesEntry(items, i, index, keys)
    && KeyAgain(items, i, index, keys).Some? && KeyAgain(items, i, index, keys).value in index
    && forall j :: 0 <= j < i ==> KeyAgain(items, j, index, keys) != KeyAgain(items, i, index, keys)
  }

  /** In no list that the patch merges by key does an item stray; and so at every depth that the merge reaches. */
  ghost predicate ReadsAlike(models: Models, original: Value, patch: Value, schema: Option<Schema>)
    requires IsMap(original) && Conforms(models, patch, schema)
    decreases patch, 1
  {
    forall k :: k in patch.fields ==>
      FieldReadsAlike(models, Lookup(Base(original), k), patch.fields[k], FieldSchemaOf(models, schema, k).schema)
  }

  ghost predicate FieldReadsAlike(models: Models, original: Option<Value>, patch: Value, schema: Option<Schema>)
    requires FieldConforms(models, patch, schema)
    decreases patch, 2
  {
    original.Some? && StrategyOf(schema).MergeBy? ==>
      && (IsMap(patch) && IsMap(original.value) ==> ReadsAlike(models, original.value, patch, schema))
      && (IsList(patch) && IsList(original.value) && StrategyOf(schema).keys != [] ==>
            ListReadsAlike(models, Items(original.value), patch, StrategyOf(schema).keys, ItemSchema(schema)))
  }

  ghost predicate ListReadsAlike(models: Models, items: seq<Value>, list: Value, keys: seq<string>, itemSchema: Option<Schema>)
    requires list.List? && keys != [] && ListConforms(models, list, keys, itemSchema)
    decreases list, 0
  {
    ConformingIndex(models, list, keys, itemSchema);
    var index := PatchIndex(list.items, keys).entries;
    && (forall i :: 0 <= i < |items| ==> !Strays(items, i, index, keys))
    && (forall i :: 0 <= i < |items| && UsesEntry(items, i, index, keys) ==>
          ReadsAlike(models, items[i], index[ItemKeyOf(items[i], keys).value], itemSchema))
  }

  // ---- keys by position ----

  lemma UsesEntryIs(items: seq<Value>, i: nat, index: map<string, Value>, keys: seq<string>)
    requires i < |items|
    ensures UsesEntry(items, i, index, keys) <==>
            && ItemKeyOf(items[i], keys).Some? && ItemKeyOf(items[i], keys).value in index
            && forall j :: 0 <= j < i ==> ItemKeyOf(items[j], keys) != ItemKeyOf(items[i], keys)
  {
    if ItemKeyOf(items[i], keys).Some? {
      OriginalKeysMembers(items[..i], keys, ItemKeyOf(items[i], keys).value);
      assert forall j :: 0 <= j < i ==> items[..i][j] == items[j];
    }
  }

  /** The keys that the next policy finds: those of the items, then those of the entries that were appended. */
  ghost predicate KeysFound(found: seq<Value>, items: seq<Value>, index: map<string, Value>, added: seq<string>, keys: seq<string>) {
    && |found| == |items| + |added|
    && FrontFound(found, items, index, keys) && BehindFound(found, |items|, added, keys)
    && Ascending(added)
    && (forall c :: c in added <==> c in index && c !in OriginalKeys(items, keys))
  }

  ghost predicate FrontFound(found: seq<Value>, items: seq<Value>, index: map<string, Value>, keys: seq<string>)
    requires |items| <= |found|
  {
    forall i :: 0 <= i < |items| ==> ItemKeyOf(found[i], keys) == KeyAgain(items, i, index, keys)
  }

  ghost predicate BehindFound(found: seq<Value>, n: nat, added: seq<string>, keys: seq<string>)
    requires |found| == n + |added|
  {
    forall j :: 0 <= j < |added| ==> ItemKeyOf(found[n + j], keys) == Some(added[j])
  }

  ghost predicate NoneStrays(items: seq<Value>, index: map<string, Value>, keys: seq<string>) {
    forall i :: 0 <= i < |items| ==> !Strays(items, i, index, keys)
  }

  /** A stray item takes an entry. */
  lemma StrayUses(found: seq<Value>, items: seq<Value>, index: map<string, Value>, added: seq<string>, keys: seq<string>, i: nat)
    requires KeysFound(found, items, index, added, keys) && i < |items| && Strays(items, i, index, keys)
    ensures UsesEntry(found, i, index, keys)
  {
    UsesEntryIs(found, i, index, keys);
  }

  /** If none strays, the first position with the key of an entry holds the item that was merged with it. */
  lemma {:induction false} FirstIsMerged(items: seq<Value>, index: map<string, Value>, keys: seq<string>, i: nat, c: string)
    requires NoneStrays(items, index, keys) && i <= |items| && c in index
    requires exists j :: 0 <= j < i && KeyAgain(items, j, index, keys) == Some(c)
    ensures exists j :: 0 <= j < i && UsesEntry(items, j, index, keys) && ItemKeyOf(items[j], keys) == Some(c)
  {
    var j :| 0 <= j < i && KeyAgain(items, j, index, keys) == Some(c);
    if !UsesEntry(items, j, index, keys) {
      assert !Strays(items, j, index, keys);
      var l :| 0 <= l < j && KeyAgain(items, l, index, keys) == KeyAgain(items, j, index, keys);
      FirstIsMerged(items, index, keys, j, c);
    }
  }

  lemma UsesAlike(found: seq<Value>, items: seq<Value>, index: map<string, Value>, added: seq<string>, keys: seq<string>, i: nat)
    requires KeysFound(found, items, index, added, keys) && NoneStrays(items, index, keys) && i < |items|
    ensures UsesEntry(found, i, index, keys) <==> UsesEntry(items, i, index, keys)
  {
    UsesEntryIs(found, i, index, keys);
    UsesEntryIs(items, i, index, keys);
    if UsesEntry(items, i, index, keys) {
      var c := ItemKeyOf(items[i], keys).value;
      forall j | 0 <= j < i ensures ItemKeyOf(found[j], keys) != Some(c) {
        if KeyAgain(items, j, index, keys) == Some(c) {
          FirstIsMerged(items, index, keys, i, c);
        }
      }
    } else {
      assert !Strays(items, i, index, keys);
    }
  }

  lemma AddedUses(found: seq<Value>, items: seq<Value>, index: map<string, Value>, added: seq<string>, keys: seq<string>, j: nat)
    requires KeysFound(found, items, index, added, keys) && NoneStrays(items, index, keys) && j < |added|
    ensures UsesEntry(found, |items| + j, index, keys)
  {
    var c := added[j];
    assert c in added;
    UsesEntryIs(found, |items| + j, index, keys);
    AscendingNoRepeats(added);
    forall l | 0 <= l < |items| + j ensures ItemKeyOf(found[l], keys) != Some(c) {
      if l < |items| {
        if KeyAgain(items, l, index, keys) == Some(c) {
          FirstIsMerged(items, index, keys, |items|, c);
          OriginalKeysMembers(items, keys, c);
        }
      } else {
        assert ItemKeyOf(found[|items| + (l - |items|)], keys) == Some(added[l - |items|]);
      }
    }
  }

  /** Then every entry is used. */
  lemma AllUsed(found: seq<Value>, items: seq<Value>, index: map<string, Value>, added: seq<string>, keys: seq<string>)
    requires KeysFound(found, items, index, added, keys) && NoneStrays(items, index, keys)
    ensures index - OriginalKeys(found, keys) == map[]
  {
    forall c | c in index ensures c in OriginalKeys(found, keys) {
      OriginalKeysMembers(found, keys, c);
      if c in added {
        var j := PositionIn(added, c);
        assert ItemKeyOf(found[|items| + j], keys) == Some(c);
      } else {
        var i := FirstWith(items, keys, c);
        assert UsesEntry(items, i, index, keys);
        assert ItemKeyOf(found[i], keys) == Some(c);
      }
    }
  }

  // ---- a key that changes has a container in a key field ----

  lemma ScalarReread(v: Value)
    requires Copied(v) == v && Hashable(Reread(v))
    ensures Reread(v) == v
  {
    CopiedShape(v);
  }

  /** Reading back does not change the key of an item whose key fields are scalars. */
  lemma ScalarKeysReread(item: Value, keys: seq<string>)
    requires CopiedItem(item) == item && IsMap(item)
    requires forall i :: 0 <= i < |keys| && keys[i] in Fields(item) ==> Hashable(Reread(Fields(item)[keys[i]]))
    ensures ItemKeyOf(Reread(item), keys) == ItemKeyOf(item, keys)
  {
    CopiedShape(item);
    var read := Reread(item);
    forall i | 0 <= i < |keys| && keys[i] in Fields(item) ensures read.fields[keys[i]] == item.fields[keys[i]] {
      ScalarReread(item.fields[keys[i]]);
    }
    SameKeyFields(read.fields, item.fields, keys);
  }

  lemma {:induction false} SameMissing(a: map<string, Value>, b: map<string, Value>, keys: seq<string>)
    requires a.Keys == b.Keys
    ensures FirstMissing(a, keys) == FirstMissing(b, keys)
  {
    if keys != [] {
      SameMissing(a, b, keys[1..]);
    }
  }

  lemma SameKeyFields(a: map<string, Value>, b: map<string, Value>, keys: seq<string>)
    requires a.Keys == b.Keys && forall i :: 0 <= i < |keys| && keys[i] in a ==> a[keys[i]] == b[keys[i]]
    ensures CompositeKey(a, keys) == CompositeKey(b, keys)
  {
    SameMissing(a, b, keys);
    if FirstMissing(a, keys).None? {
      assert KeyParts(a, keys) == KeyParts(b, keys);
    }
  }

  /** An item that was kept although its key is that of an entry: an earlier one was merged with the entry. */
  lemma EarlierMerged(items: seq<Value>, i: nat, index: map<string, Value>, keys: seq<string>, c: string) returns (j: nat)
    requires i < |items| && ItemKeyOf(items[i], keys) == Some(c) && c in index && !UsesEntry(items, i, index, keys)
    ensures j < i && KeyAgain(items, j, index, keys) == Some(c)
  {
    j := FirstWith(items[..i], keys, c);
    assert items[..i][..j] == items[..j] && items[..i][j] == items[j];
    assert UsesEntry(items, j, index, keys);
  }

  /** A stray item has a container in some key field. */
  lemma StrayHasContainer(items: seq<Value>, i: nat, index: map<string, Value>, keys: seq<string>) returns (k: string)
    requires i < |items| && Strays(items, i, index, keys) && CopiedItem(items[i]) == items[i]
    ensures IsMap(items[i]) && k in keys && k in Fields(items[i]) && !Hashable(Reread(Fields(items[i])[k]))
  {
    StraysAsMap(items, i, index, keys);
    if forall j :: 0 <= j < |keys| && keys[j] in Fields(items[i]) ==> Hashable(Reread(Fields(items[i])[keys[j]])) {
      ScalarKeysReread(items[i], keys);
      var j := EarlierMerged(items, i, index, keys, ItemKeyOf(items[i], keys).value);
      assert false;
    } else {
      var j :| 0 <= j < |keys| && keys[j] in Fields(items[i]) && !Hashable(Reread(Fields(items[i])[keys[j]]));
      k := keys[j];
    }
  }

  lemma StraysAsMap(items: seq<Value>, i: nat, index: map<string, Value>, keys: seq<string>)
    requires i < |items| && Strays(items, i, index, keys)
    ensures IsMap(items[i])
  {
    assert ItemKeyOf(Reread(items[i]), keys).Some?;
    assert IsMap(Reread(items[i]));
  }

  // ---- what the next policy finds ----

  /** The items of a list that was written, read back and copied. */
  ghost function Found(items: seq<Value>): (r: seq<Value>)
    ensures |r| == |items|
    ensures forall i :: 0 <= i < |items| ==> r[i] == CopiedItem(Reread(items[i]))
  {
    seq(|items|, i requires 0 <= i < |items| => CopiedItem(Reread(items[i])))
  }

  lemma FoundList(items: seq<Value>)
    ensures var read := Copied(Reread(ResultList(items)));
            if items == [] then read == Null else read == List(Found(items))
  {
    if items != [] {
      var read := Reread(List(items));
      CopiedShape(read);
      assert CopiedItems(read.items) == Found(items);
    }
  }

  lemma HashableReread(v: Value)
    requires Hashable(v)
    ensures Reread(v) == v
  {
  }

  lemma FoundItems(items: seq<Value>, read: Value)
    requires read == Copied(Reread(ResultList(items)))
    ensures !IsMap(read) && (if IsList(read) then Items(read) else []) == Found(items)
  {
    FoundList(items);
  }

  lemma ScalarKeysKept(item: Value, keys: seq<string>)
    requires IsMap(item) && item.Obj? && ScalarKeys(item, keys)
    ensures IsMap(CopiedItem(Reread(item))) && ItemKeyOf(CopiedItem(Reread(item)), keys) == ItemKeyOf(item, keys)
  {
    var read := Reread(item);
    forall i | 0 <= i < |keys| ensures read.fields[keys[i]] == item.fields[keys[i]] {
      HashableReread(item.fields[keys[i]]);
    }
    SameKeyFields(read.fields, item.fields, keys);
    CopyKeepsKey(read, keys);
  }

  /** The list of the first application: a conforming, stable list of the patch, met by copied items. */
  ghost predicate FirstRun(models: Models, items: seq<Value>, index: map<string, Value>, merged: ItemsOutcome, keys: seq<string>,
                           itemSchema: Option<Schema>, list: Value) {
    && list.List? && IsJson(list) && IndexOf(index, list) && GoodEntries(models, index, keys, itemSchema)
    && CopiedItems(items) == items
    && merged.ItemsMerged? && MergeItems(models, items, index, keys, itemSchema, list) == merged
  }

  /** What MergeItemsExact says of it, item by item. */
  ghost predicate Results(models: Models, items: seq<Value>, index: map<string, Value>, merged: ItemsOutcome, keys: seq<string>,
                          itemSchema: Option<Schema>)
    requires forall c :: c in index ==> IsMap(index[c])
  {
    && merged.ItemsMerged? && |merged.items| == |items| && merged.rest == index - OriginalKeys(items, keys)
    && forall i {:trigger ItemResult(models, items, i, index, keys, itemSchema, merged.items[i])} ::
         0 <= i < |items| ==> ItemResult(models, items, i, index, keys, itemSchema, merged.items[i])
  }

  lemma FoundKey(models: Models, items: seq<Value>, i: nat, index: map<string, Value>, keys: seq<string>,
                 itemSchema: Option<Schema>, result: Value)
    requires i < |items| && KeyedIn(index, keys) && CopiedItem(items[i]) == items[i]
    requires ItemResult(models, items, i, index, keys, itemSchema, result)
    ensures ItemKeyOf(CopiedItem(Reread(result)), keys) == KeyAgain(items, i, index, keys)
  {
    if UsesEntry(items, i, index, keys) {
      var entry := index[ItemKeyOf(items[i], keys).value];
      MergeKeepsKey(models, items[i], entry, itemSchema, keys);
      MergeKeepsScalarKeys(models, items[i], entry, itemSchema, keys);
      MergedLevel(models, items[i], entry, itemSchema, "");
      ScalarKeysKept(result, keys);
    } else {
      RereadSettles(items[i]);
    }
  }

  lemma EntryKey(entry: Value, keys: seq<string>, c: string)
    requires entry.Obj? && ScalarKeys(entry, keys) && ItemKeyOf(entry, keys) == Some(c)
    ensures ItemKeyOf(CopiedItem(Reread(entry)), keys) == Some(c)
  {
    ScalarKeysKept(entry, keys);
  }

  lemma FrontKeys(models: Models, items: seq<Value>, index: map<string, Value>, merged: ItemsOutcome, keys: seq<string>,
                  itemSchema: Option<Schema>)
    requires KeyedIn(index, keys) && CopiedItems(items) == items && Results(models, items, index, merged, keys, itemSchema)
    ensures FrontFound(Found(merged.items + NewItems(merged.rest)), items, index, keys)
  {
    forall i | 0 <= i < |items|
      ensures ItemKeyOf(Found(merged.items + NewItems(merged.rest))[i], keys) == KeyAgain(items, i, index, keys)
    {
      FoundKeyAt(models, items, index, merged, keys, itemSchema, i);
    }
  }

  lemma BehindKeys(items: seq<Value>, index: map<string, Value>, rest: map<string, Value>, keys: seq<string>)
    requires KeyedIn(index, keys) && forall c :: c in rest ==> c in index && rest[c] == index[c]
    ensures BehindFound(Found(items + NewItems(rest)), |items|, SortedKeys(rest.Keys), keys)
  {
    forall j | 0 <= j < |SortedKeys(rest.Keys)|
      ensures ItemKeyOf(Found(items + NewItems(rest))[|items| + j], keys) == Some(SortedKeys(rest.Keys)[j])
    {
      AddedKeyAt(items, index, rest, j, keys);
    }
  }

  lemma KeysAreFound(found: seq<Value>, items: seq<Value>, index: map<string, Value>, rest: map<string, Value>, keys: seq<string>)
    requires |found| == |items| + |rest| && rest == index - OriginalKeys(items, keys)
    requires FrontFound(found, items, index, keys) && BehindFound(found, |items|, SortedKeys(rest.Keys), keys)
    ensures KeysFound(found, items, index, SortedKeys(rest.Keys), keys)
  {
  }

  lemma FoundKeyAt(models: Models, items: seq<Value>, index: map<string, Value>, merged: ItemsOutcome, keys: seq<string>,
                   itemSchema: Option<Schema>, i: nat)
    requires KeyedIn(index, keys) && CopiedItems(items) == items && Results(models, items, index, merged, keys, itemSchema)
    requires i < |items|
    ensures ItemKeyOf(Found(merged.items + NewItems(merged.rest))[i], keys) == KeyAgain(items, i, index, keys)
  {
    FoundFront(merged.items, NewItems(merged.rest), i);
    assert CopiedItem(items[i]) == items[i];
    FoundKey(models, items, i, index, keys, itemSchema, merged.items[i]);
  }

  lemma FoundFront(items: seq<Value>, news: seq<Value>, i: nat)
    requires i < |items|
    ensures Found(items + news)[i] == CopiedItem(Reread(items[i]))
  {
    assert (items + news)[i] == items[i];
  }

  lemma AddedKeyAt(items: seq<Value>, index: map<string, Value>, rest: map<string, Value>, j: nat, keys: seq<string>)
    requires KeyedIn(index, keys) && j < |rest| && forall c :: c in rest ==> c in index && rest[c] == index[c]
    ensures ItemKeyOf(Found(items + NewItems(rest))[|items| + j], keys) == Some(SortedKeys(rest.Keys)[j])
  {
    FoundAdded(items, rest, j);
    EntryKey(rest[SortedKeys(rest.Keys)[j]], keys, SortedKeys(rest.Keys)[j]);
  }

  /** Behind the items stand the copies of the entries that were left. */
  lemma FoundAdded(items: seq<Value>, rest: map<string, Value>, j: nat)
    requires j < |rest|
    ensures SortedKeys(rest.Keys)[j] in rest && (items + NewItems(rest))[|items| + j] == rest[SortedKeys(rest.Keys)[j]]
    ensures Found(items + NewItems(rest))[|items| + j] == CopiedItem(Reread(rest[SortedKeys(rest.Keys)[j]]))
  {
    var all := items + NewItems(rest);
    assert all[|items| + j] == NewItems(rest)[j];
    assert Found(all)[|items| + j] == CopiedItem(Reread(all[|items| + j]));
  }

  // ---- the second application to a list ----

  /** What a first outcome becomes: the same document and the same absence of errors if nothing strays, else another
      document or none. */
  ghost predicate Follows(first: Outcome, again: Outcome, alike: bool)
    requires first.Merged?
  {
    if alike then
      && again.Merged? && Reread(again.value) == Reread(first.value)
      && (again.errors == multiset{} <==> first.errors == multiset{})
    else
      again.Merged? ==> Reread(again.value) != Reread(first.value)
  }

  ghost function Entry(items: seq<Value>, i: nat, index: map<string, Value>, keys: seq<string>): Value
    requires i < |items| && UsesEntry(items, i, index, keys)
  {
    index[ItemKeyOf(items[i], keys).value]
  }

  /** Every merged item, read back and merged again with its entry. */
  ghost predicate ItemsFollow(models: Models, items: seq<Value>, found: seq<Value>, index: map<string, Value>, keys: seq<string>,
                              itemSchema: Option<Schema>)
    requires |items| <= |found| && ConformingIn(models, index, itemSchema)
  {
    forall i {:trigger ItemFollows(models, items, found, i, index, keys, itemSchema)} ::
      0 <= i < |items| && UsesEntry(items, i, index, keys) ==> ItemFollows(models, items, found, i, index, keys, itemSchema)
  }

  ghost predicate ItemFollows(models: Models, items: seq<Value>, found: seq<Value>, i: nat, index: map<string, Value>, keys: seq<string>,
                              itemSchema: Option<Schema>)
    requires i < |items| <= |found| && ConformingIn(models, index, itemSchema) && UsesEntry(items, i, index, keys)
  {
    var entry := Entry(items, i, index, keys);
    var first := MergeObject(models, items[i], entry, itemSchema);
    first.Merged? && IsMap(found[i]) &&
    Follows(first, MergeObject(models, found[i], entry, itemSchema), ReadsAlike(models, items[i], entry, itemSchema))
  }

  /** An appended entry, copied and merged with itself. */
  ghost predicate EntryFollows(models: Models, found: Value, entry: Value, itemSchema: Option<Schema>) {
    IsMap(found) && IsMap(entry) && MergeObject(models, found, entry, itemSchema) == Merged(entry, multiset{})
  }

  lemma {:induction false} ItemsMergeWhen(models: Models, items: seq<Value>, index: map<string, Value>, keys: seq<string>,
                                          itemSchema: Option<Schema>, list: Value)
    requires IndexOf(index, list)
    requires forall i :: 0 <= i < |items| && UsesEntry(items, i, index, keys) ==>
               MergeObject(models, items[i], Entry(items, i, index, keys), itemSchema).Merged?
    ensures MergeItems(models, items, index, keys, itemSchema, list).ItemsMerged?
  {
    if items != [] {
      var n := |items| - 1;
      var front := items[..n];
      forall i | 0 <= i < n && UsesEntry(front, i, index, keys)
        ensures MergeObject(models, front[i], Entry(front, i, index, keys), itemSchema).Merged?
      {
        assert front[..i] == items[..i] && front[i] == items[i];
        assert UsesEntry(items, i, index, keys);
      }
      ItemsMergeWhen(models, front, index, keys, itemSchema, list);
      MergeItemsExact(models, front, index, keys, itemSchema, list);
      assert items[..n + 1] == items;
      MergeItemsStep(models, items, n, index, keys, itemSchema, list);
      LastMerges(models, items, n, index, MergeItems(models, front, index, keys, itemSchema, list).rest, keys, itemSchema, list);
    }
  }

  lemma LastMerges(models: Models, items: seq<Value>, n: nat, index: map<string, Value>, rest: map<string, Value>,
                   keys: seq<string>, itemSchema: Option<Schema>, list: Value)
    requires n < |items| && IndexOf(index, list) && IndexOf(rest, list) && rest == index - OriginalKeys(items[..n], keys)
    requires UsesEntry(items, n, index, keys) ==>
               MergeObject(models, items[n], Entry(items, n, index, keys), itemSchema).Merged?
    ensures MergeItem(models, n, items[n], rest, keys, itemSchema, list).Merged?
  {
    SameKey(n, items[n], keys);
  }

  /** Position i of the first result is an appended entry, met again under its own key. */
  ghost predicate AddedItem(models: Models, found: Value, result: Value, index: map<string, Value>, keys: seq<string>,
                            itemSchema: Option<Schema>) {
    exists c :: c in index && ItemKeyOf(found, keys) == Some(c) && result == index[c] && EntryFollows(models, found, index[c], itemSchema)
  }

  ghost predicate AddedItems(models: Models, found: seq<Value>, all: seq<Value>, n: nat, index: map<string, Value>, keys: seq<string>,
                             itemSchema: Option<Schema>)
    requires |found| == |all|
  {
    forall i {:trigger AddedItem(models, found[i], all[i], index, keys, itemSchema)} ::
      n <= i < |found| ==> AddedItem(models, found[i], all[i], index, keys, itemSchema)
  }

  /** The first result begins with the merged items, each of which is found again as it is read back. */
  ghost predicate FrontItems(items: seq<Value>, found: seq<Value>, all: seq<Value>)
    requires |items| <= |found| == |all|
  {
    forall i :: 0 <= i < |items| ==> all[i] == items[i] && found[i] == CopiedItem(Reread(items[i]))
  }

  /** All that is known of the second application: all is the list that the first one wrote, found what was read. */
  ghost predicate SecondRun(models: Models, items: seq<Value>, found: seq<Value>, all: seq<Value>, index: map<string, Value>,
                            merged: ItemsOutcome, keys: seq<string>, itemSchema: Option<Schema>, list: Value) {
    && list.List? && IsJson(list) && IndexOf(index, list) && GoodEntries(models, index, keys, itemSchema)
    && CopiedItems(items) == items
    && Results(models, items, index, merged, keys, itemSchema)
    && |all| == |found| == |items| + |merged.rest|
    && FrontItems(merged.items, found, all) && AddedItems(models, found, all, |items|, index, keys, itemSchema)
    && KeysFound(found, items, index, SortedKeys(merged.rest.Keys), keys)
    && ItemsFollow(models, items, found, index, keys, itemSchema)
  }

  /** An appended entry is read back as it is and merged with itself. */
  lemma EntryFollowsExactly(models: Models, entry: Value, itemSchema: Option<Schema>)
    requires IsJson(entry) && Conforms(models, entry, itemSchema) && Stable(models, entry, itemSchema)
    ensures EntryFollows(models, CopiedItem(Reread(entry)), entry, itemSchema)
  {
    RereadIsNoOp(entry);
    CopiedShape(entry);
    SelfMerge(models, entry, itemSchema);
    MergeOfCopy(models, entry, entry, itemSchema);
  }

  lemma GoodEntry(models: Models, index: map<string, Value>, keys: seq<string>, itemSchema: Option<Schema>, list: Value, c: string)
    requires list.List? && IsJson(list) && IndexOf(index, list) && GoodEntries(models, index, keys, itemSchema) && c in index
    ensures IsJson(index[c]) && Conforms(models, index[c], itemSchema) && Stable(models, index[c], itemSchema)
  {
  }

  /** What stands behind the items: the copy of an entry, under its key. */
  lemma AddedAt(models: Models, items: seq<Value>, rest: map<string, Value>, index: map<string, Value>, keys: seq<string>,
                itemSchema: Option<Schema>, list: Value, j: nat)
    requires list.List? && IsJson(list) && IndexOf(index, list) && GoodEntries(models, index, keys, itemSchema)
    requires (forall c :: c in rest ==> c in index && rest[c] == index[c]) && j < |rest|
    ensures AddedItem(models, Found(items + NewItems(rest))[|items| + j], (items + NewItems(rest))[|items| + j], index, keys, itemSchema)
  {
    var c := SortedKeys(rest.Keys)[j];
    FoundAdded(items, rest, j);
    AddedKeyAt(items, index, rest, j, keys);
    GoodEntry(models, index, keys, itemSchema, list, c);
    EntryFollowsExactly(models, index[c], itemSchema);
  }

  lemma AddedHolds(models: Models, items: seq<Value>, rest: map<string, Value>, index: map<string, Value>, keys: seq<string>,
                   itemSchema: Option<Schema>, list: Value, found: seq<Value>, all: seq<Value>)
    requires list.List? && IsJson(list) && IndexOf(index, list) && GoodEntries(models, index, keys, itemSchema)
    requires (forall c :: c in rest ==> c in index && rest[c] == index[c])
    requires all == items + NewItems(rest) && found == Found(all)
    ensures AddedItems(models, found, all, |items|, index, keys, itemSchema) && FrontItems(items, found, all)
  {
    forall i | |items| <= i < |found| ensures AddedItem(models, found[i], all[i], index, keys, itemSchema) {
      AddedAt(models, items, rest, index, keys, itemSchema, list, i - |items|);
    }
  }

  ghost predicate AllAlike(models: Models, items: seq<Value>, index: map<string, Value>, keys: seq<string>, itemSchema: Option<Schema>)
    requires ConformingIn(models, index, itemSchema)
  {
    forall i :: 0 <= i < |items| && UsesEntry(items, i, index, keys) ==>
      ReadsAlike(models, items[i], Entry(items, i, index, keys), itemSchema)
  }

  lemma FrontMerges(models: Models, items: seq<Value>, found: seq<Value>, all: seq<Value>, index: map<string, Value>, merged: ItemsOutcome,
                    keys: seq<string>, itemSchema: Option<Schema>, list: Value, i: nat)
    requires SecondRun(models, items, found, all, index, merged, keys, itemSchema, list)
    requires NoneStrays(items, index, keys) && AllAlike(models, items, index, keys, itemSchema)
    requires i < |items| && UsesEntry(found, i, index, keys)
    ensures MergeObject(models, found[i], Entry(found, i, index, keys), itemSchema).Merged?
    ensures Reread(MergeObject(models, found[i], Entry(found, i, index, keys), itemSchema).value) == Reread(merged.items[i])
  {
    UsesAlike(found, items, index, SortedKeys(merged.rest.Keys), keys, i);
    assert ItemFollows(models, items, found, i, index, keys, itemSchema);
    assert ItemResult(models, items, i, index, keys, itemSchema, merged.items[i]);
    assert ItemKeyOf(found[i], keys) == KeyAgain(items, i, index, keys);
  }

  lemma EntryMerges(models: Models, found: seq<Value>, i: nat, index: map<string, Value>, c: string, keys: seq<string>,
                    itemSchema: Option<Schema>)
    requires i < |found| && UsesEntry(found, i, index, keys) && ItemKeyOf(found[i], keys) == Some(c)
    requires EntryFollows(models, found[i], index[c], itemSchema)
    ensures IsMap(Entry(found, i, index, keys))
    ensures MergeObject(models, found[i], Entry(found, i, index, keys), itemSchema) == Merged(index[c], multiset{})
  {
  }

  lemma FoundMerges(models: Models, items: seq<Value>, found: seq<Value>, all: seq<Value>, index: map<string, Value>, merged: ItemsOutcome,
                    keys: seq<string>, itemSchema: Option<Schema>, list: Value, i: nat)
    requires SecondRun(models, items, found, all, index, merged, keys, itemSchema, list) && IndexOf(index, list)
    requires NoneStrays(items, index, keys) && AllAlike(models, items, index, keys, itemSchema)
    requires i < |found| && UsesEntry(found, i, index, keys)
    ensures MergeObject(models, found[i], Entry(found, i, index, keys), itemSchema).Merged?
    ensures Reread(MergeObject(models, found[i], Entry(found, i, index, keys), itemSchema).value) == Reread(all[i])
  {
    if i < |items| {
      FrontMerges(models, items, found, all, index, merged, keys, itemSchema, list, i);
    } else {
      BehindMerges(models, found, all, |items|, index, keys, itemSchema, i);
    }
  }

  lemma BehindMerges(models: Models, found: seq<Value>, all: seq<Value>, n: nat, index: map<string, Value>, keys: seq<string>,
                     itemSchema: Option<Schema>, i: nat)
    requires |found| == |all| && AddedItems(models, found, all, n, index, keys, itemSchema)
    requires n <= i < |found| && UsesEntry(found, i, index, keys)
    ensures IsMap(found[i]) && IsMap(Entry(found, i, index, keys))
    ensures MergeObject(models, found[i], Entry(found, i, index, keys), itemSchema) == Merged(all[i], multiset{})
  {
    var c := EntryOfAdded(models, found, all, n, index, keys, itemSchema, i);
    EntryMerges(models, found, i, index, c, keys, itemSchema);
  }

  lemma EntryOfAdded(models: Models, found: seq<Value>, all: seq<Value>, n: nat, index: map<string, Value>, keys: seq<string>,
                     itemSchema: Option<Schema>, i: nat) returns (c: string)
    requires |found| == |all| && AddedItems(models, found, all, n, index, keys, itemSchema) && n <= i < |found|
    ensures c in index && ItemKeyOf(found[i], keys) == Some(c) && all[i] == index[c]
    ensures EntryFollows(models, found[i], index[c], itemSchema)
  {
    assert AddedItem(models, found[i], all[i], index, keys, itemSchema);
    c :| c in index && ItemKeyOf(found[i], keys) == Some(c) && all[i] == index[c] && EntryFollows(models, found[i], index[c], itemSchema);
  }

  /** Nothing strays: position by position the second list reads back as the first. */
  lemma SecondItems(models: Models, items: seq<Value>, found: seq<Value>, all: seq<Value>, index: map<string, Value>, merged: ItemsOutcome,
                    keys: seq<string>, itemSchema: Option<Schema>, list: Value, second: ItemsOutcome)
    requires SecondRun(models, items, found, all, index, merged, keys, itemSchema, list) && IndexOf(index, list)
    requires NoneStrays(items, index, keys) && AllAlike(models, items, index, keys, itemSchema)
    requires second == MergeItems(models, found, index, keys, itemSchema, list)
    ensures second.ItemsMerged? && second.rest == map[] && |second.items| == |found|
    ensures forall i :: 0 <= i < |found| ==> Reread(second.items[i]) == Reread(all[i])
  {
    forall i | 0 <= i < |found| && UsesEntry(found, i, index, keys)
      ensures MergeObject(models, found[i], Entry(found, i, index, keys), itemSchema).Merged?
    {
      FoundMerges(models, items, found, all, index, merged, keys, itemSchema, list, i);
    }
    ItemsMergeWhen(models, found, index, keys, itemSchema, list);
    MergeItemsExact(models, found, index, keys, itemSchema, list);
    AllUsed(found, items, index, SortedKeys(merged.rest.Keys), keys);
    forall i | 0 <= i < |found| ensures Reread(second.items[i]) == Reread(all[i]) {
      SecondItem(models, items, found, all, index, merged, keys, itemSchema, list, i, second.items[i]);
    }
  }

  lemma SecondItem(models: Models, items: seq<Value>, found: seq<Value>, all: seq<Value>, index: map<string, Value>, merged: ItemsOutcome,
                   keys: seq<string>, itemSchema: Option<Schema>, list: Value, i: nat, result: Value)
    requires SecondRun(models, items, found, all, index, merged, keys, itemSchema, list) && i < |found|
    requires NoneStrays(items, index, keys) && AllAlike(models, items, index, keys, itemSchema)
    requires ItemResult(models, found, i, index, keys, itemSchema, result)
    ensures Reread(result) == Reread(all[i])
  {
    if UsesEntry(found, i, index, keys) {
      FoundMerges(models, items, found, all, index, merged, keys, itemSchema, list, i);
    } else {
      KeptIsOriginal(found, items, index, SortedKeys(merged.rest.Keys), keys, i);
      FirstResult(models, items, found, all, index, merged, keys, itemSchema, list, i);
      KeptAgain(items[i], found[i]);
    }
  }

  lemma KeptIsOriginal(found: seq<Value>, items: seq<Value>, index: map<string, Value>, added: seq<string>, keys: seq<string>, i: nat)
    requires KeysFound(found, items, index, added, keys) && NoneStrays(items, index, keys)
    requires i < |found| && !UsesEntry(found, i, index, keys)
    ensures i < |items| && !UsesEntry(items, i, index, keys)
  {
    if i < |items| {
      UsesAlike(found, items, index, added, keys, i);
    } else {
      AddedUses(found, items, index, added, keys, i - |items|);
    }
  }

  lemma KeptAgain(item: Value, found: Value)
    requires CopiedItem(item) == item && found == CopiedItem(Reread(item))
    ensures Reread(found) == Reread(item)
  {
    RereadSettles(item);
    RereadIsJson(item);
  }

  // ---- partial errors ----

  lemma RereadShowsNothing(v: Value)
    ensures Show(Reread(v)) == "" <==> Show(v) == ""
  {
  }

  lemma JoinNothing(parts: seq<string>)
    ensures Join(parts, "::") == "" <==> parts == [] || parts == [""]
  {
  }

  /** Reading back neither takes an item its key nor gives it one. */
  lemma RereadKeepsKeyed(item: Value, keys: seq<string>)
    requires CopiedItem(item) == item
    ensures ItemKeyOf(Reread(item), keys).Some? <==> ItemKeyOf(item, keys).Some?
  {
    CopiedShape(item);
    if item.Obj? {
      var read := Reread(item).fields;
      SameMissing(read, item.fields, keys);
      if FirstMissing(read, keys).None? {
        var a, b := KeyParts(read, keys), KeyParts(item.fields, keys);
        JoinNothing(a);
        JoinNothing(b);
        if |keys| == 1 {
          RereadShowsNothing(item.fields[keys[0]]);
          assert a == [Show(Reread(item.fields[keys[0]]))] && b == [Show(item.fields[keys[0]])];
        }
      }
    }
  }

  lemma FoundClean(models: Models, items: seq<Value>, found: seq<Value>, all: seq<Value>, index: map<string, Value>, merged: ItemsOutcome,
                   keys: seq<string>, itemSchema: Option<Schema>, list: Value, i: nat)
    requires SecondRun(models, items, found, all, index, merged, keys, itemSchema, list)
    requires NoneStrays(items, index, keys) && AllAlike(models, items, index, keys, itemSchema) && i < |items|
    ensures Clean(models, found, i, index, keys, itemSchema) <==> Clean(models, items, i, index, keys, itemSchema)
  {
    UsesAlike(found, items, index, SortedKeys(merged.rest.Keys), keys, i);
    assert ItemKeyOf(found[i], keys) == KeyAgain(items, i, index, keys);
    if UsesEntry(items, i, index, keys) {
      assert ItemFollows(models, items, found, i, index, keys, itemSchema);
    } else {
      assert CopiedItem(items[i]) == items[i];
      RereadKeepsKeyed(items[i], keys);
    }
  }

  lemma AddedClean(models: Models, found: seq<Value>, all: seq<Value>, n: nat, index: map<string, Value>, keys: seq<string>,
                   itemSchema: Option<Schema>, i: nat)
    requires |found| == |all| && AddedItems(models, found, all, n, index, keys, itemSchema) && n <= i < |found|
    requires forall k :: k in index ==> IsMap(index[k])
    ensures Clean(models, found, i, index, keys, itemSchema)
  {
    var c := EntryOfAdded(models, found, all, n, index, keys, itemSchema, i);
    EntryClean(models, found, i, index, c, keys, itemSchema);
  }

  lemma EntryClean(models: Models, found: seq<Value>, i: nat, index: map<string, Value>, c: string, keys: seq<string>,
                   itemSchema: Option<Schema>)
    requires i < |found| && (forall k :: k in index ==> IsMap(index[k])) && c in index
    requires ItemKeyOf(found[i], keys) == Some(c) && EntryFollows(models, found[i], index[c], itemSchema)
    ensures Clean(models, found, i, index, keys, itemSchema)
  {
  }

  lemma SecondErrors(models: Models, items: seq<Value>, found: seq<Value>, all: seq<Value>, index: map<string, Value>, merged: ItemsOutcome,
                     keys: seq<string>, itemSchema: Option<Schema>, list: Value, second: ItemsOutcome)
    requires SecondRun(models, items, found, all, index, merged, keys, itemSchema, list) && IndexOf(index, list)
    requires NoneStrays(items, index, keys) && AllAlike(models, items, index, keys, itemSchema)
    requires merged == MergeItems(models, items, index, keys, itemSchema, list)
    requires second == MergeItems(models, found, index, keys, itemSchema, list) && second.ItemsMerged?
    ensures second.errors == multiset{} <==> merged.errors == multiset{}
  {
    CleanExactly(models, items, index, keys, itemSchema, list);
    CleanExactly(models, found, index, keys, itemSchema, list);
    forall i | 0 <= i < |items|
      ensures Clean(models, found, i, index, keys, itemSchema) <==> Clean(models, items, i, index, keys, itemSchema)
    {
      FoundClean(models, items, found, all, index, merged, keys, itemSchema, list, i);
    }
    forall i | |items| <= i < |found| ensures Clean(models, found, i, index, keys, itemSchema) {
      AddedClean(models, found, all, |items|, index, keys, itemSchema, i);
    }
  }

  // ---- something strays ----

  /** A stray item is overwritten: its key field holds a scalar of the patch instead of a container. */
  lemma StrayOverwritten(models: Models, items: seq<Value>, found: seq<Value>, i: nat, index: map<string, Value>, keys: seq<string>,
                         itemSchema: Option<Schema>, result: Value)
    requires i < |items| <= |found| && KeyedIn(index, keys) && CopiedItem(items[i]) == items[i]
    requires Strays(items, i, index, keys) && UsesEntry(found, i, index, keys)
    requires ItemResult(models, found, i, index, keys, itemSchema, result)
    ensures Reread(result) != Reread(items[i])
  {
    var k := StrayHasContainer(items, i, index, keys);
    var j := PositionIn(keys, k);
    var entry := Entry(found, i, index, keys);
    MergeKeepsScalarKeys(models, found[i], entry, itemSchema, keys);
    MergedLevel(models, found[i], entry, itemSchema, "");
    CopiedShape(items[i]);
    assert Hashable(result.fields[keys[j]]);
    ContainerOverwritten(items[i], result, k);
  }

  lemma ContainerOverwritten(item: Value, result: Value, k: string)
    requires item.Obj? && result.Obj? && k in item.fields && k in result.fields
    requires Hashable(result.fields[k]) && !Hashable(Reread(item.fields[k]))
    ensures Reread(result) != Reread(item)
  {
    HashableReread(result.fields[k]);
    assert Reread(result).fields[k] == result.fields[k];
    assert Reread(item).fields[k] == Reread(item.fields[k]);
  }

  lemma UnlikeDiffers(models: Models, items: seq<Value>, found: seq<Value>, index: map<string, Value>, added: seq<string>,
                      keys: seq<string>, itemSchema: Option<Schema>, i: nat, first: Value, result: Value)
    requires ConformingIn(models, index, itemSchema) && KeyedIn(index, keys)
    requires KeysFound(found, items, index, added, keys) && NoneStrays(items, index, keys)
    requires i < |items| && UsesEntry(items, i, index, keys) && ItemFollows(models, items, found, i, index, keys, itemSchema)
    requires !ReadsAlike(models, items[i], Entry(items, i, index, keys), itemSchema)
    requires ItemResult(models, items, i, index, keys, itemSchema, first)
    requires ItemResult(models, found, i, index, keys, itemSchema, result)
    ensures Reread(result) != Reread(first)
  {
    UsesAlike(found, items, index, added, keys, i);
    assert ItemKeyOf(found[i], keys) == KeyAgain(items, i, index, keys);
  }

  lemma StrayDiffers(models: Models, items: seq<Value>, found: seq<Value>, index: map<string, Value>, added: seq<string>,
                     keys: seq<string>, itemSchema: Option<Schema>, i: nat, first: Value, result: Value)
    requires KeyedIn(index, keys) && KeysFound(found, items, index, added, keys)
    requires i < |items| && Strays(items, i, index, keys) && CopiedItem(items[i]) == items[i]
    requires ItemResult(models, items, i, index, keys, itemSchema, first)
    requires ItemResult(models, found, i, index, keys, itemSchema, result)
    ensures Reread(result) != Reread(first)
  {
    StrayUses(found, items, index, added, keys, i);
    StrayOverwritten(models, items, found, i, index, keys, itemSchema, result);
  }

  /** Where an item strays, or something does in what it is merged with, the second list differs. */
  lemma SecondDiffers(models: Models, items: seq<Value>, found: seq<Value>, all: seq<Value>, index: map<string, Value>, merged: ItemsOutcome,
                      keys: seq<string>, itemSchema: Option<Schema>, list: Value, second: ItemsOutcome) returns (i: nat)
    requires SecondRun(models, items, found, all, index, merged, keys, itemSchema, list) && IndexOf(index, list)
    requires !(NoneStrays(items, index, keys) && AllAlike(models, items, index, keys, itemSchema))
    requires second == MergeItems(models, found, index, keys, itemSchema, list) && second.ItemsMerged?
    ensures |second.items| == |found| && i < |items| && Reread(second.items[i]) != Reread(merged.items[i])
  {
    var added := SortedKeys(merged.rest.Keys);
    if NoneStrays(items, index, keys) {
      i := Unlike(models, items, index, keys, itemSchema);
      SecondResult(models, found, index, keys, itemSchema, list, second, i);
      FirstResult(models, items, found, all, index, merged, keys, itemSchema, list, i);
      UnlikeDiffers(models, items, found, index, added, keys, itemSchema, i, merged.items[i], second.items[i]);
    } else {
      i := Stray(items, index, keys);
      SecondResult(models, found, index, keys, itemSchema, list, second, i);
      FirstResult(models, items, found, all, index, merged, keys, itemSchema, list, i);
      StrayDiffers(models, items, found, index, added, keys, itemSchema, i, merged.items[i], second.items[i]);
    }
  }

  lemma Unlike(models: Models, items: seq<Value>, index: map<string, Value>, keys: seq<string>, itemSchema: Option<Schema>) returns (i: nat)
    requires ConformingIn(models, index, itemSchema) && !AllAlike(models, items, index, keys, itemSchema)
    ensures i < |items| && UsesEntry(items, i, index, keys)
    ensures !ReadsAlike(models, items[i], Entry(items, i, index, keys), itemSchema)
  {
    i :| 0 <= i < |items| && UsesEntry(items, i, index, keys) && !ReadsAlike(models, items[i], Entry(items, i, index, keys), itemSchema);
  }

  lemma Stray(items: seq<Value>, index: map<string, Value>, keys: seq<string>) returns (i: nat)
    requires !NoneStrays(items, index, keys)
    ensures i < |items| && Strays(items, i, index, keys)
  {
    i :| 0 <= i < |items| && Strays(items, i, index, keys);
  }

  lemma SecondResult(models: Models, found: seq<Value>, index: map<string, Value>, keys: seq<string>, itemSchema: Option<Schema>,
                     list: Value, second: ItemsOutcome, i: nat)
    requires IndexOf(index, list) && second == MergeItems(models, found, index, keys, itemSchema, list)
    requires second.ItemsMerged? && i < |found|
    ensures |second.items| == |found| && ItemResult(models, found, i, index, keys, itemSchema, second.items[i])
  {
    MergeItemsExact(models, found, index, keys, itemSchema, list);
  }

  lemma FirstResult(models: Models, items: seq<Value>, found: seq<Value>, all: seq<Value>, index: map<string, Value>, merged: ItemsOutcome,
                    keys: seq<string>, itemSchema: Option<Schema>, list: Value, i: nat)
    requires SecondRun(models, items, found, all, index, merged, keys, itemSchema, list) && i < |items|
    ensures CopiedItem(items[i]) == items[i] && ItemResult(models, items, i, index, keys, itemSchema, merged.items[i])
    ensures UsesEntry(items, i, index, keys) ==> ItemFollows(models, items, found, i, index, keys, itemSchema)
  {
  }

  // ---- lists, fields and objects ----

  lemma SameReread(a: seq<Value>, b: seq<Value>)
    requires |a| == |b| && forall i :: 0 <= i < |a| ==> Reread(a[i]) == Reread(b[i])
    ensures Reread(ResultList(a)) == Reread(ResultList(b))
  {
    if a != [] {
      assert Reread(List(a)).items == Reread(List(b)).items;
    }
  }

  lemma OtherReread(a: seq<Value>, b: seq<Value>, i: nat)
    requires i < |a| && i < |b| && Reread(a[i]) != Reread(b[i])
    ensures Reread(ResultList(a)) != Reread(ResultList(b))
  {
    assert Reread(List(a)).items[i] != Reread(List(b)).items[i];
  }

  lemma SecondList(models: Models, items: seq<Value>, found: seq<Value>, all: seq<Value>, index: map<string, Value>, merged: ItemsOutcome,
                   keys: seq<string>, schema: Option<Schema>, list: Value)
    requires SecondRun(models, items, found, all, index, merged, keys, ItemSchema(schema), list) && keys != []
    requires merged == MergeItems(models, items, index, keys, ItemSchema(schema), list) && all == merged.items + NewItems(merged.rest)
    requires PatchIndex(Items(list), keys) == Index(index)
    ensures MergeList(models, items, list, MergeBy(keys), schema).Merged?
    ensures Follows(MergeList(models, items, list, MergeBy(keys), schema), MergeList(models, found, list, MergeBy(keys), schema),
                    NoneStrays(items, index, keys) && AllAlike(models, items, index, keys, ItemSchema(schema)))
  {
    var itemSchema := ItemSchema(schema);
    var second := MergeItems(models, found, index, keys, itemSchema, list);
    KeyedMerge(models, items, list, keys, schema, index);
    KeyedMerge(models, found, list, keys, schema, index);
    if NoneStrays(items, index, keys) && AllAlike(models, items, index, keys, itemSchema) {
      SecondItems(models, items, found, all, index, merged, keys, itemSchema, list, second);
      SecondErrors(models, items, found, all, index, merged, keys, itemSchema, list, second);
      NothingAround(second.items);
      SameReread(second.items, all);
    } else if second.ItemsMerged? {
      var i := SecondDiffers(models, items, found, all, index, merged, keys, itemSchema, list, second);
      OtherReread(second.items + NewItems(second.rest), all, i);
    }
  }

  lemma KeyedMerge(models: Models, original: seq<Value>, list: Value, keys: seq<string>, schema: Option<Schema>, index: map<string, Value>)
    requires IsList(list) && keys != [] && PatchIndex(Items(list), keys) == Index(index)
    ensures MergeList(models, original, list, MergeBy(keys), schema)
         == Assembled(MergeItems(models, original, index, keys, ItemSchema(schema), list))
  {
  }

  /** A merged item, read back, copied and merged again. */
  lemma {:induction false} ItemFollowsExactly(models: Models, items: seq<Value>, i: nat, found: seq<Value>, result: Value,
                                              index: map<string, Value>, keys: seq<string>, itemSchema: Option<Schema>, list: Value)
    requires list.List? && IsJson(list) && IndexOf(index, list) && GoodEntries(models, index, keys, itemSchema)
    requires i < |items| <= |found| && UsesEntry(items, i, index, keys)
    requires ItemResult(models, items, i, index, keys, itemSchema, result) && found[i] == CopiedItem(Reread(result))
    ensures ItemFollows(models, items, found, i, index, keys, itemSchema)
    decreases list, 0
  {
    var entry := Entry(items, i, index, keys);
    assert entry in list.items;
    StableIsRepeatable(models, entry, itemSchema);
    ObjectFollows(models, items[i], entry, itemSchema, result);
    CopiedShape(Reread(result));
    MergeOfCopy(models, Reread(result), entry, itemSchema);
  }

  lemma {:induction false} SecondRunHolds(models: Models, items: seq<Value>, found: seq<Value>, all: seq<Value>, index: map<string, Value>,
                                          merged: ItemsOutcome, keys: seq<string>, itemSchema: Option<Schema>, list: Value)
    requires FirstRun(models, items, index, merged, keys, itemSchema, list)
    requires all == merged.items + NewItems(merged.rest) && found == Found(all)
    ensures SecondRun(models, items, found, all, index, merged, keys, itemSchema, list)
    decreases list, 1
  {
    MergeItemsExact(models, items, index, keys, itemSchema, list);
    FrontKeys(models, items, index, merged, keys, itemSchema);
    BehindKeys(merged.items, index, merged.rest, keys);
    KeysAreFound(found, items, index, merged.rest, keys);
    AddedHolds(models, merged.items, merged.rest, index, keys, itemSchema, list, found, all);
    forall i | 0 <= i < |items| && UsesEntry(items, i, index, keys)
      ensures ItemFollows(models, items, found, i, index, keys, itemSchema)
    {
      ItemFollowsExactly(models, items, i, found, merged.items[i], index, keys, itemSchema, list);
    }
  }

  lemma {:induction false} ListFollows(models: Models, items: seq<Value>, list: Value, keys: seq<string>, schema: Option<Schema>, f: Value)
    requires list.List? && keys != [] && IsJson(list) && CopiedItems(items) == items
    requires ListConforms(models, list, keys, ItemSchema(schema)) && ItemsStable(models, list, keys, ItemSchema(schema))
    requires MergeList(models, items, list, MergeBy(keys), schema).Merged? && f == MergeList(models, items, list, MergeBy(keys), schema).value
    ensures var read := Copied(Reread(f));
            Follows(MergeList(models, items, list, MergeBy(keys), schema),
                    MergeList(models, if IsList(read) then Items(read) else [], list, MergeBy(keys), schema),
                    ListReadsAlike(models, items, list, keys, ItemSchema(schema)))
    ensures !IsMap(Copied(Reread(f)))
    decreases list, 2
  {
    var itemSchema := ItemSchema(schema);
    ConformingIndex(models, list, keys, itemSchema);
    var index := PatchIndex(list.items, keys).entries;
    var merged := MergeItems(models, items, index, keys, itemSchema, list);
    KeyedMergeIs(models, items, list, keys, schema, index, merged);
    var all := merged.items + NewItems(merged.rest);
    SecondRunHolds(models, items, Found(all), all, index, merged, keys, itemSchema, list);
    SecondList(models, items, Found(all), all, index, merged, keys, schema, list);
    FoundItems(all, Copied(Reread(f)));
    AlikeByIndex(models, items, list, keys, itemSchema, index);
  }

  lemma AlikeByIndex(models: Models, items: seq<Value>, list: Value, keys: seq<string>, itemSchema: Option<Schema>, index: map<string, Value>)
    requires list.List? && keys != [] && ListConforms(models, list, keys, itemSchema)
    requires PatchIndex(list.items, keys) == Index(index) && ConformingIn(models, index, itemSchema)
    ensures ListReadsAlike(models, items, list, keys, itemSchema) <==>
            NoneStrays(items, index, keys) && AllAlike(models, items, index, keys, itemSchema)
  {
    ConformingIndex(models, list, keys, itemSchema);
  }

  lemma ScalarsFollow(models: Models, items: seq<Value>, list: seq<Value>)
    requires AllHashable(items) && AllHashable(list)
    ensures var union := List(ScalarUnion(items, list)); Copied(Reread(union)) == union && AllHashable(ScalarUnion(items, list))
  {
    var union := ScalarUnion(items, list);
    RepeatedScalars(items, list);
    forall i | 0 <= i < |union| ensures IsJson(union[i]) {
      assert Hashable(union[i]);
    }
    RereadIsNoOp(List(union));
  }

  lemma {:induction false} FieldFollows(models: Models, original: Option<Value>, patch: Value, schema: Option<Schema>, f: Value)
    requires IsJson(patch) && FieldConforms(models, patch, schema) && FieldRepeatable(models, patch, schema)
    requires original.Some? ==> Copied(original.value) == original.value
    requires MergeField(models, original, patch, schema).Merged? && f == MergeField(models, original, patch, schema).value
    ensures Follows(MergeField(models, original, patch, schema), MergeField(models, Some(Copied(Reread(f))), patch, schema),
                    FieldReadsAlike(models, original, patch, schema))
    decreases patch, 4
  {
    RereadIsNoOp(patch);
    if StrategyOf(schema).MergeBy? {
      if IsMap(patch) {
        if original.Some? && IsMap(original.value) {
          StableIsRepeatable(models, patch, schema);
          ObjectFollows(models, original.value, patch, schema, f);
          MergeOfCopy(models, Reread(f), patch, schema);
        } else {
          SelfMerge(models, patch, schema);
          MergeOfCopy(models, patch, patch, schema);
        }
      } else if IsList(patch) {
        var items := if original.Some? && IsList(original.value) then Items(original.value) else [];
        CopiedList(original);
        ListFieldFollows(models, items, patch, schema, f);
        EmptyReadsAlike(models, original, patch, schema);
      }
    }
  }

  lemma CopiedList(original: Option<Value>)
    requires original.Some? ==> Copied(original.value) == original.value
    ensures var items := if original.Some? && IsList(original.value) then Items(original.value) else []; CopiedItems(items) == items
  {
    if original.Some? {
      CopiedShape(original.value);
    }
  }

  /** A list that meets no list has nothing that could stray. */
  lemma EmptyReadsAlike(models: Models, original: Option<Value>, patch: Value, schema: Option<Schema>)
    requires FieldConforms(models, patch, schema) && StrategyOf(schema).MergeBy? && IsList(patch)
    ensures var items := if original.Some? && IsList(original.value) then Items(original.value) else [];
            FieldReadsAlike(models, original, patch, schema) <==>
            (StrategyOf(schema).keys == [] || ListReadsAlike(models, items, patch, StrategyOf(schema).keys, ItemSchema(schema)))
  {
  }

  lemma {:induction false} ListFieldFollows(models: Models, items: seq<Value>, patch: Value, schema: Option<Schema>, f: Value)
    requires IsJson(patch) && FieldConforms(models, patch, schema) && FieldRepeatable(models, patch, schema)
    requires StrategyOf(schema).MergeBy? && IsList(patch) && CopiedItems(items) == items
    requires MergeList(models, items, patch, StrategyOf(schema), schema).Merged?
    requires f == MergeList(models, items, patch, StrategyOf(schema), schema).value
    ensures var keys := StrategyOf(schema).keys;
            Follows(MergeList(models, items, patch, MergeBy(keys), schema), MergeField(models, Some(Copied(Reread(f))), patch, schema),
                    keys == [] || ListReadsAlike(models, items, patch, keys, ItemSchema(schema)))
    decreases patch, 3
  {
    var keys := StrategyOf(schema).keys;
    if keys == [] {
      ScalarFieldFollows(models, items, patch, schema, f);
    } else {
      ListFollows(models, items, patch, keys, schema, f);
      FieldIsList(models, Copied(Reread(f)), patch, schema);
    }
  }

  lemma FieldIsList(models: Models, v: Value, patch: Value, schema: Option<Schema>)
    requires IsList(patch) && !IsMap(v)
    ensures MergeField(models, Some(v), patch, schema)
         == MergeList(models, if IsList(v) then Items(v) else [], patch, StrategyOf(schema), schema)
  {
  }

  lemma ScalarFieldFollows(models: Models, items: seq<Value>, patch: Value, schema: Option<Schema>, f: Value)
    requires StrategyOf(schema) == MergeBy([]) && patch.List?
    requires MergeList(models, items, patch, MergeBy([]), schema).Merged?
    requires f == MergeList(models, items, patch, MergeBy([]), schema).value
    ensures MergeField(models, Some(Copied(Reread(f))), patch, schema) == MergeList(models, items, patch, MergeBy([]), schema)
  {
    ScalarsFollow(models, items, patch.items);
    ScalarUnionLaws(items, patch.items, []);
    FieldIsList(models, f, patch, schema);
  }

  lemma OverlaySame(base: map<string, Value>, read: map<string, Value>, outcomes: map<string, Outcome>, again: map<string, Outcome>)
    requires AllMerged(outcomes) && AllMerged(again) && outcomes.Keys == again.Keys && read.Keys == base.Keys + outcomes.Keys
    requires forall k :: k in outcomes ==> Reread(again[k].value) == Reread(outcomes[k].value)
    requires forall k :: k in base && k !in outcomes ==> Reread(read[k]) == Reread(base[k])
    ensures Reread(Obj(Overlaid(read, again))) == Reread(Obj(Overlaid(base, outcomes)))
  {
    var first, second := Overlaid(base, outcomes), Overlaid(read, again);
    forall k | k in first ensures Reread(second[k]) == Reread(first[k]) {
      assert k in outcomes ==> second[k] == again[k].value && first[k] == outcomes[k].value;
    }
    assert Reread(Obj(second)).fields == Reread(Obj(first)).fields;
  }

  lemma OverlayOther(base: map<string, Value>, read: map<string, Value>, outcomes: map<string, Outcome>, again: map<string, Outcome>, k: string)
    requires AllMerged(outcomes) && AllMerged(again) && k in outcomes && k in again
    requires Reread(again[k].value) != Reread(outcomes[k].value)
    ensures Reread(Obj(Overlaid(read, again))) != Reread(Obj(Overlaid(base, outcomes)))
  {
    var first, second := Overlaid(base, outcomes), Overlaid(read, again);
    assert Reread(Obj(second)).fields[k] == Reread(second[k]) && Reread(Obj(first)).fields[k] == Reread(first[k]);
  }

  lemma SameErrors(outcomes: map<string, Outcome>, again: map<string, Outcome>)
    requires AllMerged(outcomes) && AllMerged(again) && outcomes.Keys == again.Keys
    requires forall k :: k in outcomes ==> (again[k].errors == multiset{} <==> outcomes[k].errors == multiset{})
    ensures ErrorsOf(again) == multiset{} <==> ErrorsOf(outcomes) == multiset{}
  {
    NoErrorsExactly(outcomes);
    NoErrorsExactly(again);
  }

  ghost predicate KeysFollow(outcomes: map<string, Outcome>, again: map<string, Outcome>, alike: set<string>)
    requires AllMerged(outcomes) && outcomes.Keys == again.Keys
  {
    forall k :: k in outcomes ==> Follows(outcomes[k], again[k], k in alike)
  }

  lemma OverlayFollows(base: map<string, Value>, read: map<string, Value>, outcomes: map<string, Outcome>, again: map<string, Outcome>,
                       alike: set<string>)
    requires AllMerged(outcomes) && outcomes.Keys == again.Keys && read.Keys == base.Keys + outcomes.Keys
    requires KeysFollow(outcomes, again, alike)
    requires forall k :: k in base && k !in outcomes ==> Reread(read[k]) == Reread(base[k])
    ensures outcomes.Keys <= alike ==> AllMerged(again)
    ensures Follows(Merged(Obj(Overlaid(base, outcomes)), ErrorsOf(outcomes)),
                    if AllMerged(again) then Merged(Obj(Overlaid(read, again)), ErrorsOf(again)) else Abort(CausesOf(again)),
                    outcomes.Keys <= alike)
  {
    if outcomes.Keys <= alike {
      forall k | k in outcomes ensures Follows(outcomes[k], again[k], true) {
        assert k in alike;
      }
      OverlaySame(base, read, outcomes, again);
      SameErrors(outcomes, again);
    } else if AllMerged(again) {
      var k :| k in outcomes && k !in alike;
      assert Follows(outcomes[k], again[k], false);
      OverlayOther(base, read, outcomes, again, k);
    }
  }

  /** One key of the patch, the first time and against what is read back. */
  lemma {:induction false} KeyFollows(models: Models, original: Value, patch: Value, schema: Option<Schema>, r: Value, k: string)
    requires IsMap(original) && Conforms(models, patch, schema) && Repeatable(models, patch, schema) && IsJson(patch)
    requires MergeObject(models, original, patch, schema).Merged? && r == MergeObject(models, original, patch, schema).value
    requires k in patch.fields
    ensures r.Obj? && MergeKeys(models, Base(original), patch, Resolve(models, schema).value)[k].Merged?
    ensures Follows(MergeKeys(models, Base(original), patch, Resolve(models, schema).value)[k],
                    MergeKeys(models, Base(Reread(r)), patch, Resolve(models, schema).value)[k],
                    FieldReadsAlike(models, Lookup(Base(original), k), patch.fields[k], FieldSchemaOf(models, schema, k).schema))
    decreases patch, 0
  {
    ResultField(models, original, patch, schema, r, k);
    if k in Fields(original) {
      CopiedTwice(Fields(original)[k]);
    }
    FieldFollows(models, Lookup(Base(original), k), patch.fields[k], FieldSchemaOf(models, schema, k).schema, r.fields[k]);
    KeyIsField(models, Base(original), patch, schema, k);
    KeyAgainst(models, Reread(r), patch, schema, k);
  }

  lemma CopiedAgain(v: Value)
    ensures Reread(Copied(Reread(Copied(v)))) == Reread(Copied(v))
  {
    RereadSettles(v);
    RereadIsJson(Copied(v));
  }

  lemma KeptFields(models: Models, original: Value, patch: Value, schema: Option<Schema>, r: Value)
    requires IsMap(original) && Conforms(models, patch, schema)
    requires MergeObject(models, original, patch, schema).Merged? && r == MergeObject(models, original, patch, schema).value
    ensures r.Obj? && Base(Reread(r)).Keys == Base(original).Keys + patch.fields.Keys
    ensures forall k :: k in Base(original) && k !in patch.fields ==> Reread(Base(Reread(r))[k]) == Reread(Base(original)[k])
  {
    ResultField(models, original, patch, schema, r, "");
    forall k | k in Base(original) && k !in patch.fields ensures Reread(Base(Reread(r))[k]) == Reread(Base(original)[k]) {
      KeptField(models, original, patch, schema, r, k);
    }
  }

  lemma KeptField(models: Models, original: Value, patch: Value, schema: Option<Schema>, r: Value, k: string)
    requires IsMap(original) && Conforms(models, patch, schema) && k in Fields(original) && k !in patch.fields
    requires MergeObject(models, original, patch, schema).Merged? && r == MergeObject(models, original, patch, schema).value
    ensures r.Obj? && k in r.fields && Reread(Base(Reread(r))[k]) == Reread(Base(original)[k])
  {
    ResultField(models, original, patch, schema, r, k);
    CopiedAgain(Fields(original)[k]);
    assert Base(Reread(r))[k] == Copied(Reread(r.fields[k]));
  }

  ghost function AlikeKeys(models: Models, original: Value, patch: Value, schema: Option<Schema>): (alike: set<string>)
    requires IsMap(original) && Conforms(models, patch, schema)
    ensures ReadsAlike(models, original, patch, schema) <==> patch.fields.Keys <= alike
    ensures forall k :: k in patch.fields ==>
              (k in alike <==>
               FieldReadsAlike(models, Lookup(Base(original), k), patch.fields[k], FieldSchemaOf(models, schema, k).schema))
  {
    set k | k in patch.fields &&
      FieldReadsAlike(models, Lookup(Base(original), k), patch.fields[k], FieldSchemaOf(models, schema, k).schema)
  }

  lemma {:induction false} ObjectFollows(models: Models, original: Value, patch: Value, schema: Option<Schema>, r: Value)
    requires IsMap(original) && Conforms(models, patch, schema) && Repeatable(models, patch, schema) && IsJson(patch)
    requires MergeObject(models, original, patch, schema).Merged? && r == MergeObject(models, original, patch, schema).value
    ensures r.Obj?
    ensures Follows(MergeObject(models, original, patch, schema), MergeObject(models, Reread(r), patch, schema),
                    ReadsAlike(models, original, patch, schema))
    decreases patch, 1
  {
    var resolved := Resolve(models, schema).value;
    KeptFields(models, original, patch, schema, r);
    var outcomes, again := MergeKeys(models, Base(original), patch, resolved), MergeKeys(models, Base(Reread(r)), patch, resolved);
    var alike := AlikeKeys(models, original, patch, schema);
    forall k | k in patch.fields ensures outcomes[k].Merged? && Follows(outcomes[k], again[k], k in alike) {
      KeyFollows(models, original, patch, schema, r, k);
    }
    OverlayFollows(Base(original), Base(Reread(r)), outcomes, again, alike);
  }

  // ---- main result ----

  /** If the merge gives a result, the same patch merged into what is read back of it succeeds, writes the same document
      and reports an error if and only if the first did. */
  ghost predicate RewritesAlike(models: Models, original: Value, patch: Value, schema: Option<Schema>)
    requires IsMap(original) && IsMap(patch)
  {
    var r := MergeObject(models, original, patch, schema);
    r.Merged? ==>
      IsMap(Reread(r.value)) &&
      var again := MergeObject(models, Reread(r.value), patch, schema);
      && again.Merged? && Reread(again.value) == Reread(r.value)
      && (again.errors == multiset{} <==> r.errors == multiset{})
  }

  /** For every original: a repeatable patch writes the same document again exactly when no item strays. */
  lemma RewritesAlikeExactly(models: Models, original: Value, patch: Value, schema: Option<Schema>)
    requires IsMap(original) && IsJson(patch) && Conforms(models, patch, schema) && Repeatable(models, patch, schema)
    requires MergeObject(models, original, patch, schema).Merged?
    ensures RewritesAlike(models, original, patch, schema) <==> ReadsAlike(models, original, patch, schema)
  {
    ObjectFollows(models, original, patch, schema, MergeObject(models, original, patch, schema).value);
  }

  /** A plain original has no item that could stray. */
  lemma PlainReadsAlike(models: Models, original: Value, patch: Value, schema: Option<Schema>)
    requires IsMap(original) && Plain(original) && IsJson(patch)
    requires Conforms(models, patch, schema) && Repeatable(models, patch, schema)
    requires MergeObject(models, original, patch, schema).Merged?
    ensures ReadsAlike(models, original, patch, schema)
  {
    RepeatedReread(models, original, patch, schema);
    RewritesAlikeExactly(models, original, patch, schema);
  }

  /** Nor does an item whose merge-key fields are scalars stray, whatever else it holds. */
  lemma ScalarKeysNeverStray(items: seq<Value>, i: nat, index: map<string, Value>, keys: seq<string>)
    requires i < |items| && CopiedItem(items[i]) == items[i]
    requires IsMap(items[i]) ==> forall k :: k in keys && k in Fields(items[i]) ==> Hashable(Fields(items[i])[k])
    ensures !Strays(items, i, index, keys)
  {
    if Strays(items, i, index, keys) {
      var k := StrayHasContainer(items, i, index, keys);
      HashableReread(Fields(items[i])[k]);
    }
  }

  // ---- an item that strays ----

  lemma KeysOfStray(item: Value, entry: Value)
    requires item == Obj(map["name" := List([NilList])]) && entry == Obj(map["name" := Str("[<nil>]")])
    ensures ItemKeyOf(item, ["name"]) == Some("[[]]")
    ensures Reread(item) == Obj(map["name" := List([Null])]) && ItemKeyOf(Reread(item), ["name"]) == Some("[<nil>]")
    ensures ItemKeyOf(entry, ["name"]) == Some("[<nil>]") && CompositeKey(entry.fields, ["name"]) == Key("[<nil>]")
  {
    var read := Obj(map["name" := List([Null])]);
    assert Reread(List([NilList])).items == [Null];
    assert Reread(item).fields == read.fields;
    assert Show(List([NilList])) == "[[]]" && Show(List([Null])) == "[<nil>]";
    assert KeyParts(item.fields, ["name"]) == ["[[]]"];
    assert KeyParts(read.fields, ["name"]) == ["[<nil>]"];
    assert KeyParts(entry.fields, ["name"]) == ["[<nil>]"];
  }

  lemma CopyOfStray(original: Value, item: Value)
    requires original == Obj(map["c" := List([Obj(map["name" := List([List([])])])])])
    requires item == Obj(map["name" := List([NilList])])
    ensures Base(original) == map["c" := List([item])]
  {
    var name, given := List([List([])]), Obj(map["name" := List([List([])])]);
    assert GobCopy(name).items == [NilList] && Sanitized(List([NilList])).items == [NilList];
    CopiedShape(given);
    assert Base(given) == item.fields;
    CopiedShape(List([given]));
    assert CopiedItems([given]) == [item];
  }

  lemma {:induction false} EntryConforms(entry: Value, itemSchema: Option<Schema>)
    requires entry == Obj(map["name" := Str("[<nil>]")]) && itemSchema == Some(Kind(map[], map["name" := Primitive(map[])]))
    ensures Conforms(map[], entry, itemSchema) && Stable(map[], entry, itemSchema)
  {
    assert FieldSchemaOf(map[], itemSchema, "name") == Known(Some(Primitive(map[])));
    assert StrategyOf(Some(Primitive(map[]))) == Replace;
  }

  lemma {:induction false} FieldOfOneConforms(models: Models, entry: Value, list: Value, field: Schema, keys: seq<string>)
    requires list == List([entry]) && StrategyOf(Some(field)) == MergeBy(keys) && keys != []
    requires entry.Obj? && ScalarKeys(entry, keys) && ItemKeyOf(entry, keys).Some?
    requires Conforms(models, entry, ItemSchema(Some(field))) && Stable(models, entry, ItemSchema(Some(field)))
    ensures FieldConforms(models, list, Some(field)) && FieldStable(models, list, Some(field))
  {
    var itemSchema := ItemSchema(Some(field));
    assert AllKeyed(list.items, keys);
    assert ListConforms(models, list, keys, itemSchema) && ItemsStable(models, list, keys, itemSchema);
  }

  lemma {:induction false} PatchOfOneConforms(models: Models, patch: Value, list: Value, schema: Schema, field: Schema)
    requires patch == Obj(map["c" := list]) && schema == Kind(map[], map["c" := field]) && !field.Ref?
    requires FieldConforms(models, list, Some(field)) && FieldStable(models, list, Some(field))
    ensures Conforms(models, patch, Some(schema)) && Stable(models, patch, Some(schema))
    ensures FieldSchemaOf(models, Some(schema), "c") == Known(Some(field))
  {
    assert FieldSchemaOf(models, Some(schema), "c") == Known(Some(field));
  }

  ghost predicate NamedList(schema: Schema, field: Schema) {
    && schema == Kind(map[], map["c" := field])
    && field == Array(BY_NAME, Some(Kind(map[], map["name" := Primitive(map[])])))
  }

  lemma {:induction false} ByName(field: Schema)
    requires field.Array? && field.extensions == BY_NAME
    ensures StrategyOf(Some(field)) == MergeBy(["name"])
  {
  }

  lemma {:induction false} EntryIsKeyed(entry: Value)
    requires entry == Obj(map["name" := Str("[<nil>]")])
    ensures IsJson(entry) && ScalarKeys(entry, ["name"]) && ItemKeyOf(entry, ["name"]).Some?
  {
    KeysOfStray(Obj(map["name" := List([NilList])]), entry);
  }

  lemma {:induction false} StrayPatchConforms(patch: Value, entry: Value, list: Value, schema: Schema, field: Schema)
    requires entry == Obj(map["name" := Str("[<nil>]")]) && list == List([entry]) && patch == Obj(map["c" := list])
    requires NamedList(schema, field)
    ensures IsJson(patch) && Conforms(map[], patch, Some(schema)) && Stable(map[], patch, Some(schema))
    ensures FieldSchemaOf(map[], Some(schema), "c") == Known(Some(field)) && StrategyOf(Some(field)) == MergeBy(["name"])
    ensures FieldConforms(map[], list, Some(field))
  {
    ByName(field);
    EntryIsKeyed(entry);
    EntryConforms(entry, ItemSchema(Some(field)));
    FieldOfOneConforms(map[], entry, list, field, ["name"]);
    PatchOfOneConforms(map[], patch, list, schema, field);
  }

  lemma {:induction false} StrayMeetsNothing(items: seq<Value>, item: Value, entry: Value, list: Value, field: Schema)
    requires item == Obj(map["name" := List([NilList])]) && entry == Obj(map["name" := Str("[<nil>]")])
    requires items == [item] && list == List([entry]) && FieldConforms(map[], list, Some(field))
    requires StrategyOf(Some(field)) == MergeBy(["name"])
    ensures FieldFits(map[], Some(List(items)), list, Some(field)) && FieldClear(map[], Some(List(items)), list, Some(field))
    ensures !FieldReadsAlike(map[], Some(List(items)), list, Some(field))
  {
    var itemSchema, keys := ItemSchema(Some(field)), ["name"];
    KeysOfStray(item, entry);
    assert !Meets(items, 0, entry, keys);
    assert ListFits(map[], items, list, keys, itemSchema) && ListClear(map[], items, list, keys, itemSchema);
    IndexOfOne(entry, keys, list, "[<nil>]");
    var index := map["[<nil>]" := entry];
    assert !UsesEntry(items, 0, index, keys) && Strays(items, 0, index, keys);
    assert !ListReadsAlike(map[], items, list, keys, itemSchema);
  }

  lemma {:induction false} StrayInObject(models: Models, original: Value, patch: Value, schema: Schema, field: Schema, v: Value)
    requires IsMap(original) && Base(original) == map["c" := v] && patch.Obj? && patch.fields.Keys == {"c"}
    requires Conforms(models, patch, Some(schema)) && FieldSchemaOf(models, Some(schema), "c") == Known(Some(field))
    requires FieldFits(models, Some(v), patch.fields["c"], Some(field)) && FieldClear(models, Some(v), patch.fields["c"], Some(field))
    requires !FieldReadsAlike(models, Some(v), patch.fields["c"], Some(field))
    ensures Fits(models, original, patch, Some(schema)) && Clear(models, original, patch, Some(schema))
    ensures !ReadsAlike(models, original, patch, Some(schema))
  {
    assert Lookup(Base(original), "c") == Some(v) && "c" in patch.fields;
  }

  /** {"c": [{"name": "[<nil>]"}]} into {"c": [{"name": [[]]}]}, with c merged by name: the copied item prints as [[]] and
      is kept, and the entry is appended behind it, without an error; read back it prints as the entry does, and the second
      application overwrites it. */
  lemma {:induction false} ItemStrays() returns (schema: Schema, original: Value, patch: Value)
    ensures schema == Kind(map[], map["c" := Array(BY_NAME, Some(Kind(map[], map["name" := Primitive(map[])])))])
    ensures original == Obj(map["c" := List([Obj(map["name" := List([List([])])])])])
    ensures patch == Obj(map["c" := List([Obj(map["name" := Str("[<nil>]")])])])
    ensures IsJson(original) && IsJson(patch)
    ensures Conforms(map[], patch, Some(schema)) && Repeatable(map[], patch, Some(schema))
    ensures MergeObject(map[], original, patch, Some(schema)).Merged?
    ensures MergeObject(map[], original, patch, Some(schema)).errors == multiset{}
    ensures !RewritesAlike(map[], original, patch, Some(schema))
  {
    var item, entry := Obj(map["name" := List([NilList])]), Obj(map["name" := Str("[<nil>]")]);
    var list, field := List([entry]), Array(BY_NAME, Some(Kind(map[], map["name" := Primitive(map[])])));
    schema := Kind(map[], map["c" := field]);
    original, patch := Obj(map["c" := List([Obj(map["name" := List([List([])])])])]), Obj(map["c" := list]);
    StrayCase(original, patch, schema, item, entry, list, field);
  }

  lemma {:induction false} StrayUnlike(original: Value, patch: Value, schema: Schema, item: Value, entry: Value, list: Value, field: Schema)
    requires item == Obj(map["name" := List([NilList])]) && entry == Obj(map["name" := Str("[<nil>]")])
    requires IsMap(original) && Base(original) == map["c" := List([item])]
    requires list == List([entry]) && patch == Obj(map["c" := list]) && NamedList(schema, field)
    ensures IsJson(patch) && Conforms(map[], patch, Some(schema)) && Stable(map[], patch, Some(schema))
    ensures Fits(map[], original, patch, Some(schema)) && Clear(map[], original, patch, Some(schema))
    ensures !ReadsAlike(map[], original, patch, Some(schema))
  {
    StrayPatchConforms(patch, entry, list, schema, field);
    StrayMeetsNothing([item], item, entry, list, field);
    StrayInObject(map[], original, patch, schema, field, List([item]));
  }

  lemma {:induction false} StrayIsJson(original: Value)
    requires original == Obj(map["c" := List([Obj(map["name" := List([List([])])])])])
    ensures IsJson(original)
  {
    var name := List([List([])]);
    assert IsJson(name);
    assert IsJson(Obj(map["name" := name]));
    assert IsJson(List([Obj(map["name" := name])]));
  }

  lemma {:induction false} StrayCase(original: Value, patch: Value, schema: Schema, item: Value, entry: Value, list: Value, field: Schema)
    requires item == Obj(map["name" := List([NilList])]) && entry == Obj(map["name" := Str("[<nil>]")])
    requires original == Obj(map["c" := List([Obj(map["name" := List([List([])])])])])
    requires list == List([entry]) && patch == Obj(map["c" := list]) && NamedList(schema, field)
    ensures IsJson(original) && IsJson(patch) && Conforms(map[], patch, Some(schema)) && Repeatable(map[], patch, Some(schema))
    ensures MergeObject(map[], original, patch, Some(schema)).Merged?
    ensures MergeObject(map[], original, patch, Some(schema)).errors == multiset{}
    ensures !RewritesAlike(map[], original, patch, Some(schema))
  {
    CopyOfStray(original, item);
    StrayUnlike(original, patch, schema, item, entry, list, field);
    StrayRewritten(map[], original, patch, Some(schema));
    StrayIsJson(original);
  }

  lemma {:induction false} StrayRewritten(models: Models, original: Value, patch: Value, schema: Option<Schema>)
    requires IsMap(original) && IsJson(patch) && Conforms(models, patch, schema) && Stable(models, patch, schema)
    requires Fits(models, original, patch, schema) && Clear(models, original, patch, schema)
    requires !ReadsAlike(models, original, patch, schema)
    ensures Repeatable(models, patch, schema)
    ensures MergeObject(models, original, patch, schema).Merged? && MergeObject(models, original, patch, schema).errors == multiset{}
    ensures !RewritesAlike(models, original, patch, schema)
  {
    StableIsRepeatable(models, patch, schema);
    ConformingNeverFatal(models, original, patch, schema);
    ClearExactly(models, original, patch, schema);
    RewritesAlikeExactly(models, original, patch, schema);
  }
}
