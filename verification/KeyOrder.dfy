/** The merge with the order of iteration made explicit: how a run can end under some order of the keys of every
    object of the patch, and how far the order shows. */
module KeyOrder {
  import opened Options
  import opened Strings
  import opened GoValues
  import opened MergeSchema
  import opened MergeEngine

  // ---- the loops, in a given order ----

  /** Each key once, in any order, as a range over a Go map takes them. */
  ghost predicate IsOrder(order: seq<string>, keys: set<string>) {
    NoRepeats(order) && forall k :: k in order <==> k in keys
  }

  /** StrategicMerge can end with r, for some order of the keys at this level and at every level below. */
  ghost predicate Ends(models: Models, original: Value, patch: Value, schema: Option<Schema>, r: Result)
    requires IsMap(original) && IsMap(patch)
    decreases patch, 2, 0
  {
    match Resolve(models, schema)
    case None => r == Failed(UnresolvedSchema)
    case Some(resolved) =>
      exists order :: IsOrder(order, Fields(patch).Keys) &&
                      LoopEnds(models, patch, resolved, order, Base(original), [], r)
  }

  /** The rest of the loop: it stops at the first key that gives no value. */
  ghost predicate LoopEnds(models: Models, patch: Value, schema: Schema, order: seq<string>,
                           result: map<string, Value>, errors: seq<ItemError>, r: Result)
    requires IsMap(patch) && forall k :: k in order ==> k in Fields(patch)
    decreases patch, 1, |order|
  {
    if order == [] then r == Done(Obj(result), errors) else
    var k := order[0];
    exists f :: KeyEnds(models, Lookup(result, k), patch, schema, k, f) &&
                if f.Done? then LoopEnds(models, patch, schema, order[1..], result[k := f.value], errors + f.errors, r)
                else r == f
  }

  ghost predicate KeyEnds(models: Models, original: Option<Value>, patch: Value, schema: Schema, key: string, r: Result)
    requires IsMap(patch) && key in Fields(patch)
    decreases patch, 0, 0
  {
    match FieldSchema(models, schema, key)
    case Unknown => r == Failed(UnknownField(key))
    case Unresolved => r == Failed(UnresolvedField(key))
    case Known(fieldSchema) => FieldEnds(models, original, Fields(patch)[key], fieldSchema, r)
  }

  ghost predicate FieldEnds(models: Models, original: Option<Value>, patch: Value, schema: Option<Schema>, r: Result)
    decreases patch, 3, 0
  {
    if IsMap(patch) && original.Some? && IsMap(original.value) then
      if StrategyOf(schema).Replace? then r == Done(patch, [])
      else Ends(models, original.value, patch, schema, r)
    else if IsList(patch) then
      ListEnds(models, if original.Some? && IsList(original.value) then Items(original.value) else [],
               patch, StrategyOf(schema), schema, r)
    else
      r == Done(patch, [])
  }

  ghost predicate ListEnds(models: Models, original: seq<Value>, patch: Value, strategy: PatchStrategy,
                           listSchema: Option<Schema>, r: Result)
    requires IsList(patch)
    decreases patch, 2, 0
  {
    if strategy.Replace? then r == Done(patch, [])
    else if strategy.keys == [] then
      r == if AllHashable(original) && AllHashable(Items(patch)) then Done(List(ScalarUnion(original, Items(patch))), [])
           else Panicked
    else
      match PatchIndex(Items(patch), strategy.keys)
      case IndexError(error) => r == Failed(error)
      case Index(index) => ItemsEnd(models, original, 0, index, strategy.keys, ItemSchema(listSchema), patch, [], [], r)
  }

  /** The loop over the original items, from item i on; what is left of the index comes behind them. */
  ghost predicate ItemsEnd(models: Models, original: seq<Value>, i: nat, rest: map<string, Value>, keys: seq<string>,
                           itemSchema: Option<Schema>, patch: Value, items: seq<Value>, errors: seq<ItemError>, r: Result)
    requires i <= |original| && IndexOf(rest, patch)
    decreases patch, 1, |original| - i
  {
    if i == |original| then r == Done(ResultList(items + NewItems(rest)), errors) else
    exists f :: ItemEnds(models, i, original[i], rest, keys, itemSchema, patch, f) &&
                if f.Done? then
                  ItemsEnd(models, original, i + 1, Used(rest, KeyOfItem(i, original[i], keys)), keys, itemSchema, patch,
                           items + [f.value], errors + f.errors, r)
                else r == f
  }

  ghost predicate ItemEnds(models: Models, i: nat, item: Value, rest: map<string, Value>, keys: seq<string>,
                           itemSchema: Option<Schema>, patch: Value, r: Result)
    requires IndexOf(rest, patch)
    decreases patch, 0, 0
  {
    match KeyOfItem(i, item, keys)
    case Unkeyed(error) => r == Done(item, [error])
    case Keyed(key) => if key in rest then Ends(models, item, rest[key], itemSchema, r) else r == Done(item, [])
  }

  // ---- every order ends as specified ----

  lemma {:induction false} EndsSound(models: Models, original: Value, patch: Value, schema: Option<Schema>, r: Result)
    requires IsMap(original) && IsMap(patch) && Ends(models, original, patch, schema, r)
    ensures Implements(r, MergeObject(models, original, patch, schema))
    decreases patch, 2, 0
  {
    var resolved := Resolve(models, schema);
    if resolved.Some? {
      var order :| IsOrder(order, Fields(patch).Keys) &&
                   LoopEnds(models, patch, resolved.value, order, Base(original), [], r);
      var outcomes := MergeKeys(models, Base(original), patch, resolved.value);
      NothingVisited(Base(original), outcomes);
      LoopSound(models, Base(original), patch, resolved.value, outcomes, order, outcomes.Keys, Base(original), [], r);
    }
  }

  ghost function Together(base: map<string, Value>, outcomes: map<string, Outcome>): Outcome {
    if AllMerged(outcomes) then Merged(Obj(Overlaid(base, outcomes)), ErrorsOf(outcomes)) else Abort(CausesOf(outcomes))
  }

  lemma OrderTail(order: seq<string>, todo: set<string>)
    requires IsOrder(order, todo) && order != []
    ensures order[0] in todo && IsOrder(order[1..], todo - {order[0]})
  {
    assert order == [order[0]] + order[1..];
    forall k ensures k in order[1..] <==> k in todo - {order[0]} {
      if k in order[1..] {
        var i :| 0 <= i < |order[1..]| && order[1..][i] == k;
        assert order[i + 1] != order[0];
      }
    }
  }

  lemma {:induction false} LoopSound(models: Models, base: map<string, Value>, patch: Value, schema: Schema,
                                     outcomes: map<string, Outcome>, order: seq<string>, todo: set<string>,
                                     result: map<string, Value>, errors: seq<ItemError>, r: Result)
    requires IsMap(patch) && outcomes == MergeKeys(models, base, patch, schema)
    requires IsOrder(order, todo) && VisitedSoFar(base, outcomes, todo, result, multiset(errors))
    requires (forall k :: k in order ==> k in Fields(patch)) && LoopEnds(models, patch, schema, order, result, errors, r)
    ensures Implements(r, Together(base, outcomes))
    decreases patch, 1, |order|
  {
    if order == [] {
      assert todo == {};
      AllVisited(base, outcomes, result, multiset(errors));
    } else {
      var k := order[0];
      var f :| KeyEnds(models, Lookup(result, k), patch, schema, k, f) &&
               if f.Done? then LoopEnds(models, patch, schema, order[1..], result[k := f.value], errors + f.errors, r)
               else r == f;
      OrderTail(order, todo);
      NotYetVisited(base, outcomes, todo, result, multiset(errors), k);
      KeySound(models, base, patch, schema, k, f);
      assert outcomes[k] == MergeKey(models, base, patch, schema, k);
      if f.Done? {
        VisitKey(base, outcomes, todo, result, multiset(errors), k);
        LoopSound(models, base, patch, schema, outcomes, order[1..], todo - {k}, result[k := f.value], errors + f.errors, r);
      } else {
        CausesReach(outcomes, k);
      }
    }
  }

  lemma {:induction false} KeySound(models: Models, base: map<string, Value>, patch: Value, schema: Schema, key: string, r: Result)
    requires IsMap(patch) && key in Fields(patch) && KeyEnds(models, Lookup(base, key), patch, schema, key, r)
    ensures Implements(r, MergeKey(models, base, patch, schema, key))
    decreases patch, 0, 0
  {
    var field := FieldSchema(models, schema, key);
    if field.Known? {
      FieldSound(models, Lookup(base, key), Fields(patch)[key], field.schema, r);
    }
  }

  lemma {:induction false} FieldSound(models: Models, original: Option<Value>, patch: Value, schema: Option<Schema>, r: Result)
    requires FieldEnds(models, original, patch, schema, r)
    ensures Implements(r, MergeField(models, original, patch, schema))
    decreases patch, 3, 0
  {
    if IsMap(patch) && original.Some? && IsMap(original.value) {
      if StrategyOf(schema).MergeBy? {
        EndsSound(models, original.value, patch, schema, r);
      }
    } else if IsList(patch) {
      ListSound(models, if original.Some? && IsList(original.value) then Items(original.value) else [],
                patch, StrategyOf(schema), schema, r);
    }
  }

  lemma {:induction false} ListSound(models: Models, original: seq<Value>, patch: Value, strategy: PatchStrategy,
                                     listSchema: Option<Schema>, r: Result)
    requires IsList(patch) && ListEnds(models, original, patch, strategy, listSchema, r)
    ensures Implements(r, MergeList(models, original, patch, strategy, listSchema))
    decreases patch, 2, 0
  {
    if strategy.MergeBy? && strategy.keys != [] {
      var index := PatchIndex(Items(patch), strategy.keys);
      if index.Index? {
        assert original[..0] == [];
        ItemsSound(models, original, 0, index.entries, index.entries, strategy.keys, ItemSchema(listSchema), patch, [], [], r);
      }
    }
  }

  lemma {:induction false} ItemsSound(models: Models, original: seq<Value>, i: nat, index: map<string, Value>, rest: map<string, Value>,
                                      keys: seq<string>, itemSchema: Option<Schema>, patch: Value,
                                      items: seq<Value>, errors: seq<ItemError>, r: Result)
    requires i <= |original| && IndexOf(index, patch) && IndexOf(rest, patch)
    requires MergeItems(models, original[..i], index, keys, itemSchema, patch) == ItemsMerged(items, multiset(errors), rest)
    requires ItemsEnd(models, original, i, rest, keys, itemSchema, patch, items, errors, r)
    ensures Implements(r, Assembled(MergeItems(models, original, index, keys, itemSchema, patch)))
    decreases patch, 1, |original| - i
  {
    if i == |original| {
      assert original[..i] == original;
    } else {
      var used := Used(rest, KeyOfItem(i, original[i], keys));
      var f :| ItemEnds(models, i, original[i], rest, keys, itemSchema, patch, f) &&
               if f.Done? then
                 ItemsEnd(models, original, i + 1, used, keys, itemSchema, patch, items + [f.value], errors + f.errors, r)
               else r == f;
      ItemSound(models, i, original[i], rest, keys, itemSchema, patch, f);
      MergeItemsStep(models, original, i, index, keys, itemSchema, patch);
      if f.Done? {
        ItemsSound(models, original, i + 1, index, used, keys, itemSchema, patch, items + [f.value], errors + f.errors, r);
      } else {
        MergeItemsAbortsEarly(models, original, i + 1, index, keys, itemSchema, patch);
      }
    }
  }

  lemma {:induction false} ItemSound(models: Models, i: nat, item: Value, rest: map<string, Value>, keys: seq<string>,
                                     itemSchema: Option<Schema>, patch: Value, r: Result)
    requires IndexOf(rest, patch) && ItemEnds(models, i, item, rest, keys, itemSchema, patch, r)
    ensures Implements(r, MergeItem(models, i, item, rest, keys, itemSchema, patch))
    decreases patch, 0, 0
  {
    var key := KeyOfItem(i, item, keys);
    if key.Keyed? && key.key in rest {
      EndsSound(models, item, rest[key.key], itemSchema, r);
    }
  }

  // ---- everything specified happens in some order ----

  /** r is how the specification says it can end, with the wanted cause if it says that there is no result. */
  ghost predicate Hits(r: Result, spec: Outcome, c: Cause) {
    Implements(r, spec) && (spec.Abort? ==> CauseOf(r) == c)
  }

  /** The cause is one of those the specification lists, if it lists any. */
  ghost predicate Listed(c: Cause, spec: Outcome) {
    spec.Abort? ==> c in spec.causes
  }

  /** The key that meets the cause is taken first; if no key aborts, any order does. */
  lemma {:induction false} SomeEnd(models: Models, original: Value, patch: Value, schema: Option<Schema>, c: Cause) returns (r: Result)
    requires IsMap(original) && IsMap(patch) && Listed(c, MergeObject(models, original, patch, schema))
    ensures Ends(models, original, patch, schema, r) && Hits(r, MergeObject(models, original, patch, schema), c)
    decreases patch, 2, 0
  {
    var resolved := Resolve(models, schema);
    if resolved.None? {
      r := Failed(UnresolvedSchema);
    } else {
      var base := Base(original);
      var outcomes := MergeKeys(models, base, patch, resolved.value);
      NothingVisited(base, outcomes);
      var order := OrderFor(outcomes, c);
      r := SomeLoopEnd(models, base, patch, resolved.value, outcomes, order, outcomes.Keys, base, [], c);
      EndsBy(models, original, patch, schema, order, r);
      EndsSound(models, original, patch, schema, r);
    }
  }

  lemma EndsBy(models: Models, original: Value, patch: Value, schema: Option<Schema>, order: seq<string>, r: Result)
    requires IsMap(original) && IsMap(patch) && Resolve(models, schema).Some? && IsOrder(order, Fields(patch).Keys)
    requires LoopEnds(models, patch, Resolve(models, schema).value, order, Base(original), [], r)
    ensures Ends(models, original, patch, schema, r)
  {
  }

  lemma OrderFor(outcomes: map<string, Outcome>, c: Cause) returns (order: seq<string>)
    requires AllMerged(outcomes) || c in CausesOf(outcomes)
    ensures IsOrder(order, outcomes.Keys)
    ensures AllMerged(outcomes) || (order != [] && order[0] in outcomes && outcomes[order[0]].Abort? && c in outcomes[order[0]].causes)
  {
    if AllMerged(outcomes) {
      order := SortedKeys(outcomes.Keys);
      AscendingNoRepeats(order);
    } else {
      var k :| k in outcomes && outcomes[k].Abort? && c in outcomes[k].causes;
      order := StartingWith(k, outcomes.Keys);
    }
  }

  lemma StartingWith(k: string, keys: set<string>) returns (order: seq<string>)
    requires k in keys
    ensures IsOrder(order, keys) && order != [] && order[0] == k
  {
    var rest := SortedKeys(keys - {k});
    AscendingNoRepeats(rest);
    order := [k] + rest;
    forall i, j | 0 <= i < j < |order| ensures order[i] != order[j] {
      assert order[j] == rest[j - 1] && rest[j - 1] in rest;
    }
  }

  lemma {:induction false} SomeLoopEnd(models: Models, base: map<string, Value>, patch: Value, schema: Schema,
                                       outcomes: map<string, Outcome>, order: seq<string>, todo: set<string>,
                                       result: map<string, Value>, errors: seq<ItemError>, c: Cause) returns (r: Result)
    requires IsMap(patch) && outcomes == MergeKeys(models, base, patch, schema)
    requires IsOrder(order, todo) && VisitedSoFar(base, outcomes, todo, result, multiset(errors))
    requires AllMerged(outcomes) || (order != [] && order[0] in outcomes && outcomes[order[0]].Abort? && c in outcomes[order[0]].causes)
    ensures forall k :: k in order ==> k in Fields(patch)
    ensures LoopEnds(models, patch, schema, order, result, errors, r)
    ensures !AllMerged(outcomes) ==> !r.Done? && CauseOf(r) == c
    decreases patch, 1, |order|
  {
    if order == [] {
      r := Done(Obj(result), errors);
    } else {
      var k := order[0];
      OrderTail(order, todo);
      NotYetVisited(base, outcomes, todo, result, multiset(errors), k);
      assert outcomes[k] == MergeKey(models, base, patch, schema, k);
      var f := SomeKeyEnd(models, base, patch, schema, k, c);
      if f.Done? {
        VisitKey(base, outcomes, todo, result, multiset(errors), k);
        r := SomeLoopEnd(models, base, patch, schema, outcomes, order[1..], todo - {k},
                         result[k := f.value], errors + f.errors, c);
      } else {
        r := f;
      }
    }
  }

  lemma {:induction false} SomeKeyEnd(models: Models, base: map<string, Value>, patch: Value, schema: Schema, key: string, c: Cause)
    returns (r: Result)
    requires IsMap(patch) && key in Fields(patch) && Listed(c, MergeKey(models, base, patch, schema, key))
    ensures KeyEnds(models, Lookup(base, key), patch, schema, key, r)
    ensures Hits(r, MergeKey(models, base, patch, schema, key), c)
    decreases patch, 0, 0
  {
    match FieldSchema(models, schema, key)
    case Unknown => r := Failed(UnknownField(key));
    case Unresolved => r := Failed(UnresolvedField(key));
    case Known(fieldSchema) => r := SomeFieldEnd(models, Lookup(base, key), Fields(patch)[key], fieldSchema, c);
  }

  lemma {:induction false} SomeFieldEnd(models: Models, original: Option<Value>, patch: Value, schema: Option<Schema>, c: Cause)
    returns (r: Result)
    requires Listed(c, MergeField(models, original, patch, schema))
    ensures FieldEnds(models, original, patch, schema, r) && Hits(r, MergeField(models, original, patch, schema), c)
    decreases patch, 3, 0
  {
    if IsMap(patch) && original.Some? && IsMap(original.value) {
      if StrategyOf(schema).Replace? {
        r := Done(patch, []);
      } else {
        r := SomeEnd(models, original.value, patch, schema, c);
      }
    } else if IsList(patch) {
      r := SomeListEnd(models, if original.Some? && IsList(original.value) then Items(original.value) else [],
                       patch, StrategyOf(schema), schema, c);
    } else {
      r := Done(patch, []);
    }
  }

  lemma {:induction false} SomeListEnd(models: Models, original: seq<Value>, patch: Value, strategy: PatchStrategy,
                                       listSchema: Option<Schema>, c: Cause) returns (r: Result)
    requires IsList(patch) && Listed(c, MergeList(models, original, patch, strategy, listSchema))
    ensures ListEnds(models, original, patch, strategy, listSchema, r)
    ensures Hits(r, MergeList(models, original, patch, strategy, listSchema), c)
    decreases patch, 2, 0
  {
    if strategy.Replace? {
      r := Done(patch, []);
    } else if strategy.keys == [] {
      r := if AllHashable(original) && AllHashable(Items(patch)) then Done(List(ScalarUnion(original, Items(patch))), [])
           else Panicked;
    } else {
      match PatchIndex(Items(patch), strategy.keys)
      case IndexError(error) => r := Failed(error);
      case Index(index) =>
        assert original[..0] == [];
        r := SomeItemsEnd(models, original, 0, index, index, strategy.keys, ItemSchema(listSchema), patch, [], [], c);
    }
  }

  lemma {:induction false} SomeItemsEnd(models: Models, original: seq<Value>, i: nat, index: map<string, Value>, rest: map<string, Value>,
                                        keys: seq<string>, itemSchema: Option<Schema>, patch: Value,
                                        items: seq<Value>, errors: seq<ItemError>, c: Cause) returns (r: Result)
    requires i <= |original| && IndexOf(index, patch) && IndexOf(rest, patch)
    requires MergeItems(models, original[..i], index, keys, itemSchema, patch) == ItemsMerged(items, multiset(errors), rest)
    requires Listed(c, Assembled(MergeItems(models, original, index, keys, itemSchema, patch)))
    ensures ItemsEnd(models, original, i, rest, keys, itemSchema, patch, items, errors, r)
    ensures Hits(r, Assembled(MergeItems(models, original, index, keys, itemSchema, patch)), c)
    decreases patch, 1, |original| - i
  {
    if i == |original| {
      assert original[..i] == original;
      r := Done(ResultList(items + NewItems(rest)), errors);
    } else {
      MergeItemsStep(models, original, i, index, keys, itemSchema, patch);
      if MergeItem(models, i, original[i], rest, keys, itemSchema, patch).Abort? {
        MergeItemsAbortsEarly(models, original, i + 1, index, keys, itemSchema, patch);
      }
      var f := SomeItemEnd(models, i, original[i], rest, keys, itemSchema, patch, c);
      if f.Done? {
        r := SomeItemsEnd(models, original, i + 1, index, Used(rest, KeyOfItem(i, original[i], keys)), keys, itemSchema, patch,
                          items + [f.value], errors + f.errors, c);
      } else {
        r := f;
      }
    }
  }

  lemma {:induction false} SomeItemEnd(models: Models, i: nat, item: Value, rest: map<string, Value>, keys: seq<string>,
                                       itemSchema: Option<Schema>, patch: Value, c: Cause) returns (r: Result)
    requires IndexOf(rest, patch) && Listed(c, MergeItem(models, i, item, rest, keys, itemSchema, patch))
    ensures ItemEnds(models, i, item, rest, keys, itemSchema, patch, r)
    ensures Hits(r, MergeItem(models, i, item, rest, keys, itemSchema, patch), c)
    decreases patch, 0, 0
  {
    match KeyOfItem(i, item, keys)
    case Unkeyed(error) => r := Done(item, [error]);
    case Keyed(key) =>
      if key in rest {
        r := SomeEnd(models, item, rest[key], itemSchema, c);
      } else {
        r := Done(item, []);
      }
  }

  // ---- main results ----

  /** Over all orders: a merge that is specified to succeed ends with that one object and that one multiset of
      partial errors, and otherwise exactly the specified causes are met. */
  lemma EveryEnd(models: Models, original: Value, patch: Value, schema: Option<Schema>)
    requires IsMap(original) && IsMap(patch)
    ensures match MergeObject(models, original, patch, schema)
            case Merged(value, errors) =>
              && (exists r :: Ends(models, original, patch, schema, r))
              && forall r :: Ends(models, original, patch, schema, r) ==> r.Done? && r.value == value && multiset(r.errors) == errors
            case Abort(causes) =>
              && (forall r :: Ends(models, original, patch, schema, r) ==> !r.Done?)
              && forall c :: c in causes <==> exists r :: Ends(models, original, patch, schema, r) && !r.Done? && CauseOf(r) == c
  {
    var spec := MergeObject(models, original, patch, schema);
    forall r | Ends(models, original, patch, schema, r) ensures Implements(r, spec) {
      EndsSound(models, original, patch, schema, r);
    }
    if spec.Merged? {
      var r := SomeEnd(models, original, patch, schema, Panic);
    } else {
      forall c | c in spec.causes ensures exists r :: Ends(models, original, patch, schema, r) && !r.Done? && CauseOf(r) == c {
        var r := SomeEnd(models, original, patch, schema, c);
        assert !r.Done? && CauseOf(r) == c;
      }
    }
  }

  /** A result, an error and a panic: the first goes into the patch, the second makes the handler go on with the
      next policy, the third ends the request. */
  datatype Class = WithResult | WithError | WithPanic

  function ClassOf(r: Result): Class {
    match r
    case Done(_, _) => WithResult
    case Failed(_) => WithError
    case Panicked => WithPanic
  }

  ghost predicate SameClass(models: Models, original: Value, patch: Value, schema: Option<Schema>)
    requires IsMap(original) && IsMap(patch)
  {
    forall r, s :: Ends(models, original, patch, schema, r) && Ends(models, original, patch, schema, s) ==> ClassOf(r) == ClassOf(s)
  }

  /** The order decides between an error and a panic exactly when the merge can meet both. */
  lemma ClassExactly(models: Models, original: Value, patch: Value, schema: Option<Schema>)
    requires IsMap(original) && IsMap(patch)
    ensures var spec := MergeObject(models, original, patch, schema);
            SameClass(models, original, patch, schema) <==> spec.Merged? || Panic !in spec.causes || spec.causes == {Panic}
  {
    var spec := MergeObject(models, original, patch, schema);
    forall r | Ends(models, original, patch, schema, r) ensures Implements(r, spec) {
      EndsSound(models, original, patch, schema, r);
    }
    if spec.Abort? && Panic in spec.causes && spec.causes != {Panic} {
      var c :| c in spec.causes && c != Panic;
      var r := SomeEnd(models, original, patch, schema, c);
      var s := SomeEnd(models, original, patch, schema, Panic);
      assert ClassOf(r) != ClassOf(s);
    }
  }

  const SET_LIST: Extensions := map["x-kubernetes-list-type" := Text("set")]

  const ONE_SET: Schema := Kind(map[], map["s" := Array(SET_LIST, None)])

  /** {"s": [{}], "u": null} into {}: the set list panics and the field u is unknown, whichever comes first. */
  lemma OrderDecidesPanic()
    ensures var patch := Obj(map["s" := List([Obj(map[])]), "u" := Null]);
            && MergeObject(map[], Obj(map[]), patch, Some(ONE_SET)) == Abort({Panic, Fatal(UnknownField("u"))})
            && !SameClass(map[], Obj(map[]), patch, Some(ONE_SET))
  {
    var empty, patch := Obj(map[]), Obj(map["s" := List([Obj(map[])]), "u" := Null]);
    var outcomes := MergeKeys(map[], Base(empty), patch, ONE_SET);
    assert outcomes["u"] == MergeKey(map[], Base(empty), patch, ONE_SET, "u") == Abort({Fatal(UnknownField("u"))});
    assert outcomes["s"] == MergeKey(map[], Base(empty), patch, ONE_SET, "s");
    var list := List([Obj(map[])]);
    assert !Hashable(list.items[0]);
    assert StrategyOf(Some(Array(SET_LIST, None))) == MergeBy([]);
    assert MergeField(map[], None, list, Some(Array(SET_LIST, None))) == Abort({Panic});
    assert outcomes.Keys == {"s", "u"};
    assert CausesOf(outcomes) == {Panic, Fatal(UnknownField("u"))};
    ClassExactly(map[], empty, patch, Some(ONE_SET));
  }
}
