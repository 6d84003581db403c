/** What the extensions of a field's schema make of the field, for every original and every patch, and how a merge
    finds that schema. */
module Strategies {
  import opened Options
  import opened Strings
  import opened GoValues
  import opened MergeSchema
  import opened MergeEngine

  // ---- what a schema says ----

  ghost predicate Says(schema: Schema, name: string, text: string) {
    name in schema.extensions && schema.extensions[name] == Text(text)
  }

  ghost predicate MapTypeDecides(schema: Schema) {
    Says(schema, "x-kubernetes-map-type", "granular") || Says(schema, "x-kubernetes-map-type", "atomic")
  }

  ghost predicate ListTypeDecides(schema: Schema) {
    || Says(schema, "x-kubernetes-list-type", "map")
    || Says(schema, "x-kubernetes-list-type", "set")
    || Says(schema, "x-kubernetes-list-type", "atomic")
  }

  /** Some text with "merge" in it is the patch strategy. */
  ghost predicate PatchMerges(schema: Schema) {
    exists text, i :: StandsAt(text, "merge", i) && Says(schema, "x-kubernetes-patch-strategy", text)
  }

  /** keys are the texts among the elements, in their order. */
  ghost predicate AreTexts(elements: seq<Extension>, keys: seq<string>) {
    exists at: seq<nat> :: TextsAt(elements, at, keys)
  }

  ghost predicate TextsAt(elements: seq<Extension>, at: seq<nat>, keys: seq<string>) {
    Rising(at) && Holds(elements, at, keys) && (forall k :: 0 <= k < |elements| && elements[k].Text? ==> k in at)
  }

  ghost predicate Rising(at: seq<nat>) {
    forall i, j :: 0 <= i < j < |at| ==> at[i] < at[j]
  }

  ghost predicate Holds(elements: seq<Extension>, at: seq<nat>, keys: seq<string>) {
    |at| == |keys| && forall i :: 0 <= i < |at| ==> at[i] < |elements| && elements[at[i]] == Text(keys[i])
  }

  /** The merge keys of a list of type map. */
  ghost predicate ListsKeys(schema: Schema, keys: seq<string>) {
    if "x-kubernetes-list-map-keys" in schema.extensions && schema.extensions["x-kubernetes-list-map-keys"].Texts?
    then AreTexts(schema.extensions["x-kubernetes-list-map-keys"].elements, keys)
    else keys == []
  }

  // ---- what becomes of a field ----

  /** Whatever the original holds, the patch is taken as it is. */
  ghost predicate Replaces(models: Models, schema: Option<Schema>) {
    forall original, patch :: MergeField(models, original, patch, schema) == Merged(patch, multiset{})
  }

  /** An object is merged into an object, a list into a list, or into none, by these keys or by value; anything else
      is taken as it is. */
  ghost predicate MergesBy(models: Models, schema: Schema, keys: seq<string>) {
    forall original, patch :: MergeField(models, original, patch, Some(schema)) == ByKeys(models, original, patch, schema, keys)
  }

  ghost function ByKeys(models: Models, original: Option<Value>, patch: Value, schema: Schema, keys: seq<string>): Outcome {
    if IsMap(patch) && original.Some? && IsMap(original.value) then MergeObject(models, original.value, patch, Some(schema))
    else if !IsList(patch) then Merged(patch, multiset{})
    else
      var items := if original.Some? && IsList(original.value) then Items(original.value) else [];
      if keys == [] then ByValue(items, Items(patch)) else ByKey(models, items, patch, schema, keys)
  }

  /** The ordered union without repeats; a map or a list among the items is a panic. */
  ghost function ByValue(items: seq<Value>, news: seq<Value>): Outcome {
    if exists x :: x in items + news && (IsMap(x) || IsList(x)) then Abort({Panic})
    else Merged(List(ScalarUnion(items, news)), multiset{})
  }

  /** The original items in their places, each merged with its entry under the schema of the items, and then the
      entries that are left. */
  ghost function ByKey(models: Models, items: seq<Value>, patch: Value, schema: Schema, keys: seq<string>): Outcome
    requires IsList(patch)
  {
    match PatchIndex(Items(patch), keys)
    case IndexError(error) => Abort({Fatal(error)})
    case Index(index) =>
      match MergeItems(models, items, index, keys, if schema.Array? then schema.subType else None, patch)
      case ItemsAbort(causes) => Abort(causes)
      case ItemsMerged(merged, errors, rest) =>
        Merged(if merged + NewItems(rest) == [] then NilList else List(merged + NewItems(rest)), errors)
  }

  // ---- the merge keys of a list ----

  lemma {:induction false} TextsAreListed(elements: seq<Extension>) returns (at: seq<nat>)
    ensures TextsAt(elements, at, TextsOf(elements))
  {
    if elements == [] {
      at := [];
    } else {
      var behind := TextsAreListed(elements[1..]);
      at := Shifted(behind);
      ShiftedTexts(elements, behind, TextsOf(elements[1..]));
      if elements[0].Text? {
        WithFirst(elements, at, TextsOf(elements[1..]));
        at := [0] + at;
      }
    }
  }

  ghost function Shifted(at: seq<nat>): (r: seq<nat>)
    ensures |r| == |at| && forall i :: 0 <= i < |at| ==> r[i] == at[i] + 1
  {
    seq(|at|, i requires 0 <= i < |at| => at[i] + 1)
  }

  lemma ShiftedTexts(elements: seq<Extension>, behind: seq<nat>, keys: seq<string>)
    requires elements != [] && TextsAt(elements[1..], behind, keys)
    ensures Rising(Shifted(behind)) && Holds(elements, Shifted(behind), keys)
    ensures forall k :: 0 < k < |elements| && elements[k].Text? ==> k in Shifted(behind)
  {
    forall k | 0 < k < |elements| && elements[k].Text? ensures k in Shifted(behind) {
      assert elements[1..][k - 1] == elements[k];
      var i :| 0 <= i < |behind| && behind[i] == k - 1;
      assert Shifted(behind)[i] == k;
    }
  }

  lemma WithFirst(elements: seq<Extension>, at: seq<nat>, keys: seq<string>)
    requires elements != [] && elements[0].Text? && Rising(at) && Holds(elements, at, keys)
    requires (forall i :: 0 <= i < |at| ==> 0 < at[i]) && forall k :: 0 < k < |elements| && elements[k].Text? ==> k in at
    ensures TextsAt(elements, [0] + at, [elements[0].text] + keys)
  {
    assert forall k :: k in at ==> k in [0] + at;
    assert ([0] + at)[0] == 0;
  }

  lemma {:induction false} ListedTexts(elements: seq<Extension>, at: seq<nat>, keys: seq<string>)
    requires TextsAt(elements, at, keys)
    ensures keys == TextsOf(elements)
  {
    if elements == [] {
      assert at == [];
    } else {
      var n := FirstListed(elements, at, keys);
      assert forall i :: 0 <= i < |at[n..]| ==> at[n..][i] == at[n + i];
      ListedBehind(elements, at, keys, n);
      ListedTexts(elements[1..], Unshifted(at[n..]), keys[n..]);
    }
  }

  /** A text at the front is listed first. */
  lemma FirstListed(elements: seq<Extension>, at: seq<nat>, keys: seq<string>) returns (n: nat)
    requires elements != [] && TextsAt(elements, at, keys)
    ensures n <= |at| && if elements[0].Text? then n == 1 && at[0] == 0 && keys[0] == elements[0].text else n == 0
    ensures forall i :: n <= i < |at| ==> 0 < at[i]
  {
    n := 0;
    if elements[0].Text? {
      n := 1;
      var first :| 0 <= first < |at| && at[first] == 0;
      assert at[0] <= at[first];
    }
  }

  ghost function Unshifted(at: seq<nat>): (r: seq<nat>)
    requires forall i :: 0 <= i < |at| ==> 0 < at[i]
    ensures |r| == |at| && forall i :: 0 <= i < |at| ==> r[i] + 1 == at[i]
  {
    seq(|at|, i requires 0 <= i < |at| => (at[i] - 1) as nat)
  }

  lemma ListedBehind(elements: seq<Extension>, at: seq<nat>, keys: seq<string>, n: nat)
    requires TextsAt(elements, at, keys) && elements != [] && n <= |at| && (n == 1 ==> at[0] == 0) && n <= 1
    requires forall i :: 0 <= i < |at[n..]| ==> 0 < at[n..][i]
    ensures TextsAt(elements[1..], Unshifted(at[n..]), keys[n..])
  {
    HeldBehind(elements, at[n..], keys[n..]);
    forall k | 0 <= k < |elements[1..]| && elements[1..][k].Text? ensures k in Unshifted(at[n..]) {
      assert elements[k + 1] == elements[1..][k];
      CoveredBehind(at, n, k);
    }
  }

  lemma HeldBehind(elements: seq<Extension>, at: seq<nat>, keys: seq<string>)
    requires elements != [] && Rising(at) && Holds(elements, at, keys) && forall i :: 0 <= i < |at| ==> 0 < at[i]
    ensures Rising(Unshifted(at)) && Holds(elements[1..], Unshifted(at), keys)
  {
    var behind := Unshifted(at);
    forall i | 0 <= i < |behind| ensures behind[i] < |elements[1..]| && elements[1..][behind[i]] == Text(keys[i]) {
      assert elements[1..][behind[i]] == elements[at[i]];
    }
  }

  lemma CoveredBehind(at: seq<nat>, n: nat, k: nat)
    requires k + 1 in at && n <= |at| && (n == 1 ==> at[0] == 0) && n <= 1
    requires forall i :: 0 <= i < |at[n..]| ==> 0 < at[n..][i]
    ensures k in Unshifted(at[n..])
  {
    var i :| 0 <= i < |at| && at[i] == k + 1;
    assert Unshifted(at[n..])[i - n] == k;
  }

  lemma KeysAreListed(schema: Schema, keys: seq<string>)
    ensures ListsKeys(schema, keys) <==> keys == ListMapKeys(schema.extensions)
  {
    if EXT_LIST_MAP_KEYS in schema.extensions && schema.extensions[EXT_LIST_MAP_KEYS].Texts? {
      var elements := schema.extensions[EXT_LIST_MAP_KEYS].elements;
      var listed := TextsAreListed(elements);
      if AreTexts(elements, keys) {
        var at :| TextsAt(elements, at, keys);
        ListedTexts(elements, at, keys);
      }
    }
  }

  // ---- the strategies ----

  lemma ReplaceIs(models: Models, schema: Option<Schema>)
    requires StrategyOf(schema) == Replace
    ensures Replaces(models, schema)
  {
    forall original, patch ensures MergeField(models, original, patch, schema) == Merged(patch, multiset{}) {
    }
  }

  lemma MergeByIs(models: Models, schema: Schema, keys: seq<string>)
    requires StrategyOf(Some(schema)) == MergeBy(keys)
    ensures MergesBy(models, schema, keys)
  {
    forall original, patch
      ensures MergeField(models, original, patch, Some(schema)) == ByKeys(models, original, patch, schema, keys)
    {
      FieldByKeys(models, original, patch, schema, keys);
    }
  }

  lemma FieldByKeys(models: Models, original: Option<Value>, patch: Value, schema: Schema, keys: seq<string>)
    requires StrategyOf(Some(schema)) == MergeBy(keys)
    ensures MergeField(models, original, patch, Some(schema)) == ByKeys(models, original, patch, schema, keys)
  {
    if IsList(patch) {
      ListByKeys(models, if original.Some? && IsList(original.value) then Items(original.value) else [], patch, schema, keys);
    }
  }

  lemma ListByKeys(models: Models, items: seq<Value>, patch: Value, schema: Schema, keys: seq<string>)
    requires IsList(patch)
    ensures MergeList(models, items, patch, MergeBy(keys), Some(schema))
         == if keys == [] then ByValue(items, Items(patch)) else ByKey(models, items, patch, schema, keys)
  {
    HashableAll(items, Items(patch));
  }

  lemma HashableAll(items: seq<Value>, news: seq<Value>)
    ensures AllHashable(items) && AllHashable(news) <==> !exists x :: x in items + news && (IsMap(x) || IsList(x))
  {
    if AllHashable(items) && AllHashable(news) {
      forall x | x in items + news ensures Hashable(x) {
      }
    } else if !AllHashable(items) {
      var i :| 0 <= i < |items| && !Hashable(items[i]);
      assert items[i] in items + news;
    } else {
      var i :| 0 <= i < |news| && !Hashable(news[i]);
      assert news[i] in items + news;
    }
  }

  lemma PatchMergesExactly(schema: Schema)
    ensures PatchMerges(schema) <==>
            var strategy := TextOf(schema.extensions, EXT_PATCH_STRATEGY); strategy.Some? && Contains(strategy.value, "merge")
  {
    var strategy := TextOf(schema.extensions, EXT_PATCH_STRATEGY);
    if strategy.Some? {
      ContainsExactly(strategy.value, "merge");
      assert Says(schema, "x-kubernetes-patch-strategy", strategy.value);
    }
  }

  /** The type of the map decides before that of the list. */
  lemma MapTypeFirst(models: Models, schema: Schema)
    ensures Says(schema, "x-kubernetes-map-type", "granular") ==> MergesBy(models, schema, [])
    ensures Says(schema, "x-kubernetes-map-type", "atomic") ==> Replaces(models, Some(schema))
  {
    if Says(schema, "x-kubernetes-map-type", "granular") {
      MergeByIs(models, schema, []);
    } else if Says(schema, "x-kubernetes-map-type", "atomic") {
      ReplaceIs(models, Some(schema));
    }
  }

  /** Then the type of the list, before any patch strategy. */
  lemma ListTypeNext(models: Models, schema: Schema, keys: seq<string>)
    requires !MapTypeDecides(schema)
    ensures Says(schema, "x-kubernetes-list-type", "set") ==> MergesBy(models, schema, [])
    ensures Says(schema, "x-kubernetes-list-type", "atomic") ==> Replaces(models, Some(schema))
    ensures Says(schema, "x-kubernetes-list-type", "map") && ListsKeys(schema, keys) ==>
              if keys == [] then Replaces(models, Some(schema)) else MergesBy(models, schema, keys)
  {
    ListTypeStrategy(schema, keys);
    if StrategyOf(Some(schema)).Replace? {
      ReplaceIs(models, Some(schema));
    } else {
      MergeByIs(models, schema, StrategyOf(Some(schema)).keys);
    }
  }

  lemma ListTypeStrategy(schema: Schema, keys: seq<string>)
    requires !MapTypeDecides(schema)
    ensures Says(schema, "x-kubernetes-list-type", "set") ==> StrategyOf(Some(schema)) == MergeBy([])
    ensures Says(schema, "x-kubernetes-list-type", "atomic") ==> StrategyOf(Some(schema)) == Replace
    ensures Says(schema, "x-kubernetes-list-type", "map") && ListsKeys(schema, keys) ==>
              StrategyOf(Some(schema)) == if keys == [] then Replace else MergeBy(keys)
  {
    if Says(schema, "x-kubernetes-list-type", "map") {
      KeysAreListed(schema, keys);
    }
  }

  /** Then a patch strategy with "merge" in it, with or without a merge key. */
  lemma PatchStrategyNext(models: Models, schema: Schema, key: string)
    requires !MapTypeDecides(schema) && !ListTypeDecides(schema) && PatchMerges(schema)
    ensures Says(schema, "x-kubernetes-patch-merge-key", key) ==> MergesBy(models, schema, [key])
    ensures (forall text :: !Says(schema, "x-kubernetes-patch-merge-key", text)) ==> MergesBy(models, schema, [])
  {
    PatchMergesExactly(schema);
    if Says(schema, "x-kubernetes-patch-merge-key", key) {
      MergeByIs(models, schema, [key]);
    } else if forall text :: !Says(schema, "x-kubernetes-patch-merge-key", text) {
      assert TextOf(schema.extensions, EXT_PATCH_MERGE_KEY).Some? ==>
          Says(schema, "x-kubernetes-patch-merge-key", TextOf(schema.extensions, EXT_PATCH_MERGE_KEY).value);
      MergeByIs(models, schema, []);
    }
  }

  /** If nothing decides, objects are merged and everything else is replaced; so it is without a schema. */
  lemma OtherwiseByShape(models: Models, schema: Schema)
    requires !MapTypeDecides(schema) && !ListTypeDecides(schema) && !PatchMerges(schema)
    ensures if schema.Map? || schema.Kind? then MergesBy(models, schema, []) else Replaces(models, Some(schema))
    ensures Replaces(models, None)
  {
    PatchMergesExactly(schema);
    if schema.Map? || schema.Kind? {
      MergeByIs(models, schema, []);
    } else {
      ReplaceIs(models, Some(schema));
    }
    ReplaceIs(models, None);
  }

  /** The extensions under which the patch is taken as it is. */
  ghost predicate SaysReplace(schema: Schema) {
    if MapTypeDecides(schema) then Says(schema, "x-kubernetes-map-type", "atomic")
    else if ListTypeDecides(schema) then
      || Says(schema, "x-kubernetes-list-type", "atomic")
      || (Says(schema, "x-kubernetes-list-type", "map") && ListsKeys(schema, []))
    else !PatchMerges(schema) && !schema.Map? && !schema.Kind?
  }

  /** These are all: under every other schema some list, and some object that meets an object, is not taken as it is. */
  lemma ReplacedExactly(models: Models, schema: Schema)
    ensures Replaces(models, Some(schema)) <==> SaysReplace(schema)
    ensures SaysReplace(schema) <==> forall original, patch :: IsList(patch) ==> TakenAsIs(models, original, patch, schema)
    ensures SaysReplace(schema) <==>
            forall original, patch :: IsMap(original) && IsMap(patch) ==> TakenAsIs(models, Some(original), patch, schema)
  {
    KeysAreListed(schema, []);
    PatchMergesExactly(schema);
    assert SaysReplace(schema) <==> StrategyOf(Some(schema)).Replace?;
    TakenAsIsExactly(models, schema);
    if SaysReplace(schema) {
      ReplaceIs(models, Some(schema));
    } else {
      NullListKept(models, schema);
    }
  }

  // ---- the schema of a field ----

  /** What a schema is when a reference is followed once. */
  ghost predicate Follows(models: Models, schema: Schema, followed: Schema) {
    if schema.Ref? then schema.model in models && followed == models[schema.model] else followed == schema
  }

  /** The reference names no model. */
  ghost predicate Dangles(models: Models, schema: Schema) {
    schema.Ref? && schema.model !in models
  }

  /** What the key of the patch gives, in terms of the schema of the object and of what the original has there. */
  ghost predicate KeyGives(models: Models, original: Value, patch: Value, schema: Schema, k: string, outcome: Outcome)
    requires IsMap(original) && IsMap(patch) && k in Fields(patch)
  {
    var before := if k in Fields(original) then Some(Copied(Fields(original)[k])) else None;
    if !schema.Kind? then outcome == MergeField(models, before, Fields(patch)[k], None)
    else if k !in schema.fields then outcome == Abort({Fatal(UnknownField(k))})
    else if Dangles(models, schema.fields[k]) then outcome == Abort({Fatal(UnresolvedField(k))})
    else exists field :: Follows(models, schema.fields[k], field) && outcome == MergeField(models, before, Fields(patch)[k], Some(field))
  }

  lemma KeyGivesItsMerge(models: Models, original: Value, patch: Value, schema: Schema, k: string)
    requires IsMap(original) && IsMap(patch) && k in Fields(patch)
    ensures KeyGives(models, original, patch, schema, k, MergeKey(models, Base(original), patch, schema, k))
  {
    if schema.Kind? && k in schema.fields && !Dangles(models, schema.fields[k]) {
      var field := if schema.fields[k].Ref? then models[schema.fields[k].model] else schema.fields[k];
      assert Follows(models, schema.fields[k], field);
    }
  }

  /** How the merges of the keys make up that of the object: with a result for every key, the result has the keys of
      both sides; else the causes are those of the keys. */
  ghost predicate MadeUp(original: Value, patch: Value, outcomes: map<string, Outcome>, r: Outcome)
    requires IsMap(original) && IsMap(patch)
  {
    match r
    case Abort(causes) => forall c :: c in causes <==> exists k :: k in outcomes && outcomes[k].Abort? && c in outcomes[k].causes
    case Merged(value, errors) =>
      && (forall k :: k in outcomes ==> outcomes[k].Merged?) && value.Obj?
      && value.fields.Keys == Fields(original).Keys + Fields(patch).Keys
      && (forall k :: k in outcomes ==> k in value.fields && value.fields[k] == outcomes[k].value)
      && (forall k :: k in Fields(original) && k !in Fields(patch) ==> value.fields[k] == Copied(Fields(original)[k]))
  }

  /** One level of a merge. */
  lemma LevelExactly(models: Models, original: Value, patch: Value, schema: Schema, followed: Schema)
    returns (outcomes: map<string, Outcome>)
    requires IsMap(original) && IsMap(patch) && !Dangles(models, schema) && Follows(models, schema, followed)
    ensures outcomes.Keys == Fields(patch).Keys
    ensures forall k :: k in outcomes ==> KeyGives(models, original, patch, followed, k, outcomes[k])
    ensures MadeUp(original, patch, outcomes, MergeObject(models, original, patch, Some(schema)))
    ensures MergeObject(models, original, patch, Some(schema)).Abort? ==> exists k :: k in outcomes && outcomes[k].Abort?
  {
    outcomes := MergeKeys(models, Base(original), patch, followed);
    forall k | k in outcomes ensures KeyGives(models, original, patch, followed, k, outcomes[k]) {
      KeyGivesItsMerge(models, original, patch, followed, k);
    }
    LevelMadeUp(models, original, patch, schema, followed);
  }

  lemma LevelMadeUp(models: Models, original: Value, patch: Value, schema: Schema, followed: Schema)
    requires IsMap(original) && IsMap(patch) && !Dangles(models, schema) && Follows(models, schema, followed)
    ensures MadeUp(original, patch, MergeKeys(models, Base(original), patch, followed), MergeObject(models, original, patch, Some(schema)))
  {
    var outcomes := MergeKeys(models, Base(original), patch, followed);
    var r := MergeObject(models, original, patch, Some(schema));
    assert Resolve(models, Some(schema)) == Some(followed);
    if r.Merged? {
      assert r.value.fields == Overlaid(Base(original), outcomes);
    } else {
      assert r.causes == CausesOf(outcomes);
    }
  }

  /** Without a schema, or with a reference to no model, there is no merge. */
  lemma NoSchemaNoMerge(models: Models, original: Value, patch: Value, schema: Option<Schema>)
    requires IsMap(original) && IsMap(patch)
    ensures schema.None? || Dangles(models, schema.value) ==>
              MergeObject(models, original, patch, schema) == Abort({Fatal(UnresolvedSchema)})
  {
  }
}
