/** What a successful merge holds at every object path. */
module MergeMeaning {
  import opened Options
  import opened GoValues
  import opened MergeSchema
  import opened MergeEngine

  /** The value at a path of object keys. */
  ghost function At(v: Value, path: seq<string>): Option<Value> {
    if path == [] then Some(v)
    else if IsMap(v) && path[0] in Fields(v) then At(Fields(v)[path[0]], path[1..])
    else None
  }

  lemma {:induction false} AtAppend(v: Value, path: seq<string>, rest: seq<string>)
    ensures At(v, path + rest) == match At(v, path) case None => None case Some(w) => At(w, rest)
  {
    if path == [] {
      assert path + rest == rest;
    } else if IsMap(v) && path[0] in Fields(v) {
      assert (path + rest)[1..] == path[1..] + rest;
      AtAppend(Fields(v)[path[0]], path[1..], rest);
    }
  }

  lemma AtKey(v: Value, path: seq<string>, w: Value, k: string, rest: seq<string>)
    requires At(v, path) == Some(w)
    ensures At(v, path + [k] + rest) == if IsMap(w) && k in Fields(w) then At(Fields(w)[k], rest) else None
    ensures At(v, path + [k]) == if IsMap(w) && k in Fields(w) then Some(Fields(w)[k]) else None
  {
    assert path + [k] + rest == path + ([k] + rest) && ([k] + rest)[1..] == rest;
    AtAppend(v, path, [k] + rest);
    AtAppend(v, path, [k]);
  }

  /** Along the path both sides hold objects and every field on it has the merge strategy. */
  ghost predicate MergesAlong(models: Models, original: Value, patch: Value, schema: Option<Schema>, path: seq<string>) {
    IsMap(original) && IsMap(patch) &&
    (path == [] ||
     var field := FieldSchemaOf(models, schema, path[0]);
     && path[0] in Fields(original) && path[0] in Fields(patch)
     && field.Known? && StrategyOf(field.schema).MergeBy?
     && MergesAlong(models, Fields(original)[path[0]], Fields(patch)[path[0]], field.schema, path[1..]))
  }

  /** A merge starts by copying, so a copied original makes no difference. */
  lemma MergeOfCopy(models: Models, original: Value, patch: Value, schema: Option<Schema>)
    requires IsMap(original) && IsMap(patch)
    ensures IsMap(Copied(original)) && Base(Copied(original)) == Base(original)
    ensures MergeObject(models, Copied(original), patch, schema) == MergeObject(models, original, patch, schema)
  {
    CopiedShape(original);
    forall k | k in Fields(original) ensures Copied(Copied(Fields(original)[k])) == Copied(Fields(original)[k]) {
      CopiedTwice(Fields(original)[k]);
    }
    assert Base(Copied(original)) == Base(original);
  }

  /** One step along such a path. */
  lemma MergesBelow(models: Models, original: Value, patch: Value, schema: Option<Schema>, path: seq<string>)
    requires MergesAlong(models, original, patch, schema, path) && path != []
    requires MergeObject(models, original, patch, schema).Merged?
    ensures var k := path[0];
            && FieldSchemaOf(models, schema, k).Known?
            && MergesAlong(models, Fields(original)[k], Fields(patch)[k], FieldSchemaOf(models, schema, k).schema, path[1..])
    ensures var k := path[0];
            var below := MergeObject(models, Fields(original)[k], Fields(patch)[k], FieldSchemaOf(models, schema, k).schema);
            var result := MergeObject(models, original, patch, schema).value;
            below.Merged? && IsMap(result) && k in Fields(result) && Fields(result)[k] == below.value
  {
    var k := path[0];
    MergedLevel(models, original, patch, schema, k);
    CopiedShape(original);
    MergeOfCopy(models, Fields(original)[k], Fields(patch)[k], FieldSchemaOf(models, schema, k).schema);
  }

  lemma AtStep(v: Value, path: seq<string>)
    requires path != [] && IsMap(v) && path[0] in Fields(v)
    ensures At(v, path) == At(Fields(v)[path[0]], path[1..])
  {
  }

  /** At the end of such a path the result is the merge of what the two sides hold there. */
  lemma {:induction false} MergeReaches(models: Models, original: Value, patch: Value, schema: Option<Schema>, path: seq<string>)
    returns (o: Value, p: Value, s: Option<Schema>)
    requires MergesAlong(models, original, patch, schema, path)
    requires MergeObject(models, original, patch, schema).Merged?
    ensures At(original, path) == Some(o) && At(patch, path) == Some(p) && IsMap(o) && IsMap(p)
    ensures At(Copied(original), path) == Some(Copied(o))
    ensures MergeObject(models, o, p, s).Merged?
    ensures At(MergeObject(models, original, patch, schema).value, path) == Some(MergeObject(models, o, p, s).value)
  {
    if path == [] {
      o, p, s := original, patch, schema;
    } else {
      var k := path[0];
      var below := FieldSchemaOf(models, schema, k).schema;
      MergesBelow(models, original, patch, schema, path);
      CopiedShape(original);
      o, p, s := MergeReaches(models, Fields(original)[k], Fields(patch)[k], below, path[1..]);
      AtStep(original, path);
      AtStep(patch, path);
      AtStep(Copied(original), path);
      AtStep(MergeObject(models, original, patch, schema).value, path);
    }
  }

  /** At the object the path ends in: the result's keys are those of both sides, and a patch field that is
      no list, nor an object meeting an object, is there as it is, null included. */
  lemma PatchedFields(models: Models, original: Value, patch: Value, schema: Option<Schema>, path: seq<string>, k: string)
    requires MergesAlong(models, original, patch, schema, path)
    requires MergeObject(models, original, patch, schema).Merged?
    ensures At(original, path).Some? && At(patch, path).Some?
    ensures var o, p := At(original, path).value, At(patch, path).value;
            var r := MergeObject(models, original, patch, schema).value;
            && IsMap(o) && IsMap(p)
            && (At(r, path + [k]).Some? <==> k in Fields(o) || k in Fields(p))
            && (k in Fields(p) && !IsList(Fields(p)[k]) && !(IsMap(Fields(p)[k]) && k in Fields(o) && IsMap(Fields(o)[k]))
                ==> At(r, path + [k]) == Some(Fields(p)[k]))
  {
    var o, p, s := MergeReaches(models, original, patch, schema, path);
    var there := MergeObject(models, o, p, s).value;
    MergedField(models, o, p, s, there, k);
    AtKey(MergeObject(models, original, patch, schema).value, path, there, k, []);
  }

  lemma MergedField(models: Models, o: Value, p: Value, s: Option<Schema>, r: Value, k: string)
    requires IsMap(o) && IsMap(p) && MergeObject(models, o, p, s).Merged? && r == MergeObject(models, o, p, s).value
    ensures r.Obj? && (k in r.fields <==> k in Fields(o) || k in Fields(p))
    ensures k in Fields(o) && k !in Fields(p) ==> r.fields[k] == Copied(Fields(o)[k])
    ensures k in Fields(p) && !IsList(Fields(p)[k]) && !(IsMap(Fields(p)[k]) && k in Fields(o) && IsMap(Fields(o)[k]))
            ==> r.fields[k] == Fields(p)[k]
  {
    MergedLevel(models, o, p, s, k);
    if k in Fields(o) {
      CopiedShape(Fields(o)[k]);
    }
  }

  /** A path that leaves the patch has exactly what the copied original has there, value or absence. */
  lemma UnpatchedPaths(models: Models, original: Value, patch: Value, schema: Option<Schema>,
                       path: seq<string>, k: string, rest: seq<string>)
    requires MergesAlong(models, original, patch, schema, path)
    requires MergeObject(models, original, patch, schema).Merged?
    requires At(patch, path + [k]).None?
    ensures At(MergeObject(models, original, patch, schema).value, path + [k] + rest)
         == At(Copied(original), path + [k] + rest)
  {
    var o, p, s := MergeReaches(models, original, patch, schema, path);
    var there := MergeObject(models, o, p, s).value;
    MergedField(models, o, p, s, there, k);
    AtKey(patch, path, p, k, rest);
    AtKey(MergeObject(models, original, patch, schema).value, path, there, k, rest);
    AtKey(Copied(original), path, Copied(o), k, rest);
    CopiedShape(o);
  }

  /** Copying an object copies what is at each of its paths. */
  lemma {:induction false} CopiedAt(v: Value, path: seq<string>)
    ensures At(Copied(v), path) == match At(v, path) case None => None case Some(w) => Some(Copied(w))
  {
    CopiedShape(v);
    if path != [] && IsMap(v) && path[0] in Fields(v) {
      CopiedAt(Fields(v)[path[0]], path[1..]);
    }
  }

  /** Exactly what survives on the paths that leave the patch: absence always, and a value when it has no empty
      list buried in a list of lists. */
  lemma UnpatchedPathsExactly(models: Models, original: Value, patch: Value, schema: Option<Schema>,
                              path: seq<string>, k: string, rest: seq<string>)
    requires MergesAlong(models, original, patch, schema, path)
    requires MergeObject(models, original, patch, schema).Merged?
    requires At(patch, path + [k]).None?
    ensures var before := At(original, path + [k] + rest);
            var after := At(MergeObject(models, original, patch, schema).value, path + [k] + rest);
            && (before.None? <==> after.None?)
            && (before.Some? && IsJson(before.value) ==> (after == before <==> CopiesExactly(before.value)))
  {
    UnpatchedPaths(models, original, patch, schema, path, k, rest);
    CopiedAt(original, path + [k] + rest);
    var before := At(original, path + [k] + rest);
    if before.Some? && IsJson(before.value) {
      CopyIsExact(before.value);
    }
  }

  lemma AtOne(v: Value, k: string)
    ensures At(v, [k]) == if IsMap(v) && k in Fields(v) then Some(Fields(v)[k]) else None
  {
    assert [k][1..] == [];
  }

  const TWO_FIELDS: Schema := Kind(map[], map["a" := Array(map[], None), "b" := Primitive(map[])])

  /** {"b": null} merged into {"a": [[]]}: the patch does not mention a, and a has changed. */
  lemma UntouchedFieldChanges()
    ensures var original, patch := Obj(map["a" := List([List([])])]), Obj(map["b" := Null]);
            var r := MergeObject(map[], original, patch, Some(TWO_FIELDS));
            && IsJson(original) && At(patch, ["a"]).None?
            && r.Merged? && r.errors == multiset{} && At(r.value, ["a"]) == Some(List([NilList])) != At(original, ["a"])
  {
    var original, patch := Obj(map["a" := List([List([])])]), Obj(map["b" := Null]);
    CopyLosesNestedEmptyList();
    SingleKey(map[], original, patch, TWO_FIELDS, "b", Merged(Null, multiset{}));
    var r := MergeObject(map[], original, patch, Some(TWO_FIELDS)).value;
    AtOne(r, "a");
    AtOne(original, "a");
    AtOne(patch, "a");
    assert [NilList] != [List([])];
  }
}
