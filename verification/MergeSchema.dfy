/** The OpenAPI schemas that drive a merge, and the choice of strategy for a field. */
module MergeSchema {
  import opened Options
  import opened Strings

  /** The dynamic value of a vendor extension. */
  datatype Extension = Text(text: string) | Texts(elements: seq<Extension>) | Other

  type Extensions = map<string, Extension>

  /** proto.Schema. A reference carries the base name of the model it points to. */
  datatype Schema =
    | Kind(extensions: Extensions, fields: map<string, Schema>)
    | Map(extensions: Extensions, subType: Option<Schema>)
    | Array(extensions: Extensions, subType: Option<Schema>)
    | Primitive(extensions: Extensions)
    | Arbitrary(extensions: Extensions)
    | Ref(extensions: Extensions, model: string)

  /** The models by name. They may refer to each other, and to themselves, in cycles. */
  type Models = map<string, Schema>

  const EXT_MAP_TYPE := "x-kubernetes-map-type"
  const EXT_LIST_TYPE := "x-kubernetes-list-type"
  const EXT_LIST_MAP_KEYS := "x-kubernetes-list-map-keys"
  const EXT_PATCH_STRATEGY := "x-kubernetes-patch-strategy"
  const EXT_PATCH_MERGE_KEY := "x-kubernetes-patch-merge-key"

  /** schemaPatchStrategyInfo: replace, or merge by these keys (by whole value when there are none). */
  datatype PatchStrategy = Replace | MergeBy(keys: seq<string>)

  function TextOf(extensions: Extensions, name: string): Option<string> {
    if name in extensions && extensions[name].Text? then Some(extensions[name].text) else None
  }

  /** The string elements of a list of merge keys; anything else in it is skipped. */
  function TextsOf(elements: seq<Extension>): seq<string> {
    if elements == [] then []
    else (if elements[0].Text? then [elements[0].text] else []) + TextsOf(elements[1..])
  }

  function ListMapKeys(extensions: Extensions): seq<string> {
    if EXT_LIST_MAP_KEYS in extensions && extensions[EXT_LIST_MAP_KEYS].Texts?
    then TextsOf(extensions[EXT_LIST_MAP_KEYS].elements)
    else []
  }

  /** getPatchStrategyFromSchema */
  function StrategyOf(schema: Option<Schema>): PatchStrategy {
    if schema.None? then Replace else
    var extensions := schema.value.extensions;
    var mapType := TextOf(extensions, EXT_MAP_TYPE);
    var listType := TextOf(extensions, EXT_LIST_TYPE);
    if mapType == Some("granular") then MergeBy([])
    else if mapType == Some("atomic") then Replace
    else if listType == Some("map") then
      var keys := ListMapKeys(extensions);
      if keys != [] then MergeBy(keys) else Replace
    else if listType == Some("set") then MergeBy([])
    else if listType == Some("atomic") then Replace
    else
      var strategy := TextOf(extensions, EXT_PATCH_STRATEGY);
      if strategy.Some? && Contains(strategy.value, "merge") then
        var key := TextOf(extensions, EXT_PATCH_MERGE_KEY);
        if key.Some? then MergeBy([key.value]) else MergeBy([])
      else if schema.value.Map? || schema.value.Kind? then MergeBy([])
      else Replace
  }

  /** resolveSchemaReference: one level of dereference; None is its error. */
  function Resolve(models: Models, schema: Option<Schema>): Option<Schema> {
    if schema.None? then None
    else if !schema.value.Ref? then schema
    else if schema.value.model in models then Some(models[schema.value.model])
    else None
  }

  /** What the loop of a merge finds for a key: a fatal error, or the schema of the field, which is
      absent when the object's own schema is not a Kind. */
  datatype FieldLookup = Unknown | Unresolved | Known(schema: Option<Schema>)

  function FieldSchema(models: Models, schema: Schema, key: string): FieldLookup {
    if !schema.Kind? then Known(None)
    else if key !in schema.fields then Unknown
    else
      var resolved := Resolve(models, Some(schema.fields[key]));
      if resolved.None? then Unresolved else Known(resolved)
  }

  /** The schema of the items of a list field. */
  function ItemSchema(listSchema: Option<Schema>): Option<Schema> {
    if listSchema.Some? && listSchema.value.Array? then listSchema.value.subType else None
  }
}
