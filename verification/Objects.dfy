/** What identifies a Kubernetes object held as dynamic values. */
module Objects {
  import opened Options
  import opened Strings
  import opened GoValues

  /** An object is a map. */
  type Object = v: Value | IsMap(v) witness Obj(map[])

  datatype GroupVersionKind = GroupVersionKind(group: string, version: string, kind: string)

  /** GetObjectGVK: the triple, its error for a missing field, or the panic of a failed type assertion. */
  datatype GVKResult = GVK(gvk: GroupVersionKind) | GVKMissing | GVKPanic

  function FieldOf(m: Value, key: string): Option<Value>
    requires IsMap(m)
  {
    if key in Fields(m) then Some(Fields(m)[key]) else None
  }

  function GVKOf(obj: Object): GVKResult {
    var apiVersion := FieldOf(obj, "apiVersion");
    if apiVersion.None? then GVKMissing
    else if !apiVersion.value.Str? then GVKPanic else
    var parts := Split(apiVersion.value.s, '/');
    var kind := FieldOf(obj, "kind");
    if kind.None? then GVKMissing
    else if !kind.value.Str? then GVKPanic
    else if |parts| == 2 then GVK(GroupVersionKind(parts[0], parts[1], kind.value.s))
    else GVK(GroupVersionKind("", parts[0], kind.value.s))
  }

  datatype Identity = Identity(namespace: string, name: string)

  /** GetObjectBasicData, as far as the registries use it: the identity, one of its two errors, or a panic. */
  datatype BasicData = Data(identity: Identity) | NoMetadata | NoGroupVersionKind | Panic

  function BasicDataOf(obj: Object): BasicData {
    var metadata := FieldOf(obj, "metadata");
    if metadata.None? || !IsMap(metadata.value) then NoMetadata else
    match GVKOf(obj)
    case GVKMissing => NoGroupVersionKind
    case GVKPanic => Panic
    case GVK(_) =>
      var name, namespace := FieldOf(metadata.value, "name"), FieldOf(metadata.value, "namespace");
      if (name.Some? && !name.value.Str?) || (namespace.Some? && !namespace.value.Str?) then Panic
      else Data(Identity(if namespace.Some? then namespace.value.s else "", if name.Some? then name.value.s else ""))
  }

  predicate HasIdentity(obj: Object) {
    BasicDataOf(obj).Data?
  }

  function IdentityOf(obj: Object): Identity
    requires HasIdentity(obj)
  {
    BasicDataOf(obj).identity
  }
}
