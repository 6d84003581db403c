/** What is read from an object as its kind and its identity. */
module Identities {
  import opened Objects
  import opened GoValues
  import opened Options
  import opened Strings
  import opened WebhookRules

  /** The group and the version of an API version: "group/version", or "version" alone; of anything longer, the first
      part is the version. */
  ghost predicate VersionParts(apiVersion: string, group: string, version: string) {
    || (SlashFree(group) && SlashFree(version) && apiVersion == group + "/" + version)
    || (group == "" && SlashFree(version) && apiVersion == version)
    || (group == "" && SlashFree(version) && Slashes(apiVersion) > 1 && version + "/" <= apiVersion)
  }

  /** The object has this kind. */
  ghost predicate HasKind(obj: Object, group: string, version: string, kind: string) {
    && "apiVersion" in Fields(obj) && "kind" in Fields(obj) && Fields(obj)["kind"] == Str(kind)
    && Fields(obj)["apiVersion"].Str? && VersionParts(Fields(obj)["apiVersion"].s, group, version)
  }

  lemma PartsExactly(apiVersion: string, group: string, version: string)
    ensures var parts := Split(apiVersion, '/');
            VersionParts(apiVersion, group, version) <==>
            if |parts| == 2 then group == parts[0] && version == parts[1] else group == "" && version == parts[0]
  {
    var parts := Split(apiVersion, '/');
    JoinOfSplit(apiVersion);
    SplitCount(apiVersion);
    if |parts| == 2 {
      assert Join(parts, "/") == parts[0] + "/" + parts[1];
    } else if |parts| > 2 {
      assert Join(parts, "/") == parts[0] + "/" + Join(parts[1..], "/");
      assert parts[0] + "/" <= apiVersion;
    }
    if VersionParts(apiVersion, group, version) {
      PartsAre(apiVersion, group, version);
    }
  }

  lemma PartsAre(apiVersion: string, group: string, version: string)
    requires VersionParts(apiVersion, group, version)
    ensures var parts := Split(apiVersion, '/');
            if |parts| == 2 then group == parts[0] && version == parts[1] else group == "" && version == parts[0]
  {
    SplitCount(apiVersion);
    if SlashFree(group) && SlashFree(version) && apiVersion == group + "/" + version {
      SplitFront(group, version);
      SplitNone(version, '/');
    } else if apiVersion == version {
      SplitNone(version, '/');
    } else {
      var rest := apiVersion[|version| + 1..];
      assert apiVersion == version + "/" + rest;
      SplitFront(version, rest);
    }
  }

  /** The kind is read exactly as the object has it; a missing field is an error, one that is no text a panic. */
  lemma KindExactly(obj: Object, group: string, version: string, kind: string)
    ensures GVKOf(obj) == GVK(GroupVersionKind(group, version, kind)) <==> HasKind(obj, group, version, kind)
    ensures GVKOf(obj).GVKMissing? <==>
              || "apiVersion" !in Fields(obj)
              || (Fields(obj)["apiVersion"].Str? && "kind" !in Fields(obj))
    ensures GVKOf(obj).GVKPanic? <==>
              && "apiVersion" in Fields(obj)
              && (!Fields(obj)["apiVersion"].Str? || ("kind" in Fields(obj) && !Fields(obj)["kind"].Str?))
  {
    if "apiVersion" in Fields(obj) && Fields(obj)["apiVersion"].Str? {
      PartsExactly(Fields(obj)["apiVersion"].s, group, version);
    }
  }

  /** The text under a key, or the empty text when there is none. */
  ghost predicate TextIs(fields: map<string, Value>, key: string, text: string) {
    if key in fields then fields[key] == Str(text) else text == ""
  }

  /** An object has the identity that its metadata gives it, if it has a kind. */
  lemma IdentityExactly(obj: Object, namespace: string, name: string)
    ensures HasIdentity(obj) && IdentityOf(obj) == Identity(namespace, name) <==>
              && GVKOf(obj).GVK?
              && "metadata" in Fields(obj) && IsMap(Fields(obj)["metadata"])
              && TextIs(Fields(Fields(obj)["metadata"]), "namespace", namespace)
              && TextIs(Fields(Fields(obj)["metadata"]), "name", name)
  {
  }
}
