/** The policy manifests, as far as the registries and the admission handlers look at them. */
module Policies {
  import opened Options
  import opened Strings

  datatype Regex = Regex(negative: bool, expression: string)

  datatype TextFilter = TextFilter(matchList: seq<string>, matchRegex: Option<Regex>)

  datatype MetadataFilter = MetadataFilter(labels: map<string, string>, annotations: map<string, string>)

  datatype Filters = Filters(namespace: Option<TextFilter>, name: Option<TextFilter>, metadata: Option<MetadataFilter>)

  datatype SourceGroup = SourceGroup(group: string, version: string, resource: string, filters: Option<Filters>)

  datatype AdmissionGroup = AdmissionGroup(group: string, version: string, resource: string, operations: seq<string>)

  datatype WatchGroup = WatchGroup(group: string, version: string, resource: string, namespace: string, name: string)

  datatype Condition = Condition(name: string, engine: string, key: string, value: string)

  datatype Template = Template(engine: string, text: string)

  datatype Policy =
    | Mutation(name: string, sources: seq<SourceGroup>, conditions: seq<Condition>,
               intercepted: seq<AdmissionGroup>, priority: int, patchType: string, patch: Template)
    | Validation(name: string, sources: seq<SourceGroup>, conditions: seq<Condition>,
                 intercepted: seq<AdmissionGroup>, failureAction: string, message: Template)
    | Generation(name: string, sources: seq<SourceGroup>, conditions: seq<Condition>, watched: seq<WatchGroup>)

  /** A source entry whose every field is empty. */
  predicate IsZero(source: SourceGroup) {
    source == SourceGroup("", "", "", None)
  }

  function SourceName(source: SourceGroup): string {
    Join([source.group, source.version, source.resource], "/")
  }

  const OPERATION_ALL := "*"
  const OPERATIONS: seq<string> := ["CREATE", "UPDATE", "DELETE", "CONNECT"]

  /** The operations of a group once its wildcard is replaced. */
  function Expanded(operations: seq<string>): seq<string> {
    if OPERATION_ALL in operations then OPERATIONS else operations
  }

  function AdmissionKey(group: string, version: string, resource: string, operation: string): string {
    Join([group, version, resource, operation], "/")
  }

  function WatchKey(w: WatchGroup): string {
    Join([w.group, w.version, w.resource, w.namespace, w.name], "/")
  }

  /** The group asks for this collection, with one of the supported operations. */
  predicate Asks(group: AdmissionGroup, key: string) {
    exists i :: 0 <= i < |Expanded(group.operations)| && Expanded(group.operations)[i] in OPERATIONS
                && key == AdmissionKey(group.group, group.version, group.resource, Expanded(group.operations)[i])
  }

  /** The collections a manifest wants to be in. */
  ghost predicate Desires(p: Policy, key: string) {
    match p
    case Generation(_, _, _, watched) => exists i :: 0 <= i < |watched| && key == WatchKey(watched[i])
    case _ => exists i :: 0 <= i < |p.intercepted| && Asks(p.intercepted[i], key)
  }

  function Priority(p: Policy): int {
    if p.Mutation? then p.priority else 0
  }

  predicate BeforeByPriority(a: Policy, b: Policy) {
    Priority(a) < Priority(b)
  }
}
