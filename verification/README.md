# Admitik: a verified model of its merge engine, registries and admission folds

Admitik is a policy engine for Kubernetes. This project models, in Dafny 4.11, the parts of it that carry
state or recursion, and proves what they compute:

- **The strategic merge engine** (`GoValues`, `MergeSchema`, `MergeEngine`, `Strategies`, `KeyOrder`, `KeyedLists`,
  `ShownKeys`, `MergeMeaning`, `Idempotence`, `CleanMerges`, `Rereading`, `RereadKeys`, `StrategicPatch`). JSON objects are merged under an OpenAPI schema that may refer to itself. A
  ghost specification, `MergeObject`, says what a merge yields without an order of keys; the methods with the
  source's loops take the keys in any order and are proved to implement it. `KeyOrder` makes the order explicit and
  shows how far it can be seen. Both recursions end for every environment of models, cyclic ones included, because
  every recursive call gets a strictly smaller patch.
- **The policy index** (`Policies`, `PolicyStore`, `Reconcilers`, `WebhookRules`, `RunMeaning`). A class holds the
  collections; the three reconcilers update it step by step; over every run it is the index recomputed from the live
  manifests. `RunMeaning` says what a run leaves behind on the fields of the manifests that were reconciled.
- **The sources cache and inline expressions** (`Objects`, `Identities`, `SourcesRegistry`, `PolicySources`,
  `CelTemplate`).
- **The admission handlers** (`Admission`), from the decoded review to the response, and `Verdicts`, from a run of
  reconciles to the answer that a request gets.

`Basics` holds options, watch events, sorting and strings. `dafny verify dfyconfig.toml` checks everything.

Template evaluation (CEL, Go templates, Starlark), regular-expression matching inside filters, the JSON Merge Patch
and JSON Patch engines, the JSON diff and case folding are parameters, given as function values; a contract is
assumed only for the diff (`Admission.DiffLeads`), and only where a lemma says so.

## What the proofs found

These are places where the code does less than its comments or its purpose suggest, each with a lemma at a concrete
input and, where the failure has a condition, the exact condition.

- *The order of keys can decide between an error and a panic.* A patch can meet both an unknown field and a container
  in a list merged by value; the first key taken decides, so the handler either goes on with the next policy or the
  request dies (`OrderDecidesPanic`). `ClassExactly` says for which merges; `EveryEnd` says that nothing else depends
  on the order, except which of several errors is reported. A patch that conforms to its schema never meets an error,
  and panics exactly when the original does not fit it (`ConformingNeverFatal`).
- *A merge is not always repeatable.* A list merged by key to which nothing is appended is returned as a nil slice,
  so an empty list under a merge key turns into `null`. A patch such as `{"spec": {"containers": []}}` is inserted
  raw the first time and changed the second time (`EmptyKeyedListNotRepeatable`). `RepeatsExactly` gives the exact
  condition on the patch for a value that stays in memory. Between two policies of the handler the document is written
  as JSON and read again: over all documents that the copy does not change, the same condition on the patch is exact
  there too (`RepeatsRereadExactly`).
- *An item can get another key when it is read back.* The composite key is what `%v` prints, and a copied `[[]]` is
  printed as `[[]]` but read back as `[null]`, printed `[<nil>]`. An item with such a key field is kept by the first
  policy and overwritten by the next one with the same patch (`ItemStrays`). For any original that merges, a repeatable
  patch writes the same document again if and only if no item that it meets strays in this way
  (`RewritesAlikeExactly`); an item whose merge-key fields are scalars never does (`ScalarKeysNeverStray`).
- *The deep copy loses nested empty lists.* gob returns an empty list as a nil one, and `SanitizeNils` does not enter
  lists inside lists, although its comment says that it replaces nil slices recursively: `{"a": [[]]}` is serialized
  as `{"a": [null]}` (`CopyLosesNestedEmptyList`), also by a merge that does not mention `a`
  (`UntouchedFieldChanges`). `CopyIsExact` and `UnpatchedPathsExactly` give the exact condition.
- *Composite keys can collide.* `"a:"`, `"b"` and `"a"`, `":b"` join to the same key (`KeysCollide`). Two tuples share
  their key if and only if they are read the same when every separator is taken as early as it can be
  (`SameKeyExactly`); for text without a colon that is equality in every key field (`PlainKeysExactly`). A tuple shares
  its key with no other exactly when no part contains `::` and no colon stands next to a separator, or it has at most
  one part (`UnsharedExactly`). Two numbers, or two booleans, are told apart (`ScalarKeysExactly`), but the kinds are
  not: 80 and `"80"`, or true and `"true"`, are one key (`KindsShareKeys`).
- *Expression results can be replaced again.* If one expression evaluates to text that contains another match, the
  loop replaces that text instead of the match, so two results can change places (`TwoExpressionsConfused`). `AgreesForEveryEvaluator` gives the exact
  condition on the input, `LoopIsSubstitution` a condition on the output.
- *One subresource blocks all rules.* A single live policy with a `/` in a group, version or resource makes rule
  building fail for every policy (`SubresourceBlocksRules`, exactly when in `RulesAfterRun`); a run of one event on
  `pods/exec` is such a run (`ExecRun`).
- *One unreadable object blocks removals.* Removing an object fails exactly when it has no readable identity itself
  or an object without one comes before it in the pool (`FailsExactly`, `DeletionBlocked`), and such an object is never taken out again
  (`UnreadableStays`). The objects of a Kubernetes watch carry kind, version and metadata, so this needs a source that
  delivers something else; the registry itself does not check what it adds.
- *Partial merges are discarded.* A merge that reports one partial error is not used at all by the mutation handler
  (`PartialMergeDiscarded`), although the engine documents it as a completed operation. For a conforming patch that is
  so exactly when some item of a list that it merges by key has no key, at any depth that the merge reaches
  (`ClearExactly`); `AnsweredExactly` tells panic, error and patched object apart before the merge.
- *A review without an object is denied.* Validation denies it whatever the policies, even without any, which covers
  deletions, whose reviews carry no object (`DeletionDenied`).

## Model

| member | source | states |
|---|---|---|
| GoValues.SanitizeNils | internal/strategicmerge/utils.go:45-85 | the in-place rewrite ends on every tree and leaves at each field and item position what `Sanitized` and `SanitizedItem` say |
| GoValues.SanitizeItems | internal/strategicmerge/utils.go:69-82 | the loop over one list rewrites its non-nil maps and keeps every other element |
| GoValues.SanitizedHasNoNilFields | internal/strategicmerge/utils.go:45-85 | afterwards no nil list or map is left in any field reachable through objects and lists of objects |
| GoValues.SanitizedIsNoOp | internal/strategicmerge/utils.go:45-85 | the rewrite is the identity if and only if there was no such nil, so a second run changes nothing |
| GoValues.OnlyNilnessChanges | internal/strategicmerge/utils.go:14-85 | neither the rewrite nor the copy changes anything but the nil-ness of containers |
| GoValues.CopyAndSanitize | internal/strategicmerge/strategicmerge.go:530-535 | the fields every merge starts from |
| GoValues.CopiedTwice | internal/strategicmerge/strategicmerge.go:530-535 | copying and rewriting again changes nothing |
| GoValues.CopyIsExact | internal/strategicmerge/utils.go:14-85 | a JSON value survives copy and rewrite unchanged if and only if no empty list is buried in a list inside a list |
| GoValues.CopyLosesNestedEmptyList | internal/strategicmerge/utils.go:45-85 | the smallest object that does not survive |
| Strategies.MapTypeFirst | internal/strategicmerge/strategicmerge.go:284-295 | map type granular: objects are merged key by key and lists by value; atomic: whatever the original holds, the patch is taken as it is |
| Strategies.ListTypeNext | internal/strategicmerge/strategicmerge.go:297-330 | where no map type decides, list type set: the ordered union; atomic: the patch; map: the merge by exactly the texts among the list map keys, in their order, or the patch if there is none |
| Strategies.PatchStrategyNext | internal/strategicmerge/strategicmerge.go:332-343 | where neither decides, a patch strategy that contains "merge": the merge by its merge key, or by value without one |
| Strategies.OtherwiseByShape | internal/strategicmerge/strategicmerge.go:345-361 | where nothing decides, maps and kinds are merged and anything else, or a field without a schema, is taken as it is |
| Strategies.ReplacedExactly | internal/strategicmerge/strategicmerge.go:276-361 | a field is taken as it is whatever the original holds, both for lists and for objects that meet objects, if and only if its extensions and shape say so in that order of precedence |
| Strategies.LevelExactly | internal/strategicmerge/strategicmerge.go:520-624 | one level of a merge in terms of the schema's own fields: which keys are unknown or refer to no model, under which schema every other key is merged, and how their outcomes make up the object's |
| Strategies.NoSchemaNoMerge | internal/strategicmerge/strategicmerge.go:170-191 | without a schema, or with a reference to no model, there is only the error |
| MergeEngine.GenerateCompositeKey | internal/strategicmerge/strategicmerge.go:363-380 | the loop yields the joined key, or names the first missing key field |
| MergeEngine.MergeScalarList | internal/strategicmerge/strategicmerge.go:382-404 | the two loops yield the scalar union, or panic exactly when an item is a container |
| MergeEngine.BuildPatchIndex | internal/strategicmerge/strategicmerge.go:427-446 | the first loop of mergeLists yields the patch index or the first fatal key error |
| MergeEngine.KeyOf | internal/strategicmerge/strategicmerge.go:453-475 | the three checks on an original item, and the partial error of each |
| MergeEngine.MergeKeyedItems | internal/strategicmerge/strategicmerge.go:448-516 | the loops over original and new items implement the specification, errors as a multiset |
| MergeEngine.SortedNewKeys | internal/strategicmerge/strategicmerge.go:499-506 | however the remaining keys are enumerated, they come out in the one ascending order |
| MergeEngine.MergeLists | internal/strategicmerge/strategicmerge.go:406-517 | list merging implements the specification for every strategy |
| MergeEngine.MergeFieldValue | internal/strategicmerge/strategicmerge.go:566-617 | the switch over map, list and anything else implements the specification of a field |
| MergeEngine.StrategicMerge | internal/strategicmerge/strategicmerge.go:519-625 | whichever order the keys of the patch are taken in at every level: the result and the multiset of partial errors of the order-free `MergeObject`, or one of the errors or the panic that it lists; ends on cyclic schemas |
| KeyOrder.EveryEnd | internal/strategicmerge/strategicmerge.go:542-624 | over all orders at all levels: one object and one multiset of partial errors, or else exactly the specified causes, each met under some order |
| KeyOrder.ClassExactly | internal/strategicmerge/strategicmerge.go:542-624 | result, returned error or panic is the same for every order if and only if the merge succeeds, cannot panic, or can do nothing but panic |
| KeyOrder.OrderDecidesPanic | internal/strategicmerge/strategicmerge.go:542-558 | a concrete patch whose order of keys decides between an error and a panic |
| MergeEngine.MergedLevel | internal/strategicmerge/strategicmerge.go:537-618 | a successful merge has the keys of both sides, each patch key holding its own merge and any other key the copied original |
| KeyedLists.ScalarUnionMeaning | internal/strategicmerge/strategicmerge.go:382-404 | the scalar union has no repeats, exactly the members of both lists, in order of first occurrence |
| KeyedLists.OrderedUniqueDetermines | internal/strategicmerge/strategicmerge.go:382-404 | that description determines the list |
| KeyedLists.ScalarUnionLaws | internal/strategicmerge/strategicmerge.go:382-404 | the scalar union is associative and absorbs its second argument |
| KeyedLists.SameKeyExactly | internal/strategicmerge/strategicmerge.go:363-380 | for all tuples: the composite keys are equal if and only if the two are read the same with every separator taken as early as it can be |
| KeyedLists.NormalKeepsKey | internal/strategicmerge/strategicmerge.go:378-379 | reading a tuple that way keeps its key and leaves no separator beginning inside a part but the last |
| KeyedLists.NormalIsItself | internal/strategicmerge/strategicmerge.go:378-379 | and changes nothing if and only if none began there |
| KeyedLists.UnsharedExactly | internal/strategicmerge/strategicmerge.go:363-380 | no other tuple has the key of a given one if and only if it has at most one part, or none holds a separator or has a colon beside one |
| KeyedLists.PlainKeysExactly | internal/strategicmerge/strategicmerge.go:363-380 | for items whose key fields are text without a colon: the same key if and only if the same value in every key field |
| ShownKeys.ScalarKeysExactly | internal/strategicmerge/strategicmerge.go:363-380 | for scalar key fields printed without a colon: the same key if and only if every key field prints the same, which for fields of one kind (number, text, boolean, null) means that they are equal |
| ShownKeys.KindsShareKeys | internal/strategicmerge/strategicmerge.go:374 | a number and the text of its digits share a key, and so do true, false and null with the texts that they print as |
| ShownKeys.NumberIndex | internal/strategicmerge/strategicmerge.go:427-446 | merged by one number field, the index has one entry for each different number of the patch list, the last item with it |
| ShownKeys.NumbersKept | internal/strategicmerge/strategicmerge.go:427-446 | so no item is lost when the numbers differ |
| ShownKeys.ListPrints | internal/strategicmerge/strategicmerge.go:374 | a list prints its items in brackets, separated by spaces |
| ShownKeys.ObjectPrints | internal/strategicmerge/strategicmerge.go:374 | an object prints its fields by ascending key as key:value |
| KeyedLists.KeysCollide | internal/strategicmerge/strategicmerge.go:378-379 | two concrete items with different key fields and the same key |
| KeyedLists.PatchIndexMeaning | internal/strategicmerge/strategicmerge.go:427-446 | indexing fails if and only if some object has no usable key; else each key holds its last object |
| KeyedLists.MergeItemsExact | internal/strategicmerge/strategicmerge.go:451-497 | item i stays at index i, merged exactly when its key is in the index and no earlier item has it; the unused entries are exactly the others |
| KeyedLists.CleanExactly | internal/strategicmerge/strategicmerge.go:455-487 | no partial error if and only if every original item has a key and merges cleanly |
| KeyedLists.KeyedListConserves | internal/strategicmerge/strategicmerge.go:448-514 | whenever a list results, with partial errors and repeated keys too: the originals in place, then the new entries by ascending key |
| KeyedLists.EachEntryUsedOnce | internal/strategicmerge/strategicmerge.go:477-510 | every patch key has exactly one position in the result |
| KeyedLists.MergeKeepsKey | internal/strategicmerge/strategicmerge.go:477-492 | a merge by scalar keys keeps the composite key |
| KeyedLists.ResultKeysInOrder | internal/strategicmerge/strategicmerge.go:448-514 | keys stay unique: the original's order, then the new keys ascending |
| KeyedLists.KeyedListIsMapUnion | internal/strategicmerge/strategicmerge.go:406-517 | the keyed merge is the union of finite maps, merging recursively what both sides have |
| MergeMeaning.MergeReaches | internal/strategicmerge/strategicmerge.go:566-585 | along a path of merged objects the result is the merge of what both sides hold there |
| MergeMeaning.PatchedFields | internal/strategicmerge/strategicmerge.go:566-617 | at such an object the keys are those of both sides, and a patch value that is no list and meets no object is there as it is, null included |
| MergeMeaning.UnpatchedPaths | internal/strategicmerge/strategicmerge.go:542-618 | a path that leaves the patch has exactly the copied original's value or absence |
| MergeMeaning.UnpatchedPathsExactly | internal/strategicmerge/strategicmerge.go:530-618 | against the original itself: absence is kept, and the value at such a path is kept if and only if no empty list is buried in a list of lists in it |
| MergeMeaning.UntouchedFieldChanges | internal/strategicmerge/strategicmerge.go:530-535 | a concrete merge that changes a field its patch does not mention |
| Idempotence.ConformingNeverFatal | internal/strategicmerge/strategicmerge.go:407-625 | a conforming patch gives a result if and only if every list that it meets and merges by value holds scalars only; otherwise it panics, and it never meets an error |
| Idempotence.SelfMerge | internal/strategicmerge/strategicmerge.go:407-625 | a conforming object merged with itself reports nothing and is itself if and only if no list merged by key in it is empty |
| Idempotence.RepeatedMerge | internal/strategicmerge/strategicmerge.go:407-625 | applying a repeatable patch to its own result, in memory, gives the same object and the same partial errors |
| Idempotence.RepeatsExactly | internal/strategicmerge/strategicmerge.go:407-625 | for all originals at once: a conforming patch can be repeated in memory without change if and only if no empty list merged by key lies below its top level, where it could be inserted raw |
| Idempotence.EmptyKeyedListNotRepeatable | internal/strategicmerge/strategicmerge.go:448-516 | a concrete patch and schema for which it cannot |
| Rereading.RepeatsRereadExactly | internal/server/admission/handler_mutation.go:293-339 | for a conforming JSON patch: over all originals that the copy keeps, merging it again into the document written and read back gives the same outcome if and only if it is repeatable |
| RereadKeys.RewritesAlikeExactly | internal/server/admission/handler_mutation.go:293-339 | for any original that merges with a repeatable JSON patch: the next policy writes the same document, with partial errors exactly if the first had some, if and only if in no list merged by key an unmatched item is read back as the first one with the key of an entry |
| RereadKeys.PlainReadsAlike | internal/strategicmerge/strategicmerge.go:451-497 | an original that the copy keeps has no such item |
| RereadKeys.ScalarKeysNeverStray | internal/strategicmerge/strategicmerge.go:363-380 | nor is a copied item one whose merge-key fields are scalars, whatever its other fields hold |
| RereadKeys.ItemStrays | internal/strategicmerge/strategicmerge.go:363-380 | a concrete original and repeatable patch that merge without an error and write another document the second time |
| CleanMerges.ClearExactly | internal/strategicmerge/strategicmerge.go:455-487 | a conforming patch that merges reports no partial error if and only if every original item of every list that it merges by key has a key, at every depth the merge reaches |
| StrategicPatch.GenerateStrategicMergePatch | internal/server/admission/handler_mutation.go:283-339 | the object of a merge without any partial error, else an error or a panic as the merge or an unreadable kind has it; a patch without a kind goes by that of the original |
| StrategicPatch.PartialMergeDiscarded | internal/server/admission/handler_mutation.go:328-332 | a concrete merge that succeeds with a partial error and is answered by an error |
| StrategicPatch.AnsweredExactly | internal/server/admission/handler_mutation.go:293-339 | for readable kinds and a conforming patch the answer is known from the inputs: a panic unless the original fits, else an error unless every item met by key has a key, else the merged object |
| CelTemplate.CutMeaning | internal/template/cel.go:28-31 | the matches of the pattern: leftmost, as short as possible, none left behind, captured text trimmed |
| CelTemplate.EvaluateAndReplaceCelExpressions | internal/template/cel.go:73-99 | the loop replaces, match by match, the first occurrence of its text |
| CelTemplate.BothFail | internal/template/cel.go:82-92 | it fails if and only if some expression does not evaluate |
| CelTemplate.LoopIsSubstitution | internal/template/cel.go:73-99 | for every input and evaluator it is the positional substitution if that contains no opening |
| CelTemplate.AgreesForEveryEvaluator | internal/template/cel.go:73-99 | for an input it is so whatever the evaluator returns if and only if there is at most one match |
| CelTemplate.TwoExpressionsConfused | internal/template/cel.go:73-99 | two expressions and an evaluator, all concrete, whose results come out in exchanged places |
| PolicyStore.PolicyStore.AddOrUpdateResource | internal/registry/policystore/manager.go:34-52 | the first policy of that name is replaced, or the policy appended; nothing else changes |
| PolicyStore.PolicyStore.RemoveResource | internal/registry/policystore/manager.go:54-75 | the first policy of that name is gone, and the collection with its last policy |
| PolicyStore.PolicyStore.GetResources | internal/registry/policystore/manager.go:77-88 | the collection, or an empty list |
| PolicyStore.PolicyStore.GetCollectionNames | internal/registry/policystore/manager.go:90-97 | each collection name once, in any order |
| PolicyStore.PolicyStore.GetReferencedSources | internal/registry/policystore/manager.go:99-131 | strictly ascending, and exactly the non-zero sources of the stored policies |
| PolicyStore.PolicyStore.SortCollection | internal/registry/policystore/manager.go:133-157 | one collection becomes a sorted permutation of itself |
| Reconcilers.RegisterType | internal/controller/clustermutationpolicy/sync.go:91-114 | one watched type of the first loop: removed, put in once, or skipped, and re-sorted |
| Reconcilers.RegisterIntercepted | internal/controller/clustermutationpolicy/sync.go:66-116 | the nested loops touch exactly the expanded desired types |
| Reconcilers.CleanUndesired | internal/controller/clustermutationpolicy/sync.go:118-124 | the manifest leaves every collection that is not desired, and only those |
| Reconcilers.ReconcileClusterMutationPolicy | internal/controller/clustermutationpolicy/sync.go:62-124 | one step of the registry, for every event type, which keeps every collection in ascending order of the priority fields |
| Reconcilers.ReconcileClusterValidationPolicy | internal/controller/clustervalidationpolicy/sync.go:62-119 | one step of the registry, in insertion order |
| Reconcilers.ReconcileClusterGenerationPolicy | internal/controller/clustergenerationpolicy/sync.go:39-87 | one step of the registry, for watched resources |
| Reconcilers.StepKeepsValid | internal/registry/policystore/manager.go:36-75 | a step keeps names unique and leaves no empty collection |
| Reconcilers.StepIndexes | internal/controller/clustermutationpolicy/sync.go:66-124 | a step takes the index of the live manifests to the index of the next ones, and keeps priority order |
| Reconcilers.RunIndexes | internal/controller/clustermutationpolicy/sync.go:62-124 | over every finite run: policy in collection if and only if desired, at its latest version, once |
| Reconcilers.RunByPriority | internal/controller/clustermutationpolicy/sync.go:111-114 | after every run of the mutation reconciler, a policy in front of another in any collection has a priority field that is not greater |
| RunMeaning.HeldAfterRun | internal/controller/clustermutationpolicy/sync.go:66-124 | after every run of any of the three: a collection holds exactly the manifests whose last event put them in and one of whose groups has, joined by slashes, its key, with a supported operation that it lists or covers by the wildcard (or the watched resource) |
| RunMeaning.FoundAfterRun | internal/server/admission/handler_validation.go:97-118 | the collection under a literal request's tuple holds exactly the manifests that stand and list the tuple |
| RunMeaning.ReferredAfterRun | internal/registry/policystore/manager.go:99-131 | the registry refers to a name if and only if a manifest that stands, and wants to be somewhere, has a source with that group, version and resource and some field that is not empty |
| Reconcilers.IndexDetermines | internal/registry/policystore/manager.go:36-75 | being the index determines the collections up to order |
| WebhookRules.BuildRules | internal/controller/clustermutationpolicy/sync.go:159-181 | builds if and only if every key splits in four; then rules and collections are in bijection |
| WebhookRules.SplitOfJoin | internal/controller/clustermutationpolicy/sync.go:84-89 | splitting a key recovers the slash-free parts that were joined |
| WebhookRules.JoinOfSplit | internal/controller/clustervalidationpolicy/sync.go:158-164 | joining recovers any key that was split |
| WebhookRules.RulesAfterRun | internal/controller/clustervalidationpolicy/sync.go:155-176 | after every run the rules can be built if and only if no live policy has a slash in a group, version or resource that counts |
| WebhookRules.SubresourceBlocksRules | internal/controller/clustermutationpolicy/sync.go:159-172 | while one concrete policy on a subresource is live, no rule can be built, whatever other policies there are |
| WebhookRules.ExecRun | internal/controller/clustermutationpolicy/sync.go:62-124 | a run of one event that makes that policy live |
| WebhookRules.LookupAfterRun | internal/server/admission/handler_validation.go:97-118 | after every run a literal request finds exactly the live policies that intercept its tuple, and some if and only if there is a collection, hence a rule, for it |
| WebhookRules.GetSourcesFromRegistries | internal/controller/sources/controller.go:105-120 | strictly ascending, and exactly the sources referred to from any of the three stores |
| WebhookRules.SourcesAfterRun | internal/registry/policystore/manager.go:99-131 | after every run these are the non-zero sources of the live manifests that want to be in some collection |
| Identities.KindExactly | internal/globals/utils.go:96-126 | the kind of an object: group and version around the slash, the version alone, or the first of more than two parts; the error and the panic exactly for what is missing or no text |
| Identities.IdentityExactly | internal/globals/utils.go:136-166 | an object with a kind has exactly the name and namespace of its metadata |
| SourcesRegistry.SourcesRegistry.RegisterInformer | internal/registry/sources/manager.go:32-43 | the type starts with an empty pool |
| SourcesRegistry.SourcesRegistry.GetResources | internal/registry/sources/pool.go:26-41 | the pool, or an empty list |
| SourcesRegistry.SourcesRegistry.AddResource | internal/registry/sources/pool.go:43-49 | the object is appended |
| SourcesRegistry.SourcesRegistry.RemoveResource | internal/registry/sources/pool.go:51-82 | the first object of that identity is gone, or the error and no change |
| SourcesRegistry.SourcesRegistry.ProcessEvent | internal/controller/sources/controller.go:292-317 | one event on one pool, with its error cases |
| SourcesRegistry.ProcessedAgrees | internal/controller/sources/controller.go:292-317 | an event that fits keeps the pool in agreement with the live objects and cannot fail |
| SourcesRegistry.RunAgrees | internal/controller/sources/controller.go:292-317 | after every well-formed history the pool holds each live object exactly once at its latest version |
| SourcesRegistry.RepeatedModified | internal/controller/sources/controller.go:306-314 | the same modification again changes nothing, not even the order |
| SourcesRegistry.FailsExactly | internal/registry/sources/pool.go:51-76 | an event fails if and only if it has to remove and its object, or one that the search meets before a match, has no readable identity |
| SourcesRegistry.UnreadableStays | internal/registry/sources/pool.go:51-82 | no event takes an object without readable identity out of a pool |
| SourcesRegistry.DeletionBlocked | internal/registry/sources/pool.go:58-76 | a concrete pool that keeps a deleted pod |
| PolicySources.FilterResources | internal/common/sources.go:125-159 | an error exactly when an expression does not compile; else, in order, exactly the resources with a metadata map whose name and namespace are in the list given, or without a list match the expression or, negated, do not, and whose labels and annotations hold the pairs expected |
| PolicySources.ResolvedExactly | internal/common/sources.go:76-123 | resolving filters gives exactly those with the expressions of every text replaced in its place and nothing else changed, or fails if there is none |
| PolicySources.FetchPolicySources | internal/common/sources.go:34-74 | per source index: the filtered pool, nothing when it is empty, or an empty list and an error |
| PolicySources.FetchedExactly | internal/common/sources.go:45-71 | what one source contributes, on the fields of its filters and of the objects in the pool named by its group, version and resource |
| PolicySources.FilteredOrder | internal/common/sources.go:150-158 | filtering keeps the order of the pool |
| PolicySources.EntriesAreLiveMatches | internal/common/sources.go:45-71 | with a pool in agreement, a source stores exactly the live objects that satisfy its filters, each once, in pool order |
| Admission.IsPassingConditions | internal/common/conditions.go:27-43 | true if and only if every condition evaluates to its value |
| Admission.HandleValidationRequest | internal/server/admission/handler_validation.go:71-184 | the verdict on the fields of the policies: the first with a condition that does not evaluate to its value, to be enforced, denies with its message; events for exactly the violated policies up to it |
| Admission.NormalizedExactly | internal/common/normalization.go:14-35 | the three normalized operations have exactly the names given, and any other name stands for itself |
| Admission.VerdictIsAnswer | internal/server/admission/handler_validation.go:109-184 | what is answered to a review that cannot be read, to one that some policy refuses, and to every other |
| Admission.EventsExactly | internal/server/admission/handler_validation.go:143-179 | the events, field by field and in order: one for each policy up to the first that refuses whose conditions are not met |
| Admission.DeniedExactly | internal/server/admission/handler_validation.go:112-184 | allowed if and only if the review can be read and no policy found for it is violated and enforced, whatever their order |
| Verdicts.DeniedAfterRun | internal/server/admission/handler_validation.go:97-184 | after every run of reconciles: a literal request that can be read is denied if and only if some live policy that intercepts its tuple is violated and enforced |
| Verdicts.DeniedByManifests | internal/server/admission/handler_validation.go:97-184 | the same on the fields of the manifests that were reconciled |
| Admission.Violated | internal/server/admission/handler_validation.go:148-174 | the message, the action and the tentative verdict of one violated policy |
| Admission.EventsAreTheViolated | internal/server/admission/handler_validation.go:143-174 | the events are those of the violated policies, in order, and of no other |
| Admission.HandleMutationRequest | internal/server/admission/handler_mutation.go:115-196 | the response holds, policy by policy, the diff to what the engine named by its type makes of the document that the ones before left; a policy whose template, engine or diff fails is reported and contributes nothing |
| Admission.MutatedExactly | internal/server/admission/handler_mutation.go:122-239 | the transcript of these rounds for every list of policies: documents, operations and reports |
| Admission.Replay | internal/server/admission/handler_mutation.go:122-188 | after every prefix of the policies the operations turn the request's object into the current one |
| Admission.WithoutIdle | internal/server/admission/handler_mutation.go:150-180 | a policy whose conditions, template, patch or diff fail changes nothing for the policies behind it |

## Left out

- MergeEngine.StrategicMerge: works on values, so it does not capture that the result shares raw inserted parts with the patch; and one merge sees one snapshot of the models, which the source refreshes every five seconds.
- MergeEngine.MergeScalarList: numbers are compared by the text that `%v` prints for them, so negative zero differs from zero.
- GoValues.SanitizeNils: works on values; the source applies it only to a copy that nothing else refers to.
- GoValues.CopyAndSanitize: gob itself is a function that returns an empty list as a nil list and a nil map as an empty one, and never fails on these values.
- KeyedLists.SameKeyExactly: compares tuples of one length, since a list has one set of merge keys.
- RereadKeys.RewritesAlikeExactly: compares the documents written and whether there are partial errors, not which ones; a patch that is not repeatable is covered by `RepeatsRereadExactly` only.
- CelTemplate.LoopIsSubstitution: one-way for a given evaluator, since a wrong replacement can by chance produce the right text; the if-and-only-if holds over all evaluators.
- WebhookRules.LookupAfterRun: literal names only; wildcards in group, version or resource are looked up as plain text.
- SourcesRegistry.SourcesRegistry.RemoveResource: a failed type assertion is an outcome like the two errors, not the end of the goroutine.
- Admission.HandleMutationRequest: the three patch engines are parameters; the strategic one is connected to the merge by `GenerateStrategicMergePatch`, and a panic inside an engine is not modelled.
- The Vars map that templates share between policies: an evaluation depends on the policy and the request only.
- Wholesale replacement of a stored policy object by a later re-read into the same pointer, and readers that hold a slice while a registry method shifts or sorts it.
- Launching, stopping and cleaning informers, which rests on sleeps and unlocked check-then-act.
- HTTP, TLS, certificates, flags, Kubernetes clients, OpenAPI discovery, webhook configuration objects other than their rules, event creation, status conditions and finalizers.
- The base name of a schema reference is taken as given; path handling of reference strings is not modelled.
- Generated deep copies, custom resource definitions, charts, samples and end-to-end tests.
