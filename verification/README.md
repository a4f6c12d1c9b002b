# ServerConformanceProvider (FHIR DSTU2, HAPI hl7org structures)

This project models `ServerConformanceProvider`, the provider a HAPI FHIR
RESTful server uses to describe itself. It answers two kinds of request:

- **`getServerConformance`** builds the server's Conformance statement from
  the method bindings the server has registered. A statement that was
  built once is handed out again while caching is on.
- **`readOperationDefinition`** answers a read of `OperationDefinition/<name>`.
  It merges every operation binding registered under that name into a single
  OperationDefinition.

The model is split into modules that follow the provider's own structure:

| module | file | what it holds |
|---|---|---|
| `Util` | `util.dfy` | `Option` and a three-way `Ordering` |
| `JavaStrings` | `java_strings.dfy` | the `java.lang.String` and `StringUtils` behaviour the provider relies on: `compareTo`, `indexOf`, `isBlank`, `Integer.toString` |
| `Collections` | `collections.dfy` | the behaviour of the Java collections the provider uses. `Collections.sort` becomes a stable insertion sort. TreeMap/TreeSet iteration becomes ascending key order. A `HashSet.add` guard becomes "first element per key" |
| `Fhir` | `fhir.dfy` | the parts of Conformance and OperationDefinition that the provider fills in, as records, plus the interaction code tables |
| `Bindings` | `bindings.dfy` | the registered method bindings, `collectMethodBindings` and `createOperationName` |
| `SearchParameters` | `search_parameters.dfy` | `handleSearchMethodBinding` and `sortSearchParameters` |
| `ConformanceBuilder` | `conformance_builder.dfy` | the body of `getServerConformance`: the per-binding steps, `checkBindingForSystemOps`, and the whole statement |
| `OperationIndex` | `operation_index.dfy` | `initializeOperations` (the two operation maps) and the merge performed by `readOperationDefinition` |
| `Provider` | `provider.dfy` | the provider object: its cache switch, the cached statement, the operation maps and its public methods |

The provider object is a Dafny `class` whose fields are the Java fields
`myCache`, `myConformance`, `myOperationBindingToName` and
`myOperationNameToBindings`. The loops of the source are methods with `while`
and `for` loops. Each method is proved against a specification function or a
ghost predicate:

- `ConformanceDescribes` says what statement the bindings produce.
- `IndexDescribes` says what the two operation maps hold.
- `DefinitionDescribes` says what definition a read returns.

The properties the provider promises are lemmas about those specifications.

## Model

Every source cell is in
`hapi-fhir-structures-hl7org-dstu2/src/main/java/org/hl7/fhir/dstu2/conf/ServerConformanceProvider.java`.

| member | source | states |
|---|---|---|
| `Bindings.Grouping` | hapi-fhir-structures-hl7org-dstu2/src/main/java/org/hl7/fhir/dstu2/conf/ServerConformanceProvider.java:132-151 | The grouping has a key exactly for each name that has at least one binding. Server bindings go under the empty name. Each key holds that name's bindings from every resource binding with the name, in registration order |
| `Bindings.AddBindings` | hapi-fhir-structures-hl7org-dstu2/src/main/java/org/hl7/fhir/dstu2/conf/ServerConformanceProvider.java:136-141 | Appends a binding list under a name. The name's list is created only when there is a first binding to add. Every other key is unchanged |
| `Bindings.CollectMethodBindings` | hapi-fhir-structures-hl7org-dstu2/src/main/java/org/hl7/fhir/dstu2/conf/ServerConformanceProvider.java:132-151 | The map the loops fill is exactly `Grouping` of the configuration |
| `Bindings.CreateOperationName` | hapi-fhir-structures-hl7org-dstu2/src/main/java/org/hl7/fhir/dstu2/conf/ServerConformanceProvider.java:153-155 | The operation name is the binding's name without its first character. Putting that character back gives the binding's name |
| `JavaStrings.CompareStrings` | hapi-fhir-structures-hl7org-dstu2/src/main/java/org/hl7/fhir/dstu2/conf/ServerConformanceProvider.java:540 | `compareTo` is EQ, LT or GT exactly when the strings are equal, lexicographically less or greater. `Less` is proved irreflexive, transitive and total |
| `JavaStrings.IntToStringRoundTrip` | hapi-fhir-structures-hl7org-dstu2/src/main/java/org/hl7/fhir/dstu2/conf/ServerConformanceProvider.java:480 | `Integer.toString` of any integer parses back to that integer |
| `SearchParameters.SearchParameterComparatorValid` | hapi-fhir-structures-hl7org-dstu2/src/main/java/org/hl7/fhir/dstu2/conf/ServerConformanceProvider.java:536-547 | The search-parameter comparator is a total preorder, so the sort is well defined |
| `SearchParameters.SortSearchParameters` | hapi-fhir-structures-hl7org-dstu2/src/main/java/org/hl7/fhir/dstu2/conf/ServerConformanceProvider.java:535-548 | The result is a permutation of the input. Required parameters come before optional ones. Within each group, names are in ascending order |
| `SearchParameters.SplitChain` | hapi-fhir-structures-hl7org-dstu2/src/main/java/org/hl7/fhir/dstu2/conf/ServerConformanceProvider.java:360-365 | A name without a `.` has no chain. Otherwise the name is the unchained part, a `.`, then the chain, and the unchained part has no `.` |
| `SearchParameters.SearchParamComponentOf` | hapi-fhir-structures-hl7org-dstu2/src/main/java/org/hl7/fhir/dstu2/conf/ServerConformanceProvider.java:356-388 | The component's name is the unchained name. Its chain is the text after the first `.`, or empty when that text is blank. A non-blank description is kept as the documentation. A blank one is replaced by the description the resource declares for the unchained name, and is kept when the resource declares no such parameter. The parameter type is copied |
| `SearchParameters.HandleSearchMethodBinding` | hapi-fhir-structures-hl7org-dstu2/src/main/java/org/hl7/fhir/dstu2/conf/ServerConformanceProvider.java:326-405 | The includes gain the binding's includes. The resource gains one component per search parameter, in sorted order. Nothing else in the resource changes |
| `Fhir.TypeInteractionFromCode` | hapi-fhir-structures-hl7org-dstu2/src/main/java/org/hl7/fhir/dstu2/conf/ServerConformanceProvider.java:216-223 | `fromCode` gives an interaction exactly when the code is that interaction's code. Any other code gives nothing, as the caught exception does |
| `Fhir.SystemInteractionFromCode` | hapi-fhir-structures-hl7org-dstu2/src/main/java/org/hl7/fhir/dstu2/conf/ServerConformanceProvider.java:113-120 | The same, for system interactions |
| `Fhir.InteractionComparatorValid` | hapi-fhir-structures-hl7org-dstu2/src/main/java/org/hl7/fhir/dstu2/conf/ServerConformanceProvider.java:274-287 | The interaction comparator is a total preorder. It orders by ordinal and puts missing codes last |
| `Fhir.SortInteractions` | hapi-fhir-structures-hl7org-dstu2/src/main/java/org/hl7/fhir/dstu2/conf/ServerConformanceProvider.java:272-288 | The sorted interactions are a permutation of the input, with missing codes last and codes in ascending ordinal |
| `Fhir.SortedInteractionsStrict` | hapi-fhir-structures-hl7org-dstu2/src/main/java/org/hl7/fhir/dstu2/conf/ServerConformanceProvider.java:272-288 | When no interaction appears twice, the sorted order is strictly ascending |
| `Collections.DistinctBy` | hapi-fhir-structures-hl7org-dstu2/src/main/java/org/hl7/fhir/dstu2/conf/ServerConformanceProvider.java:265-269 | The `HashSet.add` guard keeps one element per key: the same keys as the input, no key twice, only input elements. `DistinctByFirst` proves the kept element is the first one with its key |
| `Collections.DistinctByInOrder` | hapi-fhir-structures-hl7org-dstu2/src/main/java/org/hl7/fhir/dstu2/conf/ServerConformanceProvider.java:265-269 | The kept elements keep the input order. They are read off the input at increasing positions, each the first position of its key. Together with `DistinctBy`'s own contract, this fixes the result |
| `Collections.SortedElements` | hapi-fhir-structures-hl7org-dstu2/src/main/java/org/hl7/fhir/dstu2/conf/ServerConformanceProvider.java:292-294 | TreeSet and TreeMap iteration visits every element once, in strictly ascending order (`Ordered`) |
| `ConformanceBuilder.InteractionsOf` | hapi-fhir-structures-hl7org-dstu2/src/main/java/org/hl7/fhir/dstu2/conf/ServerConformanceProvider.java:215-236 | A binding declares an interaction exactly when its operation code is that interaction's code. `vread` also declares `read` |
| `ConformanceBuilder.InteractionsOfAllMembers` | hapi-fhir-structures-hl7org-dstu2/src/main/java/org/hl7/fhir/dstu2/conf/ServerConformanceProvider.java:215-236 | An interaction is declared for a resource exactly when one of its bindings declares it |
| `ConformanceBuilder.AnySetsConditionalSome` | hapi-fhir-structures-hl7org-dstu2/src/main/java/org/hl7/fhir/dstu2/conf/ServerConformanceProvider.java:238-252 | Conditional support for an interaction is switched on exactly when one of the resource's bindings switches it on |
| `ConformanceBuilder.SystemInteractionsMembers` | hapi-fhir-structures-hl7org-dstu2/src/main/java/org/hl7/fhir/dstu2/conf/ServerConformanceProvider.java:110-130 | A system interaction is named by the visited bindings exactly when some binding's code is that interaction |
| `ConformanceBuilder.OperationEntriesMembers` | hapi-fhir-structures-hl7org-dstu2/src/main/java/org/hl7/fhir/dstu2/conf/ServerConformanceProvider.java:262-270 | An entry is listed exactly when some visited operation binding gives it: the name the index gives the binding, or none, together with the binding's name |
| `ConformanceBuilder.RestOperationsOf` | hapi-fhir-structures-hl7org-dstu2/src/main/java/org/hl7/fhir/dstu2/conf/ServerConformanceProvider.java:267-268 | Each rest operation carries the binding's name and the reference `OperationDefinition/` followed by the operation name (`null` when there is none) |
| `ConformanceBuilder.CheckBindingForSystemOps` | hapi-fhir-structures-hl7org-dstu2/src/main/java/org/hl7/fhir/dstu2/conf/ServerConformanceProvider.java:110-130 | Keeps the invariant: the rest interactions are the distinct system interactions of the bindings visited so far, in first-seen order, and `systemOps` holds exactly those. A binding without a system interaction changes nothing |
| `ConformanceBuilder.AddOperation` | hapi-fhir-structures-hl7org-dstu2/src/main/java/org/hl7/fhir/dstu2/conf/ServerConformanceProvider.java:262-270 | Keeps the invariant: the rest operations are the first entry per operation name among the visited bindings, and `operationNames` holds exactly those names |
| `ConformanceBuilder.AddResourceInteractions` | hapi-fhir-structures-hl7org-dstu2/src/main/java/org/hl7/fhir/dstu2/conf/ServerConformanceProvider.java:215-255 | `resourceOps` gains the binding's interactions, and the interaction list still holds each of them once. Conditional create, update and delete are set when a conditional binding's code is create, update or delete. Every other field is unchanged |
| `ConformanceBuilder.DeclareInteraction` | hapi-fhir-structures-hl7org-dstu2/src/main/java/org/hl7/fhir/dstu2/conf/ServerConformanceProvider.java:224-235 | An interaction is appended only when it is not already in `resourceOps`. The list and the set keep mirroring each other |
| `ConformanceBuilder.SortKeepsInteractions` | hapi-fhir-structures-hl7org-dstu2/src/main/java/org/hl7/fhir/dstu2/conf/ServerConformanceProvider.java:272-288 | Sorting keeps the same set of interactions, still once each, and makes the list sorted |
| `ConformanceBuilder.VisitRestBinding` | hapi-fhir-structures-hl7org-dstu2/src/main/java/org/hl7/fhir/dstu2/conf/ServerConformanceProvider.java:257-270 | After one more binding, both rest invariants hold for the longer visited list. Resources are untouched |
| `ConformanceBuilder.HandleServerBindings` | hapi-fhir-structures-hl7org-dstu2/src/main/java/org/hl7/fhir/dstu2/conf/ServerConformanceProvider.java:295-306 | The server bindings extend the visited list and keep both rest invariants. No resource component is added |
| `ConformanceBuilder.UpdateResource` | hapi-fhir-structures-hl7org-dstu2/src/main/java/org/hl7/fhir/dstu2/conf/ServerConformanceProvider.java:214-290 | One binding extends the resource's invariant: its interactions, conditional flags, search parameters and includes are those of the bindings done so far |
| `ConformanceBuilder.AddSearchIncludes` | hapi-fhir-structures-hl7org-dstu2/src/main/java/org/hl7/fhir/dstu2/conf/ServerConformanceProvider.java:291-293 | The includes collected from the resource's bindings are emitted once each in ascending order, which completes `ResourceDescribes` |
| `ConformanceBuilder.BuildResource` | hapi-fhir-structures-hl7org-dstu2/src/main/java/org/hl7/fhir/dstu2/conf/ServerConformanceProvider.java:199-294 | The resource component is `ResourceDescribes` of its bindings. Its type is the name. Its interactions are the declared ones, sorted. Its flags are as above. Its search parameters are those of each search binding in turn. Its includes are sorted and distinct. The rest invariants are extended by the resource's bindings |
| `ConformanceBuilder.BuildConformance` | hapi-fhir-structures-hl7org-dstu2/src/main/java/org/hl7/fhir/dstu2/conf/ServerConformanceProvider.java:190-308 | The statement is `ConformanceDescribes` of the grouping: one resource per non-empty name, in key order; system interactions and operations over all bindings in visiting order |
| `ConformanceBuilder.VisitResourceNames` | hapi-fhir-structures-hl7org-dstu2/src/main/java/org/hl7/fhir/dstu2/conf/ServerConformanceProvider.java:196-306 | After the walk over the given keys, both rest invariants hold for all their bindings in key order, and there is one `ResourceDescribes` component per non-empty key, in key order |
| `ConformanceBuilder.VisitResourceName` | hapi-fhir-structures-hl7org-dstu2/src/main/java/org/hl7/fhir/dstu2/conf/ServerConformanceProvider.java:196-306 | One more key of the grouping: a non-empty name appends its `ResourceDescribes` component, the empty name appends none. Both rest invariants are extended by that key's bindings |
| `ConformanceBuilder.ResourcesInNameOrder` | hapi-fhir-structures-hl7org-dstu2/src/main/java/org/hl7/fhir/dstu2/conf/ServerConformanceProvider.java:196-202 | Resources appear in strictly ascending name order. Each has a non-empty name that is a key of the grouping |
| `ConformanceBuilder.InteractionsStrictlyOrdered` | hapi-fhir-structures-hl7org-dstu2/src/main/java/org/hl7/fhir/dstu2/conf/ServerConformanceProvider.java:272-288 | A resource's interactions all have a code and are in strictly ascending ordinal order, so none repeats |
| `ConformanceBuilder.DeclaredInteractions` | hapi-fhir-structures-hl7org-dstu2/src/main/java/org/hl7/fhir/dstu2/conf/ServerConformanceProvider.java:215-236 | An interaction is declared exactly when some binding of the resource has its code, or has `vread` for `read`. A declared vread implies a declared read |
| `ConformanceBuilder.ConditionalFlags` | hapi-fhir-structures-hl7org-dstu2/src/main/java/org/hl7/fhir/dstu2/conf/ServerConformanceProvider.java:238-252 | Conditional create, update and delete (`single`) are each set exactly when a conditional binding has that code. Otherwise conditional delete is absent |
| `ConformanceBuilder.SetsConditionalCode` | hapi-fhir-structures-hl7org-dstu2/src/main/java/org/hl7/fhir/dstu2/conf/ServerConformanceProvider.java:238-252 | One binding switches on conditional create, update or delete exactly when it supports conditional requests and its code is that interaction's code; `vread` never does |
| `ConformanceBuilder.SystemInteractionsDeclared` | hapi-fhir-structures-hl7org-dstu2/src/main/java/org/hl7/fhir/dstu2/conf/ServerConformanceProvider.java:110-130 | The statement's system interactions are distinct. Each appears exactly when some binding anywhere has its code |
| `ConformanceBuilder.OperationReferencesDistinct` | hapi-fhir-structures-hl7org-dstu2/src/main/java/org/hl7/fhir/dstu2/conf/ServerConformanceProvider.java:262-269 | When every operation binding is indexed, no two rest operations reference the same definition. Each one carries some operation binding's name and references `OperationDefinition/` plus that binding's indexed name |
| `OperationIndex.OperationBindingsOf` | hapi-fhir-structures-hl7org-dstu2/src/main/java/org/hl7/fhir/dstu2/conf/ServerConformanceProvider.java:415-417 | Keeps exactly the operation bindings |
| `OperationIndex.OperationBindingsInOrder` | hapi-fhir-structures-hl7org-dstu2/src/main/java/org/hl7/fhir/dstu2/conf/ServerConformanceProvider.java:415-417 | The operation bindings are those of the visited list, in visiting order, repeats kept: exactly the positions holding an operation binding, in increasing order |
| `OperationIndex.Named` | hapi-fhir-structures-hl7org-dstu2/src/main/java/org/hl7/fhir/dstu2/conf/ServerConformanceProvider.java:422-427 | Keeps exactly the bindings whose operation name is the given one |
| `OperationIndex.NamedInOrder` | hapi-fhir-structures-hl7org-dstu2/src/main/java/org/hl7/fhir/dstu2/conf/ServerConformanceProvider.java:422-427 | The bindings under a name are those of the input with that name, in input order, repeats kept |
| `OperationIndex.IndexBinding` | hapi-fhir-structures-hl7org-dstu2/src/main/java/org/hl7/fhir/dstu2/conf/ServerConformanceProvider.java:415-428 | One binding extends the index invariant `IndexDescribes`. A binding already indexed is skipped |
| `OperationIndex.IndexOperations` | hapi-fhir-structures-hl7org-dstu2/src/main/java/org/hl7/fhir/dstu2/conf/ServerConformanceProvider.java:412-430 | Afterwards each operation binding maps to its operation name. Each name maps to its bindings in visiting order, without repeats |
| `OperationIndex.IndexBindings` | hapi-fhir-structures-hl7org-dstu2/src/main/java/org/hl7/fhir/dstu2/conf/ServerConformanceProvider.java:414-429 | The bindings of one resource extend the index invariant `IndexDescribes` to the longer visited list |
| `OperationIndex.IndexConsistent` | hapi-fhir-structures-hl7org-dstu2/src/main/java/org/hl7/fhir/dstu2/conf/ServerConformanceProvider.java:418-427 | The two maps agree both ways: a binding is listed under a name exactly when it maps to that name. No list is empty, and no list repeats a binding. Within a list, each binding was first visited before every binding after it |
| `OperationIndex.NamedMetBefore` | hapi-fhir-structures-hl7org-dstu2/src/main/java/org/hl7/fhir/dstu2/conf/ServerConformanceProvider.java:418-427 | Under one name, an earlier binding in the list was first visited before any later one |
| `OperationIndex.RenderMax` | hapi-fhir-structures-hl7org-dstu2/src/main/java/org/hl7/fhir/dstu2/conf/ServerConformanceProvider.java:480 | The maximum renders as `*` exactly when it is -1. Any other value renders as a string that parses back to it |
| `OperationIndex.InParameter` | hapi-fhir-structures-hl7org-dstu2/src/main/java/org/hl7/fhir/dstu2/conf/ServerConformanceProvider.java:475-481 | The `in` component carries the parameter's name, type and minimum. Its maximum is `*` exactly when the parameter's is -1; otherwise it parses back to that maximum |
| `OperationIndex.OutParameter` | hapi-fhir-structures-hl7org-dstu2/src/main/java/org/hl7/fhir/dstu2/conf/ServerConformanceProvider.java:489-496 | The `out` component carries the return parameter's name, type and minimum. Its maximum is `*` exactly when the return's is -1; otherwise it parses back to that maximum |
| `OperationIndex.AddInParams` | hapi-fhir-structures-hl7org-dstu2/src/main/java/org/hl7/fhir/dstu2/conf/ServerConformanceProvider.java:468-483 | One component is appended per operation parameter, and earlier components are kept. `inParams` gains the names; `outParams` is unchanged |
| `OperationIndex.AddInParamsWellFormed` | hapi-fhir-structures-hl7org-dstu2/src/main/java/org/hl7/fhir/dstu2/conf/ServerConformanceProvider.java:468-483 | The list stays well formed. A component without a use is blank, and a component with a use has a name that is in that use's name set. No name repeats within a use |
| `OperationIndex.AddInParamsAppends` | hapi-fhir-structures-hl7org-dstu2/src/main/java/org/hl7/fhir/dstu2/conf/ServerConformanceProvider.java:468-483 | The k-th operation parameter appends the k-th new component. That component is blank when the name was already in `inParams` or came earlier in the same binding; otherwise it is the parameter's `in` component |
| `OperationIndex.AddInParamsListed` | hapi-fhir-structures-hl7org-dstu2/src/main/java/org/hl7/fhir/dstu2/conf/ServerConformanceProvider.java:468-483 | Every name in `inParams` and `outParams` still has a component of that use and name afterwards |
| `OperationIndex.AddOutParams` | hapi-fhir-structures-hl7org-dstu2/src/main/java/org/hl7/fhir/dstu2/conf/ServerConformanceProvider.java:485-497 | Earlier components are kept. `outParams` gains the return names; `inParams` is unchanged |
| `OperationIndex.AddOutParamsCount` | hapi-fhir-structures-hl7org-dstu2/src/main/java/org/hl7/fhir/dstu2/conf/ServerConformanceProvider.java:485-497 | Exactly one component is appended per return name not seen before |
| `OperationIndex.AddOutParamsWellFormed` | hapi-fhir-structures-hl7org-dstu2/src/main/java/org/hl7/fhir/dstu2/conf/ServerConformanceProvider.java:485-497 | The list stays well formed |
| `OperationIndex.AddOutParamsAppends` | hapi-fhir-structures-hl7org-dstu2/src/main/java/org/hl7/fhir/dstu2/conf/ServerConformanceProvider.java:485-497 | In order, the return parameters append the `out` component of the first return of each name not already in `outParams`, and nothing else |
| `OperationIndex.AddOutParamsListed` | hapi-fhir-structures-hl7org-dstu2/src/main/java/org/hl7/fhir/dstu2/conf/ServerConformanceProvider.java:485-497 | Every name in `inParams` and `outParams` still has a component of that use and name afterwards |
| `OperationIndex.DefinitionParams` | hapi-fhir-structures-hl7org-dstu2/src/main/java/org/hl7/fhir/dstu2/conf/ServerConformanceProvider.java:468-497 | Merged across the bindings, the name sets are the parameter names and the return names of all the bindings |
| `OperationIndex.DefinitionParamsWellFormed` | hapi-fhir-structures-hl7org-dstu2/src/main/java/org/hl7/fhir/dstu2/conf/ServerConformanceProvider.java:468-497 | Merged across the bindings, the parameters are well formed |
| `OperationIndex.DefinitionParamCount` | hapi-fhir-structures-hl7org-dstu2/src/main/java/org/hl7/fhir/dstu2/conf/ServerConformanceProvider.java:468-497 | The merged list has one component per operation parameter plus one per distinct return name |
| `OperationIndex.DefinitionParamsListed` | hapi-fhir-structures-hl7org-dstu2/src/main/java/org/hl7/fhir/dstu2/conf/ServerConformanceProvider.java:468-497 | Every parameter name and every return name of the bindings has a component of its use with that name |
| `OperationIndex.DefinitionParamsStep` | hapi-fhir-structures-hl7org-dstu2/src/main/java/org/hl7/fhir/dstu2/conf/ServerConformanceProvider.java:468-497 | Each binding appends to the list merged before it. First comes one component per operation parameter, in order: blank if the name was taken, otherwise its `in` component. Then come the `out` components of the first return of each new return name |
| `OperationIndex.DefinitionParameters` | hapi-fhir-structures-hl7org-dstu2/src/main/java/org/hl7/fhir/dstu2/conf/ServerConformanceProvider.java:468-497 | In the definition read, no name occurs twice within a use and a component without a use is blank. `in` components are named by operation parameters and `out` components by returns. Conversely, every parameter name has an `in` component and every return name an `out` component. There is one component per operation parameter plus one per distinct return name |
| `OperationIndex.LastDescriptionIsLast` | hapi-fhir-structures-hl7org-dstu2/src/main/java/org/hl7/fhir/dstu2/conf/ServerConformanceProvider.java:451-453 | The description is the last non-blank one among the bindings. It is absent exactly when all are blank |
| `OperationIndex.ResourceTypes` | hapi-fhir-structures-hl7org-dstu2/src/main/java/org/hl7/fhir/dstu2/conf/ServerConformanceProvider.java:464-466 | The types are exactly the bindings' non-blank resource names |
| `OperationIndex.ResourceTypesInOrder` | hapi-fhir-structures-hl7org-dstu2/src/main/java/org/hl7/fhir/dstu2/conf/ServerConformanceProvider.java:464-466 | The types follow the bindings' order, with one entry for each binding that has a non-blank resource name, so repeated names are kept |
| `OperationIndex.AllIdempotent` | hapi-fhir-structures-hl7org-dstu2/src/main/java/org/hl7/fhir/dstu2/conf/ServerConformanceProvider.java:454-456 | True exactly when every binding is idempotent |
| `OperationIndex.AnyInstanceLevel` | hapi-fhir-structures-hl7org-dstu2/src/main/java/org/hl7/fhir/dstu2/conf/ServerConformanceProvider.java:458-460 | True exactly when some binding operates at instance level |
| `OperationIndex.AnyServerLevel` | hapi-fhir-structures-hl7org-dstu2/src/main/java/org/hl7/fhir/dstu2/conf/ServerConformanceProvider.java:461-463 | True exactly when some binding operates at server level |
| `OperationIndex.AddInParameters` | hapi-fhir-structures-hl7org-dstu2/src/main/java/org/hl7/fhir/dstu2/conf/ServerConformanceProvider.java:468-483 | The loop over one binding's parameters computes `AddInParams` |
| `OperationIndex.AddOutParameters` | hapi-fhir-structures-hl7org-dstu2/src/main/java/org/hl7/fhir/dstu2/conf/ServerConformanceProvider.java:485-497 | The loop over one binding's return parameters computes `AddOutParams` |
| `OperationIndex.MergeDefinition` | hapi-fhir-structures-hl7org-dstu2/src/main/java/org/hl7/fhir/dstu2/conf/ServerConformanceProvider.java:443-500 | The definition is `DefinitionDescribes` of the bindings. Its status is active, and it is idempotent exactly when every binding is. `instance` and `system` are set exactly when some binding allows that level. Its code is the last binding's name. Its description, types and parameters are as above |
| `OperationIndex.MergeBinding` | hapi-fhir-structures-hl7org-dstu2/src/main/java/org/hl7/fhir/dstu2/conf/ServerConformanceProvider.java:450-498 | One more binding extends the merge invariant: the fields and the parameters are those of the bindings done so far |
| `OperationIndex.MergeFields` | hapi-fhir-structures-hl7org-dstu2/src/main/java/org/hl7/fhir/dstu2/conf/ServerConformanceProvider.java:450-467 | One more binding updates description, idempotence, code, levels and types as the bindings done so far determine them. The parameters are untouched |
| `OperationIndex.MergeParams` | hapi-fhir-structures-hl7org-dstu2/src/main/java/org/hl7/fhir/dstu2/conf/ServerConformanceProvider.java:468-498 | One more binding appends its parameter components. Every other field is untouched |
| `OperationIndex.SharedDescriptions` | hapi-fhir-structures-hl7org-dstu2/src/main/java/org/hl7/fhir/dstu2/conf/ServerConformanceProvider.java:435-441 | Bindings are found exactly when the id and its id part are present, the id part is not blank, and the name maps to a non-empty list. That list is the one returned |
| `Provider.ServerConformanceProvider.constructor` | hapi-fhir-structures-hl7org-dstu2/src/main/java/org/hl7/fhir/dstu2/conf/ServerConformanceProvider.java:69-72 | A new provider caches, has no statement yet and has empty operation maps |
| `Provider.ServerConformanceProvider.SetCache` | hapi-fhir-structures-hl7org-dstu2/src/main/java/org/hl7/fhir/dstu2/conf/ServerConformanceProvider.java:511-513 | Only the cache switch changes |
| `Provider.ServerConformanceProvider.InitializeOperations` | hapi-fhir-structures-hl7org-dstu2/src/main/java/org/hl7/fhir/dstu2/conf/ServerConformanceProvider.java:407-431 | Both maps are rebuilt to `IndexDescribes` of the configuration's bindings in visiting order. The cache is untouched |
| `Provider.ServerConformanceProvider.GetServerConformance` | hapi-fhir-structures-hl7org-dstu2/src/main/java/org/hl7/fhir/dstu2/conf/ServerConformanceProvider.java:170-312 | With caching on and a statement stored, that statement is returned and nothing changes. Otherwise a `ConformanceDescribes` statement of the current configuration is returned and stored. The cache switch and the maps never change |
| `Provider.ServerConformanceProvider.ReadOperationDefinition` | hapi-fhir-structures-hl7org-dstu2/src/main/java/org/hl7/fhir/dstu2/conf/ServerConformanceProvider.java:433-501 | Not found exactly when `SharedDescriptions` finds nothing. Otherwise the result is the merged definition of the bindings listed under the name |
| `Provider.CachedStatementRepeats` | hapi-fhir-structures-hl7org-dstu2/src/main/java/org/hl7/fhir/dstu2/conf/ServerConformanceProvider.java:171-173 | With caching on, two calls in a row return the same statement, and it stays cached |
| `Provider.AdvertisedOperationsReadable` | hapi-fhir-structures-hl7org-dstu2/src/main/java/org/hl7/fhir/dstu2/conf/ServerConformanceProvider.java:264-268 | After `initializeOperations`, the statement's rest operations reference distinct definitions `OperationDefinition/<n>`. A read of each non-blank `n` finds bindings |
| `Provider.OperationsReadable` | hapi-fhir-structures-hl7org-dstu2/src/main/java/org/hl7/fhir/dstu2/conf/ServerConformanceProvider.java:264-268 | An operation that names an indexed binding references a definition that a read finds, unless the name is blank |
| `Provider.IndexCoversOperations` | hapi-fhir-structures-hl7org-dstu2/src/main/java/org/hl7/fhir/dstu2/conf/ServerConformanceProvider.java:415-423 | Every visited operation binding is in the binding-to-name map |
| `Provider.IndexedNameListed` | hapi-fhir-structures-hl7org-dstu2/src/main/java/org/hl7/fhir/dstu2/conf/ServerConformanceProvider.java:422-427 | The name any indexed binding maps to lists a non-empty set of bindings |

## Left out

- The Conformance header fields are left out: publisher, date, FHIR version,
  accept-unknown, implementation description, kind, software name and
  version, formats, and the rest `mode`. They are constants or values copied
  from the configuration. `getPublisher`, `setPublisher` and
  `conformanceDate` go with them.
- `getResourceDefinition` and the resource profile are left out. The resource
  type is the registered resource name. The profile reference and the server
  base it needs come from the servlet context and the address strategy.
- `def.getSearchParam` is the parameter `lookup`, a function from resource
  name and parameter name to an optional definition.
- Search-parameter targets are left out. They need `getResourceDefinition` on
  each declared type and `ResourceType.fromCode`.
- `sortRuntimeSearchParameters` is left out. Nothing in the class calls it.
- The server configuration is a constant field, not a `Callable`. The
  `InternalErrorException` wrapping a failed call, `setRestfulServer` and the
  Java constructors are left out.
- Thread safety is left out: the `volatile` statement field and concurrent
  calls.
- In Java the operation maps are null until `initializeOperations` runs. Until
  then, `getServerConformance` would fail on an operation binding, and
  `readOperationDefinition` would fail with a null pointer on the map lookup
  (ServerConformanceProvider.java:438). The model starts the maps empty, so
  that read answers not found. An operation binding missing from the map gives the
  reference `OperationDefinition/null`, as Java string concatenation does.
- The cached Conformance is one shared mutable instance: when caching is on,
  every call returns the same object, and a caller's changes to it show in
  later answers. The model returns a value, so this aliasing is not captured.
- Operation names are non-empty strings (`Bindings.OperationName`), because
  a binding's name always carries the leading `$`. On an empty name the Java
  `substring(1)` in `createOperationName` would throw, and the model does not
  represent that case.
- Binding objects are compared by identity in the `IdentityHashMap`. The model
  gives each binding an `identity` number and compares values.
- Null strings are not modelled, except where the source tests for them:
  operation codes, descriptions, resource names and id parts are `Option`s.
  Search-parameter and operation-parameter names are never null here.
- `String.compareTo` is modelled on code points, not UTF-16 code units. The
  two orders differ only outside the Basic Multilingual Plane.
- `IsBlank` uses a fixed set of whitespace characters standing for
  `Character.isWhitespace`.
- Parameter minimums and maximums are unbounded integers, not 32-bit `int`s.
- `SortSearchParameters`: the result is proved sorted and a permutation. The
  stability of `Collections.sort`, which keeps equal-keyed parameters in
  registration order, is not proved.
- The FHIR model classes (Conformance, OperationDefinition and their
  components) are reduced to records of the fields the provider sets.
  `OperationDefinition.code` is the binding's full name, leading `$` included.
