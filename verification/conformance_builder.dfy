/** `getServerConformance` without the cache: walks the grouped bindings in
    ascending resource-name order and builds the rest component of the
    Conformance statement. */
module ConformanceBuilder {
  import opened Util
  import opened JavaStrings
  import opened Collections
  import opened Fhir
  import opened Bindings
  import opened SearchParameters

  // What a single binding contributes.

  /** The resource interaction the binding's rest operation code names. */
  function InteractionOf(b: MethodBinding): Option<TypeRestfulInteraction>
  {
    if b.restOperation.Some? then TypeInteractionFromCode(b.restOperation.value) else None
  }

  /** The interactions a binding declares on its resource: the one its code
      names and, for `vread`, `read` as well; nothing for other codes. */
  function InteractionsOf(b: MethodBinding): (r: set<TypeRestfulInteraction>)
    ensures forall t :: t in r <==> (b.restOperation == Some(TypeInteractionCode(t))
                                     || (t == Read && b.restOperation == Some("vread")))
  {
    match InteractionOf(b)
    case None => {}
    case Some(t) => {t} + (if b.restOperation == Some("vread") then {Read} else {})
  }

  /** The interaction the conditional-support switch sees: `read` once a
      `vread` has been substituted, otherwise the code's own interaction. */
  function ConditionalInteraction(b: MethodBinding): Option<TypeRestfulInteraction>
  {
    if InteractionOf(b).Some? && b.restOperation == Some("vread") then Some(Read) else InteractionOf(b)
  }

  predicate SetsConditional(b: MethodBinding, t: TypeRestfulInteraction)
  {
    b.supportsConditional && ConditionalInteraction(b) == Some(t)
  }

  /** The system interaction the binding's rest operation code names. */
  function SystemInteractionOf(b: MethodBinding): Option<SystemRestfulInteraction>
  {
    if b.restOperation.Some? then SystemInteractionFromCode(b.restOperation.value) else None
  }

  /** The name an operation binding is indexed under; None stands for the
      null that `IdentityHashMap.get` returns for an unindexed binding. */
  function LookupOperationName(toName: map<MethodBinding, string>, b: MethodBinding): Option<string>
  {
    if b in toName then Some(toName[b]) else None
  }

  /** `"OperationDefinition/" + opName`, where a null name prints as `null`. */
  function DefinitionReference(opName: Option<string>): string
  {
    "OperationDefinition/" + (if opName.Some? then opName.value else "null")
  }

  /** An operation binding as the rest component sees it: its indexed name
      and its own name. */
  datatype OperationEntry = OperationEntry(opName: Option<string>, bindingName: string)

  function EntryKey(e: OperationEntry): Option<string>
  {
    e.opName
  }

  // What a list of bindings contributes.

  /** The interactions the bindings declare between them. */
  ghost function InteractionsOfAll(bs: seq<MethodBinding>): set<TypeRestfulInteraction>
  {
    if bs == [] then {}
    else InteractionsOfAll(bs[..|bs| - 1]) + InteractionsOf(bs[|bs| - 1])
  }

  lemma {:induction false} InteractionsOfAllMembers(bs: seq<MethodBinding>)
    ensures forall t :: t in InteractionsOfAll(bs) <==> exists i :: 0 <= i < |bs| && t in InteractionsOf(bs[i])
  {
    if bs != [] {
      var p := bs[..|bs| - 1];
      InteractionsOfAllMembers(p);
      assert forall i :: 0 <= i < |p| ==> p[i] == bs[i];
    }
  }

  /** Whether some binding turns on conditional support for `t`. */
  ghost function AnySetsConditional(bs: seq<MethodBinding>, t: TypeRestfulInteraction): bool
  {
    if bs == [] then false
    else AnySetsConditional(bs[..|bs| - 1], t) || SetsConditional(bs[|bs| - 1], t)
  }

  lemma {:induction false} AnySetsConditionalSome(bs: seq<MethodBinding>, t: TypeRestfulInteraction)
    ensures AnySetsConditional(bs, t) <==> exists i :: 0 <= i < |bs| && SetsConditional(bs[i], t)
  {
    if bs != [] {
      var p := bs[..|bs| - 1];
      AnySetsConditionalSome(p, t);
      assert forall i :: 0 <= i < |p| ==> p[i] == bs[i];
    }
  }

  /** The union of the includes of the search bindings. */
  function IncludesOf(bs: seq<MethodBinding>): set<string>
  {
    if bs == [] then {}
    else
      var b := bs[|bs| - 1];
      IncludesOf(bs[..|bs| - 1]) + (if b.kind.SearchBinding? then b.kind.includes else {})
  }

  /** The search-parameter components of the search bindings, binding by binding. */
  function SearchParamsOf(name: string, bs: seq<MethodBinding>, lookup: SearchParamLookup): seq<SearchParamComponent>
  {
    if bs == [] then []
    else SearchParamsOf(name, bs[..|bs| - 1], lookup) + BindingSearchParams(name, bs[|bs| - 1], lookup)
  }

  /** The system interactions named by the bindings, in order, repeats kept. */
  function SystemInteractionsOf(bs: seq<MethodBinding>): seq<SystemRestfulInteraction>
  {
    if bs == [] then []
    else
      var op := SystemInteractionOf(bs[|bs| - 1]);
      SystemInteractionsOf(bs[..|bs| - 1]) + (if op.Some? then [op.value] else [])
  }

  lemma {:induction false} SystemInteractionsMembers(bs: seq<MethodBinding>)
    ensures forall x :: x in SystemInteractionsOf(bs) <==> exists i :: 0 <= i < |bs| && SystemInteractionOf(bs[i]) == Some(x)
  {
    if bs != [] {
      var p := bs[..|bs| - 1];
      SystemInteractionsMembers(p);
      assert forall i :: 0 <= i < |p| ==> p[i] == bs[i];
    }
  }

  /** The operation bindings among `bs`, in order, repeats kept. */
  function OperationEntries(toName: map<MethodBinding, string>, bs: seq<MethodBinding>): seq<OperationEntry>
  {
    if bs == [] then []
    else
      var b := bs[|bs| - 1];
      OperationEntries(toName, bs[..|bs| - 1])
      + (if b.kind.OperationBinding? then [OperationEntry(LookupOperationName(toName, b), b.kind.name)] else [])
  }

  lemma {:induction false} OperationEntriesMembers(toName: map<MethodBinding, string>, bs: seq<MethodBinding>)
    ensures forall e :: e in OperationEntries(toName, bs) <==>
              (exists i :: 0 <= i < |bs| && bs[i].kind.OperationBinding?
                           && e == OperationEntry(LookupOperationName(toName, bs[i]), bs[i].kind.name))
  {
    if bs != [] {
      var p := bs[..|bs| - 1];
      OperationEntriesMembers(toName, p);
      assert forall i :: 0 <= i < |p| ==> p[i] == bs[i];
    }
  }

  function RestOperationsOf(es: seq<OperationEntry>): (r: seq<RestOperation>)
    ensures |r| == |es|
    ensures forall i :: 0 <= i < |es| ==> r[i] == RestOperation(es[i].bindingName, DefinitionReference(es[i].opName))
  {
    if es == [] then []
    else RestOperationsOf(es[..|es| - 1]) + [RestOperation(es[|es| - 1].bindingName, DefinitionReference(es[|es| - 1].opName))]
  }

  lemma VisitAppend(toName: map<MethodBinding, string>, visited: seq<MethodBinding>, b: MethodBinding)
    ensures SystemInteractionsOf(visited + [b])
         == SystemInteractionsOf(visited) + (if SystemInteractionOf(b).Some? then [SystemInteractionOf(b).value] else [])
    ensures OperationEntries(toName, visited + [b])
         == OperationEntries(toName, visited)
            + (if b.kind.OperationBinding? then [OperationEntry(LookupOperationName(toName, b), b.kind.name)] else [])
  {
    assert (visited + [b])[..|visited|] == visited;
  }

  lemma RestOperationsAppend(es: seq<OperationEntry>, e: OperationEntry)
    ensures RestOperationsOf(es + [e]) == RestOperationsOf(es) + [RestOperation(e.bindingName, DefinitionReference(e.opName))]
  {
    assert (es + [e])[..|es|] == es;
  }

  // The state `getServerConformance` carries across bindings.

  /** The rest interactions so far, and the `systemOps` set that mirrors them. */
  ghost predicate SystemOpsDescribe(interactions: seq<SystemRestfulInteraction>, systemOps: set<SystemRestfulInteraction>, visited: seq<MethodBinding>)
  {
    && interactions == DistinctBy(Identity, SystemInteractionsOf(visited))
    && (forall x :: x in systemOps <==> x in interactions)
  }

  /** The rest operations so far, and the `operationNames` set that mirrors them. */
  ghost predicate OperationsDescribe(operations: seq<RestOperation>, operationNames: set<Option<string>>,
                                     toName: map<MethodBinding, string>, visited: seq<MethodBinding>)
  {
    var kept := DistinctBy(EntryKey, OperationEntries(toName, visited));
    && operations == RestOperationsOf(kept)
    && operationNames == KeySet(EntryKey, kept)
  }

  /** `checkBindingForSystemOps`: declares the binding's system interaction
      on the rest component unless it was declared already. */
  method CheckBindingForSystemOps(rest: RestComponent, systemOps: set<SystemRestfulInteraction>, b: MethodBinding,
                                  ghost visited: seq<MethodBinding>)
    returns (rest': RestComponent, systemOps': set<SystemRestfulInteraction>)
    requires SystemOpsDescribe(rest.interactions, systemOps, visited)
    ensures SystemOpsDescribe(rest'.interactions, systemOps', visited + [b])
    ensures rest' == rest.(interactions := rest'.interactions)
    ensures SystemInteractionOf(b).None? ==> rest' == rest && systemOps' == systemOps
  {
    rest', systemOps' := rest, systemOps;
    VisitAppend(map[], visited, b);
    if b.restOperation.Some? {
      var sysOpCode := b.restOperation.value;
      var sysOp := SystemInteractionFromCode(sysOpCode);
      if sysOp.None? {
        assert SystemInteractionsOf(visited + [b]) == SystemInteractionsOf(visited);
        return;
      }
      DistinctByAppend(Identity, SystemInteractionsOf(visited), sysOp.value);
      assert SystemInteractionsOf(visited + [b]) == SystemInteractionsOf(visited) + [sysOp.value];
      KeySetIdentity(rest.interactions);
      assert Identity(sysOp.value) in KeySet(Identity, rest.interactions) <==> sysOp.value in systemOps;
      if sysOp.value !in systemOps {
        KeySetIdentity(rest.interactions + [sysOp.value]);
        systemOps' := systemOps + {sysOp.value};
        rest' := rest.(interactions := rest.interactions + [sysOp.value]);
      }
    } else {
      assert SystemInteractionsOf(visited + [b]) == SystemInteractionsOf(visited);
    }
  }

  /** Lists an operation on the rest component the
      first time its indexed name is met. */
  method AddOperation(rest: RestComponent, operationNames: set<Option<string>>, b: MethodBinding,
                      toName: map<MethodBinding, string>, ghost visited: seq<MethodBinding>)
    returns (rest': RestComponent, operationNames': set<Option<string>>)
    requires b.kind.OperationBinding?
    requires OperationsDescribe(rest.operations, operationNames, toName, visited)
    ensures OperationsDescribe(rest'.operations, operationNames', toName, visited + [b])
    ensures rest' == rest.(operations := rest'.operations)
  {
    var opName := LookupOperationName(toName, b);
    var e := OperationEntry(opName, b.kind.name);
    var kept := DistinctBy(EntryKey, OperationEntries(toName, visited));
    VisitAppend(toName, visited, b);
    DistinctByAppend(EntryKey, OperationEntries(toName, visited), e);
    assert OperationEntries(toName, visited + [b]) == OperationEntries(toName, visited) + [e];
    assert EntryKey(e) in KeySet(EntryKey, kept) <==> opName in operationNames;
    rest', operationNames' := rest, operationNames;
    if opName !in operationNames {
      operationNames' := operationNames + {opName};
      rest' := rest.(operations := rest.operations + [RestOperation(b.kind.name, DefinitionReference(opName))]);
      RestOperationsAppend(kept, e);
      KeySetAppend(EntryKey, kept, e);
      assert DistinctBy(EntryKey, OperationEntries(toName, visited + [b])) == kept + [e];
    } else {
      assert DistinctBy(EntryKey, OperationEntries(toName, visited + [b])) == kept;
    }
  }

  /** The rest operations are unchanged by a binding that is not an operation. */
  lemma OperationsSkip(operations: seq<RestOperation>, operationNames: set<Option<string>>,
                       toName: map<MethodBinding, string>, visited: seq<MethodBinding>, b: MethodBinding)
    requires !b.kind.OperationBinding?
    requires OperationsDescribe(operations, operationNames, toName, visited)
    ensures OperationsDescribe(operations, operationNames, toName, visited + [b])
  {
    VisitAppend(toName, visited, b);
    assert OperationEntries(toName, visited + [b]) == OperationEntries(toName, visited);
  }

  // One resource.

  /** Each interaction at most once, and exactly those in `ops`. */
  ghost predicate InteractionsMirror(interactions: seq<Option<TypeRestfulInteraction>>, ops: set<TypeRestfulInteraction>)
  {
    && AtMostOnce(interactions)
    && (forall x :: x in interactions <==> x.Some? && x.value in ops)
  }

  /** The order `SortInteractions` establishes. */
  ghost predicate InteractionsSorted(s: seq<Option<TypeRestfulInteraction>>)
  {
    && (forall i, j :: 0 <= i < j < |s| && s[i].None? ==> s[j].None?)
    && (forall i, j :: 0 <= i < j < |s| && s[i].Some? && s[j].Some? ==> Ordinal(s[i].value) <= Ordinal(s[j].value))
  }

  /** Declares the binding's interactions on its resource, at
      most once each, and records conditional support. */
  method AddResourceInteractions(resource: ResourceComponent, resourceOps: set<TypeRestfulInteraction>, b: MethodBinding)
    returns (r: ResourceComponent, ops: set<TypeRestfulInteraction>)
    requires InteractionsMirror(resource.interactions, resourceOps)
    ensures ops == resourceOps + InteractionsOf(b)
    ensures InteractionsMirror(r.interactions, ops)
    ensures r.conditionalCreate == (resource.conditionalCreate || SetsConditional(b, Create))
    ensures r.conditionalUpdate == (resource.conditionalUpdate || SetsConditional(b, Update))
    ensures r.conditionalDelete == if SetsConditional(b, Delete) then Some(Single) else resource.conditionalDelete
    ensures r.resourceType == resource.resourceType && r.searchParams == resource.searchParams
    ensures r.searchIncludes == resource.searchIncludes
  {
    r, ops := resource, resourceOps;
    if b.restOperation.Some? {
      var resOpCode := b.restOperation.value;
      var resOp := TypeInteractionFromCode(resOpCode);
      if resOp.Some? {
        var interactions;
        interactions, ops := DeclareInteraction(r.interactions, ops, resOp.value);
        if resOpCode == "vread" {
          // a version read is also a read
          resOp := Some(Read);
          interactions, ops := DeclareInteraction(interactions, ops, Read);
        }
        assert ConditionalInteraction(b) == resOp;
        var conditional := b.supportsConditional;
        r := r.(interactions := interactions,
                conditionalCreate := r.conditionalCreate || (conditional && resOp.value == Create),
                conditionalUpdate := r.conditionalUpdate || (conditional && resOp.value == Update),
                conditionalDelete := if conditional && resOp.value == Delete then Some(Single) else r.conditionalDelete);
      } else {
        assert ConditionalInteraction(b) == None;
      }
    } else {
      assert ConditionalInteraction(b) == None;
    }
  }

  /** Adds `t` to the resource's interactions unless the set
      `resourceOps` already holds it. */
  method DeclareInteraction(interactions: seq<Option<TypeRestfulInteraction>>, ops: set<TypeRestfulInteraction>,
                            t: TypeRestfulInteraction)
    returns (interactions': seq<Option<TypeRestfulInteraction>>, ops': set<TypeRestfulInteraction>)
    requires InteractionsMirror(interactions, ops)
    ensures ops' == ops + {t}
    ensures InteractionsMirror(interactions', ops')
    ensures t in ops ==> interactions' == interactions
    ensures t !in ops ==> interactions' == interactions + [Some(t)]
  {
    interactions', ops' := interactions, ops;
    if t !in ops {
      ops' := ops + {t};
      interactions' := interactions + [Some(t)];
      AppendAbsent(interactions, Some(t));
    }
  }

  /** The resource's interactions re-sorted after each binding. */
  lemma SortKeepsInteractions(s: seq<Option<TypeRestfulInteraction>>, ops: set<TypeRestfulInteraction>)
    requires InteractionsMirror(s, ops)
    ensures InteractionsMirror(SortInteractions(s), ops)
    ensures InteractionsSorted(SortInteractions(s))
  {
    var t := SortInteractions(s);
    assert forall x :: x in t <==> x in multiset(t);
    assert forall x :: x in s <==> x in multiset(s);
  }

  /** A resource component after the bindings `bs`, the includes not yet emitted. */
  ghost predicate ResourceCore(r: ResourceComponent, name: string, bs: seq<MethodBinding>, lookup: SearchParamLookup)
  {
    && r.resourceType == name
    && InteractionsMirror(r.interactions, InteractionsOfAll(bs))
    && InteractionsSorted(r.interactions)
    && ConditionalsDescribe(r, bs)
    && r.searchParams == SearchParamsOf(name, bs, lookup)
  }

  /** The conditional-support fields after the bindings `bs`. */
  ghost predicate ConditionalsDescribe(r: ResourceComponent, bs: seq<MethodBinding>)
  {
    && r.conditionalCreate == AnySetsConditional(bs, Create)
    && r.conditionalUpdate == AnySetsConditional(bs, Update)
    && r.conditionalDelete == (if AnySetsConditional(bs, Delete) then Some(Single) else None)
  }

  /** The complete component for resource `name` with bindings `bs`. */
  ghost predicate ResourceDescribes(r: ResourceComponent, name: string, bs: seq<MethodBinding>, lookup: SearchParamLookup)
  {
    ResourceCore(r, name, bs, lookup) && r.searchIncludes == Ordered(IncludesOf(bs))
  }

  lemma ResourceAppend(name: string, bs: seq<MethodBinding>, b: MethodBinding, lookup: SearchParamLookup)
    ensures InteractionsOfAll(bs + [b]) == InteractionsOfAll(bs) + InteractionsOf(b)
    ensures forall t :: AnySetsConditional(bs + [b], t) == (AnySetsConditional(bs, t) || SetsConditional(b, t))
    ensures IncludesOf(bs + [b]) == IncludesOf(bs) + (if b.kind.SearchBinding? then b.kind.includes else {})
    ensures SearchParamsOf(name, bs + [b], lookup) == SearchParamsOf(name, bs, lookup) + BindingSearchParams(name, b, lookup)
  {
    assert (bs + [b])[..|bs|] == bs;
  }

  /** What the rest component keeps across bindings: itself and the two
      sets that mirror its system interactions and operation names. */
  datatype RestState = RestState(
    rest: RestComponent,
    systemOps: set<SystemRestfulInteraction>,
    operationNames: set<Option<string>>)

  ghost predicate RestDescribes(st: RestState, toName: map<MethodBinding, string>, visited: seq<MethodBinding>)
  {
    && SystemOpsDescribe(st.rest.interactions, st.systemOps, visited)
    && OperationsDescribe(st.rest.operations, st.operationNames, toName, visited)
  }

  /** Any binding declares its system interaction
      and, for an operation, the operation. */
  method VisitRestBinding(st: RestState, b: MethodBinding, toName: map<MethodBinding, string>, ghost visited: seq<MethodBinding>)
    returns (st': RestState)
    requires RestDescribes(st, toName, visited)
    ensures RestDescribes(st', toName, visited + [b])
    ensures st'.rest.resources == st.rest.resources
  {
    var rest, systemOps := CheckBindingForSystemOps(st.rest, st.systemOps, b, visited);
    var operationNames := st.operationNames;
    if b.kind.OperationBinding? {
      rest, operationNames := AddOperation(rest, operationNames, b, toName, visited);
    } else {
      OperationsSkip(rest.operations, operationNames, toName, visited, b);
    }
    st' := RestState(rest, systemOps, operationNames);
  }

  /** The bindings under the empty name declare only system
      interactions and operations. */
  method HandleServerBindings(bs: seq<MethodBinding>, toName: map<MethodBinding, string>, st: RestState,
                              ghost visited: seq<MethodBinding>)
    returns (st': RestState)
    requires RestDescribes(st, toName, visited)
    ensures RestDescribes(st', toName, visited + bs)
    ensures st'.rest.resources == st.rest.resources
  {
    st' := st;
    assert visited + bs[..0] == visited;
    for j := 0 to |bs|
      invariant RestDescribes(st', toName, visited + bs[..j])
      invariant st'.rest.resources == st.rest.resources
    {
      assert visited + bs[..j + 1] == (visited + bs[..j]) + [bs[j]];
      st' := VisitRestBinding(st', bs[j], toName, visited + bs[..j]);
    }
    assert bs[..|bs|] == bs;
  }

  /** A resource component part-way through its bindings `bs`. */
  ghost predicate ResourceProgress(r: ResourceComponent, ops: set<TypeRestfulInteraction>, includes: set<string>,
                                   name: string, bs: seq<MethodBinding>, lookup: SearchParamLookup)
  {
    && ResourceCore(r, name, bs, lookup)
    && ops == InteractionsOfAll(bs)
    && r.searchIncludes == []
    && includes == IncludesOf(bs)
  }

  /** What a binding does to its resource:
      interactions and conditional support, search parameters and includes,
      and the interactions re-sorted. */
  method UpdateResource(name: string, b: MethodBinding, lookup: SearchParamLookup,
                        resource: ResourceComponent, ops: set<TypeRestfulInteraction>, includes: set<string>,
                        ghost done: seq<MethodBinding>)
    returns (resource': ResourceComponent, ops': set<TypeRestfulInteraction>, includes': set<string>)
    requires ResourceProgress(resource, ops, includes, name, done, lookup)
    ensures ResourceProgress(resource', ops', includes', name, done + [b], lookup)
  {
    ResourceAppend(name, done, b, lookup);
    resource', ops' := AddResourceInteractions(resource, ops, b);
    includes' := includes;
    if b.kind.SearchBinding? {
      resource', includes' := HandleSearchMethodBinding(resource', name, includes, b, lookup);
    }
    SortKeepsInteractions(resource'.interactions, ops');
    resource' := resource'.(interactions := SortInteractions(resource'.interactions));
  }

  /** The component for one named resource, updating the rest
      component's system interactions and operations on the way. */
  method BuildResource(name: string, bs: seq<MethodBinding>, lookup: SearchParamLookup, toName: map<MethodBinding, string>,
                       st: RestState, ghost visited: seq<MethodBinding>)
    returns (resource: ResourceComponent, st': RestState)
    requires RestDescribes(st, toName, visited)
    ensures RestDescribes(st', toName, visited + bs)
    ensures st'.rest.resources == st.rest.resources
    ensures ResourceDescribes(resource, name, bs, lookup)
  {
    resource := ResourceComponent(name, [], false, false, None, [], []);
    var resourceOps: set<TypeRestfulInteraction> := {};
    var includes: set<string> := {};
    st' := st;
    assert visited + bs[..0] == visited;
    for j := 0 to |bs|
      invariant RestDescribes(st', toName, visited + bs[..j])
      invariant st'.rest.resources == st.rest.resources
      invariant ResourceProgress(resource, resourceOps, includes, name, bs[..j], lookup)
    {
      SnocSliceAfter(visited, bs, j);
      resource, resourceOps, includes := UpdateResource(name, bs[j], lookup, resource, resourceOps, includes, bs[..j]);
      st' := VisitRestBinding(st', bs[j], toName, visited + bs[..j]);
    }
    assert bs[..|bs|] == bs;
    resource := AddSearchIncludes(resource, includes, name, bs, lookup);
  }

  /** The collected includes, in name order, fill the component's still
      empty include list and so close the component. */
  method AddSearchIncludes(resource: ResourceComponent, includes: set<string>,
                           ghost name: string, ghost bs: seq<MethodBinding>, lookup: SearchParamLookup)
    returns (r: ResourceComponent)
    requires ResourceCore(resource, name, bs, lookup) && resource.searchIncludes == []
    requires includes == IncludesOf(bs)
    ensures ResourceDescribes(r, name, bs, lookup)
  {
    var sortedIncludes := SortedElements(includes);
    r := resource.(searchIncludes := sortedIncludes);
    IncludesComplete(resource, r, name, bs, lookup);
  }

  /** The includes play no part in `ResourceCore`, so the ordered includes
      complete the component. */
  lemma IncludesComplete(resource: ResourceComponent, r: ResourceComponent, name: string, bs: seq<MethodBinding>,
                         lookup: SearchParamLookup)
    requires ResourceCore(resource, name, bs, lookup)
    requires r == resource.(searchIncludes := Ordered(IncludesOf(bs)))
    ensures ResourceDescribes(r, name, bs, lookup)
  {
    assert r.interactions == resource.interactions;
  }

  /** The non-empty names among `keys`: the ones that become resource components. */
  function ResourceKeys(keys: seq<string>): seq<string>
  {
    if keys == [] then []
    else ResourceKeys(keys[..|keys| - 1]) + (if keys[|keys| - 1] != "" then [keys[|keys| - 1]] else [])
  }

  ghost predicate ResourcesDescribe(rs: seq<ResourceComponent>, keys: seq<string>, m: map<string, seq<MethodBinding>>,
                                    lookup: SearchParamLookup)
  {
    var names := ResourceKeys(keys);
    && |rs| == |names|
    && forall i :: 0 <= i < |rs| ==> names[i] in m && ResourceDescribes(rs[i], names[i], m[names[i]], lookup)
  }

  /** The statement the provider builds from the grouping `m`. */
  ghost predicate ConformanceDescribes(c: Conformance, m: map<string, seq<MethodBinding>>, lookup: SearchParamLookup,
                                       toName: map<MethodBinding, string>)
  {
    var visited := VisitOrder(m);
    && c.rest.interactions == DistinctBy(Identity, SystemInteractionsOf(visited))
    && c.rest.operations == RestOperationsOf(DistinctBy(EntryKey, OperationEntries(toName, visited)))
    && ResourcesDescribe(c.rest.resources, Ordered(m.Keys), m, lookup)
  }

  lemma ResourcesAppend(rs: seq<ResourceComponent>, keys: seq<string>, k: string, m: map<string, seq<MethodBinding>>,
                        lookup: SearchParamLookup, r: ResourceComponent)
    requires ResourcesDescribe(rs, keys, m, lookup)
    requires k in m
    requires k != "" ==> ResourceDescribes(r, k, m[k], lookup)
    ensures ResourcesDescribe(if k != "" then rs + [r] else rs, keys + [k], m, lookup)
  {
    assert (keys + [k])[..|keys|] == keys;
    var names := ResourceKeys(keys + [k]);
    assert names == ResourceKeys(keys) + (if k != "" then [k] else []);
    var rs' := if k != "" then rs + [r] else rs;
    forall i | 0 <= i < |rs'|
      ensures names[i] in m && ResourceDescribes(rs'[i], names[i], m[names[i]], lookup)
    {
      if i < |rs| {
        assert rs'[i] == rs[i] && names[i] == ResourceKeys(keys)[i];
      }
    }
  }

  /** The body of `getServerConformance` after the cache check: one resource
      component per non-empty name, in ascending name order. */
  method BuildConformance(m: map<string, seq<MethodBinding>>, lookup: SearchParamLookup, toName: map<MethodBinding, string>)
    returns (c: Conformance)
    ensures ConformanceDescribes(c, m, lookup, toName)
  {
    var keys := SortedElements(m.Keys);
    var st := VisitResourceNames(m, keys, lookup, toName);
    c := Conformance(st.rest);
  }

  /** The walk over the names of `m` in the order `keys` gives them. */
  method VisitResourceNames(m: map<string, seq<MethodBinding>>, keys: seq<string>, lookup: SearchParamLookup,
                            toName: map<MethodBinding, string>)
    returns (st: RestState)
    requires forall k :: k in keys ==> k in m
    ensures RestDescribes(st, toName, Flatten(keys, m))
    ensures ResourcesDescribe(st.rest.resources, keys, m, lookup)
  {
    st := RestState(RestComponent([], [], []), {}, {});
    ghost var visited: seq<MethodBinding> := [];
    for i := 0 to |keys|
      invariant visited == Flatten(keys[..i], m)
      invariant RestDescribes(st, toName, visited)
      invariant ResourcesDescribe(st.rest.resources, keys[..i], m, lookup)
    {
      st := VisitResourceName(m, keys, i, lookup, toName, st, visited);
      visited := Flatten(keys[..i + 1], m);
    }
    assert keys[..|keys|] == keys;
  }

  /** One name of the map: a resource component for a
      non-empty name, only the rest component's part for the empty one. */
  method VisitResourceName(m: map<string, seq<MethodBinding>>, keys: seq<string>, i: nat, lookup: SearchParamLookup,
                           toName: map<MethodBinding, string>, st: RestState, ghost visited: seq<MethodBinding>)
    returns (st': RestState)
    requires i < |keys| && forall k :: k in keys ==> k in m
    requires visited == Flatten(keys[..i], m)
    requires RestDescribes(st, toName, visited)
    requires ResourcesDescribe(st.rest.resources, keys[..i], m, lookup)
    ensures visited + m[keys[i]] == Flatten(keys[..i + 1], m)
    ensures RestDescribes(st', toName, visited + m[keys[i]])
    ensures ResourcesDescribe(st'.rest.resources, keys[..i + 1], m, lookup)
  {
    var key := keys[i];
    SnocSlice(keys, i);
    FlattenAppend(keys[..i], key, m);
    if key != "" {
      var resource;
      resource, st' := BuildResource(key, m[key], lookup, toName, st, visited);
      ResourcesAppend(st'.rest.resources, keys[..i], key, m, lookup, resource);
      st' := st'.(rest := st'.rest.(resources := st'.rest.resources + [resource]));
    } else {
      st' := HandleServerBindings(m[key], toName, st, visited);
      ResourcesAppend(st'.rest.resources, keys[..i], key, m, lookup, ResourceComponent("", [], false, false, None, [], []));
    }
  }

  // What the statement promises.

  /** The resource components carry non-empty types in strictly ascending
      `compareTo` order, as the TreeMap iteration visits them. */
  lemma ResourcesInNameOrder(c: Conformance, m: map<string, seq<MethodBinding>>, lookup: SearchParamLookup,
                             toName: map<MethodBinding, string>)
    requires ConformanceDescribes(c, m, lookup, toName)
    ensures forall i, j :: 0 <= i < j < |c.rest.resources| ==>
              Less(c.rest.resources[i].resourceType, c.rest.resources[j].resourceType)
    ensures forall i :: 0 <= i < |c.rest.resources| ==> c.rest.resources[i].resourceType != ""
                                                         && c.rest.resources[i].resourceType in m
  {
    var names := ResourceKeys(Ordered(m.Keys));
    ResourceKeysOrdered(Ordered(m.Keys));
    assert forall i :: 0 <= i < |c.rest.resources| ==> c.rest.resources[i].resourceType == names[i];
  }

  lemma {:induction false} ResourceKeysOrdered(keys: seq<string>)
    requires StrictlyIncreasing(keys)
    ensures StrictlyIncreasing(ResourceKeys(keys))
    ensures forall k :: k in ResourceKeys(keys) ==> k != "" && k in keys
  {
    if keys != [] {
      var p := keys[..|keys| - 1];
      var last := keys[|keys| - 1];
      assert StrictlyIncreasing(p);
      ResourceKeysOrdered(p);
      assert forall k :: k in p ==> Less(k, last);
    }
  }

  /** A resource's interactions are all present and strictly ascending by
      ordinal, so none is declared twice. */
  lemma InteractionsStrictlyOrdered(r: ResourceComponent, name: string, bs: seq<MethodBinding>, lookup: SearchParamLookup)
    requires ResourceDescribes(r, name, bs, lookup)
    ensures forall i :: 0 <= i < |r.interactions| ==> r.interactions[i].Some?
    ensures forall i, j :: 0 <= i < j < |r.interactions| ==>
              Ordinal(r.interactions[i].value) < Ordinal(r.interactions[j].value)
  {
    var s := r.interactions;
    assert forall i :: 0 <= i < |s| ==> s[i] in s;
    forall i, j | 0 <= i < j < |s|
      ensures Ordinal(s[i].value) < Ordinal(s[j].value)
    {
      assert s[i] in s && s[j] in s;
      SortedInteractionsStrict(s, i, j);
    }
  }

  /** A resource declares exactly the interactions its bindings name, and
      `read` whenever it declares `vread`. */
  lemma DeclaredInteractions(r: ResourceComponent, name: string, bs: seq<MethodBinding>, lookup: SearchParamLookup)
    requires ResourceDescribes(r, name, bs, lookup)
    ensures forall t :: Some(t) in r.interactions <==>
              exists i :: 0 <= i < |bs| && (bs[i].restOperation == Some(TypeInteractionCode(t))
                                            || (t == Read && bs[i].restOperation == Some("vread")))
    ensures Some(VRead) in r.interactions ==> Some(Read) in r.interactions
  {
    InteractionsOfAllMembers(bs);
    forall t
      ensures Some(t) in r.interactions <==>
              exists i :: 0 <= i < |bs| && (bs[i].restOperation == Some(TypeInteractionCode(t))
                                            || (t == Read && bs[i].restOperation == Some("vread")))
    {
      if Some(t) in r.interactions {
        var i :| 0 <= i < |bs| && t in InteractionsOf(bs[i]);
      }
      if exists i :: 0 <= i < |bs| && (bs[i].restOperation == Some(TypeInteractionCode(t))
                                       || (t == Read && bs[i].restOperation == Some("vread"))) {
        var i :| 0 <= i < |bs| && (bs[i].restOperation == Some(TypeInteractionCode(t))
                                   || (t == Read && bs[i].restOperation == Some("vread")));
        assert t in InteractionsOf(bs[i]);
      }
    }
    if Some(VRead) in r.interactions {
      var i :| 0 <= i < |bs| && VRead in InteractionsOf(bs[i]);
      assert Read in InteractionsOf(bs[i]);
    }
  }

  /** Conditional create and update are set exactly when some binding with that
      code supports conditional requests; conditional delete is then `single`
      and otherwise absent. A `vread` binding never sets any of them. */
  lemma ConditionalFlags(r: ResourceComponent, name: string, bs: seq<MethodBinding>, lookup: SearchParamLookup)
    requires ResourceDescribes(r, name, bs, lookup)
    ensures r.conditionalCreate <==>
              exists i :: 0 <= i < |bs| && bs[i].supportsConditional && bs[i].restOperation == Some("create")
    ensures r.conditionalUpdate <==>
              exists i :: 0 <= i < |bs| && bs[i].supportsConditional && bs[i].restOperation == Some("update")
    ensures r.conditionalDelete == Some(Single) <==>
              exists i :: 0 <= i < |bs| && bs[i].supportsConditional && bs[i].restOperation == Some("delete")
    ensures r.conditionalDelete != Some(Single) ==> r.conditionalDelete.None?
  {
    ConditionalFields(r, bs);
  }

  lemma ConditionalFields(r: ResourceComponent, bs: seq<MethodBinding>)
    requires ConditionalsDescribe(r, bs)
    ensures r.conditionalCreate <==>
              exists i :: 0 <= i < |bs| && bs[i].supportsConditional && bs[i].restOperation == Some("create")
    ensures r.conditionalUpdate <==>
              exists i :: 0 <= i < |bs| && bs[i].supportsConditional && bs[i].restOperation == Some("update")
    ensures r.conditionalDelete == Some(Single) <==>
              exists i :: 0 <= i < |bs| && bs[i].supportsConditional && bs[i].restOperation == Some("delete")
    ensures r.conditionalDelete != Some(Single) ==> r.conditionalDelete.None?
  {
    assert TypeInteractionCode(Create) == "create";
    assert TypeInteractionCode(Update) == "update";
    assert TypeInteractionCode(Delete) == "delete";
    ConditionalIff(bs, Create);
    ConditionalIff(bs, Update);
    ConditionalIff(bs, Delete);
  }

  lemma ConditionalIff(bs: seq<MethodBinding>, t: TypeRestfulInteraction)
    requires t == Create || t == Update || t == Delete
    ensures AnySetsConditional(bs, t) <==>
              exists i :: 0 <= i < |bs| && bs[i].supportsConditional && bs[i].restOperation == Some(TypeInteractionCode(t))
  {
    AnySetsConditionalSome(bs, t);
    if AnySetsConditional(bs, t) {
      var i :| 0 <= i < |bs| && SetsConditional(bs[i], t);
      SetsConditionalCode(bs[i], t);
    }
    if exists i :: 0 <= i < |bs| && bs[i].supportsConditional && bs[i].restOperation == Some(TypeInteractionCode(t)) {
      var i :| 0 <= i < |bs| && bs[i].supportsConditional && bs[i].restOperation == Some(TypeInteractionCode(t));
      SetsConditionalCode(bs[i], t);
    }
  }

  /** Only a binding whose own code is create, update or delete turns on
      conditional support for it. */
  lemma SetsConditionalCode(b: MethodBinding, t: TypeRestfulInteraction)
    requires t == Create || t == Update || t == Delete
    ensures SetsConditional(b, t) <==> b.supportsConditional && b.restOperation == Some(TypeInteractionCode(t))
  {
    if b.restOperation == Some(TypeInteractionCode(t)) {
      assert TypeInteractionFromCode(TypeInteractionCode(t)) == Some(t);
    }
  }

  /** The rest interactions are distinct, and are exactly the system
      interactions the visited bindings name. */
  lemma SystemInteractionsDeclared(c: Conformance, m: map<string, seq<MethodBinding>>, lookup: SearchParamLookup,
                                   toName: map<MethodBinding, string>)
    requires ConformanceDescribes(c, m, lookup, toName)
    ensures forall i, j :: 0 <= i < j < |c.rest.interactions| ==> c.rest.interactions[i] != c.rest.interactions[j]
    ensures forall x :: x in c.rest.interactions <==>
              exists b :: b in VisitOrder(m) && b.restOperation == Some(SystemInteractionCode(x))
  {
    var all := SystemInteractionsOf(VisitOrder(m));
    KeySetIdentity(all);
    KeySetIdentity(c.rest.interactions);
    forall x
      ensures x in c.rest.interactions <==> exists b :: b in VisitOrder(m) && b.restOperation == Some(SystemInteractionCode(x))
    {
      SystemInteractionNamed(VisitOrder(m), x);
    }
  }

  lemma SystemInteractionNamed(bs: seq<MethodBinding>, x: SystemRestfulInteraction)
    ensures x in SystemInteractionsOf(bs) <==> exists b :: b in bs && b.restOperation == Some(SystemInteractionCode(x))
  {
    SystemInteractionsMembers(bs);
    if x in SystemInteractionsOf(bs) {
      var i :| 0 <= i < |bs| && SystemInteractionOf(bs[i]) == Some(x);
      assert bs[i] in bs;
    }
    if exists b :: b in bs && b.restOperation == Some(SystemInteractionCode(x)) {
      var b :| b in bs && b.restOperation == Some(SystemInteractionCode(x));
      var i :| 0 <= i < |bs| && bs[i] == b;
      assert SystemInteractionOf(bs[i]) == Some(x);
    }
  }

  /** Once every visited operation binding has been indexed, the operations
      listed on the rest component point at distinct definitions, one per
      operation name. */
  lemma OperationReferencesDistinct(c: Conformance, m: map<string, seq<MethodBinding>>, lookup: SearchParamLookup,
                                    toName: map<MethodBinding, string>)
    requires ConformanceDescribes(c, m, lookup, toName)
    requires forall b :: b in VisitOrder(m) && b.kind.OperationBinding? ==> b in toName
    ensures forall i, j :: 0 <= i < j < |c.rest.operations| ==>
              c.rest.operations[i].definition != c.rest.operations[j].definition
    ensures forall i :: 0 <= i < |c.rest.operations| ==>
              exists b :: b in VisitOrder(m) && b.kind.OperationBinding? && c.rest.operations[i].name == b.kind.name
                          && c.rest.operations[i].definition == "OperationDefinition/" + toName[b]
  {
    var kept := DistinctBy(EntryKey, OperationEntries(toName, VisitOrder(m)));
    KeptEntriesIndexed(toName, VisitOrder(m));
    DefinitionsDistinct(kept);
    forall i | 0 <= i < |c.rest.operations|
      ensures exists b :: b in VisitOrder(m) && b.kind.OperationBinding? && c.rest.operations[i].name == b.kind.name
                          && c.rest.operations[i].definition == "OperationDefinition/" + toName[b]
    {
      assert kept[i] in kept;
      var b :| b in VisitOrder(m) && b.kind.OperationBinding? && b in toName
               && kept[i] == OperationEntry(Some(toName[b]), b.kind.name);
      assert c.rest.operations[i] == RestOperation(b.kind.name, "OperationDefinition/" + toName[b]);
    }
  }

  /** Each kept entry comes from an indexed operation binding. */
  lemma KeptEntriesIndexed(toName: map<MethodBinding, string>, visited: seq<MethodBinding>)
    requires forall b :: b in visited && b.kind.OperationBinding? ==> b in toName
    ensures forall e :: e in DistinctBy(EntryKey, OperationEntries(toName, visited)) ==>
              exists b :: b in visited && b.kind.OperationBinding? && b in toName
                          && e == OperationEntry(Some(toName[b]), b.kind.name)
  {
    var es := OperationEntries(toName, visited);
    OperationEntriesMembers(toName, visited);
    forall e | e in DistinctBy(EntryKey, es)
      ensures exists b :: b in visited && b.kind.OperationBinding? && b in toName
                          && e == OperationEntry(Some(toName[b]), b.kind.name)
    {
      assert e in es;
      var k :| 0 <= k < |visited| && visited[k].kind.OperationBinding?
               && e == OperationEntry(LookupOperationName(toName, visited[k]), visited[k].kind.name);
      assert visited[k] in visited;
    }
  }

  /** Distinct present names give distinct definition references. */
  lemma DefinitionsDistinct(kept: seq<OperationEntry>)
    requires forall i, j :: 0 <= i < j < |kept| ==> EntryKey(kept[i]) != EntryKey(kept[j])
    requires forall e :: e in kept ==> e.opName.Some?
    ensures forall i, j :: 0 <= i < j < |kept| ==>
              RestOperationsOf(kept)[i].definition != RestOperationsOf(kept)[j].definition
  {
    assert forall i :: 0 <= i < |kept| ==> kept[i] in kept;
  }
}
