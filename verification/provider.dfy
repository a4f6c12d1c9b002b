/** `ServerConformanceProvider`: the object the server asks for its
    Conformance statement and its OperationDefinitions, with the statement
    cache and the operation index it keeps between requests. */
module Provider {
  import opened Util
  import opened JavaStrings
  import opened Fhir
  import opened Bindings
  import opened SearchParameters
  import opened ConformanceBuilder
  import opened OperationIndex

  class ServerConformanceProvider {
    /** `myCache`: whether a built statement is handed out again. */
    var cache: bool
    /** `myConformance`: the last statement built, None before the first. */
    var conformance: Option<Conformance>
    /** `myOperationBindingToName`, keyed by binding identity. */
    var operationBindingToName: map<OperationMethodBinding, string>
    /** `myOperationNameToBindings`. */
    var operationNameToBindings: map<string, seq<OperationMethodBinding>>
    /** What the configuration callable returns on every call. */
    const configuration: ServerConfiguration
    /** The framework's search-parameter definitions. */
    const lookup: SearchParamLookup

    constructor (configuration: ServerConfiguration, lookup: SearchParamLookup)
      ensures this.configuration == configuration && this.lookup == lookup
      ensures cache && conformance.None?
      ensures operationBindingToName == map[] && operationNameToBindings == map[]
    {
      this.configuration := configuration;
      this.lookup := lookup;
      cache := true;
      conformance := None;
      operationBindingToName := map[];
      operationNameToBindings := map[];
    }

    /** `setCache`: only the switch changes. */
    method SetCache(theCache: bool)
      modifies this
      ensures cache == theCache
      ensures conformance == old(conformance)
      ensures operationBindingToName == old(operationBindingToName)
      ensures operationNameToBindings == old(operationNameToBindings)
    {
      cache := theCache;
    }

    /** `initializeOperations`: rebuilds both operation maps from the current
      configuration; the statement cache is left alone. */
    method InitializeOperations()
      modifies this
      ensures IndexDescribes(operationBindingToName, operationNameToBindings, VisitOrder(Grouping(configuration)))
      ensures cache == old(cache) && conformance == old(conformance)
    {
      var resourceToMethods := CollectMethodBindings(configuration);
      var toName, toBindings := IndexOperations(resourceToMethods);
      operationBindingToName := toName;
      operationNameToBindings := toBindings;
    }

    /** `getServerConformance`: the cached statement when there is one and
      caching is on; otherwise a statement built from the current
      configuration, which is stored as the new cached statement. */
    method GetServerConformance() returns (c: Conformance)
      modifies this
      ensures old(conformance).Some? && old(cache) ==> c == old(conformance).value && conformance == old(conformance)
      ensures !(old(conformance).Some? && old(cache)) ==>
                ConformanceDescribes(c, Grouping(configuration), lookup, operationBindingToName) && conformance == Some(c)
      ensures cache == old(cache)
      ensures operationBindingToName == old(operationBindingToName)
      ensures operationNameToBindings == old(operationNameToBindings)
    {
      if conformance.Some? && cache {
        return conformance.value;
      }
      var resourceToMethods := CollectMethodBindings(configuration);
      c := BuildConformance(resourceToMethods, lookup, operationBindingToName);
      conformance := Some(c);
    }

    /** `readOperationDefinition`: the definition merged from every binding
      indexed under the id's name; not found when the id or its id part is
      missing or blank, or when no binding has that name. */
    method ReadOperationDefinition(theId: Option<IdType>) returns (r: ReadResult)
      ensures r.ResourceNotFound? <==> SharedDescriptions(theId, operationNameToBindings).None?
      ensures r.Found? ==> DefinitionDescribes(r.definition, SharedDescriptions(theId, operationNameToBindings).value)
    {
      if theId.None? || IsBlank(theId.value.idPart) {
        return ResourceNotFound;
      }
      var name := theId.value.idPart.value;
      if name !in operationNameToBindings || operationNameToBindings[name] == [] {
        return ResourceNotFound;
      }
      var op := MergeDefinition(operationNameToBindings[name]);
      r := Found(op);
    }
  }

  /** After `initializeOperations`, every operation the statement lists points
      at a distinct definition that a read of that name finds, provided the
      name is not blank. */
  lemma AdvertisedOperationsReadable(c: Conformance, config: ServerConfiguration, lookup: SearchParamLookup,
                                     toName: map<OperationMethodBinding, string>,
                                     toBindings: map<string, seq<OperationMethodBinding>>)
    requires IndexDescribes(toName, toBindings, VisitOrder(Grouping(config)))
    requires ConformanceDescribes(c, Grouping(config), lookup, toName)
    ensures forall i, j :: 0 <= i < j < |c.rest.operations| ==>
              c.rest.operations[i].definition != c.rest.operations[j].definition
    ensures forall i :: 0 <= i < |c.rest.operations| ==> ReadableReference(c.rest.operations[i].definition, toBindings)
  {
    var visited := VisitOrder(Grouping(config));
    IndexCoversOperations(toName, toBindings, visited);
    OperationReferencesDistinct(c, Grouping(config), lookup, toName);
    forall i | 0 <= i < |c.rest.operations|
      ensures PointsAtIndexed(c.rest.operations[i], toName, visited)
    {
      var b :| b in visited && b.kind.OperationBinding? && c.rest.operations[i].name == b.kind.name
               && c.rest.operations[i].definition == "OperationDefinition/" + toName[b];
      var ob: OperationMethodBinding := b;
      assert ob in visited && ob in toName;
    }
    IndexedNameListed(toName, toBindings, visited);
    OperationsReadable(c.rest.operations, toName, toBindings, visited);
  }

  /** The operation names a visited operation binding and points at the name it is indexed under. */
  ghost predicate PointsAtIndexed(op: RestOperation, toName: map<OperationMethodBinding, string>, visited: seq<MethodBinding>)
  {
    exists b: OperationMethodBinding :: b in visited && b in toName && op.name == b.kind.name
                                        && op.definition == "OperationDefinition/" + toName[b]
  }

  /** Operations that point at indexed bindings point at readable names. */
  lemma OperationsReadable(ops: seq<RestOperation>, toName: map<OperationMethodBinding, string>,
                           toBindings: map<string, seq<OperationMethodBinding>>, visited: seq<MethodBinding>)
    requires forall b | b in toName :: toName[b] in toBindings && toBindings[toName[b]] != []
    requires forall i :: 0 <= i < |ops| ==> PointsAtIndexed(ops[i], toName, visited)
    ensures forall i :: 0 <= i < |ops| ==> ReadableReference(ops[i].definition, toBindings)
  {
    forall i | 0 <= i < |ops|
      ensures ReadableReference(ops[i].definition, toBindings)
    {
      assert PointsAtIndexed(ops[i], toName, visited);
      var b: OperationMethodBinding :| b in visited && b in toName && ops[i].name == b.kind.name
                                        && ops[i].definition == "OperationDefinition/" + toName[b];
      var n := toName[b];
      assert ops[i].definition == "OperationDefinition/" + n;
    }
  }

  /** A reference `OperationDefinition/<n>` whose name `n`, unless blank, is
      one a read of the definition finds. */
  ghost predicate ReadableReference(definition: string, toBindings: map<string, seq<OperationMethodBinding>>)
  {
    exists n :: definition == "OperationDefinition/" + n
                && (!IsBlank(Some(n)) ==> SharedDescriptions(Some(IdType(Some(n))), toBindings).Some?)
  }

  /** Every operation binding visited is indexed. */
  lemma IndexCoversOperations(toName: map<OperationMethodBinding, string>,
                              toBindings: map<string, seq<OperationMethodBinding>>, visited: seq<MethodBinding>)
    requires IndexDescribes(toName, toBindings, visited)
    ensures forall b :: b in visited && b.kind.OperationBinding? ==> b in toName
  {
    forall b | b in visited && b.kind.OperationBinding?
      ensures b in toName
    {
      var ob: OperationMethodBinding := b;
      assert ob in visited;
    }
  }

  /** The name any indexed operation binding is indexed under has a non-empty list. */
  lemma IndexedNameListed(toName: map<OperationMethodBinding, string>,
                          toBindings: map<string, seq<OperationMethodBinding>>, visited: seq<MethodBinding>)
    requires IndexDescribes(toName, toBindings, visited)
    ensures forall b | b in toName :: toName[b] in toBindings && toBindings[toName[b]] != []
  {
    IndexConsistent(toName, toBindings, visited);
    forall b | b in toName
      ensures toName[b] in toBindings && toBindings[toName[b]] != []
    {
      assert toName[b] in toBindings && b in toBindings[toName[b]];
    }
  }

  /** A statement handed out while caching is on is handed out again by the
      next call, whatever the configuration says by then. */
  method CachedStatementRepeats(p: ServerConformanceProvider) returns (first: Conformance, second: Conformance)
    requires p.cache
    modifies p
    ensures first == second
    ensures p.conformance == Some(first)
  {
    first := p.GetServerConformance();
    second := p.GetServerConformance();
  }
}
