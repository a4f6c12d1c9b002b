/** The parts of the FHIR DSTU2 Conformance and OperationDefinition resources
    that the provider fills in, as plain records. */
module Fhir {
  import opened Util
  import opened Collections

  /** Conformance.TypeRestfulInteraction, in declaration (ordinal) order. */
  datatype TypeRestfulInteraction =
    | Read | VRead | Update | Delete | HistoryInstance | Validate | HistoryType | Create | SearchType

  function TypeInteractionCode(t: TypeRestfulInteraction): string
  {
    match t
    case Read => "read"
    case VRead => "vread"
    case Update => "update"
    case Delete => "delete"
    case HistoryInstance => "history-instance"
    case Validate => "validate"
    case HistoryType => "history-type"
    case Create => "create"
    case SearchType => "search-type"
  }

  /** `TypeRestfulInteraction.fromCode`; an empty or unknown code (null, or the
      exception the source catches) gives None. */
  function TypeInteractionFromCode(code: string): (r: Option<TypeRestfulInteraction>)
    ensures forall t :: r == Some(t) <==> TypeInteractionCode(t) == code
  {
    match code
    case "read" => Some(Read)
    case "vread" => Some(VRead)
    case "update" => Some(Update)
    case "delete" => Some(Delete)
    case "history-instance" => Some(HistoryInstance)
    case "validate" => Some(Validate)
    case "history-type" => Some(HistoryType)
    case "create" => Some(Create)
    case "search-type" => Some(SearchType)
    case _ => None
  }

  /** `ordinal()` of the enum constant. */
  function Ordinal(t: TypeRestfulInteraction): nat
  {
    match t
    case Read => 0
    case VRead => 1
    case Update => 2
    case Delete => 3
    case HistoryInstance => 4
    case Validate => 5
    case HistoryType => 6
    case Create => 7
    case SearchType => 8
  }

  lemma OrdinalInjective(a: TypeRestfulInteraction, b: TypeRestfulInteraction)
    requires Ordinal(a) == Ordinal(b)
    ensures a == b
  {
  }

  /** The comparator used to sort a resource's interactions: by ordinal, with
      a missing code after every present one. */
  function CompareInteractions(a: Option<TypeRestfulInteraction>, b: Option<TypeRestfulInteraction>): Ordering
  {
    if a.None? && b.None? then EQ
    else if a.None? then GT
    else if b.None? then LT
    else CompareInts(Ordinal(a.value), Ordinal(b.value))
  }

  lemma InteractionComparatorValid()
    ensures IsComparator(CompareInteractions)
    ensures forall a: Option<TypeRestfulInteraction>, b: Option<TypeRestfulInteraction> :: a.Some? && b.Some? ==>
              (CompareInteractions(a, b) == LT <==> Ordinal(a.value) < Ordinal(b.value))
    ensures forall a: Option<TypeRestfulInteraction>, b: Option<TypeRestfulInteraction> ::
              a.Some? && b.None? ==> CompareInteractions(a, b) == LT
  {
    forall a, b, c | CompareInteractions(a, b) != GT && CompareInteractions(b, c) != GT
      ensures CompareInteractions(a, c) != GT
    {
    }
  }

  /** A resource's interaction list as the source sorts it. */
  function SortInteractions(s: seq<Option<TypeRestfulInteraction>>): (r: seq<Option<TypeRestfulInteraction>>)
    ensures multiset(r) == multiset(s)
    ensures forall i, j :: 0 <= i < j < |r| && r[i].None? ==> r[j].None?
    ensures forall i, j :: 0 <= i < j < |r| && r[i].Some? && r[j].Some? ==> Ordinal(r[i].value) <= Ordinal(r[j].value)
  {
    InteractionComparatorValid();
    SortBySorted(CompareInteractions, s);
    var r := SortBy(CompareInteractions, s);
    assert forall i, j :: 0 <= i < j < |r| ==> CompareInteractions(r[i], r[j]) != GT;
    r
  }

  /** Sorted, present and each at most once: the ordinals strictly increase. */
  lemma SortedInteractionsStrict(s: seq<Option<TypeRestfulInteraction>>, i: nat, j: nat)
    requires forall i, j :: 0 <= i < j < |s| && s[i].Some? && s[j].Some? ==> Ordinal(s[i].value) <= Ordinal(s[j].value)
    requires AtMostOnce(s)
    requires i < j < |s| && s[i].Some? && s[j].Some?
    ensures Ordinal(s[i].value) < Ordinal(s[j].value)
  {
    if Ordinal(s[i].value) == Ordinal(s[j].value) {
      OrdinalInjective(s[i].value, s[j].value);
      RepeatedElement(s, i, j);
    }
  }

  /** Conformance.SystemRestfulInteraction. */
  datatype SystemRestfulInteraction = Transaction | SearchSystem | HistorySystem

  function SystemInteractionCode(t: SystemRestfulInteraction): string
  {
    match t
    case Transaction => "transaction"
    case SearchSystem => "search-system"
    case HistorySystem => "history-system"
  }

  /** `SystemRestfulInteraction.fromCode`, unknown codes giving None. */
  function SystemInteractionFromCode(code: string): (r: Option<SystemRestfulInteraction>)
    ensures forall t :: r == Some(t) <==> SystemInteractionCode(t) == code
  {
    match code
    case "transaction" => Some(Transaction)
    case "search-system" => Some(SearchSystem)
    case "history-system" => Some(HistorySystem)
    case _ => None
  }

  datatype ConditionalDeleteStatus = NotSupported | Single | Multiple

  /** Conformance.rest.resource.searchParam. */
  datatype SearchParamComponent = SearchParamComponent(
    name: string,
    chain: seq<string>,
    documentation: Option<string>,
    paramType: Option<string>)

  /** Conformance.rest.resource; `conditionalCreate` and `conditionalUpdate`
      are false when the element is absent. */
  datatype ResourceComponent = ResourceComponent(
    resourceType: string,
    interactions: seq<Option<TypeRestfulInteraction>>,
    conditionalCreate: bool,
    conditionalUpdate: bool,
    conditionalDelete: Option<ConditionalDeleteStatus>,
    searchParams: seq<SearchParamComponent>,
    searchIncludes: seq<string>)

  /** Conformance.rest.operation: the operation's name and its definition reference. */
  datatype RestOperation = RestOperation(name: string, definition: string)

  /** The single `mode = server` Conformance.rest component. */
  datatype RestComponent = RestComponent(
    resources: seq<ResourceComponent>,
    interactions: seq<SystemRestfulInteraction>,
    operations: seq<RestOperation>)

  datatype Conformance = Conformance(rest: RestComponent)

  datatype OperationParameterUse = In | Out

  /** OperationDefinition.parameter; every element may be absent. */
  datatype ParameterComponent = ParameterComponent(
    use: Option<OperationParameterUse>,
    paramType: Option<string>,
    min: Option<int>,
    max: Option<string>,
    name: Option<string>)

  const EmptyParameter := ParameterComponent(None, None, None, None, None)

  /** Enumerations.ConformanceResourceStatus. */
  datatype ConformanceResourceStatus = Draft | Active | Retired

  /** An OperationDefinition; `instance` and `system` are false when the
      element is absent. */
  datatype OperationDefinition = OperationDefinition(
    status: ConformanceResourceStatus,
    idempotent: bool,
    description: Option<string>,
    code: string,
    instance: bool,
    system: bool,
    types: seq<string>,
    parameters: seq<ParameterComponent>)
}
