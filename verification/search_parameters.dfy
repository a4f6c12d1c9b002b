/** How a search binding contributes to its resource's statement: its
    includes, and its search parameters sorted and turned into
    `searchParam` components. */
module SearchParameters {
  import opened Util
  import opened JavaStrings
  import opened Collections
  import opened Fhir
  import opened Bindings

  /** The comparator of `sortSearchParameters`: required parameters first,
      then by name. */
  function CompareSearchParameters(a: SearchParameter, b: SearchParameter): Ordering
  {
    if a.required == b.required then CompareStrings(a.name, b.name)
    else if a.required then LT
    else GT
  }

  lemma SearchParameterComparatorValid()
    ensures IsComparator(CompareSearchParameters)
  {
    forall a, b, c | CompareSearchParameters(a, b) != GT && CompareSearchParameters(b, c) != GT
      ensures CompareSearchParameters(a, c) != GT
    {
      if a.required == b.required == c.required && a.name != c.name {
        if Less(c.name, a.name) {
          if a.name != b.name && b.name != c.name {
            LessTransitive(a.name, b.name, c.name);
            LessAsymmetric(a.name, c.name);
          }
        }
      }
    }
  }

  /** `sortSearchParameters`: a stable sort putting required parameters before
      optional ones and ordering each group by name. */
  function SortSearchParameters(ps: seq<SearchParameter>): (r: seq<SearchParameter>)
    ensures multiset(r) == multiset(ps)
    ensures forall i, j :: 0 <= i < j < |r| ==> r[i].required || !r[j].required
    ensures forall i, j :: 0 <= i < j < |r| && r[i].required == r[j].required ==> !Less(r[j].name, r[i].name)
  {
    SearchParameterComparatorValid();
    SortBySorted(CompareSearchParameters, ps);
    var r := SortBy(CompareSearchParameters, ps);
    assert forall i, j :: 0 <= i < j < |r| ==> CompareSearchParameters(r[i], r[j]) != GT;
    r
  }

  /** The search parameters among a binding's parameters, in order. */
  function SearchParametersOf(params: seq<Parameter>): seq<SearchParameter>
  {
    if params == [] then []
    else
      var last := params[|params| - 1];
      SearchParametersOf(params[..|params| - 1]) + (if last.SearchParam? then [last.search] else [])
  }

  /** A chained name `a.b` splits at its first `.` into `a` and the chain `b`. */
  function SplitChain(name: string): (r: (string, Option<string>))
    ensures '.' !in name ==> r == (name, None)
    ensures '.' in name ==> r.1.Some? && name == r.0 + ['.'] + r.1.value && '.' !in r.0
  {
    if '.' in name then
      var i := IndexOf(name, '.');
      assert name == name[..i] + ['.'] + name[i + 1..];
      (name[..i], Some(name[i + 1..]))
    else (name, None)
  }

  /** The search-parameter definition a resource declares (`getSearchParam`). */
  datatype RuntimeSearchParam = RuntimeSearchParam(description: Option<string>)

  /** The framework lookup `def.getSearchParam(name)` for the resource being
      described; None when the resource declares no such parameter. */
  type SearchParamLookup = (string, string) -> Option<RuntimeSearchParam>

  /** The `searchParam` component for one search parameter of `resourceName`. */
  function SearchParamComponentOf(resourceName: string, p: SearchParameter, lookup: SearchParamLookup): (c: SearchParamComponent)
    ensures '.' !in c.name
    ensures '.' !in p.name ==> c.name == p.name && c.chain == []
    ensures '.' in p.name ==> exists chain :: p.name == c.name + ['.'] + chain && c.chain == (if IsBlank(Some(chain)) then [] else [chain])
    ensures !IsBlank(p.description) ==> c.documentation == p.description
    ensures IsBlank(p.description) && lookup(resourceName, c.name).Some? ==>
              c.documentation == lookup(resourceName, c.name).value.description
    ensures IsBlank(p.description) && lookup(resourceName, c.name).None? ==> c.documentation == p.description
    ensures c.paramType == p.paramType
  {
    var (unchained, chain) := SplitChain(p.name);
    var documentation :=
      if IsBlank(p.description) then
        match lookup(resourceName, unchained)
        case Some(definition) => definition.description
        case None => p.description
      else p.description;
    SearchParamComponent(
      unchained,
      if chain.Some? && !IsBlank(chain) then [chain.value] else [],
      documentation,
      p.paramType)
  }

  /** The components for `ps`, in order. */
  function SearchParamComponents(resourceName: string, ps: seq<SearchParameter>, lookup: SearchParamLookup): seq<SearchParamComponent>
  {
    if ps == [] then []
    else
      SearchParamComponents(resourceName, ps[..|ps| - 1], lookup)
      + [SearchParamComponentOf(resourceName, ps[|ps| - 1], lookup)]
  }

  /** What one search binding adds to its resource's `searchParam` list. */
  function BindingSearchParams(resourceName: string, b: MethodBinding, lookup: SearchParamLookup): seq<SearchParamComponent>
  {
    if b.kind.SearchBinding? then
      SearchParamComponents(resourceName, SortSearchParameters(SearchParametersOf(b.kind.parameters)), lookup)
    else []
  }

  /** `handleSearchMethodBinding`: merges the binding's includes into the
      resource's include set and appends one component per search parameter,
      in sorted order. */
  method HandleSearchMethodBinding(
    resource: ResourceComponent, resourceName: string, includes: set<string>,
    b: MethodBinding, lookup: SearchParamLookup)
    returns (r: ResourceComponent, includes': set<string>)
    requires b.kind.SearchBinding?
    ensures includes' == includes + b.kind.includes
    ensures r == resource.(searchParams := resource.searchParams + BindingSearchParams(resourceName, b, lookup))
  {
    includes' := includes + b.kind.includes;

    var params := b.kind.parameters;
    var searchParameters := [];
    for i := 0 to |params|
      invariant searchParameters == SearchParametersOf(params[..i])
    {
      assert params[..i + 1][..i] == params[..i];
      if params[i].SearchParam? {
        searchParameters := searchParameters + [params[i].search];
      }
    }
    assert params[..|params|] == params;
    searchParameters := SortSearchParameters(searchParameters);

    var added := [];
    for i := 0 to |searchParameters|
      invariant added == SearchParamComponents(resourceName, searchParameters[..i], lookup)
    {
      assert searchParameters[..i + 1][..i] == searchParameters[..i];
      added := added + [SearchParamComponentOf(resourceName, searchParameters[i], lookup)];
    }
    assert searchParameters[..|searchParameters|] == searchParameters;
    r := resource.(searchParams := resource.searchParams + added);
  }
}
